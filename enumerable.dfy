/** Core/IEnumerableExtensions.cs: helpers over sequences. A sequence that
    may be null is an `Option<seq<T>>`, a delegate that may be null an
    `Option` of a Dafny function, and `default(T)` is passed in as `dflt`. */
module Enumerables {
  import opened Wrappers

  /** The `bool` result and the `out` value of the Try* methods. */
  datatype Try<T> = Try(found: bool, result: T)

  // ---------------------------------------------------------------------
  // Append, Prepend, EmptyIfNull

  /** `Append`: the source followed by one more element. */
  function Append<T>(source: Option<seq<T>>, value: T): (r: Result<seq<T>>)
    ensures source.None? ==> r == Failure(ArgumentNull("source"))
    ensures source.Some? ==> r.Success? && |r.value| == |source.value| + 1
    ensures source.Some? ==> r.value[..|source.value|] == source.value && r.value[|source.value|] == value
  {
    match source
    case None => Failure(ArgumentNull("source"))
    case Some(s) => Success(s + [value])
  }

  /** `Prepend`: one element followed by the source. */
  function Prepend<T>(source: Option<seq<T>>, value: T): (r: Result<seq<T>>)
    ensures source.None? ==> r == Failure(ArgumentNull("source"))
    ensures source.Some? ==> r.Success? && |r.value| == |source.value| + 1
    ensures source.Some? ==> r.value[0] == value && r.value[1..] == source.value
  {
    match source
    case None => Failure(ArgumentNull("source"))
    case Some(s) => Success([value] + s)
  }

  /** Appending at one end and prepending at the other commute, and both
      add exactly one occurrence of their element. */
  lemma AppendPrependCommute<T>(s: seq<T>, first: T, last: T)
    ensures Prepend(Some(Append(Some(s), last).value), first) == Append(Some(Prepend(Some(s), first).value), last)
    ensures multiset(Append(Some(s), last).value) == multiset(s) + multiset{last}
    ensures multiset(Prepend(Some(s), first).value) == multiset(s) + multiset{first}
  {
    assert [first] + (s + [last]) == ([first] + s) + [last];
  }

  /** `EmptyIfNull`: a null source reads as the empty sequence. */
  function EmptyIfNull<T>(source: Option<seq<T>>): (r: seq<T>)
    ensures source.Some? ==> r == source.value
    ensures source.None? ==> r == []
  {
    match source
    case None => []
    case Some(s) => s
  }

  // ---------------------------------------------------------------------
  // TryFirst, First

  /** `TryFirst(out result)`: the list branch and the enumerator branch
      agree on a sequence, so they are one here. */
  function TryFirst<T>(source: Option<seq<T>>, dflt: T): (r: Result<Try<T>>)
    ensures r.Failure? <==> source.None?
    ensures r.Failure? ==> r.error == ArgumentNull("source")
    ensures r.Success? ==> (r.value.found <==> |source.value| > 0)
    ensures r.Success? && r.value.found ==> r.value.result == source.value[0]
    ensures r.Success? && !r.value.found ==> r.value.result == dflt
  {
    match source
    case None => Failure(ArgumentNull("source"))
    case Some(s) => if |s| > 0 then Success(Try(true, s[0])) else Success(Try(false, dflt))
  }

  /** The position of the first element satisfying `p`, or |s| if none does. */
  function FirstIndexWhere<T>(s: seq<T>, p: T -> bool): (n: nat)
    ensures n <= |s|
    ensures forall j :: 0 <= j < n ==> !p(s[j])
    ensures n < |s| ==> p(s[n])
  {
    if s == [] then 0
    else if p(s[0]) then 0
    else 1 + FirstIndexWhere(s[1..], p)
  }

  /** What `TryFirst(predicate, out result)` finds in a non-null source. */
  function FirstWhere<T>(s: seq<T>, p: T -> bool, dflt: T): Try<T>
  {
    var n := FirstIndexWhere(s, p);
    if n < |s| then Try(true, s[n]) else Try(false, dflt)
  }

  /** `FirstWhere` finds something exactly when some element satisfies the
      predicate, and then it finds the earliest such element. */
  lemma FirstWhereIsEarliestMatch<T>(s: seq<T>, p: T -> bool, dflt: T)
    ensures FirstWhere(s, p, dflt).found <==> exists i :: 0 <= i < |s| && p(s[i])
    ensures FirstWhere(s, p, dflt).found ==>
      exists i :: 0 <= i < |s| && s[i] == FirstWhere(s, p, dflt).result && p(s[i]) &&
        forall j :: 0 <= j < i ==> !p(s[j])
    ensures !FirstWhere(s, p, dflt).found ==> FirstWhere(s, p, dflt).result == dflt
  {
    var n := FirstIndexWhere(s, p);
    if n < |s| {
      assert s[n] == FirstWhere(s, p, dflt).result;
    }
  }

  /** `TryFirst(predicate, out result)`: the `foreach` that returns at the
      first element satisfying the pred. */
  method TryFirstWhere<T>(source: Option<seq<T>>, pred: Option<T -> bool>, dflt: T) returns (r: Result<Try<T>>)
    ensures source.None? ==> r == Failure(ArgumentNull("source"))
    ensures source.Some? && pred.None? ==> r == Failure(ArgumentNull("predicate"))
    ensures source.Some? && pred.Some? ==> r == Success(FirstWhere(source.value, pred.value, dflt))
  {
    if source.None? {
      return Failure(ArgumentNull("source"));
    }
    if pred.None? {
      return Failure(ArgumentNull("predicate"));
    }
    var s, p := source.value, pred.value;
    var i := 0;
    while i < |s|
      invariant 0 <= i <= |s|
      invariant forall j :: 0 <= j < i ==> !p(s[j])
    {
      if p(s[i]) {
        return Success(Try(true, s[i]));
      }
      i := i + 1;
    }
    return Success(Try(false, dflt));
  }

  /** `First(exceptionMessage)`: `TryFirst`, throwing when it finds nothing. */
  function First<T>(source: Option<seq<T>>, message: string): (r: Result<T>)
    ensures r.Success? <==> source.Some? && |source.value| > 0
    ensures r.Success? ==> r.value == source.value[0]
    ensures source.None? ==> r == Failure(ArgumentNull("source"))
    ensures source == Some([]) ==> r == Failure(InvalidOperation(message))
  {
    match source
    case None => Failure(ArgumentNull("source"))
    case Some(s) => if |s| > 0 then Success(s[0]) else Failure(InvalidOperation(message))
  }

  /** `First(predicate, exceptionMessage)`. */
  method FirstMatching<T(0)>(source: Option<seq<T>>, pred: Option<T -> bool>, message: string) returns (r: Result<T>)
    ensures source.None? ==> r == Failure(ArgumentNull("source"))
    ensures source.Some? && pred.None? ==> r == Failure(ArgumentNull("predicate"))
    ensures source.Some? && pred.Some? ==>
      var n := FirstIndexWhere(source.value, pred.value);
      r == if n < |source.value| then Success(source.value[n]) else Failure(InvalidOperation(message))
  {
    var dflt: T := *;
    var tried := TryFirstWhere(source, pred, dflt);
    if tried.Failure? {
      return Failure(tried.error);
    }
    if !tried.value.found {
      return Failure(InvalidOperation(message));
    }
    return Success(tried.value.result);
  }

  // ---------------------------------------------------------------------
  // TrySingle, Single

  /** The Try* answer for a sequence that should hold exactly one element. */
  function Only<T>(s: seq<T>, dflt: T): (t: Try<T>)
    ensures t.found <==> |s| == 1
    ensures t.found ==> t.result == s[0]
    ensures !t.found ==> t.result == dflt
  {
    if |s| == 1 then Try(true, s[0]) else Try(false, dflt)
  }

  /** `TrySingle(out result)`: both branches succeed on exactly one element. */
  function TrySingle<T>(source: Option<seq<T>>, dflt: T): (r: Result<Try<T>>)
    ensures source.None? ==> r == Failure(ArgumentNull("source"))
    ensures source.Some? ==> r == Success(Only(source.value, dflt))
  {
    match source
    case None => Failure(ArgumentNull("source"))
    case Some(s) => Success(Only(s, dflt))
  }

  /** `Enumerable.Where`: the elements satisfying `p`, in order. */
  function Where<T>(s: seq<T>, p: T -> bool): (r: seq<T>)
    ensures |r| <= |s|
    ensures forall j :: 0 <= j < |r| ==> p(r[j])
  {
    if s == [] then []
    else (if p(s[0]) then [s[0]] else []) + Where(s[1..], p)
  }

  /** `Where` keeps exactly the elements satisfying the pred. */
  lemma {:induction false} WhereMembers<T>(s: seq<T>, p: T -> bool, x: T)
    ensures x in Where(s, p) <==> x in s && p(x)
  {
    if s != [] {
      WhereMembers(s[1..], p, x);
      assert s == [s[0]] + s[1..];
    }
  }

  /** `Where` is empty exactly when no element satisfies the pred. */
  lemma {:induction false} WhereEmpty<T>(s: seq<T>, p: T -> bool)
    ensures Where(s, p) == [] <==> forall i :: 0 <= i < |s| ==> !p(s[i])
  {
    if s != [] {
      WhereEmpty(s[1..], p);
      assert forall i :: 1 <= i < |s| ==> s[i] == s[1..][i - 1];
    }
  }

  /** Exactly one element satisfies `p` at position i. */
  predicate UniqueMatchAt<T>(s: seq<T>, p: T -> bool, i: int)
  {
    0 <= i < |s| && p(s[i]) && forall j :: 0 <= j < |s| && j != i ==> !p(s[j])
  }

  /** `Where` yields a single element exactly when a single position matches. */
  lemma {:induction false} WhereSingle<T>(s: seq<T>, p: T -> bool)
    ensures |Where(s, p)| == 1 <==> exists i :: UniqueMatchAt(s, p, i)
  {
    if s != [] {
      var t := s[1..];
      assert forall i :: 1 <= i < |s| ==> s[i] == t[i - 1];
      if p(s[0]) {
        WhereEmpty(t, p);
        if |Where(s, p)| == 1 {
          assert UniqueMatchAt(s, p, 0);
        }
        if i :| UniqueMatchAt(s, p, i) {
          assert i == 0;
          assert forall k :: 0 <= k < |t| ==> !p(t[k]) by {
            forall k | 0 <= k < |t| ensures !p(t[k]) {
              assert t[k] == s[k + 1];
            }
          }
        }
      } else {
        WhereSingle(t, p);
        if i :| UniqueMatchAt(t, p, i) {
          assert UniqueMatchAt(s, p, i + 1);
        }
        if i :| UniqueMatchAt(s, p, i) {
          assert i != 0;
          assert UniqueMatchAt(t, p, i - 1);
        }
      }
    }
  }

  /** Filtering a concatenation filters each part. */
  lemma {:induction false} WhereConcat<T>(a: seq<T>, b: seq<T>, p: T -> bool)
    ensures Where(a + b, p) == Where(a, p) + Where(b, p)
  {
    if a == [] {
      assert a + b == b;
    } else {
      var head := if p(a[0]) then [a[0]] else [];
      assert (a + b)[0] == a[0] && (a + b)[1..] == a[1..] + b;
      WhereConcat(a[1..], b, p);
      calc {
        Where(a + b, p);
        head + Where(a[1..] + b, p);
        head + (Where(a[1..], p) + Where(b, p));
        (head + Where(a[1..], p)) + Where(b, p);
      }
    }
  }

  /** `TrySingle(predicate, out result)`: the `foreach` over
      `source.Where(predicate)`, which tests elements one at a time and gives
      up at the second match without testing the rest. */
  method TrySingleWhere<T>(source: Option<seq<T>>, pred: Option<T -> bool>, dflt: T) returns (r: Result<Try<T>>)
    ensures source.None? ==> r == Failure(ArgumentNull("source"))
    ensures source.Some? && pred.None? ==> r == Failure(ArgumentNull("predicate"))
    ensures source.Some? && pred.Some? ==> r == Success(Only(Where(source.value, pred.value), dflt))
  {
    if source.None? {
      return Failure(ArgumentNull("source"));
    }
    if pred.None? {
      return Failure(ArgumentNull("predicate"));
    }
    var s, f := source.value, pred.value;
    var result := dflt;
    var flag := false;
    var i := 0;
    while i < |s|
      invariant 0 <= i <= |s|
      invariant |Where(s[..i], f)| <= 1
      invariant flag <==> |Where(s[..i], f)| == 1
      invariant flag ==> result == Where(s[..i], f)[0]
      invariant !flag ==> result == dflt
    {
      WhereConcat(s[..i], [s[i]], f);
      assert s[..i + 1] == s[..i] + [s[i]];
      assert Where([s[i]], f) == if f(s[i]) then [s[i]] else [];
      if f(s[i]) {
        if flag {
          WhereConcat(s[..i + 1], s[i + 1..], f);
          assert s[..i + 1] + s[i + 1..] == s;
          return Success(Try(false, dflt));
        }
        result := s[i];
        flag := true;
      }
      i := i + 1;
    }
    assert s[..i] == s;
    return Success(Try(flag, result));
  }

  /** `TrySingle(predicate, ...)` finds an element exactly when one position
      of the source satisfies the predicate, and then it is that element. */
  lemma TrySingleWhereFindsUniqueMatch<T>(s: seq<T>, p: T -> bool, dflt: T)
    ensures Only(Where(s, p), dflt).found <==> exists i :: UniqueMatchAt(s, p, i)
    ensures forall i :: UniqueMatchAt(s, p, i) ==> Only(Where(s, p), dflt).result == s[i]
  {
    WhereSingle(s, p);
    forall i | UniqueMatchAt(s, p, i)
      ensures Only(Where(s, p), dflt).result == s[i]
    {
      var w := Where(s, p);
      WhereMembers(s, p, s[i]);
      assert w[0] in w;
      WhereMembers(s, p, w[0]);
      var k :| 0 <= k < |s| && s[k] == w[0];
      assert p(s[k]);
    }
  }

  /** `Single(exceptionMessage)`. */
  function Single<T>(source: Option<seq<T>>, message: string): (r: Result<T>)
    ensures r.Success? <==> source.Some? && |source.value| == 1
    ensures r.Success? ==> r.value == source.value[0]
    ensures source.None? ==> r == Failure(ArgumentNull("source"))
    ensures source.Some? && |source.value| != 1 ==> r == Failure(InvalidOperation(message))
  {
    match source
    case None => Failure(ArgumentNull("source"))
    case Some(s) => if |s| == 1 then Success(s[0]) else Failure(InvalidOperation(message))
  }

  /** `Single(predicate, exceptionMessage)`. */
  method SingleMatching<T(0)>(source: Option<seq<T>>, pred: Option<T -> bool>, message: string) returns (r: Result<T>)
    ensures source.None? ==> r == Failure(ArgumentNull("source"))
    ensures source.Some? && pred.None? ==> r == Failure(ArgumentNull("predicate"))
    ensures source.Some? && pred.Some? ==>
      (r.Success? <==> exists i :: UniqueMatchAt(source.value, pred.value, i))
    ensures source.Some? && pred.Some? ==>
      forall i :: UniqueMatchAt(source.value, pred.value, i) ==> r == Success(source.value[i])
    ensures source.Some? && pred.Some? && r.Failure? ==> r.error == InvalidOperation(message)
  {
    var dflt: T := *;
    var tried := TrySingleWhere(source, pred, dflt);
    if tried.Failure? {
      return Failure(tried.error);
    }
    TrySingleWhereFindsUniqueMatch(source.value, pred.value, dflt);
    if !tried.value.found {
      return Failure(InvalidOperation(message));
    }
    return Success(tried.value.result);
  }

  // ---------------------------------------------------------------------
  // SequenceEqualUnordered

  /** `TryGetValue(local, 0)` on the counting dictionary. */
  function CountOf<T>(counts: map<T, int>, x: T): int
  {
    if x in counts then counts[x] else 0
  }

  /** `GroupBy(identity).ToDictionary(g => g.Key, g => g.Count())`. */
  function Occurrences<T(!new)>(s: seq<T>): (counts: map<T, int>)
    ensures forall x :: CountOf(counts, x) == multiset(s)[x]
    ensures forall x :: x in counts ==> counts[x] > 0
  {
    map x | x in multiset(s) :: multiset(s)[x]
  }

  /** `Values.All(c => c == 0)`. */
  predicate AllZero<T>(counts: map<T, int>)
  {
    forall x :: x in counts ==> counts[x] == 0
  }

  /** The counting dictionary after the elements of `taken` have been
      taken off the counts of `a`. */
  ghost predicate Remaining<T(!new)>(counts: map<T, int>, a: seq<T>, taken: seq<T>)
  {
    forall x :: CountOf(counts, x) == multiset(a)[x] as int - multiset(taken)[x] as int
  }

  lemma TakeOff<T(!new)>(counts: map<T, int>, a: seq<T>, taken: seq<T>, x: T)
    requires Remaining(counts, a, taken)
    ensures Remaining(counts[x := CountOf(counts, x) - 1], a, taken + [x])
  {
    var counts' := counts[x := CountOf(counts, x) - 1];
    forall y ensures CountOf(counts', y) == multiset(a)[y] as int - multiset(taken + [x])[y] as int {
      assert multiset(taken + [x]) == multiset(taken) + multiset{x};
    }
  }

  /** Taking off an element whose count is already zero shows the second
      sequence holds it more often than the first. */
  lemma ExcessMeansUnequal<T(!new)>(counts: map<T, int>, a: seq<T>, b: seq<T>, i: nat)
    requires i < |b| && Remaining(counts, a, b[..i]) && CountOf(counts, b[i]) <= 0
    ensures multiset(a) != multiset(b)
  {
    var x := b[i];
    assert b == b[..i] + [x] + b[i + 1..];
    assert multiset(b) == multiset(b[..i]) + multiset{x} + multiset(b[i + 1..]);
    assert multiset(b)[x] > multiset(a)[x];
  }

  /** Once all of `b` is taken off, the counts are all zero exactly when the
      multisets agree. */
  lemma ZeroCountsMeanEqual<T(!new)>(counts: map<T, int>, a: seq<T>, b: seq<T>)
    requires Remaining(counts, a, b)
    ensures AllZero(counts) <==> multiset(a) == multiset(b)
  {
    if AllZero(counts) {
      forall x ensures multiset(a)[x] == multiset(b)[x] {
        assert CountOf(counts, x) == 0;
      }
    }
    if multiset(a) == multiset(b) {
      forall x | x in counts ensures counts[x] == 0 {
        assert CountOf(counts, x) == 0;
      }
    }
  }

  /** `SequenceEqualUnordered` with the default comparer: count the first
      sequence, then take each element of the second off the count. */
  method SequenceEqualUnordered<T(==,!new)>(first: Option<seq<T>>, second: Option<seq<T>>) returns (r: Result<bool>)
    ensures first.None? ==> r == Failure(ArgumentNull("first"))
    ensures first.Some? && second.None? ==> r == Failure(ArgumentNull("second"))
    ensures first.Some? && second.Some? ==> r == Success(multiset(first.value) == multiset(second.value))
  {
    if first.None? {
      return Failure(ArgumentNull("first"));
    }
    if second.None? {
      return Failure(ArgumentNull("second"));
    }
    var a, b := first.value, second.value;
    var counts := Occurrences(a);
    var i := 0;
    assert b[..0] == [];
    while i < |b|
      invariant 0 <= i <= |b|
      invariant Remaining(counts, a, b[..i])
    {
      var local := b[i];
      var num := CountOf(counts, local) - 1;
      if num < 0 {
        ExcessMeansUnequal(counts, a, b, i);
        return Success(false);
      }
      TakeOff(counts, a, b[..i], local);
      assert b[..i + 1] == b[..i] + [local];
      counts := counts[local := num];
      i := i + 1;
    }
    assert b[..i] == b;
    ZeroCountsMeanEqual(counts, a, b);
    return Success(AllZero(counts));
  }

  // ---------------------------------------------------------------------
  // ToSet

  /** `ToSet(elementSelector)`: every element's image, added one by one. */
  method ToSet<S, E>(source: Option<seq<S>>, selector: Option<S -> E>) returns (r: Result<set<E>>)
    ensures source.None? ==> r == Failure(ArgumentNull("source"))
    ensures source.Some? && selector.None? ==> r == Failure(ArgumentNull("elementSelector"))
    ensures source.Some? && selector.Some? ==> r.Success?
    ensures source.Some? && selector.Some? ==>
      forall e :: e in r.value <==> exists x :: x in source.value && selector.value(x) == e
  {
    if source.None? {
      return Failure(ArgumentNull("source"));
    }
    if selector.None? {
      return Failure(ArgumentNull("elementSelector"));
    }
    var s, f := source.value, selector.value;
    var result: set<E> := {};
    var i := 0;
    while i < |s|
      invariant 0 <= i <= |s|
      invariant forall e :: e in result <==> exists j :: 0 <= j < i && f(s[j]) == e
    {
      result := result + {f(s[i])};
      i := i + 1;
    }
    assert forall e :: e in result <==> exists x :: x in s && f(x) == e by {
      forall e ensures e in result <==> exists x :: x in s && f(x) == e {
        if e in result {
          var j :| 0 <= j < |s| && f(s[j]) == e;
          assert s[j] in s;
        }
      }
    }
    return Success(result);
  }

  /** `ToSet()`: the identity selector. */
  method ToSetOfElements<T>(source: Option<seq<T>>) returns (r: Result<set<T>>)
    ensures source.None? ==> r == Failure(ArgumentNull("source"))
    ensures source.Some? ==> r == Success(set x | x in source.value)
  {
    r := ToSet(source, Some(x => x));
    if source.Some? {
      assert r.value == set x | x in source.value;
    }
  }

  // ---------------------------------------------------------------------
  // Page

  /** The pages of `s`: full pages of `size` elements, then what is left if
      anything is. */
  function Pages<T>(s: seq<T>, size: nat): seq<seq<T>>
    requires size > 0
    decreases |s|
  {
    if s == [] then []
    else if |s| <= size then [s]
    else [s[..size]] + Pages(s[size..], size)
  }

  function Flatten<T>(pages: seq<seq<T>>): seq<T>
  {
    if pages == [] then [] else pages[0] + Flatten(pages[1..])
  }

  /** Pages put back together give the source; every page is non-empty and
      holds at most `size` elements, and all but the last hold exactly `size`. */
  lemma {:induction false} PagesPartition<T>(s: seq<T>, size: nat)
    requires size > 0
    ensures Flatten(Pages(s, size)) == s
    ensures forall k :: 0 <= k < |Pages(s, size)| ==> 0 < |Pages(s, size)[k]| <= size
    ensures forall k :: 0 <= k < |Pages(s, size)| - 1 ==> |Pages(s, size)[k]| == size
    decreases |s|
  {
    if s != [] && |s| > size {
      var rest := Pages(s[size..], size);
      PagesPartition(s[size..], size);
      assert Pages(s, size)[1..] == rest;
      assert s == s[..size] + s[size..];
      assert forall k :: 1 <= k < |Pages(s, size)| ==> Pages(s, size)[k] == rest[k - 1];
    } else if s != [] {
      assert Pages(s, size)[1..] == [];
    }
  }

  /** A full page in front comes out as a page of its own. */
  lemma PagesFullPage<T>(page: seq<T>, tail: seq<T>, size: nat)
    requires size > 0 && |page| == size
    ensures Pages(page + tail, size) == [page] + Pages(tail, size)
  {
    var s := page + tail;
    assert s[..size] == page && s[size..] == tail;
    if tail == [] {
      assert s == page;
    }
  }

  /** `PageImpl`: fill a fresh list, hand it out when it reaches `size`, and
      hand out the last partial list if it is not empty. */
  method PageImpl<T>(s: seq<T>, size: nat) returns (pages: seq<seq<T>>)
    requires size > 0
    ensures pages == Pages(s, size)
  {
    pages := [];
    var page: seq<T> := [];
    var i := 0;
    assert page + s[i..] == s;
    while i < |s|
      invariant 0 <= i <= |s| && |page| < size
      invariant pages + Pages(page + s[i..], size) == Pages(s, size)
    {
      ghost var rest := page + s[i..];
      page := page + [s[i]];
      assert rest == page + s[i + 1..];
      if |page| == size {
        PagesFullPage(page, s[i + 1..], size);
        assert pages + Pages(rest, size) == (pages + [page]) + Pages(s[i + 1..], size);
        pages := pages + [page];
        page := [];
        assert page + s[i + 1..] == s[i + 1..];
      }
      i := i + 1;
    }
    assert page + s[i..] == page;
    if |page| > 0 {
      pages := pages + [page];
    }
  }

  /** `Page`: the arguments are checked when it is called, the pages are
      produced when they are enumerated. */
  method Page<T>(source: Option<seq<T>>, pageSize: int) returns (r: Result<seq<seq<T>>>)
    ensures source.None? ==> r == Failure(ArgumentNull("source"))
    ensures source.Some? && pageSize <= 0 ==> r == Failure(ArgumentOutOfRange("pageSize"))
    ensures source.Some? && pageSize > 0 ==> r == Success(Pages(source.value, pageSize))
  {
    if source.None? {
      return Failure(ArgumentNull("source"));
    }
    if pageSize <= 0 {
      return Failure(ArgumentOutOfRange("pageSize"));
    }
    var pages := PageImpl(source.value, pageSize);
    return Success(pages);
  }

  // ---------------------------------------------------------------------
  // TakeUntil

  /** `TakeWhile(x => !predicate(x))` on a non-null source and predicate:
      the longest prefix with no element satisfying the pred. */
  function TakeUntil<T>(s: seq<T>, p: T -> bool): (r: seq<T>)
    ensures |r| <= |s| && r == s[..|r|]
    ensures forall j :: 0 <= j < |r| ==> !p(r[j])
    ensures |r| < |s| ==> p(s[|r|])
  {
    if s == [] || p(s[0]) then [] else [s[0]] + TakeUntil(s[1..], p)
  }

  /** `TakeUntil` stops where `TryFirst(predicate, ...)` would find. */
  lemma TakeUntilStopsAtFirstMatch<T>(s: seq<T>, p: T -> bool)
    ensures |TakeUntil(s, p)| == FirstIndexWhere(s, p)
  {
  }

  /** `TakeUntil` as written: a null source is caught by `TakeWhile`, but a
      null predicate is only dereferenced inside the lambda, so it throws
      `NullReferenceException` once a first element is examined and nothing
      at all for an empty source. */
  function TakeUntilAsWritten<T>(source: Option<seq<T>>, pred: Option<T -> bool>): (r: Result<seq<T>>)
    ensures source.None? ==> r == Failure(ArgumentNull("source"))
    ensures source.Some? && pred.Some? ==> r == Success(TakeUntil(source.value, pred.value))
  {
    match source
    case None => Failure(ArgumentNull("source"))
    case Some(s) =>
      match pred
      case None => if s == [] then Success([]) else Failure(NullReference)
      case Some(p) => Success(TakeUntil(s, p))
  }

  /** `TakeUntil` as its doc comment describes it: both arguments are checked on the call. */
  function TakeUntilChecked<T>(source: Option<seq<T>>, pred: Option<T -> bool>): (r: Result<seq<T>>)
    ensures r.Failure? <==> source.None? || pred.None?
    ensures source.None? ==> r.error == ArgumentNull("source")
    ensures source.Some? && pred.None? ==> r.error == ArgumentNull("predicate")
    ensures r.Success? ==> r.value == TakeUntil(source.value, pred.value)
  {
    match source
    case None => Failure(ArgumentNull("source"))
    case Some(s) =>
      match pred
      case None => Failure(ArgumentNull("predicate"))
      case Some(p) => Success(TakeUntil(s, p))
  }

  /** The two differ only on a null pred: as written, an empty source
      passes and a non-empty one fails with the wrong exception. */
  lemma TakeUntilNullPredicate<T>(x: T)
    ensures TakeUntilAsWritten<T>(Some([]), None) == Success([])
    ensures TakeUntilChecked<T>(Some([]), None) == Failure(ArgumentNull("predicate"))
    ensures TakeUntilAsWritten(Some([x]), None) == Failure(NullReference)
    ensures TakeUntilChecked(Some([x]), None) == Failure(ArgumentNull("predicate"))
  {
  }
}
