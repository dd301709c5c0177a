/** The composite pattern of Terminal/Menu.cs and what matching it yields.
    `Choose` wraps each level's `Pattern` in a capturing group, joins them
    with no separator, anchors the result at both ends and compiles it
    case-insensitively. Every level pattern is a character class repeated
    one to nine times, so a successful match is a split of the line into one
    such group per level, and the backtracking engine returns the first
    split it finds when it tries longer groups before shorter ones. */
module Patterns {
  import opened Wrappers
  import opened Labels

  /** The groups joined back into one string. */
  function Concat(groups: seq<string>): string
  {
    if groups == [] then [] else groups[0] + Concat(groups[1..])
  }

  /** `groups` is one way of reading `line` as one label-shaped group per sequence. */
  predicate IsSplit(line: string, seqs: seq<LabelSequence>, groups: seq<string>)
  {
    |groups| == |seqs| && Concat(groups) == line &&
    forall d :: 0 <= d < |groups| ==> seqs[d].MatchesPattern(groups[d])
  }

  /** `(p0)(p1)...`: each level pattern in a capturing group. */
  function Groups(seqs: seq<LabelSequence>): string
  {
    if seqs == [] then "" else "(" + seqs[0].Pattern() + ")" + Groups(seqs[1..])
  }

  /** The pattern text handed to the regular expression engine. `Aggregate`
      on an empty list throws before anything is displayed. */
  function CompositePattern(seqs: seq<LabelSequence>): (r: Result<string>)
    ensures r.Failure? <==> seqs == []
  {
    if seqs == [] then Failure(InvalidOperation("Sequence contains no elements"))
    else Success("^" + Groups(seqs) + "$")
  }

  /** A label pattern opens no group of its own. */
  lemma PatternHasNoGroup(ls: LabelSequence)
    ensures '(' !in ls.Pattern()
  {
  }

  lemma AbsentNotCounted(s: string, c: char)
    requires c !in s
    ensures multiset(s)[c] == 0
  {
  }

  /** One capturing group per level: the pattern has |seqs| opening parentheses. */
  lemma {:induction false} GroupsCount(seqs: seq<LabelSequence>)
    ensures multiset(Groups(seqs))['('] == |seqs|
  {
    if seqs != [] {
      GroupsCount(seqs[1..]);
      PatternHasNoGroup(seqs[0]);
      var p := seqs[0].Pattern();
      AbsentNotCounted(p, '(');
      var rest := Groups(seqs[1..]);
      assert Groups(seqs) == "(" + p + ")" + rest;
      calc {
        multiset(Groups(seqs))['('];
        (multiset("(") + multiset(p) + multiset(")") + multiset(rest))['('];
        1 + 0 + 0 + |seqs| - 1;
      }
    }
  }

  lemma CompositePatternGroups(seqs: seq<LabelSequence>)
    requires seqs != []
    ensures CompositePattern(seqs).Success?
    ensures multiset(CompositePattern(seqs).value)['('] == |seqs|
    ensures CompositePattern(seqs).value[0] == '^'
    ensures CompositePattern(seqs).value[|CompositePattern(seqs).value| - 1] == '$'
  {
    GroupsCount(seqs);
  }

  /** `pattern.Match(line)` followed by reading `Groups[1..]`: the groups of
      the first split the engine finds, or None when the line does not match. */
  function Split(line: string, seqs: seq<LabelSequence>): (r: Option<seq<string>>)
    ensures r.Some? ==> IsSplit(line, seqs, r.value)
    decreases |seqs|, 10
  {
    if seqs == [] then (if line == [] then Some([]) else None)
    else SplitFirst(line, seqs, 9)
  }

  /** With one sequence, a line matches exactly when it is one group. */
  lemma SingleGroupSplit(line: string, ls: LabelSequence)
    ensures Split(line, [ls]).Some? <==> ls.MatchesPattern(line)
    ensures Split(line, [ls]).Some? ==> Split(line, [ls]).value == [line]
  {
    var groups := [line];
    assert Concat(groups[1..]) == [];
    if Split(line, [ls]).Some? {
      var found := Split(line, [ls]).value;
      assert Concat(found) == found[0] + Concat(found[1..]);
      assert found[1..] == [];
      assert Concat(found[1..]) == [];
      assert |found| == 1 && found == [found[0]];
      assert found[0] + [] == found[0];
    }
    if ls.MatchesPattern(line) {
      assert IsSplit(line, [ls], groups);
      SplitComplete(line, [ls], groups);
    }
  }

  /** Backtracking over the length of the first group, longest first:
      n, n - 1, ..., 1, each followed by a match of the rest. */
  function SplitFirst(line: string, seqs: seq<LabelSequence>, n: nat): (r: Option<seq<string>>)
    requires seqs != [] && n <= 9
    ensures r.Some? ==> IsSplit(line, seqs, r.value)
    decreases |seqs|, n
  {
    if n == 0 then None
    else if n <= |line| && seqs[0].MatchesPattern(line[..n]) && Split(line[n..], seqs[1..]).Some? then
      var rest := Split(line[n..], seqs[1..]).value;
      assert line == line[..n] + line[n..];
      Some([line[..n]] + rest)
    else SplitFirst(line, seqs, n - 1)
  }

  /** The engine finds a match whenever any split exists. */
  lemma {:induction false} SplitComplete(line: string, seqs: seq<LabelSequence>, groups: seq<string>)
    requires IsSplit(line, seqs, groups)
    ensures Split(line, seqs).Some?
    decreases |seqs|, 10
  {
    if seqs != [] {
      SplitFirstComplete(line, seqs, 9, groups);
    }
  }

  lemma {:induction false} SplitFirstComplete(line: string, seqs: seq<LabelSequence>, n: nat, groups: seq<string>)
    requires seqs != [] && n <= 9
    requires IsSplit(line, seqs, groups) && |groups[0]| <= n
    ensures SplitFirst(line, seqs, n).Some?
    decreases |seqs|, n
  {
    var g := groups[0];
    assert line == g + Concat(groups[1..]);
    assert seqs[0].MatchesPattern(g);
    if n == |g| {
      assert line[..n] == g && line[n..] == Concat(groups[1..]);
      assert IsSplit(line[n..], seqs[1..], groups[1..]);
      SplitComplete(line[n..], seqs[1..], groups[1..]);
    } else if !(n <= |line| && seqs[0].MatchesPattern(line[..n]) && Split(line[n..], seqs[1..]).Some?) {
      SplitFirstComplete(line, seqs, n - 1, groups);
    }
  }

  /** Neighbouring levels use different label sequences (letters, then digits, ...). */
  predicate Alternating(seqs: seq<LabelSequence>)
  {
    forall d :: 0 <= d < |seqs| - 1 ==> seqs[d] != seqs[d + 1]
  }

  /** When neighbouring levels alternate, the split is unique: the groups the
      engine returns are exactly the ones the line was built from. */
  lemma {:induction false} SplitUnique(seqs: seq<LabelSequence>, groups: seq<string>)
    requires Alternating(seqs)
    requires IsSplit(Concat(groups), seqs, groups)
    ensures Split(Concat(groups), seqs) == Some(groups)
    decreases |seqs|, 10
  {
    if seqs != [] {
      SplitFirstUnique(seqs, 9, groups);
    }
  }

  lemma {:induction false} SplitFirstUnique(seqs: seq<LabelSequence>, n: nat, groups: seq<string>)
    requires seqs != [] && n <= 9
    requires Alternating(seqs)
    requires IsSplit(Concat(groups), seqs, groups) && |groups[0]| <= n
    ensures SplitFirst(Concat(groups), seqs, n) == Some(groups)
    decreases |seqs|, n
  {
    var line := Concat(groups);
    var g := groups[0];
    assert line == g + Concat(groups[1..]);
    assert seqs[0].MatchesPattern(g);
    assert IsSplit(Concat(groups[1..]), seqs[1..], groups[1..]);
    if n == |g| {
      assert line[..n] == g && line[n..] == Concat(groups[1..]);
      SplitUnique(seqs[1..], groups[1..]);
      assert [g] + groups[1..] == groups;
    } else {
      if n <= |line| {
        // The character just after the first group opens the second group,
        // which belongs to the other class.
        assert |groups| >= 2;
        assert Concat(groups[1..]) == groups[1] + Concat(groups[2..]);
        assert seqs[1].MatchesPattern(groups[1]);
        assert line[|g|] == groups[1][0];
        ClassesDisjoint(seqs[0], seqs[1], groups[1][0]);
        assert !seqs[0].MatchesPattern(line[..n]) by {
          assert line[..n][|g|] == groups[1][0];
        }
      }
      SplitFirstUnique(seqs, n - 1, groups);
    }
  }

  /** The engine skips first-group lengths longer than the line. */
  lemma {:induction false} SplitFirstSkipsLong(line: string, seqs: seq<LabelSequence>, n: nat)
    requires seqs != [] && |line| <= n <= 9
    ensures SplitFirst(line, seqs, n) == SplitFirst(line, seqs, |line|)
    decreases n
  {
    if n > |line| {
      SplitFirstSkipsLong(line, seqs, n - 1);
    }
  }

  /** Without alternation the split is not unique: two letter levels read
      "a" followed by "aa" back as "aa" followed by "a". */
  lemma AdjacentLetterGroupsAreAmbiguous()
    ensures IsSplit("aaa", [Alpha, Alpha], ["a", "aa"])
    ensures Split("aaa", [Alpha, Alpha]) == Some(["aa", "a"])
  {
    assert Concat(["a", "aa"]) == "a" + Concat(["aa"]);
    assert Concat(["aa"]) == "aa" + Concat([]);
    var seqs: seq<LabelSequence> := [Alpha, Alpha];
    assert seqs[1..] == [Alpha];
    assert Split("", [Alpha]) == None by {
      SplitFirstSkipsLong("", [Alpha], 9);
    }
    assert Split("", []) == Some([]);
    assert Split("a", [Alpha]) == Some(["a"]) by {
      assert [Alpha][1..] == [];
      assert "a"[1..] == "" && "a"[..1] == "a";
      assert Alpha.MatchesPattern("a"[..1]);
      assert Split("a"[1..], [Alpha][1..]) == Some([]);
      assert ["a"[..1]] + [] == ["a"];
      SplitFirstSkipsLong("a", [Alpha], 9);
    }
    assert "aaa"[2..] == "a" && "aaa"[..2] == "aa" && "aaa"[3..] == "";
    assert SplitFirst("aaa", seqs, 3) == SplitFirst("aaa", seqs, 2);
    assert Alpha.MatchesPattern("aaa"[..2]);
    assert Split("aaa"[2..], seqs[1..]) == Some(["a"]);
    assert ["aaa"[..2]] + ["a"] == ["aa", "a"];
    SplitFirstSkipsLong("aaa", seqs, 9);
  }
}
