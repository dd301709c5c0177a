/** The letter label alphabet (Terminal/AlphaLabelSequence.cs).
    The labels are "a".."z", then "aa".."zz", and so on up to nine repeats
    of one letter: 9 * 26 = 234 labels in all, not base-26 counting. */
module AlphaLabels {

  const Letters: nat := 26
  const MaxLength: nat := 9
  /** Number of labels the generator yields. */
  const Count: nat := 234

  /** The regular expression fragment the sequence advertises. */
  const Pattern: string := "[a-z]{1,9}"

  /** The k-th lower-case letter, as in `AlphaChars[k]`. */
  function Letter(k: nat): (c: char)
    requires k < Letters
    ensures 'a' <= c <= 'z'
  {
    (('a' as int) + k) as char
  }

  /** `new string(c, n)`: the character c repeated n times. */
  function Repeat(c: char, n: nat): (r: string)
    ensures |r| == n
    ensures forall j :: 0 <= j < n ==> r[j] == c
  {
    if n == 0 then [] else [c] + Repeat(c, n - 1)
  }

  /** One pass of the inner loop: every letter repeated `length` times. */
  function Block(length: nat): seq<string>
  {
    seq(Letters, k requires 0 <= k < Letters => Repeat(Letter(k), length))
  }

  /** The outer loop from `length` up to and including 9. */
  function Blocks(length: nat): seq<string>
    decreases MaxLength + 1 - length
  {
    if length > MaxLength then [] else Block(length) + Blocks(length + 1)
  }

  /** Label i of the generator: the first 26 are the single letters, and
      each later label is the one a whole pass of the inner loop earlier with
      its letter once more (the outer loop's length grows by one per pass). */
  function Label(i: nat): (l: string)
    ensures l != []
    decreases i
  {
    if i < Letters then [Letter(i)] else Label(i - Letters) + [Label(i - Letters)[0]]
  }

  /** `GetLabels()`: the labels in the order the generator yields them
      (`GeneratorOrder` shows the nested loops yield exactly these). */
  function GetLabels(): (labels: seq<string>)
    ensures |labels| == Count
  {
    seq(Count, i requires 0 <= i < Count => Label(i))
  }

  /** Appending one more c to c repeated n times. */
  lemma RepeatOneMore(c: char, n: nat)
    ensures Repeat(c, n) + [c] == Repeat(c, n + 1)
  {
    var longer := Repeat(c, n) + [c];
    assert forall j :: 0 <= j < n + 1 ==> longer[j] == c;
  }

  /** Label i is letter i mod 26 repeated i / 26 + 1 times. */
  lemma {:induction false} LabelClosedForm(i: nat)
    ensures Label(i) == Repeat(Letter(i % Letters), i / Letters + 1)
    decreases i
  {
    if i < Letters {
      assert Repeat(Letter(i), 1) == [Letter(i)];
    } else {
      LabelClosedForm(i - Letters);
      assert (i - Letters) % Letters == i % Letters && (i - Letters) / Letters + 1 == i / Letters;
      RepeatOneMore(Letter(i % Letters), i / Letters);
    }
  }

  lemma {:induction false} BlocksAt(length: nat, j: nat)
    requires 1 <= length <= MaxLength + 1
    ensures |Blocks(length)| == Letters * (MaxLength + 1 - length)
    ensures j < |Blocks(length)| ==>
      Blocks(length)[j] == Repeat(Letter(j % Letters), length + j / Letters)
    decreases MaxLength + 1 - length
  {
    if length <= MaxLength {
      BlocksAt(length + 1, if j >= Letters then j - Letters else 0);
      if j >= Letters && j < |Blocks(length)| {
        assert Blocks(length)[j] == Blocks(length + 1)[j - Letters];
        assert (j - Letters) % Letters == j % Letters;
        assert (j - Letters) / Letters + 1 == j / Letters;
      }
    }
  }

  /** The outer loop from `length` on, around the inner loop over the 26
      letters, yields exactly the labels of `GetLabels` from position
      (length - 1) * 26 on, in the same order; from length 1, all of them. */
  lemma GeneratorOrder(length: nat)
    requires 1 <= length <= MaxLength + 1
    ensures Blocks(length) == GetLabels()[(length - 1) * Letters..]
  {
    BlocksAt(length, 0);
    var tail := GetLabels()[(length - 1) * Letters..];
    forall j | 0 <= j < |Blocks(length)|
      ensures Blocks(length)[j] == tail[j]
    {
      BlocksAt(length, j);
      var i := (length - 1) * Letters + j;
      LabelClosedForm(i);
      assert i % Letters == j % Letters && i / Letters == length - 1 + j / Letters;
    }
  }

  /** The label at position (L-1)*26 + k is letter k repeated L times. */
  lemma LabelAt(length: nat, k: nat)
    requires 1 <= length <= MaxLength && k < Letters
    ensures |GetLabels()| == Count
    ensures GetLabels()[(length - 1) * Letters + k] == Repeat(Letter(k), length)
  {
    var j := (length - 1) * Letters + k;
    assert j % Letters == k && j / Letters == length - 1;
  }

  lemma LabelIndex(i: nat)
    requires i < Count
    ensures |GetLabels()| == Count
    ensures GetLabels()[i] == Repeat(Letter(i % Letters), i / Letters + 1)
  {
    LabelClosedForm(i);
  }

  /** All 234 labels are distinct. */
  lemma LabelsDistinct(i: nat, j: nat)
    requires i < Count && j < Count && i != j
    ensures |GetLabels()| == Count
    ensures GetLabels()[i] != GetLabels()[j]
  {
    LabelIndex(i);
    LabelIndex(j);
    var a, b := GetLabels()[i], GetLabels()[j];
    if i / Letters == j / Letters {
      assert i % Letters != j % Letters by {
        assert i == Letters * (i / Letters) + i % Letters;
        assert j == Letters * (j / Letters) + j % Letters;
      }
      assert a[0] != b[0];
    } else {
      assert |a| != |b|;
    }
  }

  /** A string is a label exactly when it is one lower-case letter repeated 1..9 times. */
  predicate IsRepeatedLetter(s: string)
  {
    1 <= |s| <= MaxLength && 'a' <= s[0] <= 'z' && forall j :: 0 <= j < |s| ==> s[j] == s[0]
  }

  lemma LabelsAreRepeatedLetters(s: string)
    ensures s in GetLabels() <==> IsRepeatedLetter(s)
  {
    if s in GetLabels() {
      var i :| 0 <= i < |GetLabels()| && GetLabels()[i] == s;
      LabelIndex(i);
    }
    if IsRepeatedLetter(s) {
      var k := (s[0] as int) - ('a' as int);
      LabelAt(|s|, k);
      var i := (|s| - 1) * Letters + k;
      assert GetLabels()[i] == s;
    }
  }

  /** `GetLabels().TakeWhile(l => l != target).Count()`: the number of labels
      before the first one equal to `target`. */
  function CountUntil(labels: seq<string>, target: string): (n: nat)
    ensures n <= |labels|
    ensures forall j :: 0 <= j < n ==> labels[j] != target
    ensures n < |labels| ==> labels[n] == target
  {
    if labels == [] || labels[0] == target then 0
    else 1 + CountUntil(labels[1..], target)
  }

  /** `ParseLabel`: the position of the first label equal to `target`
      (an exact, case-sensitive comparison), or 234 when there is none. */
  function ParseLabel(target: string): (n: nat)
    ensures n <= Count
  {
    BlocksAt(1, 0);
    CountUntil(GetLabels(), target)
  }

  /** Parsing the i-th label gives back i. */
  lemma {:induction false} ParseLabelRoundTrip(i: nat)
    requires i < Count
    ensures |GetLabels()| == Count
    ensures ParseLabel(GetLabels()[i]) == i
  {
    BlocksAt(1, 0);
    var n := ParseLabel(GetLabels()[i]);
    if n != i {
      assert n < i;
      LabelsDistinct(n, i);
    }
  }

  /** A string that is not a label, such as "ab" or the upper-case "A", parses to 234. */
  lemma ParseLabelNotALabel(s: string)
    ensures ParseLabel(s) == Count <==> !IsRepeatedLetter(s)
  {
    BlocksAt(1, 0);
    LabelsAreRepeatedLetters(s);
    var n := ParseLabel(s);
    if n < Count {
      assert GetLabels()[n] == s;
    }
  }

  /** Every label matches the pattern [a-z]{1,9}. */
  lemma LabelsMatchPattern(i: nat)
    requires i < Count
    ensures |GetLabels()| == Count
    ensures 1 <= |GetLabels()[i]| <= MaxLength
    ensures forall j :: 0 <= j < |GetLabels()[i]| ==> 'a' <= GetLabels()[i][j] <= 'z'
  {
    LabelIndex(i);
  }
}
