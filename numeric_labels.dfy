/** The decimal label alphabet (Terminal/NumericLabelSequence.cs): the labels
    are "1".."999999999" in increasing order, and a label is parsed with
    `int.Parse(label) - 1`. */
module NumericLabels {
  import opened Wrappers

  /** Number of labels: `Enumerable.Range(1, 999999999)`. */
  const Count: nat := 999999999

  /** The regular expression fragment the sequence advertises. */
  const Pattern: string := "\\d{1,9}"

  predicate IsDigit(c: char)
  {
    '0' <= c <= '9'
  }

  predicate AllDigits(s: string)
  {
    forall j :: 0 <= j < |s| ==> IsDigit(s[j])
  }

  function Digit(d: nat): (c: char)
    requires d < 10
    ensures IsDigit(c)
  {
    (('0' as int) + d) as char
  }

  function DigitValue(c: char): (d: nat)
    requires IsDigit(c)
    ensures d < 10 && Digit(d) == c
  {
    (c as int) - ('0' as int)
  }

  function Pow10(k: nat): (r: nat)
    ensures r >= 1
  {
    if k == 0 then 1 else 10 * Pow10(k - 1)
  }

  /** `n.ToString()` for a non-negative n: no sign, no leading zero. */
  function ToDecimal(n: nat): (s: string)
    ensures |s| >= 1 && AllDigits(s)
    ensures n >= 1 ==> s[0] != '0'
  {
    if n < 10 then [Digit(n)] else ToDecimal(n / 10) + [Digit(n % 10)]
  }

  /** The value of a string of decimal digits, most significant first. */
  function DigitsValue(s: string): nat
    requires AllDigits(s)
  {
    if s == [] then 0 else 10 * DigitsValue(s[..|s| - 1]) + DigitValue(s[|s| - 1])
  }

  /** `GetLabels()`: the decimal strings of 1..999999999 in order. */
  function GetLabels(): (labels: seq<string>)
    ensures |labels| == Count
  {
    seq(Count, i requires 0 <= i < Count => ToDecimal(i + 1))
  }

  /** The white space `int.Parse` skips around the number. */
  predicate IsWhite(c: char)
  {
    c == ' ' || '\t' <= c <= '\r'
  }

  function TrimStart(s: string): (t: string)
    ensures |t| <= |s|
  {
    if s != [] && IsWhite(s[0]) then TrimStart(s[1..]) else s
  }

  function TrimEnd(s: string): (t: string)
    ensures |t| <= |s|
  {
    if s != [] && IsWhite(s[|s| - 1]) then TrimEnd(s[..|s| - 1]) else s
  }

  /** `int.Parse(s)` with the default integer style: optional white space
      around an optionally signed run of decimal digits, in the 32-bit range. */
  function ParseInt32(s: string): (r: Result<int>)
    ensures r.Success? ==> Int32Min <= r.value <= Int32Max
    ensures r.Failure? ==> r.error == Format || r.error == Overflow
  {
    var t := TrimEnd(TrimStart(s));
    var negative := t != [] && t[0] == '-';
    var digits := if t != [] && (t[0] == '-' || t[0] == '+') then t[1..] else t;
    if digits == [] || !AllDigits(digits) then Failure(Format)
    else
      var v: int := DigitsValue(digits);
      if negative then
        if v > -Int32Min then Failure(Overflow) else Success(-v)
      else
        if v > Int32Max then Failure(Overflow) else Success(v)
  }

  /** `ParseLabel`: `int.Parse(label) - 1`, the subtraction wrapping as C# does. */
  function ParseLabel(target: string): Result<int>
  {
    match ParseInt32(target)
    case Success(v) => Success(Wrap32(v - 1))
    case Failure(e) => Failure(e)
  }

  lemma {:induction false} DigitsValueOfDecimal(n: nat)
    ensures DigitsValue(ToDecimal(n)) == n
  {
    if n >= 10 {
      var s := ToDecimal(n);
      assert s[..|s| - 1] == ToDecimal(n / 10);
      DigitsValueOfDecimal(n / 10);
    }
  }

  lemma {:induction false} DigitsValueBound(s: string)
    requires AllDigits(s)
    ensures DigitsValue(s) < Pow10(|s|)
  {
    if s != [] {
      DigitsValueBound(s[..|s| - 1]);
    }
  }

  lemma {:induction false} DecimalLength(n: nat, k: nat)
    requires 1 <= k && n < Pow10(k)
    ensures |ToDecimal(n)| <= k
  {
    if n >= 10 {
      DecimalLength(n / 10, k - 1);
    }
  }

  /** Leading zeros do not change the value of a digit string. */
  lemma {:induction false} DigitsValueLeadingZeros(k: nat, s: string)
    requires AllDigits(s)
    ensures AllDigits(seq(k, _ => '0') + s)
    ensures DigitsValue(seq(k, _ => '0') + s) == DigitsValue(s)
  {
    var z: string := seq(k, _ => '0');
    if s == [] {
      assert z + s == z;
      ZerosValue(k);
    } else {
      assert (z + s)[..|z + s| - 1] == z + s[..|s| - 1];
      DigitsValueLeadingZeros(k, s[..|s| - 1]);
    }
  }

  lemma {:induction false} ZerosValue(k: nat)
    ensures AllDigits(seq(k, _ => '0'))
    ensures DigitsValue(seq(k, _ => '0')) == 0
  {
    if k > 0 {
      var z: string := seq(k, _ => '0');
      assert z[..k - 1] == seq(k - 1, _ => '0');
      ZerosValue(k - 1);
    }
  }

  /** A string of plain digits is read without trimming and without a sign. */
  lemma ParseDigits(s: string)
    requires |s| >= 1 && AllDigits(s)
    ensures ParseInt32(s) == if DigitsValue(s) > Int32Max then Failure(Overflow) else Success(DigitsValue(s))
  {
    assert TrimStart(s) == s;
    assert TrimEnd(s) == s;
  }

  /** Parsing the i-th label gives back i. */
  lemma ParseLabelRoundTrip(i: nat)
    requires i < Count
    ensures ParseLabel(GetLabels()[i]) == Success(i)
  {
    var s := ToDecimal(i + 1);
    DigitsValueOfDecimal(i + 1);
    ParseDigits(s);
  }

  /** Every label matches the pattern \d{1,9}. */
  lemma LabelsMatchPattern(i: nat)
    requires i < Count
    ensures 1 <= |GetLabels()[i]| <= 9 && AllDigits(GetLabels()[i])
  {
    assert Pow10(9) == 1000000000;
    DecimalLength(i + 1, 9);
  }

  /** A string the pattern accepts parses to its value minus one, which lies
      in [-1, 999999998]; "0" gives -1, so it is not range-checked here. */
  lemma ParsePatternString(s: string)
    requires 1 <= |s| <= 9 && AllDigits(s)
    ensures ParseLabel(s) == Success(DigitsValue(s) - 1)
    ensures -1 <= DigitsValue(s) - 1 <= Count - 1
  {
    var v: int := DigitsValue(s);
    NineDigitsBound(s);
    ParseDigits(s);
    assert ParseInt32(s) == Success(v);
    assert Wrap32(v - 1) == v - 1;
  }

  /** At most nine digits stay below 10^9. */
  lemma NineDigitsBound(s: string)
    requires |s| <= 9 && AllDigits(s)
    ensures DigitsValue(s) < 1000000000
  {
    DigitsValueBound(s);
    Pow10Monotone(|s|, 9);
    assert Pow10(9) == 1000000000;
  }

  lemma {:induction false} Pow10Monotone(a: nat, b: nat)
    requires a <= b
    ensures Pow10(a) <= Pow10(b)
  {
    if a < b {
      Pow10Monotone(a, b - 1);
    }
  }

  /** Zero-padded decimals, which are not labels, still parse: "007" gives 6. */
  lemma ParseZeroPadded(k: nat, n: nat)
    requires n <= Int32Max
    ensures ParseLabel(seq(k, _ => '0') + ToDecimal(n)) == Success(n - 1)
  {
    var d := ToDecimal(n);
    var s := seq(k, _ => '0') + d;
    DigitsValueOfDecimal(n);
    DigitsValueLeadingZeros(k, d);
    ParseDigits(s);
    var v: int := n;
    assert ParseInt32(s) == Success(v);
    assert Wrap32(v - 1) == v - 1;
  }

  /** Zero-padded text ("01", "007") and "0" itself parse, but none of them is
      a label: no label starts with '0'. */
  lemma ZeroPaddedNotALabel(k: nat, n: nat)
    requires k >= 1 || n == 0
    ensures seq(k, _ => '0') + ToDecimal(n) !in GetLabels()
  {
    var s := seq(k, _ => '0') + ToDecimal(n);
    assert s[0] == '0';
    forall i | 0 <= i < Count
      ensures GetLabels()[i] != s
    {
      assert GetLabels()[i][0] != '0';
    }
  }
}
