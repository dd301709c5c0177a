/** Terminal/LabelSequence.cs: a label alphabet for one nesting level of a
    menu. It has exactly two forms, so it is a closed datatype here. */
module Labels {
  import opened Wrappers
  import AlphaLabels
  import NumericLabels

  datatype LabelSequence = Alpha | Numeric {

    /** The un-anchored regular expression fragment for one label. */
    function Pattern(): string
    {
      match this
      case Alpha => AlphaLabels.Pattern
      case Numeric => NumericLabels.Pattern
    }

    /** The labels, in enumeration order; every enumeration yields the same ones. */
    function GetLabels(): (labels: seq<string>)
      ensures |labels| == Count()
    {
      match this
      case Alpha => AlphaLabels.GetLabels()
      case Numeric => NumericLabels.GetLabels()
    }

    /** How many labels one enumeration yields. */
    function Count(): nat
    {
      match this
      case Alpha => AlphaLabels.Count
      case Numeric => NumericLabels.Count
    }

    /** The inverse of the enumeration: a label's position. */
    function ParseLabel(target: string): Result<int>
    {
      match this
      case Alpha => Success(AlphaLabels.ParseLabel(target))
      case Numeric => NumericLabels.ParseLabel(target)
    }

    /** One character of `Pattern()`'s class as a case-insensitive regular
        expression reads it: [a-z] also admits A-Z; \d admits 0-9. */
    predicate InClass(c: char)
    {
      match this
      case Alpha => 'a' <= c <= 'z' || 'A' <= c <= 'Z'
      case Numeric => '0' <= c <= '9'
    }

    /** `Pattern()` matched case-insensitively against a whole string:
        one to nine characters of the class. */
    predicate MatchesPattern(s: string)
    {
      1 <= |s| <= 9 && forall j :: 0 <= j < |s| ==> InClass(s[j])
    }
  }

  /** Each sequence's parse inverts its enumeration. */
  lemma ParseLabelRoundTrip(ls: LabelSequence, i: nat)
    requires i < ls.Count()
    ensures ls.ParseLabel(ls.GetLabels()[i]) == Success(i)
  {
    match ls
    case Alpha => AlphaLabels.ParseLabelRoundTrip(i);
    case Numeric => NumericLabels.ParseLabelRoundTrip(i);
  }

  /** Every label matches its own sequence's pattern. */
  lemma LabelsMatchPattern(ls: LabelSequence, i: nat)
    requires i < ls.Count()
    ensures ls.MatchesPattern(ls.GetLabels()[i])
  {
    match ls
    case Alpha => AlphaLabels.LabelsMatchPattern(i);
    case Numeric => NumericLabels.LabelsMatchPattern(i);
  }

  /** Whatever a group matching the pattern holds, parsing it does not fail,
      and the index lies in [-1, Count()]: the numeric "0" gives -1, and an
      alpha string that is not a label gives Count(). */
  lemma ParsePatternString(ls: LabelSequence, s: string)
    requires ls.MatchesPattern(s)
    ensures ls.ParseLabel(s).Success?
    ensures -1 <= ls.ParseLabel(s).value <= ls.Count()
    ensures ls.Alpha? ==> 0 <= ls.ParseLabel(s).value
  {
    if ls.Numeric? {
      assert NumericLabels.AllDigits(s);
      NumericLabels.ParsePatternString(s);
    }
  }

  /** Letters and digits never share a character, so a letter group and a
      digit group side by side split in exactly one way. */
  lemma ClassesDisjoint(a: LabelSequence, b: LabelSequence, c: char)
    requires a != b
    ensures !(a.InClass(c) && b.InClass(c))
  {
  }
}
