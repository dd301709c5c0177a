/** A two-level menu worked through the model:
    root -> [X -> [X1, X2], Y -> [Y1]], with letters for the first level and
    numbers for the second. */
module MenuExample {
  import opened Wrappers
  import opened Labels
  import opened MenuItems
  import opened Patterns
  import opened Menus
  import opened MenuProperties
  import AlphaLabels
  import NumericLabels

  function Leaf(text: string): MenuItem<string>
  {
    NewItem(text, text)
  }

  function X(): MenuItem<string>
  {
    MenuItem("X", "X", [Leaf("X1"), Leaf("X2")])
  }

  function Y(): MenuItem<string>
  {
    MenuItem("Y", "Y", [Leaf("Y1")])
  }

  function TwoLevel(): Menu<string>
  {
    Menu(MenuItem("Choose", "root", [X(), Y()]), [Alpha, Numeric])
  }

  lemma LetterLabels()
    ensures Alpha.GetLabels()[0] == "a" && Alpha.GetLabels()[1] == "b" && Alpha.GetLabels()[23] == "x"
  {
    AlphaLabels.LabelIndex(0);
    AlphaLabels.LabelIndex(1);
    AlphaLabels.LabelIndex(23);
  }

  lemma NumberLabels()
    ensures Numeric.GetLabels()[0] == "1" && Numeric.GetLabels()[1] == "2" && Numeric.GetLabels()[8] == "9"
  {
  }

  lemma TwoLevelShape()
    ensures Depth(TwoLevel().root) == 3
    ensures Sequences(TwoLevel()) == [Alpha, Numeric]
    ensures Fits(TwoLevel())
  {
    var root := TwoLevel().root;
    DepthIsOnePlusMax(Leaf("X1"));
    DepthIsOnePlusMax(Leaf("X2"));
    DepthIsOnePlusMax(Leaf("Y1"));
    DepthIsOnePlusMax(X());
    DepthIsOnePlusMax(Y());
    DepthIsOnePlusMax(root);
    assert Depth(X()) == 2 && Depth(Y()) == 2;
    assert TwoLevel().labels[..2] == [Alpha, Numeric];
  }

  /** Splits the line into one letter group and one number group. */
  lemma SplitsAs(letters: string, digits: string)
    requires Alpha.MatchesPattern(letters) && Numeric.MatchesPattern(digits)
    ensures Split(letters + digits, [Alpha, Numeric]) == Some([letters, digits])
  {
    var groups := [letters, digits];
    assert Concat(groups) == letters + digits by {
      assert Concat(groups[1..]) == digits + Concat([]);
    }
    assert groups[1..][1..] == [];
    assert IsSplit(Concat(groups), [Alpha, Numeric], groups);
    SplitUnique([Alpha, Numeric], groups);
  }

  /** A line made of a letter label and a number label: the walk parses
      each back to its position and asks again when a position is past the
      children. */
  lemma IterateLabels(letter: nat, number: nat)
    requires letter < Alpha.Count() && number < Numeric.Count()
    ensures Fits(TwoLevel())
    ensures Iterate(TwoLevel(), Sequences(TwoLevel()), Some(Alpha.GetLabels()[letter] + Numeric.GetLabels()[number]))
         == if letter >= 2 then Retry
            else if number >= |TwoLevel().root.items[letter].items| then Retry
            else Chosen(TwoLevel().root.items[letter].items[number])
  {
    var m := TwoLevel();
    var seqs := [Alpha, Numeric];
    TwoLevelShape();
    DisplayNeedsDepthSequences(m.root, 0, seqs);
    var groups := [Alpha.GetLabels()[letter], Numeric.GetLabels()[number]];
    LabelsMatchPattern(Alpha, letter);
    LabelsMatchPattern(Numeric, number);
    SplitsAs(groups[0], groups[1]);
    ParseLabelRoundTrip(Alpha, letter);
    ParseLabelRoundTrip(Numeric, number);
    assert Split(groups[0] + groups[1], seqs) == Some(groups);
  }

  /** Choosing runs passes over the lines with the shape's sequences. */
  lemma ChooseRuns(inputs: seq<string>)
    ensures Fits(TwoLevel())
    ensures ChooseResult(TwoLevel(), inputs) == Run(TwoLevel(), [Alpha, Numeric], inputs)
  {
    TwoLevelShape();
  }

  /** "a1" chooses X1 and "b1" chooses Y1. */
  lemma TypingLabelsChooses()
    ensures Fits(TwoLevel())
    ensures ChooseResult(TwoLevel(), ["a1"]) == Success(Leaf("X1"))
    ensures ChooseResult(TwoLevel(), ["b1"]) == Success(Leaf("Y1"))
  {
    LetterLabels();
    NumberLabels();
    var a1 := Alpha.GetLabels()[0] + Numeric.GetLabels()[0];
    var b1 := Alpha.GetLabels()[1] + Numeric.GetLabels()[0];
    assert a1 == "a1" && b1 == "b1";
    IterateLabels(0, 0);
    IterateLabels(1, 0);
    ChooseRuns([a1]);
    ChooseRuns([b1]);
  }

  /** "x1" names a 24th child and "a9" a ninth grandchild: each is asked
      again, and the next line chooses. */
  lemma PositionsPastTheChildrenAskAgain()
    ensures Fits(TwoLevel())
    ensures ChooseResult(TwoLevel(), ["x1", "a2"]) == Success(Leaf("X2"))
    ensures ChooseResult(TwoLevel(), ["a9", "a2"]) == Success(Leaf("X2"))
  {
    LetterLabels();
    NumberLabels();
    var x1 := Alpha.GetLabels()[23] + Numeric.GetLabels()[0];
    var a9 := Alpha.GetLabels()[0] + Numeric.GetLabels()[8];
    var a2 := Alpha.GetLabels()[0] + Numeric.GetLabels()[1];
    assert x1 == "x1" && a9 == "a9" && a2 == "a2";
    IterateLabels(23, 0);
    IterateLabels(0, 8);
    IterateLabels(0, 1);
    assert [x1, a2][1..] == [a2];
    assert [a9, a2][1..] == [a2];
    ChooseRuns([x1, a2]);
    ChooseRuns([a9, a2]);
  }

  /** Y has one child: "b2" is asked again, and then the input ends. */
  lemma InputEndsAfterRetry()
    ensures Fits(TwoLevel())
    ensures ChooseResult(TwoLevel(), ["b2"]) == Failure(ArgumentNull("input"))
  {
    LetterLabels();
    NumberLabels();
    var b2 := Alpha.GetLabels()[1] + Numeric.GetLabels()[1];
    assert b2 == "b2";
    IterateLabels(1, 1);
    assert [b2][1..] == [];
    TwoLevelShape();
    DisplayNeedsDepthSequences(TwoLevel().root, 0, [Alpha, Numeric]);
    ChooseRuns([b2]);
  }
}
