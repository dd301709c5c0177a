/** What the selection engine of Terminal/Menu.cs guarantees, stated over
    the model in menu.dfy. */
module MenuProperties {
  import opened Wrappers
  import opened Labels
  import opened MenuItems
  import opened Patterns
  import opened Menus

  // ---------------------------------------------------------------------
  // Display

  /** Displaying the children of `t` at level `depth` succeeds exactly when
      every level that holds nodes has a label sequence. */
  lemma {:induction false} DisplayNeedsDepthSequences<S>(t: MenuItem<S>, depth: nat, seqs: seq<LabelSequence>)
    requires LabelsFit(t, depth, seqs) && depth <= |seqs|
    ensures DisplayRows(t, depth, seqs).Success? <==> depth + Depth(t) - 1 <= |seqs|
    decreases t, 1
  {
    DepthIsOnePlusMax(t);
    if !IsLeaf(t) && depth < |seqs| {
      DisplayFromNeedsDepthSequences(t, depth, seqs, 0);
      if DisplayRows(t, depth, seqs).Success? {
        var k :| 0 <= k < |t.items| && Depth(t.items[k]) + 1 == Depth(t);
      }
    }
  }

  /** Every child from `k` on fits below level `depth`. */
  predicate ChildrenFit<S>(t: MenuItem<S>, depth: nat, seqs: seq<LabelSequence>, k: nat)
  {
    forall j :: k <= j < |t.items| ==> depth + Depth(t.items[j]) <= |seqs|
  }

  lemma {:induction false} DisplayFromNeedsDepthSequences<S>(t: MenuItem<S>, depth: nat, seqs: seq<LabelSequence>, k: nat)
    requires LabelsFit(t, depth, seqs) && depth < |seqs| && k <= |t.items|
    ensures DisplayFrom(t, depth, seqs, k).Success? <==> ChildrenFit(t, depth, seqs, k)
    decreases t, 0, |t.items| - k
  {
    if k < |t.items| {
      var child := t.items[k];
      assert LabelsFit(child, depth + 1, seqs);
      DisplayNeedsDepthSequences(child, depth + 1, seqs);
      DisplayFromNeedsDepthSequences(t, depth, seqs, k + 1);
      var below := DisplayRows(child, depth + 1, seqs);
      var after := DisplayFrom(t, depth, seqs, k + 1);
      assert DisplayFrom(t, depth, seqs, k).Success? <==> below.Success? && after.Success?;
      assert ChildrenFit(t, depth, seqs, k) <==>
        depth + Depth(child) <= |seqs| && ChildrenFit(t, depth, seqs, k + 1);
    }
  }

  /** A display can only fail by indexing past the list of sequences. */
  lemma {:induction false} DisplayFailsOutOfRange<S>(t: MenuItem<S>, depth: nat, seqs: seq<LabelSequence>)
    requires LabelsFit(t, depth, seqs) && DisplayRows(t, depth, seqs).Failure?
    ensures DisplayRows(t, depth, seqs).error == ArgumentOutOfRange("index")
    decreases t, 1
  {
    if depth < |seqs| {
      DisplayFromFailsOutOfRange(t, depth, seqs, 0);
    }
  }

  lemma {:induction false} DisplayFromFailsOutOfRange<S>(t: MenuItem<S>, depth: nat, seqs: seq<LabelSequence>, k: nat)
    requires LabelsFit(t, depth, seqs) && depth < |seqs| && k <= |t.items|
    requires DisplayFrom(t, depth, seqs, k).Failure?
    ensures DisplayFrom(t, depth, seqs, k).error == ArgumentOutOfRange("index")
    decreases t, 0, |t.items| - k
  {
    if DisplayRows(t.items[k], depth + 1, seqs).Failure? {
      DisplayFailsOutOfRange(t.items[k], depth + 1, seqs);
    } else {
      DisplayFromFailsOutOfRange(t, depth, seqs, k + 1);
    }
  }

  /** Along a valid path, every step is within its level's label sequence. */
  lemma {:induction false} PathFits<S>(t: MenuItem<S>, depth: nat, seqs: seq<LabelSequence>, p: seq<nat>)
    requires ValidPath(t, p) && LabelsFit(t, depth, seqs) && depth + |p| <= |seqs|
    ensures forall d :: 0 <= d < |p| ==> p[d] < seqs[depth + d].Count()
    decreases |p|
  {
    if p != [] {
      PathFits(t.items[p[0]], depth + 1, seqs, p[1..]);
      assert forall d :: 1 <= d < |p| ==> p[d] == p[1..][d - 1];
    }
  }

  /** The labels `Display` shows along path `p` below `t`: the label of child
      p[d] taken from the sequence of level depth + d. */
  function KeysAlong<S>(t: MenuItem<S>, depth: nat, seqs: seq<LabelSequence>, p: seq<nat>): (keys: seq<string>)
    requires ValidPath(t, p) && LabelsFit(t, depth, seqs) && depth + |p| <= |seqs|
    ensures |keys| == |p|
    ensures forall d :: 0 <= d < |p| ==> p[d] < seqs[depth + d].Count()
  {
    PathFits(t, depth, seqs, p);
    seq(|p|, d requires 0 <= d < |p| => seqs[depth + d].GetLabels()[p[d]])
  }

  /** The row `Display` writes for the node at the end of a non-empty path. */
  function RowAt<S>(t: MenuItem<S>, depth: nat, seqs: seq<LabelSequence>, p: seq<nat>): Row
    requires ValidPath(t, p) && p != [] && LabelsFit(t, depth, seqs) && depth + |p| <= |seqs|
  {
    Row(depth + |p| - 1, KeysAlong(t, depth, seqs, p)[|p| - 1], At(t, p).text)
  }

  lemma {:induction false} DisplayFromHasChild<S>(t: MenuItem<S>, depth: nat, seqs: seq<LabelSequence>, j: nat, k: nat)
    requires LabelsFit(t, depth, seqs) && depth < |seqs| && j <= k < |t.items|
    requires DisplayFrom(t, depth, seqs, j).Success?
    ensures DisplayRows(t.items[k], depth + 1, seqs).Success?
    ensures Row(depth, seqs[depth].GetLabels()[k], t.items[k].text) in DisplayFrom(t, depth, seqs, j).value
    ensures forall x :: x in DisplayRows(t.items[k], depth + 1, seqs).value ==> x in DisplayFrom(t, depth, seqs, j).value
    decreases k - j
  {
    if j < k {
      DisplayFromHasChild(t, depth, seqs, j + 1, k);
    }
  }

  /** Every node below `t` is shown: the node at the end of path p gets the
      row indented by its level, keyed by label p[last] of that level's
      sequence (a fresh enumeration per sibling list), with its own text. */
  lemma {:induction false} DisplayShowsEveryNode<S>(t: MenuItem<S>, depth: nat, seqs: seq<LabelSequence>, p: seq<nat>)
    requires LabelsFit(t, depth, seqs) && DisplayRows(t, depth, seqs).Success?
    requires ValidPath(t, p) && p != [] && depth + |p| <= |seqs|
    ensures RowAt(t, depth, seqs, p) in DisplayRows(t, depth, seqs).value
    decreases |p|
  {
    var k := p[0];
    assert DisplayRows(t, depth, seqs) == DisplayFrom(t, depth, seqs, 0);
    DisplayFromHasChild(t, depth, seqs, 0, k);
    var q := p[1..];
    if q == [] {
      KeysAlongCons(t, depth, seqs, p);
      assert At(t, p) == t.items[k];
    } else {
      DisplayShowsEveryNode(t.items[k], depth + 1, seqs, q);
      assert p == [k] + q;
      RowAtCons(t, depth, seqs, k, q);
    }
  }

  /** `x` is the row of some node below `t`. */
  ghost predicate IsNodeRow<S>(t: MenuItem<S>, depth: nat, seqs: seq<LabelSequence>, x: Row)
    requires LabelsFit(t, depth, seqs)
  {
    exists p :: ValidPath(t, p) && p != [] && depth + |p| <= |seqs| && x == RowAt(t, depth, seqs, p)
  }

  lemma ChildRowIsNodeRow<S>(t: MenuItem<S>, depth: nat, seqs: seq<LabelSequence>, j: nat)
    requires LabelsFit(t, depth, seqs) && depth < |seqs| && j < |t.items|
    ensures IsNodeRow(t, depth, seqs, Row(depth, seqs[depth].GetLabels()[j], t.items[j].text))
  {
    var p: seq<nat> := [j];
    assert p[1..] == [];
    assert KeysAlong(t, depth, seqs, p) == [seqs[depth].GetLabels()[j]];
    assert At(t, p) == t.items[j];
    assert ValidPath(t, p) && RowAt(t, depth, seqs, p) == Row(depth, seqs[depth].GetLabels()[j], t.items[j].text);
  }

  lemma DescendantRowIsNodeRow<S>(t: MenuItem<S>, depth: nat, seqs: seq<LabelSequence>, j: nat, x: Row)
    requires LabelsFit(t, depth, seqs) && depth < |seqs| && j < |t.items|
    requires IsNodeRow(t.items[j], depth + 1, seqs, x)
    ensures IsNodeRow(t, depth, seqs, x)
  {
    var q :| ValidPath(t.items[j], q) && q != [] && depth + 1 + |q| <= |seqs| && x == RowAt(t.items[j], depth + 1, seqs, q);
    RowAtCons(t, depth, seqs, j, q);
  }

  /** The row of a node below child j, seen from `t`, is the same row. */
  lemma RowAtCons<S>(t: MenuItem<S>, depth: nat, seqs: seq<LabelSequence>, j: nat, q: seq<nat>)
    requires LabelsFit(t, depth, seqs) && depth < |seqs| && j < |t.items|
    requires ValidPath(t.items[j], q) && q != [] && depth + 1 + |q| <= |seqs|
    ensures ValidPath(t, [j] + q)
    ensures RowAt(t, depth, seqs, [j] + q) == RowAt(t.items[j], depth + 1, seqs, q)
  {
    var p := [j] + q;
    assert p[0] == j && p[1..] == q;
    assert At(t, p) == At(t.items[j], q);
    KeysAlongCons(t, depth, seqs, p);
  }

  /** Conversely, every row `Display` writes is the row of some node below `t`. */
  lemma {:induction false} DisplayShowsOnlyNodes<S>(t: MenuItem<S>, depth: nat, seqs: seq<LabelSequence>, x: Row)
    requires LabelsFit(t, depth, seqs) && DisplayRows(t, depth, seqs).Success?
    requires x in DisplayRows(t, depth, seqs).value
    ensures IsNodeRow(t, depth, seqs, x)
    decreases t, 1
  {
    DisplayFromShowsOnlyNodes(t, depth, seqs, 0, x);
  }

  lemma {:induction false} DisplayFromShowsOnlyNodes<S>(t: MenuItem<S>, depth: nat, seqs: seq<LabelSequence>, j: nat, x: Row)
    requires LabelsFit(t, depth, seqs) && depth < |seqs| && j <= |t.items|
    requires DisplayFrom(t, depth, seqs, j).Success? && x in DisplayFrom(t, depth, seqs, j).value
    ensures IsNodeRow(t, depth, seqs, x)
    decreases t, 0, |t.items| - j
  {
    var row := Row(depth, seqs[depth].GetLabels()[j], t.items[j].text);
    var below := DisplayRows(t.items[j], depth + 1, seqs).value;
    var after := DisplayFrom(t, depth, seqs, j + 1).value;
    assert DisplayFrom(t, depth, seqs, j).value == [row] + below + after;
    if x == row {
      ChildRowIsNodeRow(t, depth, seqs, j);
    } else if x in below {
      DisplayShowsOnlyNodes(t.items[j], depth + 1, seqs, x);
      DescendantRowIsNodeRow(t, depth, seqs, j, x);
    } else {
      DisplayFromShowsOnlyNodes(t, depth, seqs, j + 1, x);
    }
  }

  // ---------------------------------------------------------------------
  // The walk

  /** Groups holding the labels along p hold the first step's label, then the
      labels along the rest of p. */
  lemma KeysGroupsStep<S>(node: MenuItem<S>, seqs: seq<LabelSequence>, groups: seq<string>, depth: nat, p: seq<nat>)
    requires |groups| == |seqs| && ValidPath(node, p) && p != []
    requires LabelsFit(node, depth, seqs) && depth + |p| <= |seqs|
    requires groups[depth..depth + |p|] == KeysAlong(node, depth, seqs, p)
    ensures p[0] < |node.items| && p[0] < seqs[depth].Count()
    ensures groups[depth] == seqs[depth].GetLabels()[p[0]]
    ensures groups[depth + 1..depth + |p|] == KeysAlong(node.items[p[0]], depth + 1, seqs, p[1..])
  {
    KeysAlongCons(node, depth, seqs, p);
    assert groups[depth] == groups[depth..depth + |p|][0];
    assert groups[depth + 1..depth + |p|] == groups[depth..depth + |p|][1..];
  }

  /** A group that parses to child k's index sends the walk on to child k. */
  lemma SelectStep<S>(node: MenuItem<S>, seqs: seq<LabelSequence>, groups: seq<string>, depth: nat, k: nat)
    requires |groups| == |seqs| && depth < |seqs| && k < |node.items|
    requires seqs[depth].ParseLabel(groups[depth]) == Success(k)
    ensures Select(node, seqs, groups, depth) == Select(node.items[k], seqs, groups, depth + 1)
  {
  }

  /** Round trip: entering the labels shown along a path to a leaf selects
      exactly that leaf, whatever groups follow them. */
  lemma {:induction false} KeysSelectTheirLeaf<S>(node: MenuItem<S>, seqs: seq<LabelSequence>, groups: seq<string>, depth: nat, p: seq<nat>)
    requires |groups| == |seqs|
    requires ValidPath(node, p) && IsLeaf(At(node, p))
    requires LabelsFit(node, depth, seqs) && depth + |p| <= |seqs|
    requires groups[depth..depth + |p|] == KeysAlong(node, depth, seqs, p)
    ensures Select(node, seqs, groups, depth) == Reached(At(node, p))
    decreases |p|
  {
    if p != [] {
      var k := p[0];
      KeysGroupsStep(node, seqs, groups, depth, p);
      ParseLabelRoundTrip(seqs[depth], k);
      SelectStep(node, seqs, groups, depth, k);
      KeysSelectTheirLeaf(node.items[k], seqs, groups, depth + 1, p[1..]);
    }
  }

  /** Each group from level `depth` on parses to the matching entry of `p`. */
  predicate ParsesTo(seqs: seq<LabelSequence>, groups: seq<string>, depth: nat, p: seq<nat>)
    requires |groups| == |seqs|
  {
    depth + |p| <= |seqs| &&
    forall d :: 0 <= d < |p| ==> seqs[depth + d].ParseLabel(groups[depth + d]) == Success(p[d] as int)
  }

  lemma ParsesToCons(seqs: seq<LabelSequence>, groups: seq<string>, depth: nat, k: nat, q: seq<nat>)
    requires |groups| == |seqs| && depth < |seqs|
    requires seqs[depth].ParseLabel(groups[depth]) == Success(k as int)
    requires ParsesTo(seqs, groups, depth + 1, q)
    ensures ParsesTo(seqs, groups, depth, [k] + q)
  {
    var p := [k] + q;
    forall d | 0 <= d < |p|
      ensures seqs[depth + d].ParseLabel(groups[depth + d]) == Success(p[d] as int)
    {
      if d > 0 {
        assert p[d] == q[d - 1];
        assert depth + d == depth + 1 + (d - 1);
      }
    }
  }

  /** The walk follows the parsed groups: when it reaches a node, that node
      is the end of a path, shorter than the depth, whose positions the
      groups parse to. */
  lemma {:induction false} SelectFollowsParsedGroups<S>(node: MenuItem<S>, seqs: seq<LabelSequence>, groups: seq<string>, depth: nat)
    requires |groups| == |seqs| && depth <= |seqs|
    requires Select(node, seqs, groups, depth).Reached?
    ensures exists p :: (ValidPath(node, p) && At(node, p) == Select(node, seqs, groups, depth).node &&
      |p| < Depth(node) && ParsesTo(seqs, groups, depth, p))
    decreases node
  {
    var n := Select(node, seqs, groups, depth).node;
    if IsLeaf(node) {
      var p: seq<nat> := [];
      assert ValidPath(node, p) && At(node, p) == n && ParsesTo(seqs, groups, depth, p);
    } else {
      var index := seqs[depth].ParseLabel(groups[depth]).value;
      var child := node.items[index];
      assert Select(node, seqs, groups, depth) == Select(child, seqs, groups, depth + 1);
      SelectFollowsParsedGroups(child, seqs, groups, depth + 1);
      var q :| ValidPath(child, q) && At(child, q) == n && |q| < Depth(child) && ParsesTo(seqs, groups, depth + 1, q);
      var p := [index as nat] + q;
      assert p[1..] == q;
      DepthIsOnePlusMax(node);
      ParsesToCons(seqs, groups, depth, index, q);
      assert ValidPath(node, p) && At(node, p) == n;
    }
  }

  /** The walk reads at most Depth(node) - 1 groups: groups past those never
      change where it ends. */
  lemma {:induction false} SelectIgnoresLaterGroups<S>(node: MenuItem<S>, seqs: seq<LabelSequence>, g1: seq<string>, g2: seq<string>, depth: nat)
    requires |g1| == |seqs| && |g2| == |seqs|
    requires forall j :: depth <= j < depth + Depth(node) - 1 && j < |seqs| ==> g1[j] == g2[j]
    ensures Select(node, seqs, g1, depth) == Select(node, seqs, g2, depth)
    decreases node
  {
    DepthIsOnePlusMax(node);
    if !IsLeaf(node) && depth < |seqs| {
      assert g1[depth] == g2[depth];
      var parsed := seqs[depth].ParseLabel(g1[depth]);
      if parsed.Success? && 0 <= parsed.value < |node.items| {
        SelectIgnoresLaterGroups(node.items[parsed.value], seqs, g1, g2, depth + 1);
      }
    }
  }

  /** Only the upper bound of an index is checked: a numeric group of zeros
      parses to -1, and indexing the children with it throws instead of
      asking again. */
  lemma ZeroIndexThrows<S>(node: MenuItem<S>, seqs: seq<LabelSequence>, groups: seq<string>, depth: nat, zeros: nat)
    requires |groups| == |seqs| && !IsLeaf(node)
    requires depth < |seqs| && seqs[depth] == Numeric
    requires 1 <= zeros && groups[depth] == seq(zeros, _ => '0')
    ensures Select(node, seqs, groups, depth) == WalkThrew(ArgumentOutOfRange("index"))
  {
    NumericLabels.ParseZeroPadded(zeros - 1, 0);
    assert seq(zeros - 1, _ => '0') + NumericLabels.ToDecimal(0) == seq(zeros, _ => '0');
  }

  /** Letter labels are compared exactly while the pattern ignores case: an
      upper-case letter passes the match but parses past every child, so the
      walk asks again. */
  lemma UpperCaseLetterAsksAgain<S>(node: MenuItem<S>, seqs: seq<LabelSequence>, groups: seq<string>, depth: nat, c: char)
    requires |groups| == |seqs| && !IsLeaf(node) && LabelsFit(node, depth, seqs)
    requires depth < |seqs| && seqs[depth] == Alpha
    requires 'A' <= c <= 'Z' && groups[depth] == [c]
    ensures Alpha.MatchesPattern(groups[depth])
    ensures Select(node, seqs, groups, depth) == NoSuchChild
  {
    AlphaLabels.ParseLabelNotALabel([c]);
  }

  // ---------------------------------------------------------------------
  // Choose

  /** Whatever `Choose` returns is a childless node of the tree, reached by
      the path the chosen line spells. */
  lemma {:induction false} ChosenIsLeaf<S>(m: Menu<S>, seqs: seq<LabelSequence>, inputs: seq<string>)
    requires LabelsFit(m.root, 0, seqs)
    requires Run(m, seqs, inputs).Success?
    ensures IsLeaf(Run(m, seqs, inputs).value)
    ensures exists p :: ValidPath(m.root, p) && At(m.root, p) == Run(m, seqs, inputs).value
    decreases |inputs|
  {
    var step := Iterate(m, seqs, if inputs == [] then None else Some(inputs[0]));
    if step.Chosen? {
      var groups := Split(inputs[0], seqs).value;
      SelectFollowsParsedGroups(m.root, seqs, groups, 0);
    } else {
      ChosenIsLeaf(m, seqs, inputs[1..]);
    }
  }

  lemma ChooseReturnsLeaf<S>(m: Menu<S>, inputs: seq<string>)
    requires Fits(m) && ChooseResult(m, inputs).Success?
    ensures IsLeaf(ChooseResult(m, inputs).value)
    ensures exists p :: ValidPath(m.root, p) && At(m.root, p) == ChooseResult(m, inputs).value
  {
    ChosenIsLeaf(m, Sequences(m), inputs);
  }

  /** An empty `Labels` makes `Aggregate` throw before anything is shown. */
  lemma NoLabelsThrows<S>(m: Menu<S>, inputs: seq<string>)
    requires Fits(m) && m.labels == []
    ensures ChooseResult(m, inputs) == Failure(InvalidOperation("Sequence contains no elements"))
  {
  }

  /** Fewer sequences than the levels that hold nodes make the first
      `Display` throw, whatever the input. */
  lemma TooFewLabelsThrows<S>(m: Menu<S>, inputs: seq<string>)
    requires Fits(m) && m.labels != [] && |m.labels| < Depth(m.root) - 1
    ensures ChooseResult(m, inputs) == Failure(ArgumentOutOfRange("index"))
  {
    DisplayNeedsDepthSequences(m.root, 0, Sequences(m));
    DisplayFailsOutOfRange(m.root, 0, Sequences(m));
  }

  /** With at least as many sequences as the depth, the pattern asks for
      Depth(root) groups but the walk reads at most Depth(root) - 1 of them:
      a line that is chosen holds a last group that makes no difference. */
  lemma PatternDemandsAnUnreadGroup<S>(m: Menu<S>, line: string, last: string)
    requires Fits(m) && |m.labels| >= Depth(m.root)
    requires Iterate(m, Sequences(m), Some(line)).Chosen?
    requires Sequences(m)[Depth(m.root) - 1].MatchesPattern(last)
    ensures |Sequences(m)| == Depth(m.root)
    ensures Split(line, Sequences(m)).Some?
    ensures |Split(line, Sequences(m)).value| == Depth(m.root)
    ensures |line| >= Depth(m.root)
    ensures Select(m.root, Sequences(m), Split(line, Sequences(m)).value[Depth(m.root) - 1 := last], 0)
         == Select(m.root, Sequences(m), Split(line, Sequences(m)).value, 0)
  {
    var seqs := Sequences(m);
    var groups := Split(line, seqs).value;
    SplitLength(line, seqs, groups);
    SelectIgnoresLaterGroups(m.root, seqs, groups, groups[Depth(m.root) - 1 := last], 0);
  }

  /** Every group holds at least one character. */
  lemma {:induction false} SplitLength(line: string, seqs: seq<LabelSequence>, groups: seq<string>)
    requires IsSplit(line, seqs, groups)
    ensures |line| >= |seqs|
    decreases |seqs|
  {
    if seqs != [] {
      assert line == groups[0] + Concat(groups[1..]);
      assert IsSplit(Concat(groups[1..]), seqs[1..], groups[1..]);
      SplitLength(Concat(groups[1..]), seqs[1..], groups[1..]);
    }
  }

  /** A childless root still has depth 1, so the pattern holds one group:
      the first pass chooses the root only for a line shaped like a label of
      the first sequence, and asks again for any other line, the empty one
      included. */
  lemma ChildlessRootNeedsOneGroup<S>(m: Menu<S>, line: string)
    requires IsLeaf(m.root) && m.labels != []
    ensures Sequences(m) == [m.labels[0]] && Fits(m)
    ensures Iterate(m, Sequences(m), Some(line)) == if m.labels[0].MatchesPattern(line) then Chosen(m.root) else Retry
  {
    var seqs := Sequences(m);
    DepthIsOnePlusMax(m.root);
    assert seqs == [m.labels[0]];
    SingleGroupSplit(line, m.labels[0]);
  }

  /** End to end: when neighbouring levels alternate between letters and
      digits, typing the labels `Display` shows along the path to a leaf,
      then any label-shaped group for each remaining level, chooses that
      leaf on the first line. */
  lemma TypingShownLabelsChoosesLeaf<S>(m: Menu<S>, p: seq<nat>, groups: seq<string>, inputs: seq<string>)
    requires Fits(m) && m.labels != [] && |m.labels| >= Depth(m.root) - 1
    requires Alternating(Sequences(m))
    requires ValidPath(m.root, p) && IsLeaf(At(m.root, p))
    requires |groups| == |Sequences(m)|
    requires |p| <= |groups| && groups[..|p|] == KeysAlong(m.root, 0, Sequences(m), p)
    requires forall d :: |p| <= d < |groups| ==> Sequences(m)[d].MatchesPattern(groups[d])
    requires inputs != [] && inputs[0] == Concat(groups)
    ensures ChooseResult(m, inputs) == Success(At(m.root, p))
  {
    var seqs := Sequences(m);
    DisplayNeedsDepthSequences(m.root, 0, seqs);
    KeysParseToPath(m.root, 0, seqs, p);
    forall d | 0 <= d < |p|
      ensures seqs[d].MatchesPattern(groups[d])
    {
      assert groups[d] == KeysAlong(m.root, 0, seqs, p)[d];
    }
    assert IsSplit(Concat(groups), seqs, groups);
    SplitUnique(seqs, groups);
    assert groups[0..|p|] == groups[..|p|];
    KeysSelectTheirLeaf(m.root, seqs, groups, 0, p);
  }

  /** The first shown label along a path, then those below the first step. */
  lemma KeysAlongCons<S>(t: MenuItem<S>, depth: nat, seqs: seq<LabelSequence>, p: seq<nat>)
    requires ValidPath(t, p) && LabelsFit(t, depth, seqs) && depth + |p| <= |seqs| && p != []
    ensures p[0] < |t.items| && ValidPath(t.items[p[0]], p[1..]) && LabelsFit(t.items[p[0]], depth + 1, seqs)
    ensures KeysAlong(t, depth, seqs, p) ==
      [seqs[depth].GetLabels()[p[0]]] + KeysAlong(t.items[p[0]], depth + 1, seqs, p[1..])
  {
    var keys := KeysAlong(t, depth, seqs, p);
    var rest := KeysAlong(t.items[p[0]], depth + 1, seqs, p[1..]);
    assert forall d :: 1 <= d < |p| ==> keys[d] == rest[d - 1];
  }

  /** Each label `Display` shows along a path has its level's shape and parses
      back to the index taken at that step: what is shown is what `Choose`
      reads. */
  lemma KeysParseToPath<S>(t: MenuItem<S>, depth: nat, seqs: seq<LabelSequence>, p: seq<nat>)
    requires ValidPath(t, p) && LabelsFit(t, depth, seqs) && depth + |p| <= |seqs|
    ensures forall d :: 0 <= d < |p| ==>
      seqs[depth + d].MatchesPattern(KeysAlong(t, depth, seqs, p)[d]) &&
      seqs[depth + d].ParseLabel(KeysAlong(t, depth, seqs, p)[d]) == Success(p[d])
  {
    var keys := KeysAlong(t, depth, seqs, p);
    forall d | 0 <= d < |p|
      ensures seqs[depth + d].MatchesPattern(keys[d]) && seqs[depth + d].ParseLabel(keys[d]) == Success(p[d])
    {
      LabelsMatchPattern(seqs[depth + d], p[d]);
      ParseLabelRoundTrip(seqs[depth + d], p[d]);
    }
  }
}
