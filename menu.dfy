/** Terminal/Menu.cs: the selection engine. It shows the tree with one label
    alphabet per level, reads one line, matches it against the composite
    pattern and walks the tree one group per level. */
module Menus {
  import opened Wrappers
  import opened Labels
  import opened MenuItems
  import opened Patterns

  /** A `Menu` is an item (its text is the prompt) with the label sequence
      for each level, outermost first. */
  datatype Menu<S> = Menu(root: MenuItem<S>, labels: seq<LabelSequence>)

  function Min(a: nat, b: nat): nat
  {
    if a <= b then a else b
  }

  /** `Labels.Take(GetDepth(this)).ToList()`: the sequences in use, one per
      level, as many as the depth or as the list holds. */
  function Sequences<S>(m: Menu<S>): (seqs: seq<LabelSequence>)
    ensures |seqs| == Min(|m.labels|, Depth(m.root))
    ensures forall d :: 0 <= d < |seqs| ==> seqs[d] == m.labels[d]
  {
    m.labels[..Min(|m.labels|, Depth(m.root))]
  }

  /** One line `Display` writes: indentation, label (its key), text. */
  datatype Row = Row(indent: nat, key: string, text: string)

  /** The text of a row: `"{0}{1}: {2}"` with `new string(' ', depth)`. */
  function RowLine(r: Row): (line: string)
    ensures |line| == r.indent + |r.key| + 2 + |r.text|
    ensures forall j :: 0 <= j < r.indent ==> line[j] == ' '
    ensures line[r.indent..r.indent + |r.key|] == r.key
    ensures line[r.indent + |r.key|..] == ": " + r.text
  {
    seq(r.indent, _ => ' ') + r.key + ": " + r.text
  }

  /** Every sibling list at a level that has a label sequence is no longer
      than that sequence, so the enumerator never runs off its end. */
  predicate LabelsFit<S>(t: MenuItem<S>, depth: nat, seqs: seq<LabelSequence>)
    decreases t
  {
    (depth < |seqs| ==> |t.items| <= seqs[depth].Count()) &&
    forall k :: 0 <= k < |t.items| ==> LabelsFit(t.items[k], depth + 1, seqs)
  }

  /** The rows `Display(t.Items, depth, sequences)` writes, depth first; a
      non-empty list at a level with no sequence makes `sequences[depth]` throw. */
  function DisplayRows<S>(t: MenuItem<S>, depth: nat, seqs: seq<LabelSequence>): Result<seq<Row>>
    requires LabelsFit(t, depth, seqs)
    decreases t, 1
  {
    if |t.items| == 0 then Success([])
    else if depth >= |seqs| then Failure(ArgumentOutOfRange("index"))
    else DisplayFrom(t, depth, seqs, 0)
  }

  /** The rows for `t.items[k..]`: child k gets label k of `seqs[depth]`,
      followed by the rows of its own children one level deeper. */
  function DisplayFrom<S>(t: MenuItem<S>, depth: nat, seqs: seq<LabelSequence>, k: nat): Result<seq<Row>>
    requires LabelsFit(t, depth, seqs) && depth < |seqs| && k <= |t.items|
    decreases t, 0, |t.items| - k
  {
    if k == |t.items| then Success([])
    else
      var row := Row(depth, seqs[depth].GetLabels()[k], t.items[k].text);
      match DisplayRows(t.items[k], depth + 1, seqs)
      case Failure(e) => Failure(e)
      case Success(below) =>
        match DisplayFrom(t, depth, seqs, k + 1)
        case Failure(e) => Failure(e)
        case Success(after) => Success([row] + below + after)
  }

  /** `rows` already written, followed by the outcome of the rest. */
  function Then(rows: seq<Row>, rest: Result<seq<Row>>): Result<seq<Row>>
  {
    match rest
    case Success(more) => Success(rows + more)
    case Failure(e) => Failure(e)
  }

  /** One pass of the display loop: child k's row and the rows below it come
      next, unless displaying that child throws. */
  lemma DisplayFromStep<S>(t: MenuItem<S>, depth: nat, seqs: seq<LabelSequence>, k: nat, rows: seq<Row>)
    requires LabelsFit(t, depth, seqs) && depth < |seqs| && k < |t.items|
    ensures DisplayRows(t.items[k], depth + 1, seqs).Failure? ==>
      Then(rows, DisplayFrom(t, depth, seqs, k)) == DisplayRows(t.items[k], depth + 1, seqs)
    ensures DisplayRows(t.items[k], depth + 1, seqs).Success? ==>
      Then(rows, DisplayFrom(t, depth, seqs, k)) ==
      Then(rows + [Row(depth, seqs[depth].GetLabels()[k], t.items[k].text)] + DisplayRows(t.items[k], depth + 1, seqs).value,
           DisplayFrom(t, depth, seqs, k + 1))
  {
    var row := Row(depth, seqs[depth].GetLabels()[k], t.items[k].text);
    var below := DisplayRows(t.items[k], depth + 1, seqs);
    var after := DisplayFrom(t, depth, seqs, k + 1);
    if below.Failure? {
      assert DisplayFrom(t, depth, seqs, k) == Failure(below.error);
    } else if after.Failure? {
      assert DisplayFrom(t, depth, seqs, k) == Failure(after.error);
    } else {
      assert DisplayFrom(t, depth, seqs, k) == Success([row] + below.value + after.value);
      assert rows + ([row] + below.value + after.value) == rows + [row] + below.value + after.value;
    }
  }

  /** `Display`: one fresh enumeration of the level's labels per sibling list,
      advanced once per child. */
  method Display<S>(t: MenuItem<S>, depth: nat, seqs: seq<LabelSequence>) returns (r: Result<seq<Row>>)
    requires LabelsFit(t, depth, seqs)
    ensures r == DisplayRows(t, depth, seqs)
    decreases t, 1
  {
    if |t.items| == 0 {
      return Success([]);
    }
    if depth >= |seqs| {
      return Failure(ArgumentOutOfRange("index"));
    }
    var sequence := seqs[depth].GetLabels();
    var rows: seq<Row> := [];
    var k := 0;
    if DisplayFrom(t, depth, seqs, 0).Success? {
      assert rows + DisplayFrom(t, depth, seqs, 0).value == DisplayFrom(t, depth, seqs, 0).value;
    }
    while k < |t.items|
      invariant 0 <= k <= |t.items|
      invariant DisplayRows(t, depth, seqs) == Then(rows, DisplayFrom(t, depth, seqs, k))
      decreases |t.items| - k
    {
      var row := Row(depth, sequence[k], t.items[k].text);
      var below := Display(t.items[k], depth + 1, seqs);
      DisplayFromStep(t, depth, seqs, k, rows);
      if below.Failure? {
        return Failure(below.error);
      }
      rows := rows + [row] + below.value;
      k := k + 1;
    }
    assert rows + [] == rows;
    return Success(rows);
  }

  /** How the walk of one matched line ends. */
  datatype WalkEnd<S> =
    | Reached(node: MenuItem<S>)    // a childless node
    | NoSuchChild                   // an index at or past `Items.Count`: `result` becomes null
    | WalkThrew(error: Exception)   // a negative index, or a level with no sequence

  /** The walk from `node` at level `depth`: stop at the first childless node,
      otherwise parse group `depth` into a child index and descend. */
  function Select<S>(node: MenuItem<S>, seqs: seq<LabelSequence>, groups: seq<string>, depth: nat): (w: WalkEnd<S>)
    requires |groups| == |seqs|
    ensures w.Reached? ==> IsLeaf(w.node)
    decreases node
  {
    if IsLeaf(node) then Reached(node)
    else if depth >= |seqs| then WalkThrew(ArgumentOutOfRange("index"))
    else
      match seqs[depth].ParseLabel(groups[depth])
      case Failure(e) => WalkThrew(e)
      case Success(index) =>
        if index >= |node.items| then NoSuchChild
        else if index < 0 then WalkThrew(ArgumentOutOfRange("index"))
        else Select(node.items[index], seqs, groups, depth + 1)
  }

  /** The `while (null != result)` walk of `Choose`. */
  method Walk<S>(root: MenuItem<S>, seqs: seq<LabelSequence>, groups: seq<string>) returns (w: WalkEnd<S>)
    requires |groups| == |seqs|
    ensures w == Select(root, seqs, groups, 0)
  {
    var result := root;
    var depth: nat := 0;
    while |result.items| != 0
      invariant Select(result, seqs, groups, depth) == Select(root, seqs, groups, 0)
      decreases result
    {
      if depth >= |seqs| {
        return WalkThrew(ArgumentOutOfRange("index"));
      }
      var parsed := seqs[depth].ParseLabel(groups[depth]);
      if parsed.Failure? {
        return WalkThrew(parsed.error);
      }
      var index := parsed.value;
      if index >= |result.items| {
        return NoSuchChild;
      }
      if index < 0 {
        return WalkThrew(ArgumentOutOfRange("index"));
      }
      result := result.items[index];
      depth := depth + 1;
    }
    return Reached(result);
  }

  /** How one pass of the `do/while` loop ends. */
  datatype Step<S> =
    | Chosen(node: MenuItem<S>)
    | Retry
    | Threw(error: Exception)

  /** One pass: display, read (`input` is None when `ReadLine` returns null
      at the end of input), match, walk. A failed match and an index past
      the children both ask again. */
  function Iterate<S>(m: Menu<S>, seqs: seq<LabelSequence>, input: Option<string>): Step<S>
    requires LabelsFit(m.root, 0, seqs)
  {
    match DisplayRows(m.root, 0, seqs)
    case Failure(e) => Threw(e)
    case Success(_) =>
      match input
      case None => Threw(ArgumentNull("input"))
      case Some(line) =>
        match Split(line, seqs)
        case None => Retry
        case Some(groups) =>
          match Select(m.root, seqs, groups, 0)
          case Reached(n) => Chosen(n)
          case NoSuchChild => Retry
          case WalkThrew(e) => Threw(e)
  }

  /** The loop over a finite script of input lines. */
  function Run<S>(m: Menu<S>, seqs: seq<LabelSequence>, inputs: seq<string>): Result<MenuItem<S>>
    requires LabelsFit(m.root, 0, seqs)
    decreases |inputs|
  {
    match Iterate(m, seqs, if inputs == [] then None else Some(inputs[0]))
    case Chosen(n) => Success(n)
    case Threw(e) => Failure(e)
    case Retry => if inputs == [] then Failure(ArgumentNull("input")) else Run(m, seqs, inputs[1..])
  }

  /** The menu's sibling lists fit the label sequences it uses. */
  predicate Fits<S>(m: Menu<S>)
  {
    LabelsFit(m.root, 0, Sequences(m))
  }

  /** `Choose()` given the lines the console will deliver: the pattern is
      built once, then passes repeat until one chooses or throws. */
  function ChooseResult<S>(m: Menu<S>, inputs: seq<string>): Result<MenuItem<S>>
    requires Fits(m)
  {
    match CompositePattern(Sequences(m))
    case Failure(e) => Failure(e)
    case Success(_) => Run(m, Sequences(m), inputs)
  }

  /** One pass of the loop body of `Choose`. */
  method ChooseOnce<S>(m: Menu<S>, seqs: seq<LabelSequence>, input: Option<string>) returns (step: Step<S>)
    requires LabelsFit(m.root, 0, seqs)
    ensures step == Iterate(m, seqs, input)
  {
    var rows := Display(m.root, 0, seqs);
    if rows.Failure? {
      return Threw(rows.error);
    }
    if input.None? {
      return Threw(ArgumentNull("input"));
    }
    var groups := Split(input.value, seqs);
    if groups.None? {
      return Retry;
    }
    var walk := Walk(m.root, seqs, groups.value);
    match walk
    case Reached(n) => step := Chosen(n);
    case NoSuchChild => step := Retry;
    case WalkThrew(e) => step := Threw(e);
  }

  /** `Choose()`. */
  method Choose<S>(m: Menu<S>, inputs: seq<string>) returns (r: Result<MenuItem<S>>)
    requires Fits(m)
    ensures r == ChooseResult(m, inputs)
  {
    var seqs := Sequences(m);
    var pattern := CompositePattern(seqs);
    if pattern.Failure? {
      return Failure(pattern.error);
    }
    var i := 0;
    while true
      invariant 0 <= i <= |inputs|
      invariant Run(m, seqs, inputs[i..]) == Run(m, seqs, inputs)
      decreases |inputs| - i
    {
      var input := if i < |inputs| then Some(inputs[i]) else None;
      var step := ChooseOnce(m, seqs, input);
      match step
      case Chosen(n) =>
        return Success(n);
      case Threw(e) =>
        return Failure(e);
      case Retry =>
        assert inputs[i..][1..] == inputs[i + 1..];
        i := i + 1;
    }
  }

  /** `Choose<T>()`: the payload of the chosen item. */
  method ChooseState<S>(m: Menu<S>, inputs: seq<string>) returns (r: Result<S>)
    requires Fits(m)
    ensures r.Success? <==> ChooseResult(m, inputs).Success?
    ensures r.Success? ==> r.value == ChooseResult(m, inputs).value.state
    ensures r.Failure? ==> r.error == ChooseResult(m, inputs).error
  {
    var chosen := Choose(m, inputs);
    match chosen
    case Success(n) => r := Success(n.state);
    case Failure(e) => r := Failure(e);
  }
}
