/** Terminal/MenuItem.cs: a node of the menu tree, with display text, a
    caller-owned payload and an ordered list of children. The selection
    engine only reads the tree, so a node is a value here. */
module MenuItems {

  datatype MenuItem<S> = MenuItem(text: string, state: S, items: seq<MenuItem<S>>)

  /** A newly constructed item: the given text and state, and an empty,
      freshly allocated `Items` list. */
  function NewItem<S>(text: string, state: S): (m: MenuItem<S>)
    ensures m.text == text && m.state == state
    ensures m.items == []
  {
    MenuItem(text, state, [])
  }

  predicate IsLeaf<S>(t: MenuItem<S>)
  {
    |t.items| == 0
  }

  /** A path is a list of child positions, one per level below `t`. */
  predicate ValidPath<S>(t: MenuItem<S>, p: seq<nat>)
    decreases |p|
  {
    p == [] || (p[0] < |t.items| && ValidPath(t.items[p[0]], p[1..]))
  }

  /** The node a valid path leads to: `Items[p[0]].Items[p[1]]...`. */
  function At<S>(t: MenuItem<S>, p: seq<nat>): MenuItem<S>
    requires ValidPath(t, p)
    decreases |p|
  {
    if p == [] then t else At(t.items[p[0]], p[1..])
  }

  /** `GetDepth`: `Items.Select(GetDepth).DefaultIfEmpty().Max() + 1`. */
  function Depth<S>(t: MenuItem<S>): (d: nat)
    ensures d >= 1
    decreases t, 1, 0
  {
    MaxDepthFrom(t, 0) + 1
  }

  /** The largest depth among `t.items[i..]`, 0 when there is none
      (`DefaultIfEmpty().Max()`). */
  function MaxDepthFrom<S>(t: MenuItem<S>, i: nat): nat
    requires i <= |t.items|
    decreases t, 0, |t.items| - i
  {
    if i == |t.items| then 0
    else
      var here := Depth(t.items[i]);
      var rest := MaxDepthFrom(t, i + 1);
      if here >= rest then here else rest
  }

  lemma {:induction false} MaxDepthFromIsMax<S>(t: MenuItem<S>, i: nat)
    requires i <= |t.items|
    ensures forall k :: i <= k < |t.items| ==> Depth(t.items[k]) <= MaxDepthFrom(t, i)
    ensures i == |t.items| ==> MaxDepthFrom(t, i) == 0
    ensures i < |t.items| ==> exists k :: i <= k < |t.items| && Depth(t.items[k]) == MaxDepthFrom(t, i)
    decreases |t.items| - i
  {
    if i < |t.items| {
      MaxDepthFromIsMax(t, i + 1);
    }
  }

  /** The depth counts nodes, not edges: a childless item has depth 1, and
      any other item is one deeper than its deepest child. */
  lemma DepthIsOnePlusMax<S>(t: MenuItem<S>)
    ensures IsLeaf(t) ==> Depth(t) == 1
    ensures forall k :: 0 <= k < |t.items| ==> Depth(t.items[k]) < Depth(t)
    ensures !IsLeaf(t) ==> exists k :: 0 <= k < |t.items| && Depth(t.items[k]) + 1 == Depth(t)
  {
    MaxDepthFromIsMax(t, 0);
  }

  /** No path is longer than the depth allows: a node reached by p still has
      Depth(t) - |p| levels available at most. */
  lemma {:induction false} PathDepth<S>(t: MenuItem<S>, p: seq<nat>)
    requires ValidPath(t, p)
    ensures |p| + Depth(At(t, p)) <= Depth(t)
    decreases |p|
  {
    if p != [] {
      DepthIsOnePlusMax(t);
      PathDepth(t.items[p[0]], p[1..]);
    }
  }

  /** Depth(t) is reached: some root-to-leaf path holds Depth(t) nodes. */
  lemma {:induction false} DeepestPath<S>(t: MenuItem<S>)
    ensures exists p :: ValidPath(t, p) && IsLeaf(At(t, p)) && |p| + 1 == Depth(t)
    decreases t
  {
    DepthIsOnePlusMax(t);
    if IsLeaf(t) {
      assert ValidPath(t, []) && At(t, []) == t;
    } else {
      var k :| 0 <= k < |t.items| && Depth(t.items[k]) + 1 == Depth(t);
      DeepestPath(t.items[k]);
      var q :| ValidPath(t.items[k], q) && IsLeaf(At(t.items[k], q)) && |q| + 1 == Depth(t.items[k]);
      var p := [k as nat] + q;
      assert p[1..] == q;
      assert ValidPath(t, p) && At(t, p) == At(t.items[k], q);
    }
  }
}
