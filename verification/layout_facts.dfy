/**
 * What the layout promises: which cards and edges it emits and in what order,
 * where each level sits, and how each row of children is spaced and centred.
 */
module LayoutFacts {
  import opened Wrappers
  import opened OrgTree
  import opened Widths
  import opened Layout

  /** Card `c` shows the member of walk step `v`, at the height of `v`'s depth
      below a level whose depth-0 height is `base`. */
  predicate CardMatches(c: FlowNode, v: Visit, base: int, hovered: Option<string>) {
    && c.orgNode == v.node
    && c.id == v.node.id
    && c.y == base + LevelStep * v.depth
    && c.isMovingOver == (hovered == Some(v.node.id))
  }

  predicate CardsMatch(cs: seq<FlowNode>, vs: seq<Visit>, base: int, hovered: Option<string>) {
    |cs| == |vs| && forall i :: 0 <= i < |cs| ==> CardMatches(cs[i], vs[i], base, hovered)
  }

  /** Edge `e` is the link from walk step `v`'s parent into `v`'s member. */
  predicate EdgeMatches(e: Edge, v: Visit) {
    v.parent.Some? && e == EdgeBetween(v.parent.value, v.node)
  }

  predicate EdgesMatch(es: seq<Edge>, vs: seq<Visit>) {
    |es| == |vs| && forall i :: 0 <= i < |es| ==> EdgeMatches(es[i], vs[i])
  }

  lemma CardsConcat(a: seq<FlowNode>, va: seq<Visit>, b: seq<FlowNode>, vb: seq<Visit>,
                    base: int, hovered: Option<string>)
    requires CardsMatch(a, va, base, hovered) && CardsMatch(b, vb, base, hovered)
    ensures CardsMatch(a + b, va + vb, base, hovered)
  {
  }

  lemma EdgesConcat(a: seq<Edge>, va: seq<Visit>, b: seq<Edge>, vb: seq<Visit>)
    requires EdgesMatch(a, va) && EdgesMatch(b, vb)
    ensures EdgesMatch(a + b, va + vb)
  {
  }

  /** A row's edges: the first sibling's link, its subtree's links, then the
      rest of the row's. */
  lemma RowEdgesStep(e: Edge, sub: seq<Edge>, sv: seq<Visit>, rest: seq<Edge>, rv: seq<Visit>)
    requires |sv| > 0 && EdgeMatches(e, sv[0])
    requires EdgesMatch(sub, sv[1..]) && EdgesMatch(rest, rv)
    ensures EdgesMatch([e] + sub + rest, sv + rv)
  {
  }

  /** Cards come out in pre-order, one per member, each `LevelStep` lower per
      level of depth below the card of `n`. */
  lemma {:induction false} ProcessNodeCards(
    n: OrgNode, x: int, y: int, isRoot: bool, hovered: Option<string>, d: int, p: Option<OrgNode>)
    ensures CardsMatch(ProcessNode(n, x, y, isRoot, hovered).nodes, Visits(n, d, p),
                       y - LevelStep * d, hovered)
    decreases n
  {
    var me := Card(n, x, y, isRoot, hovered);
    var base := y - LevelStep * d;
    var f := ProcessNode(n, x, y, isRoot, hovered);
    var w := VisitsOf(n.children, d + 1, n);
    assert Visits(n, d, p) == [Visit(n, d, p)] + w;
    assert CardsMatch([me], [Visit(n, d, p)], base, hovered);
    if |n.children| == 0 {
      assert f.nodes == [me] && w == [];
    } else {
      var cx := x + NodeWidth / 2 - RowWidth(n.children) / 2;
      var row := PlaceRow(n, n.children, cx, y + LevelStep, hovered);
      assert f.nodes == [me] + row.nodes;
      assert y + LevelStep - LevelStep * (d + 1) == base;
      PlaceRowCards(n, n.children, cx, y + LevelStep, hovered, d + 1);
      CardsConcat([me], [Visit(n, d, p)], row.nodes, w, base, hovered);
    }
  }

  /** The cards of a row of siblings follow the walks of the siblings'
      subtrees one after the other. */
  lemma {:induction false} PlaceRowCards(
    parent: OrgNode, cs: seq<OrgNode>, cx: int, cy: int, hovered: Option<string>, d: int)
    ensures CardsMatch(PlaceRow(parent, cs, cx, cy, hovered).nodes, VisitsOf(cs, d, parent),
                       cy - LevelStep * d, hovered)
    decreases cs
  {
    if |cs| > 0 {
      var w0 := SubtreeWidth(cs[0]);
      var sx := cx + w0 / 2 - NodeWidth / 2;
      var nx := cx + w0 + HorizontalSpacing;
      var sub := ProcessNode(cs[0], sx, cy, false, hovered);
      var rest := PlaceRow(parent, cs[1..], nx, cy, hovered);
      var a := sub.nodes;
      var b := rest.nodes;
      var va := Visits(cs[0], d, Some(parent));
      var vb := VisitsOf(cs[1..], d, parent);
      assert PlaceRow(parent, cs, cx, cy, hovered)
          == Flow(a + b, [EdgeBetween(parent, cs[0])] + sub.edges + rest.edges);
      assert VisitsOf(cs, d, parent) == va + vb;
      ProcessNodeCards(cs[0], sx, cy, false, hovered, d, Some(parent));
      PlaceRowCards(parent, cs[1..], nx, cy, hovered, d);
      CardsConcat(a, va, b, vb,
                  cy - LevelStep * d, hovered);
    }
  }

  /** Edge i of the subtree at `n` is the link into the member of walk step
      i + 1: one edge per parent-to-child link, in walk order. */
  lemma {:induction false} ProcessNodeEdges(
    n: OrgNode, x: int, y: int, isRoot: bool, hovered: Option<string>, d: int, p: Option<OrgNode>)
    ensures EdgesMatch(ProcessNode(n, x, y, isRoot, hovered).edges, Visits(n, d, p)[1..])
    decreases n
  {
    var rv := VisitsOf(n.children, d + 1, n);
    assert Visits(n, d, p)[1..] == rv;
    if |n.children| == 0 {
      assert ProcessNode(n, x, y, isRoot, hovered).edges == [];
    } else {
      var cx := x + NodeWidth / 2 - RowWidth(n.children) / 2;
      var row := PlaceRow(n, n.children, cx, y + LevelStep, hovered);
      PlaceRowEdges(n, n.children, cx, y + LevelStep, hovered, d + 1);
      assert ProcessNode(n, x, y, isRoot, hovered).edges == row.edges;
    }
  }

  /** The edges of a row: for each sibling its own link, then the links
      inside its subtree. */
  lemma {:induction false} PlaceRowEdges(
    parent: OrgNode, cs: seq<OrgNode>, cx: int, cy: int, hovered: Option<string>, d: int)
    ensures EdgesMatch(PlaceRow(parent, cs, cx, cy, hovered).edges, VisitsOf(cs, d, parent))
    decreases cs
  {
    if |cs| > 0 {
      var w0 := SubtreeWidth(cs[0]);
      var sx := cx + w0 / 2 - NodeWidth / 2;
      var nx := cx + w0 + HorizontalSpacing;
      var e := EdgeBetween(parent, cs[0]);
      var sub := ProcessNode(cs[0], sx, cy, false, hovered);
      var rest := PlaceRow(parent, cs[1..], nx, cy, hovered);
      var a := sub.edges;
      var b := rest.edges;
      var va := Visits(cs[0], d, Some(parent));
      var vb := VisitsOf(cs[1..], d, parent);
      assert PlaceRow(parent, cs, cx, cy, hovered) == Flow(sub.nodes + rest.nodes, [e] + a + b);
      assert VisitsOf(cs, d, parent) == va + vb;
      assert va[0] == Visit(cs[0], d, Some(parent));
      ProcessNodeEdges(cs[0], sx, cy, false, hovered, d, Some(parent));
      PlaceRowEdges(parent, cs[1..], nx, cy, hovered, d);
      RowEdgesStep(e, a, va, b, vb);
    }
  }

  /** The chart of a tree: cards in pre-order with the card at depth d drawn
      at y = LevelStep * d, and exactly one edge per parent-to-child link, in
      the order the links are met by the walk. */
  lemma ChartFollowsWalk(tree: OrgNode, hovered: Option<string>)
    ensures var f := ConvertToFlow(tree, hovered);
      var v := Visits(tree, 0, None);
      && |f.nodes| == |v| == Size(tree)
      && |f.edges| == Size(tree) - 1
      && (forall i :: 0 <= i < |f.nodes| ==>
            && f.nodes[i].orgNode == v[i].node
            && f.nodes[i].id == v[i].node.id
            && f.nodes[i].y == LevelStep * v[i].depth
            && (f.nodes[i].isMovingOver <==> hovered == Some(v[i].node.id)))
      && (forall i :: 0 <= i < |f.edges| ==>
            && v[i + 1].parent.Some?
            && v[i + 1].node in v[i + 1].parent.value.children
            && f.edges[i] == EdgeBetween(v[i + 1].parent.value, v[i + 1].node))
  {
    var f := ConvertToFlow(tree, hovered);
    var v := Visits(tree, 0, None);
    ProcessNodeCards(tree, 0, 0, true, hovered, 0, None);
    ProcessNodeEdges(tree, 0, 0, true, hovered, 0, None);
    VisitsFollowLinks(tree, 0, None);
    forall i | 0 <= i < |f.edges|
      ensures f.edges[i] == EdgeBetween(v[i + 1].parent.value, v[i + 1].node)
    {
      assert EdgeMatches(f.edges[i], v[1..][i]);
    }
  }
}
