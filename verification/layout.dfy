/**
 * Top-down pass of the org-chart layout (`convertToFlow` / `processNode`):
 * turns a member tree into positioned cards and parent-to-child edges.
 * The root card sits at (0, 0); each row of children is centred under its
 * parent, every child centred in a slot as wide as its own subtree, and each
 * level sits one card height plus one vertical gap below the previous one.
 */
module Layout {
  import opened Wrappers
  import opened OrgTree
  import opened Widths

  /** A positioned card as handed to the renderer. `orgNode` is the member
      record the card shows; `isMovingOver` marks the card currently hovered
      by a drag. Callbacks and styling are not modelled. */
  datatype FlowNode = FlowNode(
    id: string,
    x: int,
    y: int,
    orgNode: OrgNode,
    isRoot: bool,
    draggable: bool,
    isMovingOver: bool)

  /** A directed connector from a parent card to a child card. */
  datatype Edge = Edge(id: string, source: string, target: string)

  datatype Flow = Flow(nodes: seq<FlowNode>, edges: seq<Edge>)

  /** Vertical distance from a member's row to its children's row. */
  const LevelStep := NodeHeight + VerticalSpacing

  /** The edge for one parent-to-child link, its id being "<parent>-<child>". */
  function EdgeBetween(parent: OrgNode, child: OrgNode): Edge {
    Edge(parent.id + "-" + child.id, parent.id, child.id)
  }

  /** The card of member `n` at (x, y); only the root card is fixed in place. */
  function Card(n: OrgNode, x: int, y: int, isRoot: bool, hovered: Option<string>): FlowNode {
    FlowNode(n.id, x, y, n, isRoot, !isRoot, hovered == Some(n.id))
  }

  /** None of the cards is the root card, and every one of them can be dragged. */
  predicate AllMovable(cards: seq<FlowNode>) {
    forall i :: 0 <= i < |cards| ==> !cards[i].isRoot && cards[i].draggable
  }

  /** Edge i points at card i, for every i. */
  predicate TargetsMatch(es: seq<Edge>, cards: seq<FlowNode>) {
    |es| == |cards| && forall i :: 0 <= i < |es| ==> es[i].target == cards[i].id
  }

  /** Joining two runs of movable cards gives a run of movable cards. */
  lemma MovableConcat(a: seq<FlowNode>, b: seq<FlowNode>)
    requires AllMovable(a) && AllMovable(b)
    ensures AllMovable(a + b)
  {
  }

  /** A run is movable when its first card and the rest are. */
  lemma MovableFromTail(a: seq<FlowNode>)
    requires |a| > 0 && !a[0].isRoot && a[0].draggable && AllMovable(a[1..])
    ensures AllMovable(a)
  {
  }

  /** Putting an edge aimed at the first card in front of edges aimed at the
      following cards keeps edge i aimed at card i. */
  lemma TargetsFromTail(e: Edge, es: seq<Edge>, a: seq<FlowNode>)
    requires |a| > 0 && e.target == a[0].id && TargetsMatch(es, a[1..])
    ensures TargetsMatch([e] + es, a)
  {
  }

  /** Edge/card runs that match pairwise still match when joined. */
  lemma TargetsConcat(ea: seq<Edge>, a: seq<FlowNode>, eb: seq<Edge>, b: seq<FlowNode>)
    requires TargetsMatch(ea, a) && TargetsMatch(eb, b)
    ensures TargetsMatch(ea + eb, a + b)
  {
  }

  /** Emit the card of `n` at (x, y), then its children's row, which starts
      half a row to the left of the card's centre. */
  function ProcessNode(n: OrgNode, x: int, y: int, isRoot: bool, hovered: Option<string>): (f: Flow)
    ensures |f.nodes| == Size(n) && |f.edges| == Size(n) - 1
    decreases n
  {
    var me := Card(n, x, y, isRoot, hovered);
    if |n.children| == 0 then Flow([me], [])
    else
      var row := PlaceRow(n, n.children, x + NodeWidth / 2 - RowWidth(n.children) / 2,
                          y + LevelStep, hovered);
      Flow([me] + row.nodes, row.edges)
  }

  /** The `forEach` over a row of children hanging from `parent`: `currentX`
      is the left edge of the next child's slot. Each child gets its edge,
      then its whole subtree, before the next child is placed. */
  function PlaceRow(parent: OrgNode, cs: seq<OrgNode>, currentX: int, childY: int,
                    hovered: Option<string>): (f: Flow)
    ensures |f.nodes| == SizeOf(cs) && |f.edges| == SizeOf(cs)
    decreases cs
  {
    if |cs| == 0 then Flow([], [])
    else
      var w := SubtreeWidth(cs[0]);
      var sub := ProcessNode(cs[0], currentX + w / 2 - NodeWidth / 2, childY, false, hovered);
      var rest := PlaceRow(parent, cs[1..], currentX + w + HorizontalSpacing, childY, hovered);
      Flow(sub.nodes + rest.nodes, [EdgeBetween(parent, cs[0])] + sub.edges + rest.edges)
  }

  /** The whole chart: the tree's root is laid out at the origin as the root card. */
  function ConvertToFlow(tree: OrgNode, hovered: Option<string>): (f: Flow)
    ensures |f.nodes| == Size(tree) && |f.edges| == |f.nodes| - 1
    ensures f.nodes[0].id == tree.id && f.nodes[0].x == 0 && f.nodes[0].y == 0
    ensures forall i :: 0 <= i < |f.nodes| ==> (f.nodes[i].isRoot <==> i == 0)
    ensures forall i :: 0 <= i < |f.nodes| ==> (f.nodes[i].draggable <==> !f.nodes[i].isRoot)
    ensures forall i :: 0 <= i < |f.edges| ==> f.edges[i].target == f.nodes[i + 1].id
  {
    ProcessNodeShape(tree, 0, 0, true, hovered);
    ProcessNode(tree, 0, 0, true, hovered)
  }

  /** Below the first card every card is movable, and edge i points at the
      card after the first, i. */
  lemma {:induction false} ProcessNodeShape(n: OrgNode, x: int, y: int, isRoot: bool, hovered: Option<string>)
    ensures var f := ProcessNode(n, x, y, isRoot, hovered);
      && f.nodes[0] == Card(n, x, y, isRoot, hovered)
      && AllMovable(f.nodes[1..])
      && TargetsMatch(f.edges, f.nodes[1..])
    decreases n
  {
    if |n.children| > 0 {
      PlaceRowShape(n, n.children, x + NodeWidth / 2 - RowWidth(n.children) / 2, y + LevelStep, hovered);
      var f := ProcessNode(n, x, y, isRoot, hovered);
      var row := PlaceRow(n, n.children, x + NodeWidth / 2 - RowWidth(n.children) / 2, y + LevelStep, hovered);
      assert f.nodes[1..] == row.nodes;
    }
  }

  /** Every card of a row is movable and edge i points at card i. */
  lemma {:induction false} PlaceRowShape(parent: OrgNode, cs: seq<OrgNode>, currentX: int, childY: int,
                                          hovered: Option<string>)
    ensures var f := PlaceRow(parent, cs, currentX, childY, hovered);
      AllMovable(f.nodes) && TargetsMatch(f.edges, f.nodes)
    decreases cs
  {
    if |cs| > 0 {
      var w := SubtreeWidth(cs[0]);
      var sub := ProcessNode(cs[0], currentX + w / 2 - NodeWidth / 2, childY, false, hovered);
      var rest := PlaceRow(parent, cs[1..], currentX + w + HorizontalSpacing, childY, hovered);
      ProcessNodeShape(cs[0], currentX + w / 2 - NodeWidth / 2, childY, false, hovered);
      PlaceRowShape(parent, cs[1..], currentX + w + HorizontalSpacing, childY, hovered);
      var f := PlaceRow(parent, cs, currentX, childY, hovered);
      assert f == Flow(sub.nodes + rest.nodes, [EdgeBetween(parent, cs[0])] + sub.edges + rest.edges);
      MovableFromTail(sub.nodes);
      MovableConcat(sub.nodes, rest.nodes);
      TargetsFromTail(EdgeBetween(parent, cs[0]), sub.edges, sub.nodes);
      TargetsConcat([EdgeBetween(parent, cs[0])] + sub.edges, sub.nodes, rest.edges, rest.nodes);
    }
  }
}
