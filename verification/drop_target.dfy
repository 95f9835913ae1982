/**
 * Drag-and-drop re-parenting on the chart: while a card is dragged, the
 * first other card whose box holds the dragged card's centre is highlighted;
 * when the drag stops over such a card a move to it is requested, otherwise
 * the chart is laid out afresh from the tree.
 */
module DropTarget {
  import opened Wrappers
  import opened OrgTree
  import opened Layout

  /** The handlers' own literals: the dragged card's centre is this far right
      of and below its top-left corner, and a card covers a closed box this
      wide and tall from its top-left corner. */
  const CentreDx := 90
  const CentreDy := 70
  const BoxWidth := 180
  const BoxHeight := 140

  /** The card being dragged, as the renderer reports it: its id and the
      current top-left corner of its card. */
  datatype Dragged = Dragged(id: string, x: int, y: int)

  /** The closed box of card `n` holds the point (px, py). */
  predicate Covers(n: FlowNode, px: int, py: int) {
    n.x <= px <= n.x + BoxWidth && n.y <= py <= n.y + BoxHeight
  }

  /** `n` is a card other than the dragged one whose box holds the dragged
      card's centre. */
  predicate IsTarget(n: FlowNode, d: Dragged) {
    n.id != d.id && Covers(n, d.x + CentreDx, d.y + CentreDy)
  }

  /** The search shared by both handlers: the first card, in the renderer's
      order, that is a drop target for `d`, if any. */
  method FindTarget(cards: seq<FlowNode>, d: Dragged) returns (found: Option<FlowNode>)
    ensures found.None? <==> forall j :: 0 <= j < |cards| ==> !IsTarget(cards[j], d)
    ensures found.Some? ==>
      exists i :: 0 <= i < |cards| && cards[i] == found.value && IsTarget(cards[i], d)
                  && forall j :: 0 <= j < i ==> !IsTarget(cards[j], d)
  {
    var i := 0;
    while i < |cards|
      invariant 0 <= i <= |cards|
      invariant forall j :: 0 <= j < i ==> !IsTarget(cards[j], d)
    {
      if IsTarget(cards[i], d) {
        return Some(cards[i]);
      }
      i := i + 1;
    }
    return None;
  }

  /** While dragging: the card to highlight is the first drop target, and
      none when there is no target. */
  method HoverWhileDragging(cards: seq<FlowNode>, d: Dragged) returns (hovered: Option<string>)
    ensures hovered.None? <==> forall j :: 0 <= j < |cards| ==> !IsTarget(cards[j], d)
    ensures hovered.Some? ==>
      exists i :: 0 <= i < |cards| && cards[i].id == hovered.value && IsTarget(cards[i], d)
                  && forall j :: 0 <= j < i ==> !IsTarget(cards[j], d)
    ensures hovered != Some(d.id)
  {
    var found := FindTarget(cards, d);
    hovered := if found.Some? then Some(found.value.id) else None;
  }

  /** What a finished drag leads to: a request to re-parent the dragged
      member under the member of the target card, or a fresh layout that
      puts every card back where the tree says. */
  datatype DropOutcome =
    | MoveRequest(nodeId: string, newParentId: string)
    | ResetLayout(nodes: seq<FlowNode>)

  /** When the drag stops. `hovered` is the highlight the chart was last
      laid out with: clearing it takes effect only on the next render, so
      the fresh layout still carries it. */
  method DragStop(cards: seq<FlowNode>, d: Dragged, tree: OrgNode, hovered: Option<string>)
    returns (outcome: DropOutcome)
    ensures outcome.MoveRequest? <==> exists j :: 0 <= j < |cards| && IsTarget(cards[j], d)
    ensures outcome.MoveRequest? ==>
      && outcome.nodeId == d.id
      && outcome.newParentId != outcome.nodeId
      && exists i :: 0 <= i < |cards| && cards[i].id == outcome.newParentId && IsTarget(cards[i], d)
                     && forall j :: 0 <= j < i ==> !IsTarget(cards[j], d)
    ensures outcome.ResetLayout? ==> outcome.nodes == ConvertToFlow(tree, hovered).nodes
  {
    var found := FindTarget(cards, d);
    if found.Some? {
      outcome := MoveRequest(d.id, found.value.id);
    } else {
      outcome := ResetLayout(ConvertToFlow(tree, hovered).nodes);
    }
  }
}
