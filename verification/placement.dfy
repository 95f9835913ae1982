/**
 * Horizontal placement of a row of children under their parent: slots as
 * wide as each child's subtree, laid left to right in array order with one
 * spacing between neighbours, the row centred under the parent's card and
 * every child card centred in its own slot.
 */
module Placement {
  import opened Wrappers
  import opened OrgTree
  import opened Widths
  import opened Layout

  /** Left edge of the slot of child `j` of `n`, when `n`'s card is at `x`:
      the row starts half a row left of the card's centre, and each earlier
      sibling's slot and one spacing come before slot `j`. */
  function SlotStart(n: OrgNode, x: int, j: nat): int
    requires j <= |n.children|
  {
    x + NodeWidth / 2 - RowWidth(n.children) / 2 + SumWidths(n.children[..j]) + HorizontalSpacing * j
  }

  /** Position of the card of child `j` within the cards of a row: after
      the subtrees of all earlier siblings, counted one sibling at a time. */
  function RowIndex(cs: seq<OrgNode>, j: nat): nat
    requires j <= |cs|
    decreases j
  {
    if j == 0 then 0 else Size(cs[0]) + RowIndex(cs[1..], j - 1)
  }

  /** Left edge of the slot of child `j` of a row whose first slot starts
      at `cx`: the earlier siblings' slots, one spacing after each. */
  function RowSlotX(cs: seq<OrgNode>, cx: int, j: nat): int
    requires j <= |cs|
    decreases j
  {
    if j == 0 then cx else RowSlotX(cs[1..], cx + SubtreeWidth(cs[0]) + HorizontalSpacing, j - 1)
  }

  /** Left edge of the card of child `j` of a row whose first slot starts
      at `cx`: the card is centred in the child's slot. */
  function RowCardX(cs: seq<OrgNode>, cx: int, j: nat): int
    requires j < |cs|
  {
    RowSlotX(cs, cx, j) + SubtreeWidth(cs[j]) / 2 - NodeWidth / 2
  }

  /** The card of child `j` comes after exactly the members in the earlier
      siblings' subtrees. */
  lemma {:induction false} RowIndexCountsEarlierSubtrees(cs: seq<OrgNode>, j: nat)
    requires j <= |cs|
    ensures RowIndex(cs, j) == SizeOf(cs[..j])
    decreases j
  {
    if j == 0 {
      assert cs[..0] == [];
    } else {
      PrefixHead(cs, j);
      RowIndexCountsEarlierSubtrees(cs[1..], j - 1);
    }
  }

  /** The next sibling's card comes after all of this sibling's subtree. */
  lemma {:induction false} RowIndexStep(cs: seq<OrgNode>, j: nat)
    requires j < |cs|
    ensures RowIndex(cs, j + 1) == RowIndex(cs, j) + Size(cs[j])
    decreases j
  {
    if j > 0 {
      assert cs[1..][j - 1] == cs[j];
      RowIndexStep(cs[1..], j - 1);
    }
  }

  /** Closed form of the stepping: slot `j` starts after the earlier
      siblings' slots and one spacing per earlier sibling. */
  lemma {:induction false} RowSlotXClosedForm(cs: seq<OrgNode>, cx: int, j: nat)
    requires j <= |cs|
    ensures RowSlotX(cs, cx, j) == cx + SumWidths(cs[..j]) + HorizontalSpacing * j
    decreases j
  {
    if j == 0 {
      assert cs[..0] == [];
    } else {
      PrefixHead(cs, j);
      RowSlotXClosedForm(cs[1..], cx + SubtreeWidth(cs[0]) + HorizontalSpacing, j - 1);
    }
  }

  /** From child `j` on, a row's cards are those of laying out the
      remaining children alone, starting at child `j`'s slot: `rs` is the
      row from child `j` on and `sx` the left edge of child `j`'s slot. */
  lemma {:induction false} PlaceRowSuffixNodes(
    parent: OrgNode, cs: seq<OrgNode>, cx: int, cy: int, hovered: Option<string>, j: nat,
    rs: seq<OrgNode>, sx: int)
    requires j <= |cs| && rs == cs[j..] && sx == RowSlotX(cs, cx, j)
    ensures var f := PlaceRow(parent, cs, cx, cy, hovered);
      && RowIndex(cs, j) <= |f.nodes|
      && f.nodes[RowIndex(cs, j)..] == PlaceRow(parent, rs, sx, cy, hovered).nodes
    decreases j
  {
    if j == 0 {
      assert cs[0..] == cs;
    } else {
      var w := SubtreeWidth(cs[0]);
      var nx := cx + w + HorizontalSpacing;
      var first := ProcessNode(cs[0], cx + w / 2 - NodeWidth / 2, cy, false, hovered);
      var rest := PlaceRow(parent, cs[1..], nx, cy, hovered);
      assert PlaceRow(parent, cs, cx, cy, hovered).nodes == first.nodes + rest.nodes;
      assert cs[1..][j - 1..] == rs;
      PlaceRowSuffixNodes(parent, cs[1..], nx, cy, hovered, j - 1, rs, sx);
      DropAfter(PlaceRow(parent, cs, cx, cy, hovered).nodes, first.nodes, rest.nodes, RowIndex(cs[1..], j - 1),
                PlaceRow(parent, rs, sx, cy, hovered).nodes, RowIndex(cs, j));
    }
  }

  /** From child `j` on, a row's edges are those of laying out the
      remaining children alone, starting at child `j`'s slot: `rs` is the
      row from child `j` on and `sx` the left edge of child `j`'s slot. */
  lemma {:induction false} PlaceRowSuffixEdges(
    parent: OrgNode, cs: seq<OrgNode>, cx: int, cy: int, hovered: Option<string>, j: nat,
    rs: seq<OrgNode>, sx: int)
    requires j <= |cs| && rs == cs[j..] && sx == RowSlotX(cs, cx, j)
    ensures var f := PlaceRow(parent, cs, cx, cy, hovered);
      && RowIndex(cs, j) <= |f.edges|
      && f.edges[RowIndex(cs, j)..] == PlaceRow(parent, rs, sx, cy, hovered).edges
    decreases j
  {
    if j == 0 {
      assert cs[0..] == cs;
    } else {
      var w := SubtreeWidth(cs[0]);
      var nx := cx + w + HorizontalSpacing;
      var first := ProcessNode(cs[0], cx + w / 2 - NodeWidth / 2, cy, false, hovered);
      var rest := PlaceRow(parent, cs[1..], nx, cy, hovered);
      var e := [EdgeBetween(parent, cs[0])] + first.edges;
      assert PlaceRow(parent, cs, cx, cy, hovered).edges == e + rest.edges;
      assert cs[1..][j - 1..] == rs;
      PlaceRowSuffixEdges(parent, cs[1..], nx, cy, hovered, j - 1, rs, sx);
      DropAfter(PlaceRow(parent, cs, cx, cy, hovered).edges, e, rest.edges, RowIndex(cs[1..], j - 1),
                PlaceRow(parent, rs, sx, cy, hovered).edges, RowIndex(cs, j));
    }
  }

  /** Child `j`'s whole subtree, inside a row: right after the earlier
      siblings' subtrees come, in one block, exactly the cards of laying out
      child `j` on its own with its card centred in its slot. */
  lemma PlaceRowChildNodes(
    parent: OrgNode, cs: seq<OrgNode>, cx: int, cy: int, hovered: Option<string>, j: nat)
    requires j < |cs|
    ensures RowIndex(cs, j) + Size(cs[j]) <= |PlaceRow(parent, cs, cx, cy, hovered).nodes|
    ensures PlaceRow(parent, cs, cx, cy, hovered).nodes[RowIndex(cs, j) .. RowIndex(cs, j) + Size(cs[j])]
      == ProcessNode(cs[j], RowCardX(cs, cx, j), cy, false, hovered).nodes
  {
    RowHeadBlock(parent, cs[j..], RowSlotX(cs, cx, j), cy, hovered, cs[j], RowCardX(cs, cx, j));
    PlaceRowSuffixNodes(parent, cs, cx, cy, hovered, j, cs[j..], RowSlotX(cs, cx, j));
    TakeAfter(PlaceRow(parent, cs, cx, cy, hovered).nodes, RowIndex(cs, j),
              PlaceRow(parent, cs[j..], RowSlotX(cs, cx, j), cy, hovered).nodes,
              ProcessNode(cs[j], RowCardX(cs, cx, j), cy, false, hovered).nodes, Size(cs[j]));
  }

  /** The edges of child `j`'s subtree, inside a row: at the position of
      child `j`'s card comes its own edge, followed by exactly the edges of
      laying out child `j` on its own. */
  lemma PlaceRowChildEdges(
    parent: OrgNode, cs: seq<OrgNode>, cx: int, cy: int, hovered: Option<string>, j: nat)
    requires j < |cs|
    ensures RowIndex(cs, j) + Size(cs[j]) <= |PlaceRow(parent, cs, cx, cy, hovered).edges|
    ensures PlaceRow(parent, cs, cx, cy, hovered).edges[RowIndex(cs, j)] == EdgeBetween(parent, cs[j])
    ensures PlaceRow(parent, cs, cx, cy, hovered).edges[RowIndex(cs, j) + 1 .. RowIndex(cs, j) + Size(cs[j])]
      == ProcessNode(cs[j], RowCardX(cs, cx, j), cy, false, hovered).edges
  {
    RowHeadBlock(parent, cs[j..], RowSlotX(cs, cx, j), cy, hovered, cs[j], RowCardX(cs, cx, j));
    PlaceRowSuffixEdges(parent, cs, cx, cy, hovered, j, cs[j..], RowSlotX(cs, cx, j));
    TakeAfterHead(PlaceRow(parent, cs, cx, cy, hovered).edges, RowIndex(cs, j),
                  PlaceRow(parent, cs[j..], RowSlotX(cs, cx, j), cy, hovered).edges,
                  EdgeBetween(parent, cs[j]),
                  ProcessNode(cs[j], RowCardX(cs, cx, j), cy, false, hovered).edges, Size(cs[j]));
  }

  /** The first child `c` of a row, laid out with its card at `x`, fills the
      start of the row: its cards come first, and its own edge and then its
      edges start the row's edges. */
  lemma RowHeadBlock(parent: OrgNode, cs: seq<OrgNode>, cx: int, cy: int, hovered: Option<string>,
                     c: OrgNode, x: int)
    requires |cs| > 0 && c == cs[0] && x == cx + SubtreeWidth(c) / 2 - NodeWidth / 2
    ensures var g := PlaceRow(parent, cs, cx, cy, hovered);
      var sub := ProcessNode(c, x, cy, false, hovered);
      && |sub.nodes| <= |g.nodes| && g.nodes[..|sub.nodes|] == sub.nodes
      && |sub.edges| < |g.edges| && g.edges[0] == EdgeBetween(parent, c)
      && g.edges[1 .. 1 + |sub.edges|] == sub.edges
  {
    var g := PlaceRow(parent, cs, cx, cy, hovered);
    var sub := ProcessNode(c, x, cy, false, hovered);
    var rest := PlaceRow(parent, cs[1..], cx + SubtreeWidth(c) + HorizontalSpacing, cy, hovered);
    assert g.nodes == sub.nodes + rest.nodes;
    assert g.edges == [EdgeBetween(parent, c)] + sub.edges + rest.edges;
  }

  /** Card of child `j` of a row: it comes after the subtrees of the
      earlier siblings, centred in its own slot. */
  lemma PlaceRowChildCard(
    parent: OrgNode, cs: seq<OrgNode>, cx: int, cy: int, hovered: Option<string>, j: nat)
    requires j < |cs|
    ensures var f := PlaceRow(parent, cs, cx, cy, hovered);
      RowIndex(cs, j) < |f.nodes| && f.nodes[RowIndex(cs, j)] == Card(cs[j], RowCardX(cs, cx, j), cy, false, hovered)
  {
    PlaceRowChildNodes(parent, cs, cx, cy, hovered, j);
    ProcessNodeShape(cs[j], RowCardX(cs, cx, j), cy, false, hovered);
  }

  /** Edge of child `j` of a row: it links the row's parent to that child and
      sits at the same position as the child's card. */
  lemma {:induction false} PlaceRowChildEdge(
    parent: OrgNode, cs: seq<OrgNode>, cx: int, cy: int, hovered: Option<string>, j: nat)
    requires j < |cs|
    ensures var f := PlaceRow(parent, cs, cx, cy, hovered);
      RowIndex(cs, j) < |f.edges| && f.edges[RowIndex(cs, j)] == EdgeBetween(parent, cs[j])
    decreases j
  {
    if j > 0 {
      var nx := cx + SubtreeWidth(cs[0]) + HorizontalSpacing;
      assert cs[1..][j - 1] == cs[j];
      PlaceRowChildEdge(parent, cs[1..], nx, cy, hovered, j - 1);
    }
  }

  /** Where child `j` of `n` lands: its card comes after `n`'s card and the
      subtrees of its earlier siblings, one level lower than `n`, with its
      centre on the centre of its slot; the edge just before it links it to
      `n`. */
  lemma ChildPlacement(n: OrgNode, x: int, y: int, isRoot: bool, hovered: Option<string>, j: nat)
    requires j < |n.children|
    ensures var f := ProcessNode(n, x, y, isRoot, hovered);
      var k := 1 + RowIndex(n.children, j);
      && k < |f.nodes|
      && f.nodes[k] == Card(n.children[j], f.nodes[k].x, y + LevelStep, false, hovered)
      && 2 * (f.nodes[k].x + NodeWidth / 2) == 2 * SlotStart(n, x, j) + SubtreeWidth(n.children[j])
      && f.edges[k - 1] == EdgeBetween(n, n.children[j])
  {
    var cx := x + NodeWidth / 2 - RowWidth(n.children) / 2;
    var row := PlaceRow(n, n.children, cx, y + LevelStep, hovered);
    var f := ProcessNode(n, x, y, isRoot, hovered);
    assert f.nodes == [Card(n, x, y, isRoot, hovered)] + row.nodes;
    assert f.edges == row.edges;
    PlaceRowChildCard(n, n.children, cx, y + LevelStep, hovered, j);
    PlaceRowChildEdge(n, n.children, cx, y + LevelStep, hovered, j);
    var k := RowIndex(n.children, j);
    assert f.nodes[k + 1] == row.nodes[k];
    RowIndexCountsEarlierSubtrees(n.children, j);
    RowSlotXClosedForm(n.children, cx, j);
  }

  /** Child `j` of `n` laid out on its own, with its card where the row
      under `n`'s card at (x, y) puts it: centred in its slot, one level
      lower. */
  function ChildLayout(n: OrgNode, x: int, y: int, hovered: Option<string>, j: nat): Flow
    requires j < |n.children|
  {
    ProcessNode(n.children[j], RowCardX(n.children, x + NodeWidth / 2 - RowWidth(n.children) / 2, j),
                y + LevelStep, false, hovered)
  }

  /** Child `j`'s whole subtree, inside the layout of `n`: right after the
      earlier siblings' subtrees come, in one block, exactly the cards of
      laying out child `j` on its own with its card at the stepped x one
      level lower, and after child `j`'s own edge come exactly that
      layout's edges. Every fact about `ProcessNode` at an arbitrary
      position thus holds again for each child's subtree, at every depth. */
  lemma ChildBlock(n: OrgNode, x: int, y: int, isRoot: bool, hovered: Option<string>, j: nat)
    requires j < |n.children|
    ensures 1 + RowIndex(n.children, j) + Size(n.children[j]) <= |ProcessNode(n, x, y, isRoot, hovered).nodes|
    ensures ProcessNode(n, x, y, isRoot, hovered).nodes[1 + RowIndex(n.children, j) .. 1 + RowIndex(n.children, j) + Size(n.children[j])]
      == ChildLayout(n, x, y, hovered, j).nodes
    ensures ProcessNode(n, x, y, isRoot, hovered).edges[RowIndex(n.children, j)] == EdgeBetween(n, n.children[j])
    ensures ProcessNode(n, x, y, isRoot, hovered).edges[1 + RowIndex(n.children, j) .. 1 + RowIndex(n.children, j) + Size(n.children[j]) - 1]
      == ChildLayout(n, x, y, hovered, j).edges
  {
    var cs := n.children;
    var cx := x + NodeWidth / 2 - RowWidth(cs) / 2;
    var row := PlaceRow(n, cs, cx, y + LevelStep, hovered);
    var f := ProcessNode(n, x, y, isRoot, hovered);
    var c := cs[j];
    var k := RowIndex(cs, j);
    var sub := ChildLayout(n, x, y, hovered, j);
    assert f.nodes == [Card(n, x, y, isRoot, hovered)] + row.nodes;
    assert f.edges == row.edges;
    PlaceRowChildNodes(n, cs, cx, y + LevelStep, hovered, j);
    PlaceRowChildEdges(n, cs, cx, y + LevelStep, hovered, j);
    ShiftBlock(f.nodes, Card(n, x, y, isRoot, hovered), row.nodes, k, Size(c), sub.nodes);
    SameSlice(f.edges, row.edges, 1 + k, 1 + k + Size(c) - 1, k + 1, k + Size(c), sub.edges);
  }

  /** Each slot starts one spacing after the previous slot ends
      (`currentX += childWidth + horizontalSpacing`). */
  lemma SlotsAbut(n: OrgNode, x: int, j: nat)
    requires j < |n.children|
    ensures SlotStart(n, x, j + 1) == SlotStart(n, x, j) + SubtreeWidth(n.children[j]) + HorizontalSpacing
  {
    SumWidthsPrefixStep(n.children, j);
  }

  /** The row of slots is centred under the parent's card: the left edge of
      the first slot and the right edge of the last are equally far from the
      card's centre. */
  lemma RowCentred(n: OrgNode, x: int)
    requires !IsLeaf(n)
    ensures var last := |n.children| - 1;
      SlotStart(n, x, 0) + (SlotStart(n, x, last) + SubtreeWidth(n.children[last]))
        == 2 * (x + NodeWidth / 2)
  {
    var cs := n.children;
    var last := |cs| - 1;
    RowWidthClosedForm(cs);
    SumWidthsPrefixStep(cs, last);
    SumWidthsFull(cs);
    assert cs[..0] == [];
  }

  /** An only child sits straight below its parent. */
  lemma OnlyChildBelow(n: OrgNode, x: int, y: int, isRoot: bool, hovered: Option<string>)
    requires |n.children| == 1
    ensures var f := ProcessNode(n, x, y, isRoot, hovered);
      |f.nodes| > 1 && f.nodes[1].x == x && f.nodes[1].y == y + LevelStep
  {
    ChildPlacement(n, x, y, isRoot, hovered, 0);
    RowCentred(n, x);
    assert n.children[..0] == [];
  }

  /** Neighbouring siblings' cards are half of each one's subtree width plus
      one spacing apart; two neighbours of equal width w sit exactly
      w + spacing apart. */
  lemma SiblingSpacing(n: OrgNode, x: int, y: int, isRoot: bool, hovered: Option<string>, j: nat)
    requires j + 1 < |n.children|
    ensures var f := ProcessNode(n, x, y, isRoot, hovered);
      var a := 1 + RowIndex(n.children, j);
      var b := 1 + RowIndex(n.children, j + 1);
      var wa := SubtreeWidth(n.children[j]);
      var wb := SubtreeWidth(n.children[j + 1]);
      && a < b < |f.nodes|
      && 2 * (f.nodes[b].x - f.nodes[a].x) == wa + wb + 2 * HorizontalSpacing
      && (wa == wb ==> f.nodes[b].x == f.nodes[a].x + wa + HorizontalSpacing)
  {
    ChildPlacement(n, x, y, isRoot, hovered, j);
    ChildPlacement(n, x, y, isRoot, hovered, j + 1);
    SlotsAbut(n, x, j);
    RowIndexStep(n.children, j);
  }

  /** A non-empty prefix of a row is its first child followed by a prefix of
      the rest. */
  lemma PrefixHead(cs: seq<OrgNode>, j: nat)
    requires 0 < j <= |cs|
    ensures SizeOf(cs[..j]) == Size(cs[0]) + SizeOf(cs[1..][..j - 1])
    ensures SumWidths(cs[..j]) == SubtreeWidth(cs[0]) + SumWidths(cs[1..][..j - 1])
  {
    assert cs[..j][1..] == cs[1..][..j - 1];
  }

  /** A childless member with the given id hanging from `parentId`. */
  function Leaf(id: string, parentId: string): (n: OrgNode)
    ensures IsLeaf(n) && n.id == id
  {
    OrgNode(id, "", "", "", "", None, Some(parentId), [])
  }

  /** A root with two leaf children: the children sit one level down,
      symmetric about the root's card, exactly one card width plus one
      spacing apart, with one edge to each. */
  lemma TwoLeavesExample()
    ensures var a := Leaf("a", "r");
      var b := Leaf("b", "r");
      var f := ConvertToFlow(OrgNode("r", "", "", "", "", None, None, [a, b]), None);
      && |f.nodes| == 3
      && f.nodes[1].x == -110 && f.nodes[2].x == 110
      && f.nodes[2].x == f.nodes[1].x + NodeWidth + HorizontalSpacing
      && f.nodes[1].y == LevelStep && f.nodes[2].y == LevelStep
      && f.edges == [Edge("r-a", "r", "a"), Edge("r-b", "r", "b")]
  {
    var a := Leaf("a", "r");
    var b := Leaf("b", "r");
    var r := OrgNode("r", "", "", "", "", None, None, [a, b]);
    assert RowWidth([a, b]) == 400 by {
      assert [a, b][1..] == [b];
      assert [b][1..] == [];
    }
    assert [a, b][1..] == [b];
    assert [b][1..] == [];
    assert ProcessNode(a, -110, LevelStep, false, None).nodes == [Card(a, -110, LevelStep, false, None)];
    assert ProcessNode(b, 110, LevelStep, false, None).nodes == [Card(b, 110, LevelStep, false, None)];
    var rowB := PlaceRow(r, [b], 110, LevelStep, None);
    assert rowB.nodes == [Card(b, 110, LevelStep, false, None)];
    assert rowB.edges == [EdgeBetween(r, b)];
    var row := PlaceRow(r, [a, b], -110, LevelStep, None);
    assert row.nodes == [Card(a, -110, LevelStep, false, None)] + rowB.nodes;
    assert row.edges == [EdgeBetween(r, a)] + rowB.edges;
    assert EdgeBetween(r, a) == Edge("r-a", "r", "a") by { assert "r" + "-" + "a" == "r-a"; }
    assert EdgeBetween(r, b) == Edge("r-b", "r", "b") by { assert "r" + "-" + "b" == "r-b"; }
    assert ConvertToFlow(r, None) == Flow([Card(r, 0, 0, true, None)] + row.nodes, row.edges);
  }

  // Sequence facts the block lemmas above are assembled from.

  /** A sequence made of a first part and a second part whose tail from
      `m` on is `tail`: from `n = |a| + m` on, the whole sequence is `tail`. */
  lemma DropAfter<T>(whole: seq<T>, a: seq<T>, b: seq<T>, m: nat, tail: seq<T>, n: nat)
    requires whole == a + b && m <= |b| && b[m..] == tail && n == |a| + m
    ensures n <= |whole| && whole[n..] == tail
  {
    assert whole[n..] == b[m..];
  }

  /** What starts the tail from `k` on starts at `k`: `a`, of length
      `n`, sits at `k`. */
  lemma TakeAfter<T>(s: seq<T>, k: nat, tail: seq<T>, a: seq<T>, n: nat)
    requires k <= |s| && s[k..] == tail && n == |a| <= |tail| && tail[..|a|] == a
    ensures k + n <= |s| && s[k .. k + n] == a
  {
    assert s[k .. k + n] == tail[..n];
  }

  /** If the tail from `k` on starts with `x` and then `a`, of length
      `n - 1`, then `x` sits at `k` and `a` right after it. */
  lemma TakeAfterHead<T>(s: seq<T>, k: nat, tail: seq<T>, x: T, a: seq<T>, n: nat)
    requires k <= |s| && s[k..] == tail && n == |a| + 1 <= |tail|
    requires tail[0] == x && tail[1 .. 1 + |a|] == a
    ensures k + n <= |s| && s[k] == x && s[k + 1 .. k + n] == a
  {
    assert s[k + 1 .. k + n] == tail[1 .. n];
  }

  /** Equal sequences have equal slices between equal bounds. */
  lemma SameSlice<T>(s: seq<T>, t: seq<T>, lo: nat, hi: nat, lo': nat, hi': nat, a: seq<T>)
    requires s == t && lo == lo' && hi == hi' && lo' <= hi' <= |t| && t[lo' .. hi'] == a
    ensures lo <= hi <= |s| && s[lo .. hi] == a
  {
  }

  /** A block at `k` in `s` sits at `1 + k` once one element is put in
      front of `s`. */
  lemma ShiftBlock<T>(whole: seq<T>, x: T, s: seq<T>, k: nat, n: nat, a: seq<T>)
    requires whole == [x] + s && k + n <= |s| && s[k .. k + n] == a
    ensures 1 + k + n <= |whole| && whole[1 + k .. 1 + k + n] == a
  {
    assert whole[1 + k .. 1 + k + n] == s[k .. k + n];
  }
}
