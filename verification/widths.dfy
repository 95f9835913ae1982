/**
 * Bottom-up pass of the org-chart layout: the horizontal space each subtree
 * needs. Every width is an even number of layout units, so halving one (as the
 * top-down pass does) is exact and the whole layout stays on integers.
 */
module Widths {
  import opened OrgTree

  const NodeWidth := 180
  const NodeHeight := 140
  const HorizontalSpacing := 40
  const VerticalSpacing := 80

  function Max(a: int, b: int): int {
    if a >= b then a else b
  }

  /** The width a subtree occupies: a lone card for a leaf, otherwise the row
      of child subtrees (never narrower than one card). */
  function SubtreeWidth(n: OrgNode): (w: int)
    ensures w >= NodeWidth
    ensures w % 2 == 0
    decreases n
  {
    if |n.children| == 0 then NodeWidth
    else Max(NodeWidth, RowWidth(n.children))
  }

  /** The left fold `reduce((sum, child) => sum + width(child) + spacing, acc)`
      over a row of children, one step per child in array order. */
  function Reduce(cs: seq<OrgNode>, acc: int): (r: int)
    ensures (r - acc) % 2 == 0
    ensures r >= acc + (NodeWidth + HorizontalSpacing) * |cs|
    decreases cs, 0
  {
    if |cs| == 0 then acc
    else Reduce(cs[1..], acc + SubtreeWidth(cs[0]) + HorizontalSpacing)
  }

  /** The width of a row of sibling subtrees: the fold seeded with minus one
      spacing, so that a row of k children carries k - 1 gaps. */
  function RowWidth(cs: seq<OrgNode>): int
    decreases cs, 1
  {
    Reduce(cs, -HorizontalSpacing)
  }

  /** Independent reference: the plain sum of the subtree widths of a row. */
  function SumWidths(cs: seq<OrgNode>): (r: int)
    ensures r >= NodeWidth * |cs|
    ensures r % 2 == 0
    decreases cs
  {
    if |cs| == 0 then 0 else SubtreeWidth(cs[0]) + SumWidths(cs[1..])
  }

  /** The fold adds every child's width and one spacing per child to its seed. */
  lemma {:induction false} ReduceIsSum(cs: seq<OrgNode>, acc: int)
    ensures Reduce(cs, acc) == acc + SumWidths(cs) + HorizontalSpacing * |cs|
    decreases cs
  {
    if |cs| > 0 {
      ReduceIsSum(cs[1..], acc + SubtreeWidth(cs[0]) + HorizontalSpacing);
    }
  }

  /** A non-empty row is the sum of its children's widths plus one spacing per
      gap between neighbours; it is even and at least one card wide. */
  lemma RowWidthClosedForm(cs: seq<OrgNode>)
    ensures RowWidth(cs) == SumWidths(cs) + HorizontalSpacing * (|cs| - 1)
    ensures RowWidth(cs) % 2 == 0
    ensures |cs| > 0 ==> RowWidth(cs) >= NodeWidth
  {
    ReduceIsSum(cs, -HorizontalSpacing);
  }

  /** The width rule of the layout: a leaf is exactly one card wide, an
      internal member is the larger of one card and its children's widths
      plus the gaps between them. */
  lemma SubtreeWidthRule(n: OrgNode)
    ensures IsLeaf(n) ==> SubtreeWidth(n) == NodeWidth
    ensures !IsLeaf(n) ==>
      SubtreeWidth(n) == Max(NodeWidth, SumWidths(n.children) + HorizontalSpacing * (|n.children| - 1))
    ensures !IsLeaf(n) ==> SubtreeWidth(n) == RowWidth(n.children)
  {
    RowWidthClosedForm(n.children);
  }

  /** Every subtree width is a multiple of four: a card is 180 wide and a gap
      is 40, so half a width, the offset the layout centres cards by, is
      itself even. */
  lemma {:induction false} SubtreeWidthMultipleOfFour(n: OrgNode)
    ensures SubtreeWidth(n) % 4 == 0
    decreases n
  {
    if |n.children| > 0 {
      ReduceMultipleOfFour(n.children, -HorizontalSpacing);
    }
  }

  /** The fold keeps a seed that is a multiple of four a multiple of four. */
  lemma {:induction false} ReduceMultipleOfFour(cs: seq<OrgNode>, acc: int)
    requires acc % 4 == 0
    ensures Reduce(cs, acc) % 4 == 0
    decreases cs
  {
    if |cs| > 0 {
      SubtreeWidthMultipleOfFour(cs[0]);
      ReduceMultipleOfFour(cs[1..], acc + SubtreeWidth(cs[0]) + HorizontalSpacing);
    }
  }

  /** The sum over a prefix grows by exactly the next child's width. */
  lemma {:induction false} SumWidthsPrefixStep(cs: seq<OrgNode>, j: nat)
    requires j < |cs|
    ensures SumWidths(cs[..j + 1]) == SumWidths(cs[..j]) + SubtreeWidth(cs[j])
    decreases j
  {
    if j > 0 {
      assert cs[..j + 1][1..] == cs[1..][..j];
      assert cs[..j][1..] == cs[1..][..j - 1];
      SumWidthsPrefixStep(cs[1..], j - 1);
    } else {
      assert cs[..1][1..] == [];
    }
  }

  /** The whole row is its own longest prefix. */
  lemma SumWidthsFull(cs: seq<OrgNode>)
    ensures SumWidths(cs[..|cs|]) == SumWidths(cs)
  {
    assert cs[..|cs|] == cs;
  }
}
