/**
 * The organisation tree as the chart component receives it: one member record
 * per node, with its direct reports as an ordered list of owned children.
 */
module OrgTree {
  import opened Wrappers

  /** A member of the organisation. An absent `children` list in the source
      takes the same branch everywhere as an empty one, so it is a plain
      (possibly empty) sequence here. */
  datatype OrgNode = OrgNode(
    id: string,
    name: string,
    title: string,
    department: string,
    avatar: string,
    email: Option<string>,
    parentId: Option<string>,
    children: seq<OrgNode>)

  predicate IsLeaf(n: OrgNode) {
    |n.children| == 0
  }

  /** Number of members in the subtree rooted at `n`. */
  function Size(n: OrgNode): (r: nat)
    ensures r >= 1
    decreases n
  {
    1 + SizeOf(n.children)
  }

  /** Number of members in a row of sibling subtrees. */
  function SizeOf(cs: seq<OrgNode>): (r: nat)
    ensures r >= |cs|
    decreases cs
  {
    if |cs| == 0 then 0 else Size(cs[0]) + SizeOf(cs[1..])
  }

  /** One step of a pre-order walk: the member reached, its depth (counted
      from the depth the walk was started with) and the member it hangs from. */
  datatype Visit = Visit(node: OrgNode, depth: int, parent: Option<OrgNode>)

  /** The pre-order walk of the subtree at `n`: `n` first, then the walk of
      each child subtree in `children` order. This is the reference order
      the layout is proved to emit its nodes in. */
  function Visits(n: OrgNode, d: int, p: Option<OrgNode>): (r: seq<Visit>)
    ensures |r| == Size(n)
    decreases n
  {
    [Visit(n, d, p)] + VisitsOf(n.children, d + 1, n)
  }

  /** The pre-order walks of the sibling subtrees `cs`, all hanging from `p`,
      one after the other. */
  function VisitsOf(cs: seq<OrgNode>, d: int, p: OrgNode): (r: seq<Visit>)
    ensures |r| == SizeOf(cs)
    decreases cs
  {
    if |cs| == 0 then [] else Visits(cs[0], d, Some(p)) + VisitsOf(cs[1..], d, p)
  }

  /** Every step of a walk after the first is a genuine parent-to-child link
      one level deeper than the start: the visited member is a direct child of
      the member recorded as its parent. */
  lemma {:induction false} VisitsFollowLinks(n: OrgNode, d: int, p: Option<OrgNode>)
    ensures Visits(n, d, p)[0] == Visit(n, d, p)
    ensures forall i :: 1 <= i < |Visits(n, d, p)| ==>
      var v := Visits(n, d, p)[i];
      v.parent.Some? && v.node in v.parent.value.children && v.depth > d
    decreases n
  {
    VisitsOfFollowLinks(n.children, d + 1, n);
  }

  lemma {:induction false} VisitsOfFollowLinks(cs: seq<OrgNode>, d: int, p: OrgNode)
    requires forall c :: c in cs ==> c in p.children
    ensures forall i :: 0 <= i < |VisitsOf(cs, d, p)| ==>
      var v := VisitsOf(cs, d, p)[i];
      v.parent.Some? && v.node in v.parent.value.children && v.depth >= d
    ensures forall i :: 0 <= i < |VisitsOf(cs, d, p)| ==>
      VisitsOf(cs, d, p)[i].depth == d ==> VisitsOf(cs, d, p)[i].parent == Some(p)
    decreases cs
  {
    if |cs| > 0 {
      VisitsFollowLinks(cs[0], d, Some(p));
      VisitsOfFollowLinks(cs[1..], d, p);
    }
  }
}
