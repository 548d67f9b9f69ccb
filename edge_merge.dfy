/** The edge-combination rule of the transfer-node contraction
    (`mergeEdges` inside `mergeTransferNodes`, lib/traversals.js). */
module EdgeMerge {
  import opened Wrappers
  import opened Enums
  import opened Graph

  /** `edge ? edge.weight : 0`. */
  function WeightOrZero(c: Cell): Weight {
    if c.Some? then c.value.weight else 0.0
  }

  function Max(x: Weight, y: Weight): (m: Weight)
    ensures m >= x && m >= y && (m == x || m == y)
  {
    if x >= y then x else y
  }

  /** The edge between the merged node and another node, built from the two
      cells that joined that node to the two merged nodes. */
  function MergeEdges(a: Cell, b: Cell): (r: Cell)
    ensures r.None? <==> a.None? && b.None?
    ensures r.Some? ==> (r.value.kind == TRANSFER <==> IsTransfer(a) || IsTransfer(b))
    ensures r.Some? ==> r.value.kind != THEORETICAL
    ensures r.Some? ==> r.value.weight == Max(WeightOrZero(a), WeightOrZero(b))
  {
    if a.None? && b.None? then None
    else if IsTransfer(a) || IsTransfer(b) then
      Some(Edge(TRANSFER, Max(WeightOrZero(a), WeightOrZero(b))))
    else
      Some(Edge(ROUTE, Max(WeightOrZero(a), WeightOrZero(b))))
  }

  /** The rule does not depend on the order of its arguments. */
  lemma MergeEdgesSymmetric(a: Cell, b: Cell)
    ensures MergeEdges(a, b) == MergeEdges(b, a)
  {
  }

  /** Merging with an absent cell first (the `0` passed in
      horizontalHiOvershoot) and then with a second cell is the same as
      merging the two cells directly. */
  lemma MergeEdgesThroughAbsent(a: Cell, b: Cell)
    ensures MergeEdges(a, MergeEdges(b, None)) == MergeEdges(a, b)
  {
  }

  /** A THEORETICAL edge that meets no TRANSFER edge becomes a ROUTE edge. */
  lemma TheoreticalBecomesRoute(a: Cell, b: Cell)
    requires a.Some? && a.value.kind == THEORETICAL && !IsTransfer(b)
    ensures MergeEdges(a, b) == Some(Edge(ROUTE, Max(a.value.weight, WeightOrZero(b))))
  {
  }
}
