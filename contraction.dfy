/** What one step of the transfer-node contraction computes, and what the
    whole contraction computes, stated on values. The in-place surgery of
    lib/traversals.js (module Surgery) and the outer loop (module Transfers)
    are proved to compute exactly these functions. */
module Contraction {
  import opened Wrappers
  import opened Enums
  import opened Graph
  import opened EdgeMerge
  import Stops

  /** The old index of node `k` of the contracted graph, for `k` below the
      index of the merged node. */
  function OldIndex(k: nat, lo: nat, hi: nat): (o: nat)
    requires lo < hi
    ensures o != lo && o != hi && k <= o <= k + 2
  {
    if k < lo then k else if k < hi - 1 then k + 1 else k + 2
  }

  /** The new index of an old node other than the merged pair: `k < lo` keeps
      its index, `lo < k < hi` moves down by one, `k > hi` by two. */
  function NewIndex(k: nat, lo: nat, hi: nat): (n: nat)
    requires lo < hi && k != lo && k != hi
    ensures OldIndex(n, lo, hi) == k
  {
    if k < lo then k else if k < hi then k - 1 else k - 2
  }

  /** Renumbering keeps the order of the remaining nodes. */
  lemma OldIndexMonotone(a: nat, b: nat, lo: nat, hi: nat)
    requires lo < hi && a < b
    ensures OldIndex(a, lo, hi) < OldIndex(b, lo, hi)
  {
  }

  lemma NewIndexOfOld(k: nat, lo: nat, hi: nat)
    requires lo < hi
    ensures NewIndex(OldIndex(k, lo, hi), lo, hi) == k
  {
  }

  /** The cell between the merged node and the old node `k`. */
  function UnionCell(m: seq<seq<Cell>>, lo: nat, hi: nat, k: nat): Cell
    requires Triangular(m) && lo < hi < |m| && k < |m| && k != lo && k != hi
  {
    MergeEdges(Sym(m, lo, k), Sym(m, hi, k))
  }

  /** The matrix after merging `lo` and `hi` into one node appended last:
      every other cell moves to the renumbered indices, the merged node's row
      combines each node's two cells with the pair, and the `lo`-`hi` cell is
      gone. */
  function Contracted(m: seq<seq<Cell>>, lo: nat, hi: nat): (r: seq<seq<Cell>>)
    requires Triangular(m) && lo < hi < |m|
    ensures Triangular(r) && |r| == |m| - 1
  {
    var n := |m| - 2;
    seq(n + 1, i requires 0 <= i <= n =>
      if i < n then
        seq(i, j requires 0 <= j < i =>
          OldIndexMonotone(j, i, lo, hi);
          m[OldIndex(i, lo, hi)][OldIndex(j, lo, hi)])
      else
        seq(n, j requires 0 <= j < n => UnionCell(m, lo, hi, OldIndex(j, lo, hi))))
  }

  /** A cell between two nodes other than the merged pair is unchanged; it
      only moves to the renumbered indices. */
  lemma ContractedKeepsOtherCells(m: seq<seq<Cell>>, lo: nat, hi: nat, a: nat, b: nat)
    requires Triangular(m) && lo < hi < |m|
    requires a < |m| && b < |m| && a != b && a !in {lo, hi} && b !in {lo, hi}
    ensures NewIndex(a, lo, hi) < |m| - 2 && NewIndex(b, lo, hi) < |m| - 2
    ensures NewIndex(a, lo, hi) != NewIndex(b, lo, hi)
    ensures Sym(Contracted(m, lo, hi), NewIndex(a, lo, hi), NewIndex(b, lo, hi)) == Sym(m, a, b)
  {
    var a', b' := NewIndex(a, lo, hi), NewIndex(b, lo, hi);
    if b' < a' {
      OldIndexMonotone(b', a', lo, hi);
    } else {
      OldIndexMonotone(a', b', lo, hi);
    }
  }

  /** The merged node is joined to every other node by the combination of
      that node's two cells with the merged pair. */
  lemma ContractedUnionCells(m: seq<seq<Cell>>, lo: nat, hi: nat, k: nat)
    requires Triangular(m) && lo < hi < |m|
    requires k < |m| && k !in {lo, hi}
    ensures NewIndex(k, lo, hi) < |m| - 2
    ensures Sym(Contracted(m, lo, hi), |m| - 2, NewIndex(k, lo, hi)) == MergeEdges(Sym(m, lo, k), Sym(m, hi, k))
  {
    var r := Contracted(m, lo, hi);
    var k' := NewIndex(k, lo, hi);
    assert r[|m| - 2][k'] == UnionCell(m, lo, hi, OldIndex(k', lo, hi));
  }

  /** The same cell in the three zones the source distinguishes, as it
      computes them: from the two rows for `k < lo`, through the `0` placeholder
      for `lo < k < hi`, and from row `k` for `k > hi`. */
  lemma ContractedUnionZones(m: seq<seq<Cell>>, lo: nat, hi: nat, k: nat)
    requires Triangular(m) && lo < hi < |m|
    requires k < |m| && k !in {lo, hi}
    ensures NewIndex(k, lo, hi) < |m| - 2
    ensures k < lo ==> Contracted(m, lo, hi)[|m| - 2][k] == MergeEdges(m[lo][k], m[hi][k])
    ensures lo < k < hi ==> Contracted(m, lo, hi)[|m| - 2][k - 1] == MergeEdges(m[k][lo], MergeEdges(m[hi][k], None))
    ensures hi < k ==> Contracted(m, lo, hi)[|m| - 2][k - 2] == MergeEdges(m[k][lo], m[k][hi])
  {
    ContractedUnionCells(m, lo, hi, k);
    if lo < k < hi {
      MergeEdgesThroughAbsent(m[k][lo], m[hi][k]);
    }
  }

  /** The stop list after the merge: the two merged stops are removed and
      the merged stop, `stops[lo].mergeWith(stops[hi])`, is appended. */
  function MergedStops(stops: seq<Stops.Stop>, lo: nat, hi: nat): (r: seq<Stops.Stop>)
    requires lo < hi < |stops|
    ensures |r| == |stops| - 1
    ensures r[|r| - 1] == Stops.MergeWith(stops[lo], stops[hi])
    ensures forall k :: 0 <= k < |r| - 1 ==> r[k] == stops[OldIndex(k, lo, hi)]
  {
    RemovePairRenumbers(stops, lo, hi);
    stops[..lo] + stops[lo + 1..hi] + stops[hi + 1..] + [Stops.MergeWith(stops[lo], stops[hi])]
  }

  /** A list with its elements at `lo` and `hi` cut out, read through the
      renumbering. */
  lemma RemovePairRenumbers<T>(s: seq<T>, lo: nat, hi: nat)
    requires lo < hi < |s|
    ensures |s[..lo] + s[lo + 1..hi] + s[hi + 1..]| == |s| - 2
    ensures forall k :: 0 <= k < |s| - 2 ==> (s[..lo] + s[lo + 1..hi] + s[hi + 1..])[k] == s[OldIndex(k, lo, hi)]
  {
    var a, b, c := s[..lo], s[lo + 1..hi], s[hi + 1..];
    forall k | 0 <= k < |s| - 2
      ensures (a + b + c)[k] == s[OldIndex(k, lo, hi)]
    {
      if k < lo {
        assert (a + b + c)[k] == a[k];
      } else if k < hi - 1 {
        assert (a + b + c)[k] == b[k - lo];
      } else {
        assert (a + b + c)[k] == c[k - lo - (hi - lo - 1)];
      }
    }
  }

  /** Stops stay aligned with the renumbered nodes. */
  lemma MergedStopsAligned(stops: seq<Stops.Stop>, lo: nat, hi: nat, k: nat)
    requires lo < hi < |stops| && k < |stops| && k !in {lo, hi}
    ensures NewIndex(k, lo, hi) < |stops| - 2
    ensures MergedStops(stops, lo, hi)[NewIndex(k, lo, hi)] == stops[k]
  {
  }

  /** The pair one iteration merges: the least node that has a TRANSFER
      edge, and its least TRANSFER neighbour. */
  function TransferPair(g: TransitGraph): (p: (nat, nat))
    requires g.Valid() && HasTransferEdge(g)
    ensures p.0 < p.1 < g.Length()
    ensures IsTransfer(g.CellAt(p.0, p.1))
    ensures forall v, w :: 0 <= v < p.0 && 0 <= w < g.Length() && v != w ==> !IsTransfer(g.CellAt(v, w))
    ensures forall w :: 0 <= w < p.1 && w != p.0 ==> !IsTransfer(g.CellAt(p.0, w))
  {
    var t := TransferGraph(g);
    TransferEdgeIffLinkedNode(g);
    LeastLinkedBeforeItsNeighbour(t);
    var lo := LeastLinkedNode(t);
    var hi := LeastNeighbour(t, lo);
    assert forall v, w :: 0 <= v < lo && 0 <= w < g.Length() && v != w ==> !t.EdgeExists(v, w) by {
      forall v, w | 0 <= v < lo && 0 <= w < g.Length() && v != w && t.EdgeExists(v, w)
        ensures false
      {
        assert t.HasNeighbour(v);
      }
    }
    (lo, hi)
  }

  /** One iteration of the outer loop of `mergeTransferNodes`. */
  function ContractStep(g: TransitGraph): (r: TransitGraph)
    requires g.Valid() && HasTransferEdge(g)
    ensures r.Valid() && r.Length() == g.Length() - 1
  {
    var (lo, hi) := TransferPair(g);
    TransitGraph(Contracted(g.cells, lo, hi), MergedStops(g.stops, lo, hi))
  }

  /** What `mergeTransferNodes` computes: contraction steps until no TRANSFER
      edge is left. */
  function FullyContracted(g: TransitGraph): (r: TransitGraph)
    requires g.Valid()
    ensures r.Valid() && !HasTransferEdge(r)
    ensures r.Length() <= g.Length()
    ensures HasTransferEdge(g) ==> r.Length() < g.Length()
    ensures !HasTransferEdge(g) ==> r == g
    decreases g.Length()
  {
    if HasTransferEdge(g) then FullyContracted(ContractStep(g)) else g
  }
}
