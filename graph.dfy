/** The transit graph the core operates on. lib/graph.js is not part of this
    model: a graph is represented here the way the core reads it, as a
    lower-triangular cell matrix (row `i` holds the cells `(i, j)` for every
    `j < i`) together with the stop list, index-aligned with the nodes. */
module Graph {
  import opened Wrappers
  import opened Enums
  import opened Seqs
  import Stops

  /** Edge weights are non-negative numbers. */
  type Weight = r: real | r >= 0.0

  /** The part of an edge record the matrix keeps: its type and weight. The
      endpoints are given by the cell's position. */
  datatype Edge = Edge(kind: EdgeType, weight: Weight)

  /** A matrix cell: an edge, or `None` for an absent (falsy) entry. */
  type Cell = Option<Edge>

  predicate IsTransfer(c: Cell) {
    c.Some? && c.value.kind == TRANSFER
  }

  /** Row `r` of the matrix holds exactly `r` cells. */
  predicate Triangular<T>(m: seq<seq<T>>) {
    forall r :: 0 <= r < |m| ==> |m[r]| == r
  }

  /** The cell of the unordered pair `{i, j}` of a triangular matrix, read at
      `(max, min)`. */
  function Sym(m: seq<seq<Cell>>, i: nat, j: nat): Cell
    requires Triangular(m) && i < |m| && j < |m| && i != j
  {
    if j < i then m[i][j] else m[j][i]
  }

  datatype TransitGraph = TransitGraph(cells: seq<seq<Cell>>, stops: seq<Stops.Stop>) {

    /** `graph.length()`: the number of nodes. */
    function Length(): nat {
      |cells|
    }

    predicate Valid() {
      Triangular(cells) && |stops| == |cells|
    }

    /** The cell of the unordered pair `{i, j}`, read at `(max, min)`. */
    function CellAt(i: nat, j: nat): Cell
      requires Valid() && i < Length() && j < Length() && i != j
    {
      Sym(cells, i, j)
    }

    /** `edgeExists(i, j)`: the graph is undirected and has no self-loops. */
    predicate EdgeExists(i: int, j: int)
      requires Valid()
    {
      0 <= i < Length() && 0 <= j < Length() && i != j && CellAt(i, j).Some?
    }

    /** Node `s` has at least one neighbour. */
    predicate HasNeighbour(s: int)
      requires Valid()
    {
      exists j | 0 <= j < Length() :: EdgeExists(s, j)
    }
  }

  /** `getTransferEdges().length() > 0`. */
  predicate HasTransferEdge(g: TransitGraph) {
    exists i, j | 0 <= i < |g.cells| && 0 <= j < |g.cells[i]| :: IsTransfer(g.cells[i][j])
  }

  function TransferOnly(c: Cell): (r: Cell)
    ensures r.Some? <==> IsTransfer(c)
    ensures r.Some? ==> r == c
  {
    if IsTransfer(c) then c else None
  }

  /** `getTransferGraph()`: the same nodes and stops, with every edge that is
      not a TRANSFER edge removed. */
  function TransferGraph(g: TransitGraph): (t: TransitGraph)
    requires g.Valid()
    ensures t.Valid() && t.Length() == g.Length() && t.stops == g.stops
    ensures forall i, j :: t.EdgeExists(i, j) <==> g.EdgeExists(i, j) && IsTransfer(g.CellAt(i, j))
  {
    TransitGraph(
      seq(|g.cells|, i requires 0 <= i < |g.cells| =>
        seq(|g.cells[i]|, j requires 0 <= j < |g.cells[i]| => TransferOnly(g.cells[i][j]))),
      g.stops)
  }

  /** A graph has a TRANSFER edge exactly when its transfer graph has a node
      with a neighbour. */
  lemma TransferEdgeIffLinkedNode(g: TransitGraph)
    requires g.Valid()
    ensures HasTransferEdge(g) <==> exists s | 0 <= s < g.Length() :: TransferGraph(g).HasNeighbour(s)
  {
    var t := TransferGraph(g);
    if HasTransferEdge(g) {
      var i, j :| 0 <= i < |g.cells| && 0 <= j < |g.cells[i]| && IsTransfer(g.cells[i][j]);
      assert t.EdgeExists(i, j);
      assert t.HasNeighbour(i);
    }
    if exists s | 0 <= s < g.Length() :: t.HasNeighbour(s) {
      var s :| 0 <= s < g.Length() && t.HasNeighbour(s);
      var j :| 0 <= j < t.Length() && t.EdgeExists(s, j);
      if j < s {
        assert IsTransfer(g.cells[s][j]);
      } else {
        assert IsTransfer(g.cells[j][s]);
      }
    }
  }

  // ---- Least neighbours, which fix the traversal order ----

  function LeastNeighbourFrom(g: TransitGraph, s: nat, j: nat): (t: nat)
    requires g.Valid() && exists k | j <= k < g.Length() :: g.EdgeExists(s, k)
    ensures j <= t < g.Length() && g.EdgeExists(s, t)
    ensures forall k :: j <= k < t ==> !g.EdgeExists(s, k)
    decreases g.Length() - j
  {
    if g.EdgeExists(s, j) then j else LeastNeighbourFrom(g, s, j + 1)
  }

  /** The neighbour of `s` with the smallest index. */
  function LeastNeighbour(g: TransitGraph, s: nat): (t: nat)
    requires g.Valid() && g.HasNeighbour(s)
    ensures g.EdgeExists(s, t)
    ensures forall k :: 0 <= k < t ==> !g.EdgeExists(s, k)
  {
    LeastNeighbourFrom(g, s, 0)
  }

  function LeastLinkedNodeFrom(g: TransitGraph, s: nat): (r: nat)
    requires g.Valid() && exists k | s <= k < g.Length() :: g.HasNeighbour(k)
    ensures s <= r < g.Length() && g.HasNeighbour(r)
    ensures forall k :: s <= k < r ==> !g.HasNeighbour(k)
    decreases g.Length() - s
  {
    if g.HasNeighbour(s) then s else LeastLinkedNodeFrom(g, s + 1)
  }

  /** The node with the smallest index that has a neighbour. */
  function LeastLinkedNode(g: TransitGraph): (r: nat)
    requires g.Valid() && exists k | 0 <= k < g.Length() :: g.HasNeighbour(k)
    ensures g.HasNeighbour(r)
    ensures forall k :: 0 <= k < r ==> !g.HasNeighbour(k)
  {
    LeastLinkedNodeFrom(g, 0)
  }

  /** The least linked node comes before its least neighbour. */
  lemma LeastLinkedBeforeItsNeighbour(g: TransitGraph)
    requires g.Valid() && exists k | 0 <= k < g.Length() :: g.HasNeighbour(k)
    ensures LeastLinkedNode(g) < LeastNeighbour(g, LeastLinkedNode(g))
  {
    var s := LeastLinkedNode(g);
    var t := LeastNeighbour(g, s);
    if t < s {
      assert g.EdgeExists(t, s);
      assert g.HasNeighbour(t);
      assert false;
    }
  }

  // ---- Reachability ----

  /** `p` is a walk: consecutive nodes are joined by an edge. */
  ghost predicate IsWalk(g: TransitGraph, p: seq<nat>)
    requires g.Valid()
  {
    && |p| > 0
    && (forall k :: 0 <= k < |p| ==> p[k] < g.Length())
    && (forall k :: 0 <= k < |p| - 1 ==> g.EdgeExists(p[k], p[k + 1]))
  }

  ghost predicate Reachable(g: TransitGraph, s: nat, t: nat)
    requires g.Valid()
  {
    exists p :: IsWalk(g, p) && p[0] == s && p[|p| - 1] == t
  }

  /** The connected component of `s`. */
  ghost function Component(g: TransitGraph, s: nat): set<nat>
    requires g.Valid()
  {
    set t: nat | t < g.Length() && Reachable(g, s, t)
  }

  lemma ReachableSelf(g: TransitGraph, s: nat)
    requires g.Valid() && s < g.Length()
    ensures Reachable(g, s, s)
  {
    assert IsWalk(g, [s]);
  }

  lemma ReachableStep(g: TransitGraph, s: nat, a: nat, b: nat)
    requires g.Valid() && Reachable(g, s, a) && g.EdgeExists(a, b)
    ensures Reachable(g, s, b)
  {
    var p :| IsWalk(g, p) && p[0] == s && p[|p| - 1] == a;
    var q := p + [b];
    assert IsWalk(g, q);
  }

  lemma ReachableSymmetric(g: TransitGraph, s: nat, t: nat)
    requires g.Valid() && Reachable(g, s, t)
    ensures Reachable(g, t, s)
  {
    var p :| IsWalk(g, p) && p[0] == s && p[|p| - 1] == t;
    var q := seq(|p|, k requires 0 <= k < |p| => p[|p| - 1 - k]);
    forall k | 0 <= k < |q| - 1
      ensures g.EdgeExists(q[k], q[k + 1])
    {
      assert g.EdgeExists(p[|p| - 2 - k], p[|p| - 1 - k]);
    }
    assert IsWalk(g, q);
  }

  lemma ReachableTransitive(g: TransitGraph, s: nat, t: nat, u: nat)
    requires g.Valid() && Reachable(g, s, t) && Reachable(g, t, u)
    ensures Reachable(g, s, u)
  {
    var p :| IsWalk(g, p) && p[0] == s && p[|p| - 1] == t;
    var q :| IsWalk(g, q) && q[0] == t && q[|q| - 1] == u;
    var w := p + q[1..];
    forall k | 0 <= k < |w| - 1
      ensures g.EdgeExists(w[k], w[k + 1])
    {
      if k < |p| - 1 {
        assert w[k] == p[k] && w[k + 1] == p[k + 1];
      } else {
        assert w[k] == q[k - |p| + 1] && w[k + 1] == q[k - |p| + 2];
      }
    }
    assert IsWalk(g, w);
  }

  /** `V` contains every neighbour of each of its nodes. */
  ghost predicate Closed(g: TransitGraph, V: set<nat>)
    requires g.Valid()
  {
    forall v, j :: v in V && g.EdgeExists(v, j) ==> j in V
  }

  lemma {:induction false} WalkStaysInClosed(g: TransitGraph, V: set<nat>, p: seq<nat>)
    requires g.Valid() && Closed(g, V) && IsWalk(g, p) && p[0] in V
    ensures p[|p| - 1] in V
    decreases |p|
  {
    if |p| > 1 {
      var p' := p[..|p| - 1];
      assert IsWalk(g, p');
      WalkStaysInClosed(g, V, p');
      assert g.EdgeExists(p[|p| - 2], p[|p| - 1]);
    }
  }

  /** A closed set holding `s` holds its whole component. */
  lemma ClosedContainsComponent(g: TransitGraph, V: set<nat>, s: nat)
    requires g.Valid() && Closed(g, V) && s in V
    ensures Component(g, s) <= V
  {
    forall t | t in Component(g, s)
      ensures t in V
    {
      var p :| IsWalk(g, p) && p[0] == s && p[|p| - 1] == t;
      WalkStaysInClosed(g, V, p);
    }
  }

  /** Two components either coincide or are disjoint. */
  lemma ComponentsDisjoint(g: TransitGraph, a: nat, b: nat)
    requires g.Valid() && a < g.Length() && a !in Component(g, b)
    ensures Component(g, a) !! Component(g, b)
  {
    if t :| t in Component(g, a) && t in Component(g, b) {
      ReachableSymmetric(g, a, t);
      ReachableTransitive(g, b, t, a);
      assert false;
    }
  }

  /** A node without neighbours is alone in its component; otherwise its
      least neighbour is in the component too. */
  lemma ComponentOfIsolated(g: TransitGraph, s: nat)
    requires g.Valid() && s < g.Length()
    ensures s in Component(g, s)
    ensures !g.HasNeighbour(s) ==> Component(g, s) == {s}
    ensures g.HasNeighbour(s) ==> LeastNeighbour(g, s) in Component(g, s) && LeastNeighbour(g, s) != s
  {
    ReachableSelf(g, s);
    if !g.HasNeighbour(s) {
      assert Closed(g, {s});
      ClosedContainsComponent(g, {s}, s);
    } else {
      ReachableStep(g, s, s, LeastNeighbour(g, s));
    }
  }
}
