/** The edge list `mergeTransferNodes` builds from the merged matrix, and the
    graph built back from it. lib/edgeList.js, lib/edge.js and the
    `TransitGraph` constructor of lib/graph.js are not part of this model:
    an edge list is the sequence of the records added to it, and the
    constructor is taken to store every record in the cell of its two
    endpoints, a later record overwriting an earlier one. */
module EdgeLists {
  import opened Wrappers
  import opened Enums
  import opened Graph
  import Stops

  /** `new Edge({type, origin, destination, weight})`. */
  datatype EdgeRecord = EdgeRecord(kind: EdgeType, origin: nat, destination: nat, weight: Weight)

  /** The records for the cells `(i, j)` of one row, in ascending `j`. */
  function RowEdges(row: seq<Cell>, i: nat): (r: seq<EdgeRecord>)
    ensures forall e :: e in r ==> e.origin == i && e.destination < |row| && row[e.destination] == Some(Edge(e.kind, e.weight))
  {
    if row == [] then []
    else
      var j := |row| - 1;
      RowEdges(row[..j], i) + (if row[j].Some? then [EdgeRecord(row[j].value.kind, i, j, row[j].value.weight)] else [])
  }

  /** The records the double loop adds: row by row, and within a row in
      ascending column, one per present cell. */
  function EdgesOf(m: seq<seq<Cell>>): (r: seq<EdgeRecord>)
    requires Triangular(m)
    ensures forall e :: e in r ==> e.destination < e.origin < |m| && m[e.origin][e.destination] == Some(Edge(e.kind, e.weight))
  {
    if m == [] then []
    else
      var i := |m| - 1;
      EdgesOf(m[..i]) + RowEdges(m[i], i)
  }

  /** Whether a record joins `i` and `j`, in either orientation. */
  predicate Joins(e: EdgeRecord, i: nat, j: nat) {
    (e.origin == i && e.destination == j) || (e.origin == j && e.destination == i)
  }

  /** The cell the graph built from `edges` holds for the pair `{i, j}`:
      the last record joining them, if any. */
  function Lookup(edges: seq<EdgeRecord>, i: nat, j: nat): (c: Cell)
    ensures c.None? <==> forall e :: e in edges ==> !Joins(e, i, j)
  {
    if edges == [] then None
    else
      var e := edges[|edges| - 1];
      if Joins(e, i, j) then Some(Edge(e.kind, e.weight)) else Lookup(edges[..|edges| - 1], i, j)
  }

  /** `new TransitGraph(edgeList, numNodes, stops)`. */
  function FromEdgeList(edges: seq<EdgeRecord>, numNodes: nat, stops: seq<Stops.Stop>): (g: TransitGraph)
    ensures Triangular(g.cells) && g.Length() == numNodes && g.stops == stops
  {
    TransitGraph(seq(numNodes, i requires 0 <= i < numNodes => seq(i, j requires 0 <= j < i => Lookup(edges, i, j))), stops)
  }

  /** A later list takes precedence over an earlier one. */
  lemma {:induction false} LookupAppend(a: seq<EdgeRecord>, b: seq<EdgeRecord>, i: nat, j: nat)
    ensures Lookup(a + b, i, j) == if Lookup(b, i, j).Some? then Lookup(b, i, j) else Lookup(a, i, j)
    decreases |b|
  {
    if b == [] {
      assert a + b == a;
    } else {
      var b' := b[..|b| - 1];
      assert (a + b)[..|a + b| - 1] == a + b';
      LookupAppend(a, b', i, j);
    }
  }

  /** Looking a cell up among the records of one row of a triangular matrix. */
  lemma {:induction false} LookupRow(row: seq<Cell>, r: nat, i: nat, j: nat)
    requires j < i && |row| <= r
    ensures Lookup(RowEdges(row, r), i, j) == if i == r && j < |row| then row[j] else None
    decreases |row|
  {
    if row != [] {
      var c := |row| - 1;
      LookupRow(row[..c], r, i, j);
      var tail := if row[c].Some? then [EdgeRecord(row[c].value.kind, r, c, row[c].value.weight)] else [];
      LookupAppend(RowEdges(row[..c], r), tail, i, j);
      if tail != [] {
        assert tail[..0] == [];
      }
    }
  }

  /** Every cell of a triangular matrix is found again among its records. */
  lemma {:induction false} LookupEdgesOf(m: seq<seq<Cell>>, i: nat, j: nat)
    requires Triangular(m) && j < i
    ensures Lookup(EdgesOf(m), i, j) == if i < |m| then m[i][j] else None
    decreases |m|
  {
    if m != [] {
      var r := |m| - 1;
      LookupEdgesOf(m[..r], i, j);
      LookupAppend(EdgesOf(m[..r]), RowEdges(m[r], r), i, j);
      LookupRow(m[r], r, i, j);
    }
  }

  /** A row of the graph built from the records of a matrix is the matrix's row. */
  lemma RowRoundTrip(m: seq<seq<Cell>>, i: nat)
    requires Triangular(m) && i < |m|
    ensures seq(i, j requires 0 <= j < i => Lookup(EdgesOf(m), i, j)) == m[i]
  {
    var row := seq(i, j requires 0 <= j < i => Lookup(EdgesOf(m), i, j));
    forall j | 0 <= j < i
      ensures row[j] == m[i][j]
    {
      LookupEdgesOf(m, i, j);
    }
  }

  /** Building a graph from the records of a matrix gives the matrix back. */
  lemma EdgeListRoundTrip(m: seq<seq<Cell>>, stops: seq<Stops.Stop>)
    requires Triangular(m)
    ensures FromEdgeList(EdgesOf(m), |m|, stops) == TransitGraph(m, stops)
  {
    var cells := FromEdgeList(EdgesOf(m), |m|, stops).cells;
    forall i | 0 <= i < |m|
      ensures cells[i] == m[i]
    {
      RowRoundTrip(m, i);
    }
    assert cells == m;
  }

  /** The double loop of `mergeTransferNodes` that fills `newEdgeList`. */
  method CollectEdges(m: seq<seq<Cell>>) returns (edges: seq<EdgeRecord>)
    requires Triangular(m)
    ensures edges == EdgesOf(m)
  {
    edges := [];
    var i := 0;
    while i < |m|
      invariant i <= |m|
      invariant edges == EdgesOf(m[..i])
    {
      ghost var before := edges;
      var j := 0;
      while j < i
        invariant j <= i
        invariant edges == before + RowEdges(m[i][..j], i)
      {
        assert m[i][..j + 1][..j] == m[i][..j];
        if m[i][j].Some? {
          edges := edges + [EdgeRecord(m[i][j].value.kind, i, j, m[i][j].value.weight)];
        }
        j := j + 1;
      }
      assert m[i][..i] == m[i];
      assert m[..i + 1][..i] == m[..i];
      i := i + 1;
    }
    assert m[..|m|] == m;
  }
}
