/** `mergeTransferNodes` of lib/traversals.js: while the graph has a TRANSFER
    edge, group the nodes by `dfs` over the transfer graph, merge the first
    two nodes of the first grouping of more than one node, and rebuild the
    graph from the merged matrix. */
module Transfers {
  import opened Wrappers
  import opened Seqs
  import opened Graph
  import opened Contraction
  import opened Search
  import opened Surgery
  import opened EdgeLists

  // ---- Node groupings ----

  /** The nodes of the groupings, in order: what `seenNodes` collects. */
  function Flatten(groupings: seq<seq<nat>>): (r: seq<nat>)
    ensures forall k :: 0 <= k < |groupings| ==> |groupings[k]| <= |r|
  {
    if groupings == [] then []
    else Flatten(groupings[..|groupings| - 1]) + groupings[|groupings| - 1]
  }

  lemma {:induction false} FlattenMember(groupings: seq<seq<nat>>, v: nat)
    ensures v in Flatten(groupings) <==> exists k :: 0 <= k < |groupings| && v in groupings[k]
  {
    if groupings != [] {
      var n := |groupings| - 1;
      FlattenMember(groupings[..n], v);
      assert forall k :: 0 <= k < n ==> groupings[..n][k] == groupings[k];
    }
  }

  lemma FlattenPush(groupings: seq<seq<nat>>, g: seq<nat>)
    ensures Flatten(groupings + [g]) == Flatten(groupings) + g
  {
    assert (groupings + [g])[..|groupings|] == groupings;
  }

  /** One grouping found by the loop: the nodes `dfs` visits from its first
      node, which is the least node of its component. */
  ghost predicate Grouping(t: TransitGraph, grp: seq<nat>)
    requires t.Valid()
  {
    && |grp| > 0 && Distinct(grp)
    && (forall v :: v in grp <==> v in Component(t, grp[0]))
    && (forall v :: v in grp ==> grp[0] <= v)
    && (t.HasNeighbour(grp[0]) ==> |grp| >= 2 && grp[1] == LeastNeighbour(t, grp[0]))
  }

  /** The state of the grouping loop once the nodes below `node` are done:
      `seen` lists every node of every grouping exactly once, every node
      below `node` is in some grouping, and the groupings start at
      ascending nodes. */
  ghost predicate PartitionedUpTo(t: TransitGraph, seen: seq<nat>, groupings: seq<seq<nat>>, node: nat)
    requires t.Valid()
  {
    && seen == Flatten(groupings)
    && Distinct(seen)
    && (forall v :: v in seen ==> v < t.Length())
    && (forall v :: 0 <= v < node ==> v in seen)
    && (forall k :: 0 <= k < |groupings| ==> Grouping(t, groupings[k]) && groupings[k][0] < node)
    && (forall k, l :: 0 <= k < l < |groupings| ==> groupings[k][0] < groupings[l][0])
  }

  /** A node already seen is in a grouping: skipping it keeps the invariant. */
  lemma SkipSeen(t: TransitGraph, seen: seq<nat>, groupings: seq<seq<nat>>, node: nat)
    requires t.Valid() && PartitionedUpTo(t, seen, groupings, node) && node in seen
    ensures PartitionedUpTo(t, seen, groupings, node + 1)
  {
  }

  /** A seen node is in the component of the start of its grouping. */
  lemma SeenInComponent(t: TransitGraph, seen: seq<nat>, groupings: seq<seq<nat>>, node: nat, x: nat)
    requires t.Valid() && PartitionedUpTo(t, seen, groupings, node) && x in seen
    ensures exists k :: 0 <= k < |groupings| && x in Component(t, groupings[k][0])
  {
    FlattenMember(groupings, x);
  }

  /** The component of an unseen node shares no node with the groupings. */
  lemma UnseenComponentFresh(t: TransitGraph, seen: seq<nat>, groupings: seq<seq<nat>>, node: nat, x: nat)
    requires t.Valid() && PartitionedUpTo(t, seen, groupings, node)
    requires node < t.Length() && node !in seen && x in Component(t, node)
    ensures x !in seen
  {
    if x in seen {
      SeenInComponent(t, seen, groupings, node, x);
      var k :| 0 <= k < |groupings| && x in Component(t, groupings[k][0]);
      FlattenMember(groupings, node);
      ComponentsDisjoint(t, node, groupings[k][0]);
      assert false;
    }
  }

  /** The nodes `dfs` visits from an unseen node are all unseen, and none
      lies below it. */
  lemma VisitedFresh(t: TransitGraph, seen: seq<nat>, groupings: seq<seq<nat>>, node: nat, visited: seq<nat>)
    requires t.Valid() && PartitionedUpTo(t, seen, groupings, node)
    requires node < t.Length() && node !in seen
    requires forall v :: v in visited <==> v in Component(t, node)
    ensures forall x :: x in visited ==> x !in seen && node <= x && x < t.Length()
  {
    forall x | x in visited
      ensures x !in seen && node <= x && x < t.Length()
    {
      UnseenComponentFresh(t, seen, groupings, node, x);
    }
  }

  /** The order and membership facts of the new grouping. */
  lemma NewGrouping(t: TransitGraph, node: nat, visited: seq<nat>)
    requires t.Valid() && node < t.Length()
    requires Distinct(visited) && |visited| > 0 && visited[0] == node
    requires forall v :: v in visited <==> v in Component(t, node)
    requires forall x :: x in visited ==> node <= x
    requires t.HasNeighbour(node) ==> |visited| >= 2 && visited[1] == LeastNeighbour(t, node)
    ensures Grouping(t, visited)
  {
  }

  /** Appending a grouping that starts at `node` keeps the groupings
      well formed and their starts ascending. */
  lemma GroupingsPush(t: TransitGraph, groupings: seq<seq<nat>>, node: nat, visited: seq<nat>)
    requires t.Valid()
    requires forall k :: 0 <= k < |groupings| ==> Grouping(t, groupings[k]) && groupings[k][0] < node
    requires forall k, l :: 0 <= k < l < |groupings| && |groupings[k]| > 0 && |groupings[l]| > 0 ==> groupings[k][0] < groupings[l][0]
    requires Grouping(t, visited) && visited[0] == node
    ensures var groupings' := groupings + [visited];
            (forall k :: 0 <= k < |groupings'| ==> Grouping(t, groupings'[k]) && groupings'[k][0] < node + 1) &&
            (forall k, l :: 0 <= k < l < |groupings'| ==> groupings'[k][0] < groupings'[l][0])
  {
    var groupings' := groupings + [visited];
    forall k | 0 <= k < |groupings'|
      ensures Grouping(t, groupings'[k]) && groupings'[k][0] < node + 1
    {
      if k < |groupings| {
        assert groupings'[k] == groupings[k];
      }
    }
    forall k, l | 0 <= k < l < |groupings'|
      ensures groupings'[k][0] < groupings'[l][0]
    {
      assert groupings'[k] == groupings[k];
      if l < |groupings| {
        assert groupings'[l] == groupings[l];
      }
    }
  }

  /** Appending the nodes visited from `node` keeps every seen node in
      range and covers `node` too. */
  lemma SeenPush(seen: seq<nat>, visited: seq<nat>, node: nat, n: nat)
    requires forall v :: v in seen ==> v < n
    requires forall v :: v in visited ==> v < n
    requires forall v :: 0 <= v < node ==> v in seen
    requires |visited| > 0 && visited[0] == node
    ensures forall v :: v in seen + visited ==> v < n
    ensures forall v :: 0 <= v < node + 1 ==> v in seen + visited
  {
    assert visited[0] in visited;
  }

  /** The nodes `dfs` visits from an unseen node form a new grouping. */
  lemma AddGrouping(t: TransitGraph, seen: seq<nat>, groupings: seq<seq<nat>>, node: nat, visited: seq<nat>)
    requires t.Valid() && PartitionedUpTo(t, seen, groupings, node)
    requires node < t.Length() && node !in seen
    requires Distinct(visited) && |visited| > 0 && visited[0] == node
    requires forall v :: v in visited <==> v in Component(t, node)
    requires t.HasNeighbour(node) ==> |visited| >= 2 && visited[1] == LeastNeighbour(t, node)
    ensures PartitionedUpTo(t, seen + visited, groupings + [visited], node + 1)
  {
    FlattenPush(groupings, visited);
    VisitedFresh(t, seen, groupings, node, visited);
    DistinctConcat(seen, visited);
    NewGrouping(t, node, visited);
    GroupingsPush(t, groupings, node, visited);
    SeenPush(seen, visited, node, t.Length());
  }

  /** `traverser.visitedNodes.forEach((node) => seenNodes.push(node))`. */
  method PushEach(seen: seq<nat>, visited: seq<nat>) returns (r: seq<nat>)
    ensures r == seen + visited
  {
    r := seen;
    var k := 0;
    while k < |visited|
      invariant k <= |visited|
      invariant r == seen + visited[..k]
    {
      assert visited[..k + 1] == visited[..k] + [visited[k]];
      r := r + [visited[k]];
      k := k + 1;
    }
    assert visited[..|visited|] == visited;
  }

  /** The nodes a fresh traverser has seen once `dfs` has run. */
  lemma FreshVisitedNodes(events: seq<Event>, trail: seq<Event>, n: nat)
    requires events == [] + (trail + [Summary(n)])
    ensures NodesOf(events) == NodesOf(trail)
  {
    assert events == trail + [Summary(n)];
    NodesOfAppend(trail, [Summary(n)]);
    assert [Summary(n)][..0] == [];
  }

  /** The grouping loop of `mergeTransferNodes`: a `dfs` from every node not
      seen yet, ascending; each records the nodes it visits. */
  method Partition(t: TransitGraph) returns (nodeGroupings: seq<seq<nat>>)
    requires t.Valid()
    ensures PartitionedUpTo(t, Flatten(nodeGroupings), nodeGroupings, t.Length())
  {
    var seenNodes: seq<nat> := [];
    nodeGroupings := [];
    var node := 0;
    while node < t.Length()
      invariant node <= t.Length()
      invariant PartitionedUpTo(t, seenNodes, nodeGroupings, node)
    {
      if IndexOf(seenNodes, node) == -1 {
        var traverser := new Traverser();
        ghost var log, trail := Dfs(t, node, traverser);
        FreshVisitedNodes(traverser.events, trail, |NodesOf(trail)|);
        var visited := traverser.VisitedNodes();
        AddGrouping(t, seenNodes, nodeGroupings, node, visited);
        nodeGroupings := nodeGroupings + [visited];
        seenNodes := PushEach(seenNodes, visited);
      } else {
        SkipSeen(t, seenNodes, nodeGroupings, node);
      }
      node := node + 1;
    }
  }

  /** Once the loop is done the groupings cover exactly the nodes of the
      graph. */
  lemma PartitionCovers(t: TransitGraph, groupings: seq<seq<nat>>, v: nat)
    requires t.Valid() && PartitionedUpTo(t, Flatten(groupings), groupings, t.Length())
    ensures v < t.Length() <==> exists k :: 0 <= k < |groupings| && v in groupings[k]
  {
    FlattenMember(groupings, v);
  }

  /** No node lies in two groupings. */
  lemma PartitionDisjoint(t: TransitGraph, groupings: seq<seq<nat>>, k: nat, l: nat, v: nat)
    requires t.Valid() && PartitionedUpTo(t, Flatten(groupings), groupings, t.Length())
    requires k < l < |groupings| && v in groupings[k]
    ensures v !in groupings[l]
  {
    var sk, sl := groupings[k][0], groupings[l][0];
    if v in groupings[l] {
      assert sk in Flatten(groupings) by {
        FlattenMember(groupings, sk);
      }
      if sk !in Component(t, sl) {
        ComponentsDisjoint(t, sk, sl);
      }
      assert false;
    }
  }

  /** The groupings of more than one node. */
  function Filter(groupings: seq<seq<nat>>): (r: seq<seq<nat>>)
    ensures forall x :: x in r <==> x in groupings && |x| > 1
  {
    if groupings == [] then []
    else (if |groupings[0]| > 1 then [groupings[0]] else []) + Filter(groupings[1..])
  }

  /** The first grouping of more than one node heads the filtered list. */
  lemma {:induction false} FilterFirst(groupings: seq<seq<nat>>, k: nat)
    requires k < |groupings| && |groupings[k]| > 1
    requires forall j :: 0 <= j < k ==> |groupings[j]| <= 1
    ensures |Filter(groupings)| > 0 && Filter(groupings)[0] == groupings[k]
  {
    if k > 0 {
      FilterFirst(groupings[1..], k - 1);
    }
  }

  /** A node without a neighbour makes a grouping of its own. */
  lemma IsolatedGrouping(t: TransitGraph, grp: seq<nat>)
    requires t.Valid() && Grouping(t, grp) && grp[0] < t.Length() && !t.HasNeighbour(grp[0])
    ensures |grp| == 1
  {
    ComponentOfIsolated(t, grp[0]);
    assert Elems(grp) == {grp[0]};
    DistinctCard(grp);
  }

  /** The grouping holding the least linked node starts at it. */
  lemma LeastLinkedGrouping(t: TransitGraph, nodeGroupings: seq<seq<nat>>, lo: nat) returns (k: nat)
    requires t.Valid() && PartitionedUpTo(t, Flatten(nodeGroupings), nodeGroupings, t.Length())
    requires (exists v | 0 <= v < t.Length() :: t.HasNeighbour(v)) && lo == LeastLinkedNode(t)
    ensures k < |nodeGroupings| && nodeGroupings[k][0] == lo
  {
    FlattenMember(nodeGroupings, lo);
    k :| 0 <= k < |nodeGroupings| && lo in nodeGroupings[k];
    var s := nodeGroupings[k][0];
    assert s in Flatten(nodeGroupings) by {
      FlattenMember(nodeGroupings, s);
    }
    if s < lo {
      ComponentOfIsolated(t, s);
      assert false;
    }
  }

  /** The groupings before the one of the least linked node are single nodes. */
  lemma EarlierGroupingsSingle(t: TransitGraph, nodeGroupings: seq<seq<nat>>, lo: nat, k: nat)
    requires t.Valid() && PartitionedUpTo(t, Flatten(nodeGroupings), nodeGroupings, t.Length())
    requires (exists v | 0 <= v < t.Length() :: t.HasNeighbour(v)) && lo == LeastLinkedNode(t)
    requires k < |nodeGroupings| && nodeGroupings[k][0] == lo
    ensures forall j :: 0 <= j < k ==> |nodeGroupings[j]| <= 1
  {
    forall j | 0 <= j < k
      ensures |nodeGroupings[j]| <= 1
    {
      var sj := nodeGroupings[j][0];
      assert sj in Flatten(nodeGroupings) by {
        FlattenMember(nodeGroupings, sj);
      }
      IsolatedGrouping(t, nodeGroupings[j]);
    }
  }

  /** The pair `mergeTop` is given is the least node with a TRANSFER edge
      and its least TRANSFER neighbour. */
  lemma FirstMergeGroup(g: TransitGraph, t: TransitGraph, nodeGroupings: seq<seq<nat>>)
    requires g.Valid() && HasTransferEdge(g) && t == TransferGraph(g)
    requires PartitionedUpTo(t, Flatten(nodeGroupings), nodeGroupings, g.Length())
    ensures var nodesToMerge := Filter(nodeGroupings);
            |nodesToMerge| > 0 && |nodesToMerge[0]| > 1 &&
            (nodesToMerge[0][0], nodesToMerge[0][1]) == TransferPair(g)
  {
    TransferEdgeIffLinkedNode(g);
    var lo := LeastLinkedNode(t);
    assert TransferPair(g) == (lo, LeastNeighbour(t, lo));
    var k := LeastLinkedGrouping(t, nodeGroupings, lo);
    EarlierGroupingsSingle(t, nodeGroupings, lo, k);
    FilterFirst(nodeGroupings, k);
  }

  // ---- The outer loop ----

  /** One iteration of the outer loop: group, merge the first pair, rebuild
      the graph from the merged matrix. */
  method MergeOnce(graph: TransitGraph) returns (next: TransitGraph)
    requires graph.Valid() && HasTransferEdge(graph)
    ensures next == ContractStep(graph)
    ensures next.Valid() && next.Length() == graph.Length() - 1
  {
    var transferGraph := TransferGraph(graph);
    var nodeGroupings := Partition(transferGraph);
    var nodesToMerge := Filter(nodeGroupings);
    FirstMergeGroup(graph, transferGraph, nodeGroupings);
    var surgery := new MatrixSurgery(graph);
    surgery.MergeTop(nodesToMerge[0][0], nodesToMerge[0][1]);
    var newNumNodes := graph.Length() - 1;
    var merged := CellsOf(surgery.newGraph);
    var newEdgeList := CollectEdges(merged);
    EdgeListRoundTrip(merged, surgery.newStops);
    next := FromEdgeList(newEdgeList, newNumNodes, surgery.newStops);
  }

  /** `mergeTransferNodes(graph)`: `undefined` without a TRANSFER edge;
      otherwise the graph once every TRANSFER edge has been contracted. */
  method MergeTransferNodes(graph: TransitGraph) returns (r: Option<TransitGraph>)
    requires graph.Valid()
    ensures r.None? <==> !HasTransferEdge(graph)
    ensures r.Some? ==> r.value == FullyContracted(graph)
    ensures r.Some? ==> r.value.Valid() && !HasTransferEdge(r.value) && r.value.Length() < graph.Length()
  {
    if !HasTransferEdge(graph) {
      return None;
    }
    var g := graph;
    while HasTransferEdge(g)
      invariant g.Valid() && g.Length() <= graph.Length()
      invariant FullyContracted(g) == FullyContracted(graph)
      decreases g.Length()
    {
      g := MergeOnce(g);
    }
    return Some(g);
  }
}
