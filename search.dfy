/** `dfs` and `bfs` of lib/traversals.js, driven by a visited array `D`
    and reporting to a traverser. The traverser (lib/graphTraverser.js is
    not part of this model) is a log of the events it is sent; its
    `visitedNodes` are the arguments of the `visitNode` events in order. */
module Search {
  import opened Wrappers
  import opened Seqs
  import opened Enums
  import opened Graph
  import Stops

  /** One call on the traverser. `Visit(a, b)` and `Leave(a, b)` stand for
      `visit(graph.createEdge(a, b))` and `leave(graph.createEdge(a, b))`. */
  datatype Event =
    | VisitNode(node: nat)
    | Visit(origin: nat, destination: nat)
    | Leave(origin: nat, destination: nat)
    | Summary(stationsVisited: nat)

  /** The nodes passed to `visitNode`, in order. */
  function NodesOf(log: seq<Event>): (r: seq<nat>)
    ensures |r| <= |log|
  {
    if log == [] then []
    else
      var last := log[|log| - 1];
      NodesOf(log[..|log| - 1]) + (if last.VisitNode? then [last.node] else [])
  }

  lemma {:induction false} NodesOfAppend(a: seq<Event>, b: seq<Event>)
    ensures NodesOf(a + b) == NodesOf(a) + NodesOf(b)
    decreases |b|
  {
    if b == [] {
      assert a + b == a;
    } else {
      var b' := b[..|b| - 1];
      assert (a + b)[..|a + b| - 1] == a + b';
      NodesOfAppend(a, b');
    }
  }

  lemma DistinctConcat<T>(a: seq<T>, b: seq<T>)
    requires Distinct(a) && Distinct(b)
    requires forall x :: x in a ==> x !in b
    ensures Distinct(a + b)
  {
    forall i, j | 0 <= i < j < |a + b|
      ensures (a + b)[i] != (a + b)[j]
    {
      if i < |a| && |a| <= j {
        assert (a + b)[i] in a && (a + b)[j] in b;
      }
    }
  }

  lemma AppendPair<T>(a: seq<T>, x: T, y: T)
    ensures a + [x] + [y] == a + [x, y]
  {
  }

  lemma AppendAssoc<T>(a: seq<T>, b: seq<T>, c: seq<T>)
    ensures a + b + c == a + (b + c)
  {
  }

  /** The observer of a traversal: every hook appends its event. */
  class Traverser {
    var events: seq<Event>

    constructor ()
      ensures events == []
    {
      events := [];
    }

    /** `traverser.visitedNodes`. */
    function VisitedNodes(): seq<nat>
      reads this
    {
      NodesOf(events)
    }

    method VisitNode(node: nat)
      modifies this
      ensures events == old(events) + [Event.VisitNode(node)]
    {
      events := events + [Event.VisitNode(node)];
    }

    method Visit(origin: nat, destination: nat)
      modifies this
      ensures events == old(events) + [Event.Visit(origin, destination)]
    {
      events := events + [Event.Visit(origin, destination)];
    }

    method Leave(origin: nat, destination: nat)
      modifies this
      ensures events == old(events) + [Event.Leave(origin, destination)]
    {
      events := events + [Event.Leave(origin, destination)];
    }

    method Summary(stationsVisited: nat)
      modifies this
      ensures events == old(events) + [Event.Summary(stationsVisited)]
    {
      events := events + [Event.Summary(stationsVisited)];
    }
  }

  // ---- Depth-first search ----

  /** JavaScript truthiness of the `parent` argument of `dfsExplore`: it is
      absent for the root, and the node `0` is falsy as well. */
  predicate Truthy(parent: Option<nat>) {
    parent.Some? && parent.value != 0
  }

  /** The nodes not yet marked in `D`. */
  ghost function Unseen(D: seq<bool>): set<nat> {
    set k: nat | k < |D| && !D[k]
  }

  /** `t` is the least unmarked neighbour of `s`. */
  predicate LeastFresh(g: TransitGraph, D: seq<bool>, s: nat, t: nat)
    requires g.Valid() && |D| == g.Length()
  {
    && t < |D| && g.EdgeExists(s, t) && !D[t]
    && forall k :: 0 <= k < t ==> !(g.EdgeExists(s, k) && !D[k])
  }

  /** The events `dfsExplore(node, parent)` sends on entry: the edge from
      a truthy parent, then the node. */
  function Entry(node: nat, parent: Option<nat>): (r: seq<Event>)
    ensures |r| > 0 && r[|r| - 1] == VisitNode(node) && (Truthy(parent) <==> |r| == 2)
  {
    (if Truthy(parent) then [Visit(parent.value, node)] else []) + [VisitNode(node)]
  }

  /** The event `dfsExplore(node, parent)` sends on exit: leaving `node`
      back to a truthy parent. */
  function Exit(node: nat, parent: Option<nat>): (r: seq<Event>)
    ensures |r| <= 1 && (Truthy(parent) <==> |r| == 1)
  {
    if Truthy(parent) then [Leave(node, parent.value)] else []
  }

  /** The exact events and final marks of `dfsExplore(node, parent)` from
      the marks `D`: mark `node`, send `Entry`, explore every neighbour
      still unmarked in ascending order, each with the marks the earlier
      ones left, then send `Exit`. */
  ghost function Exploration(g: TransitGraph, D: seq<bool>, node: nat, parent: Option<nat>): (r: (seq<Event>, seq<bool>))
    requires g.Valid() && |D| == g.Length() && node < |D| && !D[node]
    ensures |r.1| == |D| && Unseen(r.1) < Unseen(D)
    decreases Unseen(D), 0, 0
  {
    UnseenMark(D, D, node);
    var scan := NeighbourScan(g, D[node := true], node, 0);
    (Entry(node, parent) + scan.0 + Exit(node, parent), scan.1)
  }

  /** The exact events and final marks of the neighbour loop of
      `dfsExplore(node, _)` from neighbour `i` on, with the marks `D`. */
  ghost function NeighbourScan(g: TransitGraph, D: seq<bool>, node: nat, i: nat): (r: (seq<Event>, seq<bool>))
    requires g.Valid() && |D| == g.Length() && node < |D| && i <= |D|
    ensures |r.1| == |D| && Unseen(r.1) <= Unseen(D)
    decreases Unseen(D), 1, |D| - i
  {
    if i == |D| then ([], D)
    else if g.EdgeExists(node, i) && !D[i] then
      var child := Exploration(g, D, i, Some(node));
      var rest := NeighbourScan(g, child.1, node, i + 1);
      (child.0 + rest.0, rest.1)
    else NeighbourScan(g, D, node, i + 1)
  }

  /** The events `dfs(graph, node)` sends before its summary. */
  ghost function DfsTrail(g: TransitGraph, node: nat): seq<Event>
    requires g.Valid() && node < g.Length()
  {
    Exploration(g, seq(g.Length(), _ => false), node, None).0
  }

  /** The neighbour loop of `dfsExplore(node, _)` entered with the marks
      `D1` has sent `body` and reached neighbour `i` with the marks `D`. */
  ghost predicate ScanFrom(g: TransitGraph, D1: seq<bool>, node: nat, body: seq<Event>, D: seq<bool>, i: nat)
    requires g.Valid()
  {
    && |D1| == g.Length() && |D| == g.Length() && node < |D| && i <= |D|
    && NeighbourScan(g, D1, node, 0) == (body + NeighbourScan(g, D, node, i).0, NeighbourScan(g, D, node, i).1)
  }

  lemma ScanStart(g: TransitGraph, D1: seq<bool>, node: nat)
    requires g.Valid() && |D1| == g.Length() && node < |D1|
    ensures ScanFrom(g, D1, node, [], D1, 0)
  {
    assert [] + NeighbourScan(g, D1, node, 0).0 == NeighbourScan(g, D1, node, 0).0;
  }

  lemma ScanChild(g: TransitGraph, D1: seq<bool>, node: nat, body: seq<Event>, D: seq<bool>, i: nat,
                  sub: seq<Event>, D': seq<bool>)
    requires g.Valid() && ScanFrom(g, D1, node, body, D, i) && i < |D|
    requires g.EdgeExists(node, i) && !D[i] && (sub, D') == Exploration(g, D, i, Some(node))
    ensures ScanFrom(g, D1, node, body + sub, D', i + 1)
  {
    AppendAssoc(body, sub, NeighbourScan(g, D', node, i + 1).0);
  }

  lemma ScanSkip(g: TransitGraph, D1: seq<bool>, node: nat, body: seq<Event>, D: seq<bool>, i: nat)
    requires g.Valid() && ScanFrom(g, D1, node, body, D, i) && i < |D|
    requires !(g.EdgeExists(node, i) && !D[i])
    ensures ScanFrom(g, D1, node, body, D, i + 1)
  {
  }

  lemma ScanEnd(g: TransitGraph, D1: seq<bool>, node: nat, body: seq<Event>, D: seq<bool>)
    requires g.Valid() && ScanFrom(g, D1, node, body, D, |D|)
    ensures NeighbourScan(g, D1, node, 0) == (body, D)
  {
    assert body + [] == body;
  }

  /** An edge event sent by the exploration of `node` (entered from
      `parent`) whose visited nodes are `nodes`: the parent end is truthy,
      the edge exists, the child end was visited, and only a truthy parent
      of `node` itself produces events about `node`'s own entry. */
  predicate ExploreEvent(g: TransitGraph, e: Event, nodes: seq<nat>, node: nat, parent: Option<nat>)
    requires g.Valid()
  {
    match e
    case VisitNode(_) => true
    case Visit(a, b) => a != 0 && g.EdgeExists(a, b) && b in nodes && (b == node ==> parent == Some(a))
    case Leave(a, b) => b != 0 && g.EdgeExists(a, b) && a in nodes && (a == node ==> parent == Some(b))
    case Summary(_) => false
  }

  /** What one `dfsExplore(node, parent)` achieves, from the marks `D0` it
      starts with to the marks `D` it leaves, having sent `log`: it marks
      exactly the nodes it reports, each once, `node` first; they are all
      reachable from `node` and all their neighbours end up marked; the
      second node it reports is the least neighbour of `node` that was
      unmarked, when there is one. */
  ghost predicate Explored(g: TransitGraph, D0: seq<bool>, D: seq<bool>, node: nat, parent: Option<nat>, log: seq<Event>)
    requires g.Valid() && |D0| == g.Length()
  {
    var nodes := NodesOf(log);
    && |D| == |D0|
    && (forall k :: 0 <= k < |D| && D0[k] ==> D[k])
    && (forall k :: 0 <= k < |D| ==> (D[k] && !D0[k] <==> k in nodes))
    && |nodes| > 0 && nodes[0] == node && Distinct(nodes)
    && (forall v :: v in nodes ==> v < |D| && Reachable(g, node, v))
    && (forall v, w :: v in nodes && g.EdgeExists(v, w) ==> D[w])
    && (|nodes| >= 2 ==> LeastFresh(g, D0, node, nodes[1]))
    && ((exists k :: 0 <= k < |D| && g.EdgeExists(node, k) && !D0[k]) ==> |nodes| >= 2)
    && (forall e :: e in log ==> ExploreEvent(g, e, nodes, node, parent))
  }

  /** The state of the neighbour loop of `dfsExplore(node, parent)` before
      neighbour `i`. */
  ghost predicate Exploring(g: TransitGraph, D0: seq<bool>, D: seq<bool>, node: nat, parent: Option<nat>, log: seq<Event>, i: nat)
    requires g.Valid() && |D0| == g.Length()
  {
    var nodes := NodesOf(log);
    && i <= |D0| && |D| == |D0| && node < |D| && D[node] && !D0[node]
    && (forall k :: 0 <= k < |D| && D0[k] ==> D[k])
    && (forall k :: 0 <= k < |D| ==> (D[k] && !D0[k] <==> k in nodes))
    && |nodes| > 0 && nodes[0] == node && Distinct(nodes)
    && (forall v :: v in nodes ==> v < |D| && Reachable(g, node, v))
    && (forall v, w :: v in nodes && v != node && g.EdgeExists(v, w) ==> D[w])
    && (forall w :: 0 <= w < i && g.EdgeExists(node, w) ==> D[w])
    && (|nodes| >= 2 ==> LeastFresh(g, D0, node, nodes[1]))
    && (|nodes| == 1 ==> forall w :: 0 <= w < i ==> !(g.EdgeExists(node, w) && !D0[w]))
    && (|nodes| == 1 ==> forall k :: 0 <= k < |D| && k != node ==> D[k] == D0[k])
    && (forall e :: e in log ==> ExploreEvent(g, e, nodes, node, parent))
  }

  lemma ExploreStart(g: TransitGraph, D0: seq<bool>, node: nat, parent: Option<nat>, log: seq<Event>)
    requires g.Valid() && |D0| == g.Length() && node < |D0| && !D0[node]
    requires parent.Some? ==> g.EdgeExists(parent.value, node)
    requires log == Entry(node, parent)
    ensures Exploring(g, D0, D0[node := true], node, parent, log, 0)
  {
    assert NodesOf(log) == [node] by {
      assert log[..|log| - 1] == [] || log[..|log| - 1] == [Visit(parent.value, node)];
    }
    ReachableSelf(g, node);
  }

  /** Marks only grow, so the unmarked set only shrinks. */
  lemma UnseenShrinks(D: seq<bool>, D': seq<bool>)
    requires |D'| == |D| && forall k :: 0 <= k < |D| && D[k] ==> D'[k]
    ensures Unseen(D') <= Unseen(D)
  {
  }

  /** Marking the unmarked node `i` strictly shrinks the unmarked set. */
  lemma UnseenMark(D0: seq<bool>, D: seq<bool>, i: nat)
    requires |D| == |D0| && i < |D| && !D[i] && Unseen(D) <= Unseen(D0)
    ensures Unseen(D[i := true]) < Unseen(D0)
  {
    assert i in Unseen(D) && i !in Unseen(D[i := true]);
    UnseenShrinks(D, D[i := true]);
  }

  /** The neighbour `i` explored recursively: its nodes join the loop's. */
  lemma {:induction false} ExploreChild(g: TransitGraph, D0: seq<bool>, D: seq<bool>, D': seq<bool>, node: nat, parent: Option<nat>,
                                        log: seq<Event>, sub: seq<Event>, i: nat)
    requires g.Valid() && |D0| == g.Length()
    requires Exploring(g, D0, D, node, parent, log, i) && i < |D0|
    requires g.EdgeExists(node, i) && !D[i]
    requires Explored(g, D, D', i, Some(node), sub)
    ensures Exploring(g, D0, D', node, parent, log + sub, i + 1)
  {
    var nodes, subNodes := NodesOf(log), NodesOf(sub);
    NodesOfAppend(log, sub);
    assert forall x :: x in nodes ==> x !in subNodes by {
      forall x | x in nodes
        ensures x !in subNodes
      {
      }
    }
    DistinctConcat(nodes, subNodes);
    ReachableStep(g, node, node, i);
    forall v | v in subNodes
      ensures Reachable(g, node, v)
    {
      ReachableTransitive(g, node, i, v);
    }
    if |nodes| == 1 {
      assert LeastFresh(g, D0, node, i);
    }
    forall e | e in log + sub
      ensures ExploreEvent(g, e, nodes + subNodes, node, parent)
    {
      if e in log {
        assert ExploreEvent(g, e, nodes, node, parent);
      } else {
        assert ExploreEvent(g, e, subNodes, i, Some(node));
      }
    }
  }

  lemma ExploreSkip(g: TransitGraph, D0: seq<bool>, D: seq<bool>, node: nat, parent: Option<nat>, log: seq<Event>, i: nat)
    requires g.Valid() && |D0| == g.Length()
    requires Exploring(g, D0, D, node, parent, log, i) && i < |D0|
    requires !(g.EdgeExists(node, i) && !D[i])
    ensures Exploring(g, D0, D, node, parent, log, i + 1)
  {
  }

  lemma ExploreFinish(g: TransitGraph, D0: seq<bool>, D: seq<bool>, node: nat, parent: Option<nat>, log: seq<Event>, log': seq<Event>)
    requires g.Valid() && |D0| == g.Length()
    requires Exploring(g, D0, D, node, parent, log, |D0|)
    requires parent.Some? ==> g.EdgeExists(parent.value, node)
    requires log' == log + Exit(node, parent)
    ensures Explored(g, D0, D, node, parent, log')
  {
    assert NodesOf(log') == NodesOf(log) by {
      if Truthy(parent) {
        assert log'[..|log'| - 1] == log;
      } else {
        assert log' == log;
      }
    }
  }

  /** Every run of `dfsExplore` achieves `Explored`. */
  lemma {:induction false} ExplorationExplored(g: TransitGraph, D: seq<bool>, node: nat, parent: Option<nat>)
    requires g.Valid() && |D| == g.Length() && node < |D| && !D[node]
    requires parent.Some? ==> g.EdgeExists(parent.value, node)
    ensures var r := Exploration(g, D, node, parent); Explored(g, D, r.1, node, parent, r.0)
    decreases Unseen(D), 0, 0
  {
    var D1 := D[node := true];
    UnseenMark(D, D, node);
    ExploreStart(g, D, node, parent, Entry(node, parent));
    ScanExploring(g, D, D1, node, parent, Entry(node, parent), 0);
    var scan := NeighbourScan(g, D1, node, 0);
    ExploreFinish(g, D, scan.1, node, parent, Entry(node, parent) + scan.0, Entry(node, parent) + scan.0 + Exit(node, parent));
  }

  /** The rest of the neighbour loop, from neighbour `i` on, keeps
      `Exploring` up to the last neighbour. */
  lemma {:induction false} ScanExploring(g: TransitGraph, D0: seq<bool>, D: seq<bool>, node: nat, parent: Option<nat>,
                                         log: seq<Event>, i: nat)
    requires g.Valid() && |D0| == g.Length() && Exploring(g, D0, D, node, parent, log, i)
    ensures Exploring(g, D0, NeighbourScan(g, D, node, i).1, node, parent, log + NeighbourScan(g, D, node, i).0, |D0|)
    decreases Unseen(D), |D| - i, 2
  {
    if i == |D| {
      assert log + [] == log;
    } else if g.EdgeExists(node, i) && !D[i] {
      ScanExploringChild(g, D0, D, node, parent, log, i);
    } else {
      ScanExploringSkip(g, D0, D, node, parent, log, i);
    }
  }

  /** Neighbour `i` is explored: its run joins the loop's, and the loop
      goes on from `i + 1` with the marks it left. */
  lemma {:induction false} ScanExploringChild(g: TransitGraph, D0: seq<bool>, D: seq<bool>, node: nat, parent: Option<nat>,
                                              log: seq<Event>, i: nat)
    requires g.Valid() && |D0| == g.Length() && Exploring(g, D0, D, node, parent, log, i)
    requires i < |D| && g.EdgeExists(node, i) && !D[i]
    ensures Exploring(g, D0, NeighbourScan(g, D, node, i).1, node, parent, log + NeighbourScan(g, D, node, i).0, |D0|)
    decreases Unseen(D), |D| - i, 1
  {
    var child := Exploration(g, D, i, Some(node));
    var rest := NeighbourScan(g, child.1, node, i + 1);
    ChildExploring(g, D0, D, node, parent, log, i);
    ScanExploring(g, D0, child.1, node, parent, log + child.0, i + 1);
    var r := NeighbourScan(g, D, node, i);
    assert r == (child.0 + rest.0, rest.1);
    AppendAssoc(log, child.0, rest.0);
    ExploringSame(g, D0, rest.1, node, parent, log + child.0 + rest.0, r.1, log + r.0, |D0|);
  }

  /** The run of neighbour `i` joins the loop's. */
  lemma ChildExploring(g: TransitGraph, D0: seq<bool>, D: seq<bool>, node: nat, parent: Option<nat>,
                       log: seq<Event>, i: nat)
    requires g.Valid() && |D0| == g.Length() && Exploring(g, D0, D, node, parent, log, i)
    requires i < |D| && g.EdgeExists(node, i) && !D[i]
    ensures var child := Exploration(g, D, i, Some(node));
            Exploring(g, D0, child.1, node, parent, log + child.0, i + 1)
    decreases Unseen(D), |D| - i, 0
  {
    var child := Exploration(g, D, i, Some(node));
    ExplorationExplored(g, D, i, Some(node));
    ExploreChild(g, D0, D, child.1, node, parent, log, child.0, i);
  }

  /** Neighbour `i` is skipped. */
  lemma {:induction false} ScanExploringSkip(g: TransitGraph, D0: seq<bool>, D: seq<bool>, node: nat, parent: Option<nat>,
                                             log: seq<Event>, i: nat)
    requires g.Valid() && |D0| == g.Length() && Exploring(g, D0, D, node, parent, log, i)
    requires i < |D| && !(g.EdgeExists(node, i) && !D[i])
    ensures Exploring(g, D0, NeighbourScan(g, D, node, i).1, node, parent, log + NeighbourScan(g, D, node, i).0, |D0|)
    decreases Unseen(D), |D| - i, 1
  {
    ExploreSkip(g, D0, D, node, parent, log, i);
    ScanExploring(g, D0, D, node, parent, log, i + 1);
    assert NeighbourScan(g, D, node, i) == NeighbourScan(g, D, node, i + 1);
  }

  lemma ExploringSame(g: TransitGraph, D0: seq<bool>, D: seq<bool>, node: nat, parent: Option<nat>, log: seq<Event>,
                      D': seq<bool>, log': seq<Event>, i: nat)
    requires g.Valid() && |D0| == g.Length() && Exploring(g, D0, D, node, parent, log, i)
    requires D' == D && log' == log
    ensures Exploring(g, D0, D', node, parent, log', i)
  {
  }

  /** The start of `dfsExplore(graph, traverser, node, parent)`: mark
      `node`, report the edge from a truthy parent, then the node. */
  method DfsEnter(g: TransitGraph, D: array<bool>, t: Traverser, node: nat, parent: Option<nat>)
    returns (ghost log: seq<Event>)
    requires g.Valid() && D.Length == g.Length() && node < D.Length && !D[node]
    modifies D, t
    ensures t.events == old(t.events) + log
    ensures log == Entry(node, parent) && D[..] == old(D[..])[node := true]
    ensures Unseen(D[..]) < Unseen(old(D[..]))
  {
    ghost var D0 := D[..];
    D[node] := true;
    assert D[..] == D0[node := true];
    UnseenMark(D0, D0, node);
    log := [];
    if Truthy(parent) {
      t.Visit(parent.value, node);
      log := log + [Visit(parent.value, node)];
    }
    t.VisitNode(node);
    log := log + [VisitNode(node)];
  }

  /** The end of `dfsExplore`: report leaving `node` back to a truthy
      parent. */
  method DfsLeave(t: Traverser, node: nat, parent: Option<nat>, ghost E0: seq<Event>, ghost body: seq<Event>)
    returns (ghost log: seq<Event>)
    requires t.events == E0 + body
    modifies t
    ensures t.events == E0 + log && log == body + Exit(node, parent)
  {
    log := body;
    if Truthy(parent) {
      t.Leave(node, parent.value);
      log := log + [Leave(node, parent.value)];
    }
  }

  /** `dfsExplore(graph, traverser, node, parent)`: it sends exactly the
      events of `Exploration` and leaves its marks. */
  method DfsExplore(g: TransitGraph, D: array<bool>, t: Traverser, node: nat, parent: Option<nat>)
    returns (ghost log: seq<Event>)
    requires g.Valid() && D.Length == g.Length() && node < D.Length && !D[node]
    requires parent.Some? ==> g.EdgeExists(parent.value, node)
    modifies D, t
    ensures t.events == old(t.events) + log
    ensures (log, D[..]) == Exploration(g, old(D[..]), node, parent)
    ensures Explored(g, old(D[..]), D[..], node, parent, log)
    decreases Unseen(D[..])
  {
    ghost var D0 := D[..];
    log := DfsEnter(g, D, t, node, parent);
    ghost var D1, body := D[..], [];
    ScanStart(g, D1, node);
    assert log == Entry(node, parent) + body;

    var i := 0;
    while i < g.Length()
      invariant t.events == old(t.events) + log && log == Entry(node, parent) + body
      invariant ScanFrom(g, D1, node, body, D[..], i) && Unseen(D[..]) < Unseen(D0)
    {
      if g.EdgeExists(node, i) && !D[i] {
        ghost var Db := D[..];
        var sub := DfsExplore(g, D, t, i, Some(node));
        ScanChild(g, D1, node, body, Db, i, sub, D[..]);
        AppendAssoc(old(t.events), log, sub);
        AppendAssoc(Entry(node, parent), body, sub);
        log, body := log + sub, body + sub;
      } else {
        ScanSkip(g, D1, node, body, D[..], i);
      }
      i := i + 1;
    }

    ScanEnd(g, D1, node, body, D[..]);
    log := DfsLeave(t, node, parent, old(t.events), log);
    ExplorationExplored(g, D0, node, parent);
  }

  /** `traverser.summary({ stationsVisited: traverser.visitedNodes.length })`
      at the end of a search that sent `trail` to a traverser whose log
      was `E0`. */
  method ReportSummary(t: Traverser, ghost E0: seq<Event>, ghost trail: seq<Event>) returns (ghost log: seq<Event>)
    requires t.events == E0 + trail
    modifies t
    ensures t.events == E0 + log && log == trail + [Summary(|NodesOf(E0)| + |NodesOf(trail)|)]
  {
    t.Summary(|t.VisitedNodes()|);
    NodesOfAppend(E0, trail);
    AppendAssoc(E0, trail, [Summary(|NodesOf(E0)| + |NodesOf(trail)|)]);
    log := trail + [Summary(|NodesOf(E0)| + |NodesOf(trail)|)];
  }

  /** A whole exploration from `node` with nothing marked yet: the visited
      nodes are the component of `node` in discovery order, each once, and
      the first step goes to the least neighbour. */
  lemma DfsVisits(g: TransitGraph, D0: seq<bool>, D: seq<bool>, node: nat, trail: seq<Event>)
    requires g.Valid() && |D0| == g.Length() && node < g.Length()
    requires forall k :: 0 <= k < |D0| ==> !D0[k]
    requires Explored(g, D0, D, node, None, trail)
    ensures var visited := NodesOf(trail);
            && Distinct(visited) && |visited| == |Component(g, node)|
            && (forall v :: v in visited <==> v in Component(g, node))
            && |visited| > 0 && visited[0] == node
            && (g.HasNeighbour(node) ==> |visited| >= 2 && visited[1] == LeastNeighbour(g, node))
    ensures forall e :: e in trail && (e.Visit? || e.Leave?) ==> g.EdgeExists(e.origin, e.destination)
    ensures forall e :: e in trail && e.Visit? ==> e.origin != 0 && e.destination != node
    ensures forall e :: e in trail && e.Leave? ==> e.destination != 0 && e.origin != node
  {
    var visited := NodesOf(trail);
    assert Closed(g, Elems(visited));
    ClosedContainsComponent(g, Elems(visited), node);
    assert Elems(visited) == Component(g, node);
    DistinctCard(visited);
    if g.HasNeighbour(node) {
      var least := LeastNeighbour(g, node);
      assert g.EdgeExists(node, least) && !D0[least];
      assert LeastFresh(g, D0, node, visited[1]);
    }
    forall e | e in trail
      ensures ExploreEvent(g, e, visited, node, None)
    {
    }
  }

  /** The exploration `dfs(graph, node, traverser)` runs from `node` with
      a fresh visited array: it sends exactly `DfsTrail`, whose visited
      nodes are the component of `node` in discovery order, each once, the
      first step going to the least neighbour. */
  method DfsFromFresh(g: TransitGraph, node: nat, t: Traverser) returns (ghost trail: seq<Event>)
    requires g.Valid() && node < g.Length()
    modifies t
    ensures t.events == old(t.events) + trail
    ensures trail == DfsTrail(g, node)
    ensures var visited := NodesOf(trail);
            && Distinct(visited) && |visited| == |Component(g, node)|
            && (forall v :: v in visited <==> v in Component(g, node))
            && |visited| > 0 && visited[0] == node
            && (g.HasNeighbour(node) ==> |visited| >= 2 && visited[1] == LeastNeighbour(g, node))
    ensures forall e :: e in trail && (e.Visit? || e.Leave?) ==> g.EdgeExists(e.origin, e.destination)
    ensures forall e :: e in trail && e.Visit? ==> e.origin != 0 && e.destination != node
    ensures forall e :: e in trail && e.Leave? ==> e.destination != 0 && e.origin != node
  {
    var D := new bool[g.Length()](_ => false);
    ghost var D0 := D[..];
    assert D0 == seq(g.Length(), _ => false);
    trail := DfsExplore(g, D, t, node, None);
    DfsVisits(g, D0, D[..], node, trail);
  }

  /** `dfs(graph, node, traverser)`: the exploration sends `trail`, exactly
      `DfsTrail`, whose visited nodes are the component of `node` in
      discovery order, each once, the first step going to the least
      neighbour; then the summary counts the traverser's visited nodes. */
  method Dfs(g: TransitGraph, node: nat, t: Traverser) returns (ghost log: seq<Event>, ghost trail: seq<Event>)
    requires g.Valid() && node < g.Length()
    modifies t
    ensures t.events == old(t.events) + log
    ensures log == trail + [Summary(|NodesOf(old(t.events))| + |NodesOf(trail)|)]
    ensures trail == DfsTrail(g, node)
    ensures var visited := NodesOf(trail);
            && Distinct(visited) && |visited| == |Component(g, node)|
            && (forall v :: v in visited <==> v in Component(g, node))
            && |visited| > 0 && visited[0] == node
            && (g.HasNeighbour(node) ==> |visited| >= 2 && visited[1] == LeastNeighbour(g, node))
    ensures forall e :: e in trail && (e.Visit? || e.Leave?) ==> g.EdgeExists(e.origin, e.destination)
    ensures forall e :: e in trail && e.Visit? ==> e.origin != 0 && e.destination != node
    ensures forall e :: e in trail && e.Leave? ==> e.destination != 0 && e.origin != node
  {
    trail := DfsFromFresh(g, node, t);
    log := ReportSummary(t, old(t.events), trail);
  }

  /** A small graph with the edges 0-1, 0-2 and 2-3, all transfers. */
  function Fork(): (g: TransitGraph)
    ensures g.Valid() && g.Length() == 4
    ensures g.EdgeExists(0, 1) && g.EdgeExists(0, 2) && g.EdgeExists(2, 3)
    ensures !g.EdgeExists(0, 3) && !g.EdgeExists(1, 2) && !g.EdgeExists(1, 3)
  {
    var e := Some(Edge(TRANSFER, 1.0));
    TransitGraph([[], [e], [e, None], [None, None, e]], seq(4, _ => Stops.StopOne))
  }

  /** `dfs` on `Fork` from node `0`: it goes to 1, back, then to 2 and on
      to 3. Node `0` is a falsy parent, so only the edge 2-3 is reported,
      once on the way in and once on the way out. */
  lemma DfsOnFork()
    ensures DfsTrail(Fork(), 0) == [VisitNode(0), VisitNode(1), VisitNode(2), Visit(2, 3), VisitNode(3), Leave(3, 2)]
  {
    var g := Fork();
    var F, M0, M1, M2, M3 := [false, false, false, false], [true, false, false, false],
                             [true, true, false, false], [true, true, true, false], [true, true, true, true];
    assert seq(4, _ => false) == F;
    // node 3, entered from 2
    assert NeighbourScan(g, M3, 3, 0) == ([], M3);
    assert M2[3 := true] == M3;
    var e3 := [Visit(2, 3), VisitNode(3), Leave(3, 2)];
    assert Entry(3, Some(2)) + [] + Exit(3, Some(2)) == e3;
    assert Exploration(g, M2, 3, Some(2)) == (e3, M3);
    // node 2, entered from 0
    assert NeighbourScan(g, M3, 2, 4) == ([], M3);
    assert e3 + [] == e3;
    assert NeighbourScan(g, M2, 2, 3) == (e3, M3);
    assert NeighbourScan(g, M2, 2, 0) == (e3, M3);
    assert M1[2 := true] == M2;
    var e2 := [VisitNode(2)] + e3;
    assert Entry(2, Some(0)) + e3 + Exit(2, Some(0)) == e2;
    assert Exploration(g, M1, 2, Some(0)) == (e2, M3);
    // node 1, entered from 0
    assert NeighbourScan(g, M1, 1, 0) == ([], M1);
    assert M0[1 := true] == M1;
    assert Entry(1, Some(0)) + [] + Exit(1, Some(0)) == [VisitNode(1)];
    assert Exploration(g, M0, 1, Some(0)) == ([VisitNode(1)], M1);
    // node 0, the root
    assert NeighbourScan(g, M3, 0, 3) == ([], M3);
    assert e2 + [] == e2;
    assert NeighbourScan(g, M1, 0, 2) == (e2, M3);
    assert NeighbourScan(g, M0, 0, 1) == ([VisitNode(1)] + e2, M3);
    assert NeighbourScan(g, M0, 0, 0) == ([VisitNode(1)] + e2, M3);
    assert F[0 := true] == M0;
    assert Entry(0, None) + ([VisitNode(1)] + e2) + Exit(0, None) == [VisitNode(0)] + ([VisitNode(1)] + e2);
    assert Exploration(g, F, 0, None) == ([VisitNode(0)] + ([VisitNode(1)] + e2), M3);
  }

  // ---- Breadth-first search ----

  /** The triangle 0-1, 0-2, 1-2, all transfers. */
  function Triangle(): (g: TransitGraph)
    ensures g.Valid() && g.Length() == 3
    ensures g.EdgeExists(0, 1) && g.EdgeExists(0, 2) && g.EdgeExists(1, 2)
  {
    var e := Some(Edge(TRANSFER, 1.0));
    TransitGraph([[], [e], [e, e]], seq(3, _ => Stops.StopOne))
  }

  /** From node `0` of the triangle, `bfs` finds both 1 and 2 while
      scanning 0: crediting 2 to 1 breaks `Earliest`, since 0 was dequeued
      before 1 and is next to 2. */
  lemma BfsOnTriangle()
    ensures Earliest(Triangle(), [0, 1, 2], [(0, 1), (0, 2)], [0, 0])
    ensures !Earliest(Triangle(), [0, 1, 2], [(0, 1), (1, 2)], [0, 1])
  {
    var g, found, credited := Triangle(), [0, 1, 2], [(0, 1), (1, 2)];
    assert g.EdgeExists(found[0], credited[1].1);
  }

  /** The parents of a list of discoveries `(parent, child)`. */
  function Parents(tree: seq<(nat, nat)>): (r: seq<nat>)
    ensures |r| == |tree| && forall k :: 0 <= k < |tree| ==> r[k] == tree[k].0
  {
    seq(|tree|, k requires 0 <= k < |tree| => tree[k].0)
  }

  /** The events `bfs` sends for its discoveries, in order: for each newly
      found neighbour `i` of the dequeued `node`, `visit(createEdge(node, i))`
      and then `visitNode(node)`. */
  function BfsReports(tree: seq<(nat, nat)>): (r: seq<Event>)
    ensures |r| == 2 * |tree|
  {
    if tree == [] then []
    else
      var last := tree[|tree| - 1];
      BfsReports(tree[..|tree| - 1]) + [Visit(last.0, last.1), VisitNode(last.0)]
  }

  /** The nodes `bfs` reports to `visitNode` are the start and then the
      dequeued node once per neighbour it discovers, not the discovered
      nodes themselves. */
  lemma {:induction false} BfsReportedNodes(s: nat, tree: seq<(nat, nat)>)
    ensures NodesOf([VisitNode(s)] + BfsReports(tree)) == [s] + Parents(tree)
  {
    if tree == [] {
      assert [VisitNode(s)] + BfsReports(tree) == [VisitNode(s)];
      assert NodesOf([VisitNode(s)]) == NodesOf([]) + [s];
    } else {
      var last := tree[|tree| - 1];
      var front := tree[..|tree| - 1];
      BfsReportedNodes(s, front);
      var pair := [Visit(last.0, last.1), VisitNode(last.0)];
      assert [VisitNode(s)] + BfsReports(tree) == ([VisitNode(s)] + BfsReports(front)) + pair;
      NodesOfAppend([VisitNode(s)] + BfsReports(front), pair);
      NodesOfReport(last.0, last.1);
      ParentsSnoc(front, last);
      assert tree == front + [last];
      AppendAssoc([s], Parents(front), [last.0]);
    }
  }

  /** One discovery report names its parent once. */
  lemma NodesOfReport(p: nat, c: nat)
    ensures NodesOf([Visit(p, c), VisitNode(p)]) == [p]
  {
    var pair := [Visit(p, c), VisitNode(p)];
    assert pair[..1] == [Visit(p, c)];
    assert NodesOf(pair[..1]) == NodesOf([]) + [];
  }

  lemma ParentsSnoc(tree: seq<(nat, nat)>, x: (nat, nat))
    ensures Parents(tree + [x]) == Parents(tree) + [x.0]
  {
  }

  /** The whole event log of `bfs` after a traverser that had seen
      `before` nodes: the start, the reports of the discoveries `tree`, and
      the summary counting the `before` nodes plus the start and one node
      per discovery. */
  function BfsLog(s: nat, tree: seq<(nat, nat)>, before: nat): (r: seq<Event>)
    ensures |r| == 2 * |tree| + 2 && r[0] == VisitNode(s) && r[|r| - 1] == Summary(before + |tree| + 1)
  {
    [VisitNode(s)] + BfsReports(tree) + [Summary(before + |tree| + 1)]
  }

  lemma BfsReportsSnoc(s: nat, tree: seq<(nat, nat)>, x: (nat, nat))
    ensures [VisitNode(s)] + BfsReports(tree + [x])
         == [VisitNode(s)] + BfsReports(tree) + [Visit(x.0, x.1), VisitNode(x.0)]
  {
    assert (tree + [x])[..|tree|] == tree;
  }

  /** `D` marks exactly the nodes of `found`, each a node of the graph
      reachable from `s`, each listed once. */
  ghost predicate Marks(g: TransitGraph, s: nat, D: seq<bool>, found: seq<nat>)
    requires g.Valid()
  {
    && |D| == g.Length() && (forall k :: 0 <= k < |D| ==> (D[k] <==> k in found))
    && Distinct(found) && (forall v :: v in found ==> v < |D| && Reachable(g, s, v))
  }

  /** `found` is the start followed by the children of `tree`; every
      discovery `k` is an edge from the earlier-discovered
      `found[parentAt[k]]`, with `parentAt[k] < bound`. */
  ghost predicate Tree(g: TransitGraph, s: nat, found: seq<nat>, tree: seq<(nat, nat)>,
                       parentAt: seq<nat>, bound: nat)
    requires g.Valid()
  {
    && |found| == |tree| + 1 && found[0] == s && |parentAt| == |tree|
    && (forall k {:trigger tree[k]} :: 0 <= k < |tree| ==>
          && found[k + 1] == tree[k].1
          && parentAt[k] < bound && parentAt[k] <= k && tree[k].0 == found[parentAt[k]]
          && g.EdgeExists(tree[k].0, tree[k].1))
  }

  /** The discoveries are ordered by parent and, per parent, by child. */
  ghost predicate Ordered(tree: seq<(nat, nat)>, parentAt: seq<nat>)
    requires |parentAt| == |tree|
  {
    forall k :: 0 <= k < |tree| - 1 ==>
      parentAt[k] <= parentAt[k + 1] && (parentAt[k] == parentAt[k + 1] ==> tree[k].1 < tree[k + 1].1)
  }

  /** Each discovery is credited to the first dequeued node next to it: no
      node found before the parent `found[parentAt[k]]` is a neighbour of
      the child `tree[k].1`. */
  ghost predicate Earliest(g: TransitGraph, found: seq<nat>, tree: seq<(nat, nat)>, parentAt: seq<nat>)
    requires g.Valid() && |parentAt| == |tree|
  {
    forall k, j :: 0 <= k < |tree| && 0 <= j < parentAt[k] && j < |found| ==> !g.EdgeExists(found[j], tree[k].1)
  }

  /** Every neighbour of the first `done` nodes of `found` is marked. */
  ghost predicate Covered(g: TransitGraph, D: seq<bool>, found: seq<nat>, done: nat)
    requires g.Valid() && |D| == g.Length()
  {
    forall j, w :: 0 <= j < done && j < |found| && g.EdgeExists(found[j], w) ==> D[w]
  }

  /** The state of the queue loop of `bfs` before a dequeue: `found` lists
      the marked nodes in discovery order, the queue is its suffix from
      `done`, and the first `done` nodes have all their neighbours marked. */
  ghost predicate Queued(g: TransitGraph, s: nat, D: seq<bool>, Q: seq<nat>, found: seq<nat>,
                         tree: seq<(nat, nat)>, parentAt: seq<nat>, done: nat)
    requires g.Valid()
  {
    && Marks(g, s, D, found) && Tree(g, s, found, tree, parentAt, done)
    && Ordered(tree, parentAt) && Earliest(g, found, tree, parentAt) && done <= |found| && Q == found[done..]
    && Covered(g, D, found, done)
  }

  /** The state of the neighbour scan of the dequeued `node == found[cur]`
      before neighbour `i`. */
  ghost predicate Scanning(g: TransitGraph, s: nat, D: seq<bool>, Q: seq<nat>, found: seq<nat>,
                           tree: seq<(nat, nat)>, parentAt: seq<nat>, cur: nat, node: nat, i: nat)
    requires g.Valid()
  {
    && Marks(g, s, D, found) && Tree(g, s, found, tree, parentAt, cur + 1)
    && Ordered(tree, parentAt) && Earliest(g, found, tree, parentAt)
    && cur < |found| && node == found[cur] && Q == found[cur + 1..]
    && Covered(g, D, found, cur) && i <= |D|
    && (forall w :: 0 <= w < i && g.EdgeExists(node, w) ==> D[w])
    && (|tree| > 0 && parentAt[|tree| - 1] == cur ==> tree[|tree| - 1].1 < i)
  }

  lemma BfsStart(g: TransitGraph, s: nat, D: seq<bool>)
    requires g.Valid() && s < g.Length() && |D| == g.Length()
    requires forall k :: 0 <= k < |D| ==> (D[k] <==> k == s)
    ensures Queued(g, s, D, [s], [s], [], [], 0)
  {
    ReachableSelf(g, s);
  }

  lemma BfsDequeue(g: TransitGraph, s: nat, D: seq<bool>, Q: seq<nat>, found: seq<nat>,
                   tree: seq<(nat, nat)>, parentAt: seq<nat>, done: nat)
    requires g.Valid() && Queued(g, s, D, Q, found, tree, parentAt, done) && |Q| > 0
    ensures Scanning(g, s, D, Q[1..], found, tree, parentAt, done, Q[0], 0)
  {
    assert Q[0] == found[done] && Q[1..] == found[done + 1..];
    TreeWeaken(g, s, found, tree, parentAt, done, done + 1);
    if |tree| > 0 {
      assert tree[|tree| - 1].0 == found[parentAt[|tree| - 1]] && parentAt[|tree| - 1] < done;
    }
  }

  lemma TreeWeaken(g: TransitGraph, s: nat, found: seq<nat>, tree: seq<(nat, nat)>,
                   parentAt: seq<nat>, bound: nat, bound': nat)
    requires g.Valid() && Tree(g, s, found, tree, parentAt, bound) && bound <= bound'
    ensures Tree(g, s, found, tree, parentAt, bound')
  {
    forall k | 0 <= k < |tree|
      ensures parentAt[k] < bound'
    {
      assert tree[k].0 == found[parentAt[k]];
    }
  }

  lemma MarksDiscover(g: TransitGraph, s: nat, D: seq<bool>, found: seq<nat>, node: nat, i: nat)
    requires g.Valid() && Marks(g, s, D, found) && node in found
    requires i < |D| && g.EdgeExists(node, i) && !D[i]
    ensures Marks(g, s, D[i := true], found + [i])
  {
    var D', found' := D[i := true], found + [i];
    forall k | 0 <= k < |D'|
      ensures D'[k] <==> k in found'
    {
      if k != i {
        assert D[k] <==> k in found;
      }
    }
    assert i !in found;
    DistinctConcat(found, [i]);
    ReachableStep(g, s, node, i);
  }

  lemma TreeDiscover(g: TransitGraph, s: nat, found: seq<nat>, tree: seq<(nat, nat)>,
                     parentAt: seq<nat>, cur: nat, i: nat)
    requires g.Valid() && Tree(g, s, found, tree, parentAt, cur + 1) && cur < |found|
    requires g.EdgeExists(found[cur], i)
    ensures Tree(g, s, found + [i], tree + [(found[cur], i)], parentAt + [cur], cur + 1)
  {
    var found', tree', parentAt' := found + [i], tree + [(found[cur], i)], parentAt + [cur];
    forall k | 0 <= k < |tree'|
      ensures found'[k + 1] == tree'[k].1
      ensures parentAt'[k] < cur + 1 && parentAt'[k] <= k && tree'[k].0 == found'[parentAt'[k]]
      ensures g.EdgeExists(tree'[k].0, tree'[k].1)
    {
      if k < |tree| {
        assert tree'[k] == tree[k];
      }
    }
  }

  lemma OrderedDiscover(tree: seq<(nat, nat)>, parentAt: seq<nat>, cur: nat, node: nat, i: nat)
    requires |parentAt| == |tree| && Ordered(tree, parentAt)
    requires forall k :: 0 <= k < |parentAt| ==> parentAt[k] <= cur
    requires |tree| > 0 && parentAt[|tree| - 1] == cur ==> tree[|tree| - 1].1 < i
    ensures Ordered(tree + [(node, i)], parentAt + [cur])
  {
    var tree', parentAt' := tree + [(node, i)], parentAt + [cur];
    forall k | 0 <= k < |tree'| - 1
      ensures parentAt'[k] <= parentAt'[k + 1] && (parentAt'[k] == parentAt'[k + 1] ==> tree'[k].1 < tree'[k + 1].1)
    {
      assert tree'[k] == tree[k];
      if k + 1 < |tree| {
        assert tree'[k + 1] == tree[k + 1];
      }
    }
  }

  lemma CoveredDiscover(g: TransitGraph, D: seq<bool>, found: seq<nat>, cur: nat, i: nat)
    requires g.Valid() && |D| == g.Length() && Covered(g, D, found, cur) && cur < |found| && i < |D|
    ensures Covered(g, D[i := true], found + [i], cur)
  {
    forall j, w | 0 <= j < cur && j < |found + [i]| && g.EdgeExists((found + [i])[j], w)
      ensures D[i := true][w]
    {
      assert (found + [i])[j] == found[j];
    }
  }

  /** A node found while scanning `found[cur]` has no neighbour among the
      nodes dequeued before: they were all scanned and it was unmarked. */
  lemma EarliestDiscover(g: TransitGraph, D: seq<bool>, found: seq<nat>, tree: seq<(nat, nat)>,
                         parentAt: seq<nat>, cur: nat, i: nat)
    requires g.Valid() && |D| == g.Length() && |parentAt| == |tree| && Earliest(g, found, tree, parentAt)
    requires forall k :: 0 <= k < |parentAt| ==> parentAt[k] <= cur
    requires cur < |found| && Covered(g, D, found, cur) && i < |D| && !D[i]
    ensures Earliest(g, found + [i], tree + [(found[cur], i)], parentAt + [cur])
  {
    var found', tree', parentAt' := found + [i], tree + [(found[cur], i)], parentAt + [cur];
    forall k, j | 0 <= k < |tree'| && 0 <= j < parentAt'[k] && j < |found'|
      ensures !g.EdgeExists(found'[j], tree'[k].1)
    {
      assert found'[j] == found[j];
      if k < |tree| {
        assert tree'[k] == tree[k] && parentAt'[k] == parentAt[k];
      }
    }
  }

  lemma BfsDiscover(g: TransitGraph, s: nat, D: seq<bool>, Q: seq<nat>, found: seq<nat>,
                    tree: seq<(nat, nat)>, parentAt: seq<nat>, cur: nat, node: nat, i: nat)
    requires g.Valid() && Scanning(g, s, D, Q, found, tree, parentAt, cur, node, i)
    requires i < |D| && g.EdgeExists(node, i) && !D[i]
    ensures Scanning(g, s, D[i := true], Q + [i], found + [i], tree + [(node, i)], parentAt + [cur], cur, node, i + 1)
  {
    MarksDiscover(g, s, D, found, node, i);
    TreeDiscover(g, s, found, tree, parentAt, cur, i);
    forall k | 0 <= k < |parentAt|
      ensures parentAt[k] <= cur
    {
      assert tree[k] == tree[k];
    }
    OrderedDiscover(tree, parentAt, cur, node, i);
    EarliestDiscover(g, D, found, tree, parentAt, cur, i);
    CoveredDiscover(g, D, found, cur, i);
    assert Q + [i] == (found + [i])[cur + 1..];
    forall w | 0 <= w < i + 1 && g.EdgeExists(node, w)
      ensures D[i := true][w]
    {
    }
  }

  lemma BfsSkip(g: TransitGraph, s: nat, D: seq<bool>, Q: seq<nat>, found: seq<nat>,
                tree: seq<(nat, nat)>, parentAt: seq<nat>, cur: nat, node: nat, i: nat)
    requires g.Valid() && Scanning(g, s, D, Q, found, tree, parentAt, cur, node, i)
    requires i < |D| && !(g.EdgeExists(node, i) && !D[i])
    ensures Scanning(g, s, D, Q, found, tree, parentAt, cur, node, i + 1)
  {
  }

  lemma BfsScanned(g: TransitGraph, s: nat, D: seq<bool>, Q: seq<nat>, found: seq<nat>,
                   tree: seq<(nat, nat)>, parentAt: seq<nat>, cur: nat, node: nat)
    requires g.Valid() && Scanning(g, s, D, Q, found, tree, parentAt, cur, node, |D|)
    ensures Queued(g, s, D, Q, found, tree, parentAt, cur + 1)
  {
    forall j, w | 0 <= j < cur + 1 && j < |found| && g.EdgeExists(found[j], w)
      ensures D[w]
    {
    }
  }

  /** An empty queue: the discovered nodes are the component of the start. */
  lemma BfsDone(g: TransitGraph, s: nat, D: seq<bool>, found: seq<nat>,
                tree: seq<(nat, nat)>, parentAt: seq<nat>, done: nat)
    requires g.Valid() && s < g.Length() && Queued(g, s, D, [], found, tree, parentAt, done)
    ensures Distinct(found) && forall v :: v in found <==> v in Component(g, s)
    ensures |found| == |Component(g, s)| == |tree| + 1
    ensures Tree(g, s, found, tree, parentAt, |found|) && Ordered(tree, parentAt)
    ensures Earliest(g, found, tree, parentAt)
  {
    assert done == |found|;
    assert Closed(g, Elems(found)) by {
      forall v, w | v in Elems(found) && g.EdgeExists(v, w)
        ensures w in Elems(found)
      {
        var j :| 0 <= j < |found| && found[j] == v;
        assert D[w];
      }
    }
    ClosedContainsComponent(g, Elems(found), s);
    assert Elems(found) == Component(g, s);
    DistinctCard(found);
  }

  /** How a stretch of the neighbour scan changed the marks and the queue:
      either nothing was discovered, or the unmarked set shrank. */
  ghost predicate Progress(D0: seq<bool>, D: seq<bool>, Q0: seq<nat>, Q: seq<nat>, n0: nat, n: nat) {
    && n >= n0
    && (n == n0 ==> D == D0 && Q == Q0)
    && (n > n0 ==> Unseen(D) < Unseen(D0))
  }

  lemma ProgressTrans(D0: seq<bool>, D1: seq<bool>, D2: seq<bool>, Q0: seq<nat>, Q1: seq<nat>, Q2: seq<nat>,
                      n0: nat, n1: nat, n2: nat)
    requires Progress(D0, D1, Q0, Q1, n0, n1) && Progress(D1, D2, Q1, Q2, n1, n2)
    ensures Progress(D0, D2, Q0, Q2, n0, n2)
  {
  }

  /** One turn of the neighbour scan of `node == found[cur]`: if `i` is an
      unmarked neighbour it is marked, enqueued and reported with
      `visit(createEdge(node, i))` and `visitNode(node)`. `E0` is the
      traverser's log before the search. */
  method BfsStep(g: TransitGraph, s: nat, D: array<bool>, Q: seq<nat>, node: nat, i: nat, t: Traverser,
                 ghost E0: seq<Event>, ghost log: seq<Event>, ghost found: seq<nat>,
                 ghost tree: seq<(nat, nat)>, ghost parentAt: seq<nat>, ghost cur: nat)
    returns (Q': seq<nat>, ghost log': seq<Event>, ghost found': seq<nat>,
             ghost tree': seq<(nat, nat)>, ghost parentAt': seq<nat>)
    requires g.Valid() && i < D.Length
    requires Scanning(g, s, D[..], Q, found, tree, parentAt, cur, node, i)
    requires t.events == E0 + log && log == [VisitNode(s)] + BfsReports(tree)
    modifies D, t
    ensures Scanning(g, s, D[..], Q', found', tree', parentAt', cur, node, i + 1)
    ensures t.events == E0 + log' && log' == [VisitNode(s)] + BfsReports(tree')
    ensures Progress(old(D[..]), D[..], Q, Q', |tree|, |tree'|)
  {
    if g.EdgeExists(node, i) && !D[i] {
      ghost var Db := D[..];
      BfsDiscover(g, s, Db, Q, found, tree, parentAt, cur, node, i);
      BfsReportsSnoc(s, tree, (node, i));
      AppendAssoc(E0, log, [Visit(node, i), VisitNode(node)]);
      UnseenMark(Db, Db, i);
      Q' := Q + [i];
      D[i] := true;
      assert D[..] == Db[i := true];
      t.Visit(node, i);
      t.VisitNode(node);
      AppendPair(E0 + log, Visit(node, i), VisitNode(node));
      log' := log + [Visit(node, i), VisitNode(node)];
      tree' := tree + [(node, i)];
      parentAt' := parentAt + [cur];
      found' := found + [i];
    } else {
      BfsSkip(g, s, D[..], Q, found, tree, parentAt, cur, node, i);
      Q', log', found', tree', parentAt' := Q, log, found, tree, parentAt;
    }
  }

  /** The neighbour scan of one dequeued `node == found[cur]`, over every
      node `i` in ascending order. */
  method BfsScan(g: TransitGraph, s: nat, D: array<bool>, Q: seq<nat>, node: nat, t: Traverser,
                 ghost E0: seq<Event>, ghost log: seq<Event>, ghost found: seq<nat>,
                 ghost tree: seq<(nat, nat)>, ghost parentAt: seq<nat>, ghost cur: nat)
    returns (Q': seq<nat>, ghost log': seq<Event>, ghost found': seq<nat>,
             ghost tree': seq<(nat, nat)>, ghost parentAt': seq<nat>)
    requires g.Valid() && D.Length == g.Length()
    requires Scanning(g, s, D[..], Q, found, tree, parentAt, cur, node, 0)
    requires t.events == E0 + log && log == [VisitNode(s)] + BfsReports(tree)
    modifies D, t
    ensures Queued(g, s, D[..], Q', found', tree', parentAt', cur + 1)
    ensures t.events == E0 + log' && log' == [VisitNode(s)] + BfsReports(tree')
    ensures Progress(old(D[..]), D[..], Q, Q', |tree|, |tree'|)
  {
    ghost var D0 := D[..];
    Q', log', found', tree', parentAt' := Q, log, found, tree, parentAt;
    var i: nat := 0;
    while i < D.Length
      invariant i <= D.Length
      invariant Scanning(g, s, D[..], Q', found', tree', parentAt', cur, node, i)
      invariant t.events == E0 + log' && log' == [VisitNode(s)] + BfsReports(tree')
      invariant Progress(D0, D[..], Q, Q', |tree|, |tree'|)
    {
      ghost var D1, Q1, n1 := D[..], Q', |tree'|;
      Q', log', found', tree', parentAt' := BfsStep(g, s, D, Q', node, i, t, E0, log', found', tree', parentAt', cur);
      ProgressTrans(D0, D1, D[..], Q, Q1, Q', |tree|, n1, |tree'|);
      i := i + 1;
    }
    BfsScanned(g, s, D[..], Q', found', tree', parentAt', cur, node);
  }

  /** `traverser.summary(traverser.visitedNodes().length)` at the end of
      `bfs`. */
  method BfsReportSummary(t: Traverser, ghost E0: seq<Event>, ghost body: seq<Event>, s: nat,
                          ghost tree: seq<(nat, nat)>)
    returns (ghost log: seq<Event>)
    requires t.events == E0 + body && body == [VisitNode(s)] + BfsReports(tree)
    modifies t
    ensures t.events == E0 + log && log == BfsLog(s, tree, |NodesOf(E0)|)
  {
    log := ReportSummary(t, E0, body);
    BfsReportedNodes(s, tree);
  }

  /** The queue loop of `bfs`: dequeue a node and scan its neighbours
      until the queue is empty. */
  method BfsDrain(g: TransitGraph, s: nat, D: array<bool>, Q: seq<nat>, t: Traverser,
                  ghost E0: seq<Event>, ghost log: seq<Event>, ghost found: seq<nat>,
                  ghost tree: seq<(nat, nat)>, ghost parentAt: seq<nat>, ghost done: nat)
    returns (ghost log': seq<Event>, ghost found': seq<nat>, ghost tree': seq<(nat, nat)>,
             ghost parentAt': seq<nat>)
    requires g.Valid() && s < g.Length() && Queued(g, s, D[..], Q, found, tree, parentAt, done)
    requires t.events == E0 + log && log == [VisitNode(s)] + BfsReports(tree)
    modifies D, t
    ensures Distinct(found') && forall v :: v in found' <==> v in Component(g, s)
    ensures |found'| == |Component(g, s)| == |tree'| + 1
    ensures Tree(g, s, found', tree', parentAt', |found'|) && Ordered(tree', parentAt')
    ensures Earliest(g, found', tree', parentAt')
    ensures t.events == E0 + log' && log' == [VisitNode(s)] + BfsReports(tree')
  {
    var queue := Q;
    log', found', tree', parentAt' := log, found, tree, parentAt;
    ghost var done' := done;
    while |queue| > 0
      invariant t.events == E0 + log' && log' == [VisitNode(s)] + BfsReports(tree')
      invariant Queued(g, s, D[..], queue, found', tree', parentAt', done')
      decreases Unseen(D[..]), |queue|
    {
      ghost var D0, Q0 := D[..], queue;
      BfsDequeue(g, s, D[..], queue, found', tree', parentAt', done');
      var node := queue[0];
      queue, log', found', tree', parentAt' := BfsScan(g, s, D, queue[1..], node, t,
                                                       E0, log', found', tree', parentAt', done');
      assert Unseen(D[..]) < Unseen(D0) || (D[..] == D0 && |queue| < |Q0|);
      done' := done' + 1;
    }
    BfsDone(g, s, D[..], found', tree', parentAt', done');
  }

  /** `bfs(graph, startingNode, traverser)`, run as a plain loop. `found`
      lists the marked nodes in discovery order: the component of the
      start, each once. Each discovery `tree[k]` is an edge from the
      earlier-discovered `found[parentAt[k]]` to `found[k + 1]`; parents are
      dequeued in discovery order, each parent's new neighbours are found
      in ascending order, and no node found before a parent is next to
      that parent's children. The events are exactly the start, the
      `BfsReports` of the discoveries and the summary of the traverser's
      visited nodes. */
  method Bfs(g: TransitGraph, startingNode: nat, t: Traverser)
    returns (ghost log: seq<Event>, ghost found: seq<nat>, ghost tree: seq<(nat, nat)>, ghost parentAt: seq<nat>)
    requires g.Valid() && startingNode < g.Length()
    modifies t
    ensures t.events == old(t.events) + log
    ensures log == BfsLog(startingNode, tree, |NodesOf(old(t.events))|)
    ensures Distinct(found) && (forall v :: v in found <==> v in Component(g, startingNode))
    ensures |found| == |Component(g, startingNode)| == |tree| + 1
    ensures Tree(g, startingNode, found, tree, parentAt, |found|) && Ordered(tree, parentAt)
    ensures Earliest(g, found, tree, parentAt)
  {
    var n := g.Length();
    var Q: seq<nat> := [];
    var D := new bool[n](_ => false);

    Q := Q + [startingNode];
    assert Q == [startingNode];
    D[startingNode] := true;
    t.VisitNode(startingNode);
    BfsStart(g, startingNode, D[..]);
    assert [VisitNode(startingNode)] == [VisitNode(startingNode)] + BfsReports([]);
    log, found, tree, parentAt := BfsDrain(g, startingNode, D, Q, t, old(t.events),
                                                 [VisitNode(startingNode)], [startingNode], [], [], 0);

    log := BfsReportSummary(t, old(t.events), log, startingNode, tree);
  }
}
