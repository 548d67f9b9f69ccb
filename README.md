# Transfer-node contraction, traversals and paths of transit-tools

This project models three pieces of the transit-tools network library and proves properties about them in Dafny.

- **The transfer-node contraction `mergeTransferNodes`** (lib/traversals.js), with its inner functions.
  - Each round, it partitions the TRANSFER subgraph with `dfs` and picks the first two nodes of the first grouping that has more than one node.
  - It merges those two nodes in place on a copy of the lower-triangular adjacency matrix. The merge appends a union row, fills it zone by zone with `mergeEdges`, marks stale cells `-1`, splices out the pair, and strips the markers.
  - It rebuilds the graph from an edge list of the merged matrix.
  - It repeats until no TRANSFER edge is left.
- **The searches `dfs` and `bfs`** (lib/traversals.js). They report to a traverser, which is modelled as the log of the calls it receives.
- **The `Path` container** (lib/path.js).
- **The stop merge `mergeWith`**, as far as test/stopSpec.js pins it down.

Modules, one per file:

| module | file | contents |
|---|---|---|
| `Wrappers` | wrappers.dfy | `Option` (JavaScript's `null`/`undefined`) and `Outcome` (returns or throws) |
| `Enums` | enums.dfy | `EdgeType` |
| `Seqs` | seqs.dfy | `Distinct`, JavaScript's `splice(i, 1)` and `indexOf` |
| `Stops` | stop.dfy | the `Stop` record and `mergeWith`, with the test fixtures |
| `Graph` | graph.dfy | the graph as a triangular cell matrix, the transfer graph, least neighbours, reachability and components |
| `EdgeMerge` | edge_merge.dfy | `mergeEdges` |
| `Contraction` | contraction.dfy | the value-level meaning of one merge (`Contracted`, `MergedStops`), the pair chosen (`TransferPair`) and the whole contraction (`FullyContracted`) |
| `Surgery` | surgery.dfy | class `MatrixSurgery`, whose `newGraph` and `newStops` fields the methods update in place |
| `Search` | search.dfy | class `Traverser`; `dfs` as a recursive method over a visited array; `bfs` as a queue loop |
| `EdgeLists` | edge_lists.dfy | the edge list built from the merged matrix, and the graph built back from it |
| `Transfers` | transfers.dfy | the grouping loop, the filter, one round, and `mergeTransferNodes` |
| `Paths` | paths.dfy | class `Path` |

## How the model is built

**Layout and cells.**
- Row `r` of the matrix holds the cells `(r, c)` for `c < r`. A cell is `Option<Edge>`.
- The working copy also has a `Stale` value, for the source's `-1` marker. `Empty` stands for `0` and for `null`.
- Assigning `row[i] = x` with `i == row.length` appends a cell. This is modelled by `Store`.
- `splice(i, 1)` past the end does nothing; `Seqs.Splice` does the same.
- `merge` relies on both behaviours when `hi` is the last row.

**Proof chain.**
- Each of the four zone helpers is a `while` loop. Each one is proved to leave a matrix described cell by cell: `HorizontalOverlapStep`, `HorizontalHiOvershootStep`, `VerticalOverlapStep`, `VerticalLoOvershootStep`.
- Chaining them, in the source's order, gives `Zoned`.
- Splicing and stripping then gives exactly `Contracted(m, lo, hi)`. That function is a value-level definition:
  - the cells between two nodes other than the pair move to their renumbered indices;
  - the union row holds `mergeEdges` of each node's two cells with the pair.
- Along the way the model proves that no `-1` marker is ever passed to `mergeEdges`. `MergeSlots` requires this.

**The pair picked.**
- `dfs` visits neighbours in ascending order.
- So the first grouping with more than one node starts at the least node that has a TRANSFER edge, and its second node is that node's least TRANSFER neighbour (`TransferPair`).
- Consequently `lo < hi` always holds.

**Traversals.**
- `dfs` reports `visit`/`leave` only for a truthy `parent`: none for the root, and none for the children of node `0`.
- `bfs` reports `visitNode` for the dequeued node, once per neighbour it discovers, not for the discovered neighbour. `BfsReportedNodes` states exactly which nodes are reported.
- Both searches are proved to mark exactly the component of the start, each node once.
- The events of `dfs` are pinned down exactly by `Exploration` and `NeighbourScan`, which follow the source's recursion. Each still-unmarked neighbour is explored in ascending order, with the marks the earlier ones left. Its events sit between the optional `visit` from a truthy parent plus `visitNode`, and the optional `leave`. `DfsOnFork` works one run out in full.
- `bfs` scans each dequeued node's neighbours in ascending order. Every discovery is credited to the first dequeued node next to it (`Earliest`).

**Stops.** lib/stop.js is not part of this model. `mergeWith` is defined so that it meets the assertions of test/stopSpec.js:
- the id is the two ids joined by `-`;
- the other name is appended after ` / ` unless it is already one of the ` / `-separated fields of the receiver's name;
- the coordinates are the means of the two stops' coordinates;
- the routes are the de-duplicated union, in first-seen order.

## Model

| member | source | states |
|---|---|---|
| Seqs.Splice | lib/traversals.js:262-263 | `splice(i, 1)` drops the element at `i` and shifts the rest down; past the end it leaves the list unchanged |
| Seqs.IndexOf | lib/traversals.js:183 | `indexOf` is `-1` exactly when the value is absent; otherwise it is the first position holding it |
| Stops.MergeIds | test/stopSpec.js:21-23 | the merged id is text: the receiver's id, `-`, then the other id |
| Stops.MergeNames | test/stopSpec.js:24 | the other name is appended after ` / ` exactly when it is not yet a field of the receiver's name; either way it is a field of the result |
| Stops.Mean | test/stopSpec.js:25-26 | the mean is equidistant from both coordinates and lies between them |
| Stops.MergeRoutes | test/stopSpec.js:27 | the merged routes have no repeats and are the union of both lists |
| Stops.MergeWith | test/stopSpec.js:20-28 | the merged stop has the merged id and name, the midpoint coordinates, and the union of the routes without repeats |
| Stops.DedupOfDistinct | test/stopSpec.js:27 | de-duplicating a list without repeats changes nothing |
| Stops.DedupPrefix | test/stopSpec.js:27 | first-seen order: what is kept from a prefix is a prefix of what is kept from the whole |
| Stops.MergeRoutesReceiverFirst | test/stopSpec.js:27 | the receiver's routes come first, in their own order |
| Stops.MergeNamesSame | test/stopSpec.js:30-35 | merging with a stop of the same name keeps the name |
| Stops.MergeNamesIdempotent | test/stopSpec.js:37-43 | merging again with the same name changes nothing |
| Stops.MergeNamesKeepsParts | test/stopSpec.js:37-43 | every field of the receiver's name stays a field of the merged name |
| Stops.MeanSymmetric | test/stopSpec.js:25-26 | the mean of the coordinates does not depend on the order of the stops |
| Stops.FixturesCreated | test/stopSpec.js:15-18 | a stop keeps the id and the name it was created with |
| Stops.FixtureIds | test/stopSpec.js:23 | ids `0` and `1` give `'0-1'` |
| Stops.FixtureNames | test/stopSpec.js:24 | `'Stop One'` and `'Stop Two'` give `'Stop One / Stop Two'` |
| Stops.FixtureRoutes | test/stopSpec.js:27 | routes `1, 2` and `3, 2` give `1, 2, 3` |
| Stops.MergeTwoFixtures | test/stopSpec.js:11-28 | merging the two fixtures gives id `'0-1'`, the joined name, coordinates `(0, 62.5)` and routes `1, 2, 3` |
| Stops.MergeSameNameFixture | test/stopSpec.js:30-35 | merging with the same-named third fixture keeps that name |
| Stops.MergeThreeFixtures | test/stopSpec.js:37-43 | in the chained three-way merge the repeated name is not appended again |
| Graph.TransferGraph | lib/traversals.js:176 | the transfer graph has the same nodes and stops; two nodes are joined in it exactly when the graph joins them by a TRANSFER edge |
| Graph.TransferEdgeIffLinkedNode | lib/traversals.js:168-172 | the graph has a TRANSFER edge exactly when some node of its transfer graph has a neighbour |
| Graph.LeastNeighbour | lib/traversals.js:27-28 | the neighbour the ascending scan finds first: a neighbour, with no neighbour below it |
| Graph.LeastLinkedNode | lib/traversals.js:182-183 | the first node, in ascending order, that has a neighbour |
| Graph.LeastLinkedBeforeItsNeighbour | lib/traversals.js:233-238 | the least linked node comes before its least neighbour, so the merged pair always arrives as `lo < hi` |
| Graph.ComponentsDisjoint | lib/traversals.js:182-189 | two distinct components share no node |
| Graph.ComponentOfIsolated | lib/traversals.js:193 | a node without neighbours is alone in its component; otherwise its least neighbour shares its component |
| EdgeMerge.Max | lib/traversals.js:247 | `Math.max`: at least both arguments, and equal to one of them |
| EdgeMerge.MergeEdges | lib/traversals.js:241-257 | absent exactly when both inputs are absent; TRANSFER exactly when an input is TRANSFER; never THEORETICAL; weight the larger of both weights, an absent input counting `0` |
| EdgeMerge.MergeEdgesSymmetric | lib/traversals.js:241-257 | the rule does not depend on the order of its arguments |
| EdgeMerge.MergeEdgesThroughAbsent | lib/traversals.js:311-312 | merging a cell with the placeholder `0` first, then with a second cell, equals merging the two cells directly |
| EdgeMerge.TheoreticalBecomesRoute | lib/traversals.js:250-256 | a THEORETICAL edge that meets no TRANSFER edge becomes a ROUTE edge of the larger weight |
| Contraction.OldIndex | lib/traversals.js:285-286 | the row a renumbered node came from is neither of the pair, and lies at most two above |
| Contraction.NewIndex | lib/traversals.js:285-286 | renumbering `k < lo` to `k`, `lo < k < hi` to `k - 1` and `k > hi` to `k - 2` is undone by `OldIndex` |
| Contraction.OldIndexMonotone | lib/traversals.js:285-286 | renumbering keeps the order of the remaining nodes |
| Contraction.NewIndexOfOld | lib/traversals.js:285-286 | `NewIndex` undoes `OldIndex` |
| Contraction.Contracted | lib/traversals.js:259-295 | a merge leaves `N - 1` rows and row `r` has `r` cells |
| Contraction.ContractedKeepsOtherCells | lib/traversals.js:280-294 | a cell between two nodes other than the pair is unchanged; it moves to the renumbered indices |
| Contraction.ContractedUnionCells | lib/traversals.js:273-276 | the merged node is joined to each other node by `mergeEdges` of that node's cells with `lo` and with `hi` |
| Contraction.ContractedUnionZones | lib/traversals.js:297-338 | the union cell in each zone: `mergeEdges(G[lo][k], G[hi][k])` for `k < lo`; `mergeEdges(G[k][lo], mergeEdges(G[hi][k], 0))` for `lo < k < hi`; `mergeEdges(G[k][lo], G[k][hi])` for `k > hi` |
| Contraction.MergedStops | lib/traversals.js:260-263 | after the merge there are `N - 1` stops; the last is `stops[lo].mergeWith(stops[hi])`; the others are the remaining stops, in order |
| Contraction.RemovePairRenumbers | lib/traversals.js:262-263 | cutting `lo` and `hi` out of a list leaves the others at their renumbered indices |
| Contraction.MergedStopsAligned | lib/traversals.js:260-263 | every remaining stop sits at its node's renumbered index |
| Contraction.TransferPair | lib/traversals.js:182-202 | the merged pair is joined by a TRANSFER edge; no node below `lo` has one; no node below `hi` other than `lo` is a TRANSFER neighbour of `lo` |
| Contraction.ContractStep | lib/traversals.js:174-224 | one round yields a valid graph with one node fewer |
| Contraction.FullyContracted | lib/traversals.js:166-227 | the contraction ends with no TRANSFER edge left; it shrinks a graph that has one and leaves alone a graph that has none |
| Surgery.AsCell | lib/traversals.js:242 | a non-marker cell reads as an edge exactly when it holds one |
| Surgery.AsSlot | lib/traversals.js:196 | a copied cell is never a marker and reads back as the original cell |
| Surgery.SlotsOf | lib/traversals.js:196 | `makeCopy` keeps the shape and copies every cell |
| Surgery.CellsOf | lib/traversals.js:209-211 | reading a marker-free copy keeps its shape and reads every cell |
| Surgery.CellsOfSlotsOf | lib/traversals.js:196 | reading back a fresh copy gives the original matrix |
| Surgery.MergeSlots | lib/traversals.js:303 | `mergeEdges` on the working copy never yields a marker |
| Surgery.Store | lib/traversals.js:321-326 | `row[i] = x` overwrites cell `i`, or appends when `i` is the row's length; no other cell changes |
| Surgery.RemoveStale | lib/traversals.js:290-294 | stripping leaves no marker and never lengthens a row |
| Surgery.RemoveStaleAppend | lib/traversals.js:290-294 | stripping a concatenation strips both parts |
| Surgery.RemoveStaleOfClean | lib/traversals.js:291 | stripping a row without markers changes nothing |
| Surgery.FirstMarker | lib/traversals.js:291-292 | `indexOf(-1)` on a row holding a marker is the first marker |
| Surgery.RemoveStaleDrop | lib/traversals.js:292 | splicing out any marker leaves what stripping yields unchanged |
| Surgery.SpliceFirstStale | lib/traversals.js:292 | splicing out the first marker leaves what stripping yields unchanged |
| Surgery.SpliceBothRenumbers | lib/traversals.js:280-286 | the splices at `lo` and `hi - 1` remove the cells of the pair and renumber the rest |
| Surgery.SpliceBothClean | lib/traversals.js:280-281 | a row whose markers sit exactly at `lo` and `hi` has none left after the two splices |
| Surgery.RemoveStaleMarked | lib/traversals.js:290-294 | stripping a row whose markers sit exactly at `lo` and `hi` gives the same result as the two splices |
| Surgery.ReadyForHiOvershoot | lib/traversals.js:273-274 | `horizontalOverlap` leaves row `hi` between `lo` and `hi` unmarked, as `horizontalHiOvershoot` needs |
| Surgery.HorizontalZonesEstablished | lib/traversals.js:297-317 | after the two horizontal helpers, rows `lo` and `hi` are fully marked and the union row holds the merged cells below `hi` |
| Surgery.ReadyForVerticalOverlap | lib/traversals.js:275 | the horizontal helpers leave column `lo` and column `hi` unmarked in the rows above `hi` |
| Surgery.ReadyForLoOvershoot | lib/traversals.js:275-276 | `verticalOverlap` leaves column `lo` unmarked in the rows between the pair |
| Surgery.VerticalZonesEstablished | lib/traversals.js:318-338 | after all four helpers, every cell touching `lo` or `hi` is marked and every union cell holds the merge of the two cells it stands for |
| Surgery.VerticalOverlapAdvance | lib/traversals.js:321-327 | one turn of the `verticalOverlap` loop extends what it has done by one row |
| Surgery.VerticalLoOvershootAdvance | lib/traversals.js:332-337 | one turn of the `verticalLoOvershoot` loop extends what it has done by one row |
| Surgery.MarkedRow | lib/traversals.js:318-338 | after the helpers, a row other than the pair holds markers exactly at columns `lo` and `hi` |
| Surgery.StrippedRow | lib/traversals.js:290-294 | a row other than the pair, stripped, holds its old row's cells at the renumbered columns |
| Surgery.SplicedUnionRow | lib/traversals.js:280-281 | the union row, with the cells at `lo` and `hi` spliced out, holds the union cell of each renumbered node |
| Surgery.SplicedRows | lib/traversals.js:280-286 | after the splices, each row is the marked row of its old index, and the last is the spliced union row |
| Surgery.CleanupOtherRow | lib/traversals.js:285-294 | a spliced and stripped row of a node other than the pair is the contracted matrix's row |
| Surgery.CleanupUnionRow | lib/traversals.js:280-281 | the spliced union row is the contracted matrix's last row |
| Surgery.CleanupRows | lib/traversals.js:280-294 | row by row, the spliced matrix, stripped, is the contracted matrix |
| Surgery.StripRowsEach | lib/traversals.js:290 | stripping every row but the last gives the rows predicted for each |
| Surgery.CleanupContracts | lib/traversals.js:278-294 | splicing and stripping the marked matrix leaves no marker and exactly the contracted matrix |
| Surgery.ContractedRow | lib/traversals.js:285-294 | row `i` of the contracted matrix, as the working copy holds it |
| Surgery.SlotsOfCellsOf | lib/traversals.js:196 | a marker-free copy is the copy of what it reads as |
| Surgery.StopSplicesMerge | lib/traversals.js:260-263 | `push` then `splice(lo, 1)` and `splice(hi - 1, 1)` give the merged stop list |
| Surgery.SpliceBothPush | lib/traversals.js:261-263 | pushing `x`, then splicing at `lo` and `hi - 1`, cuts the pair out and leaves `x` last |
| Surgery.TriangularOfCells | lib/traversals.js:290-294 | the cleaned copy is lower-triangular when what it reads as is |
| Surgery.MatrixSurgery.Current | lib/traversals.js:196-199 | the graph the working copy stands for has one node per row |
| Surgery.MatrixSurgery.constructor | lib/traversals.js:196-199 | `makeCopy` and `slice`: the working state stands for exactly the given graph |
| Surgery.MatrixSurgery.HorizontalOverlap | lib/traversals.js:297-306 | for `c < lo`, union cell `c` becomes `mergeEdges(G[lo][c], G[hi][c])` and row `lo` is marked; nothing else changes |
| Surgery.MatrixSurgery.HorizontalHiOvershoot | lib/traversals.js:307-317 | for `lo < c < hi`, union cell `c` becomes `mergeEdges(G[hi][c], 0)`, then all of row `hi` is marked; nothing else changes |
| Surgery.MatrixSurgery.VerticalOverlap | lib/traversals.js:318-328 | for every row `c` above `hi`, union cell `c` becomes `mergeEdges(G[c][lo], G[c][hi])` and both cells are marked; the union row grows by its last cell when such a row exists |
| Surgery.MatrixSurgery.VerticalLoOvershoot | lib/traversals.js:329-338 | for `lo < c < hi`, union cell `c` becomes `mergeEdges(G[c][lo], union[c])` and `G[c][lo]` is marked; nothing else changes |
| Surgery.MatrixSurgery.RemoveStaleCells | lib/traversals.js:290-294 | the `indexOf`/`splice` loop removes exactly the markers from every row but the last |
| Surgery.MatrixSurgery.PushUnionRow | lib/traversals.js:266-267 | appends a row of `N - 1` placeholders |
| Surgery.MatrixSurgery.HorizontalZones | lib/traversals.js:273-274 | the two horizontal helpers leave the state `HorizontalZoned` describes |
| Surgery.MatrixSurgery.VerticalZones | lib/traversals.js:275-276 | the two vertical helpers then complete the state `Zoned` describes |
| Surgery.MatrixSurgery.BuildUnion | lib/traversals.js:265-276 | the union row and the four helpers, in the source's order, leave the state `Zoned` describes |
| Surgery.MatrixSurgery.SpliceMerged | lib/traversals.js:280-286 | the union row loses its cells at `lo` and `hi`, then the matrix loses rows `lo` and `hi` |
| Surgery.MatrixSurgery.Cleanup | lib/traversals.js:278-294 | after the splices and the strip, the copy is marker-free, lower-triangular and reads as the contracted matrix |
| Surgery.MatrixSurgery.MergeStops | lib/traversals.js:260-263 | the stop list becomes `MergedStops`; the matrix is untouched |
| Surgery.MatrixSurgery.Merge | lib/traversals.js:259-295 | `merge(lo, hi)` leaves a well-formed state whose matrix is the contraction of the old one and whose stops are the merged list |
| Surgery.MatrixSurgery.MergeTop | lib/traversals.js:233-239 | `mergeTop(a, b)` merges with `lo = min(a, b)` and `hi = max(a, b)` |
| Search.NodesOfAppend | lib/traversals.js:36 | the visited nodes of two logs in a row are those of the first, then those of the second |
| Search.DistinctConcat | lib/traversals.js:187 | two lists without repeats and without a shared element join into a list without repeats |
| Search.Traverser.constructor | lib/traversals.js:184 | a new traverser has received nothing |
| Search.Traverser.VisitNode | lib/traversals.js:25 | `visitNode` appends its event |
| Search.Traverser.Visit | lib/traversals.js:24 | `visit` appends its event |
| Search.Traverser.Leave | lib/traversals.js:33 | `leave` appends its event |
| Search.Traverser.Summary | lib/traversals.js:36 | `summary` appends its event |
| Search.Entry | lib/traversals.js:24-25 | the entry events end with `visitNode(node)`, preceded by the edge from the parent exactly when the parent is truthy |
| Search.Exit | lib/traversals.js:33 | there is one exit event exactly when the parent is truthy |
| Search.Exploration | lib/traversals.js:21-34 | the run of `dfsExplore` keeps the length of the marks and strictly shrinks the unmarked set |
| Search.NeighbourScan | lib/traversals.js:27-31 | the rest of the neighbour loop keeps the length of the marks and never unmarks a node |
| Search.ScanStart | lib/traversals.js:27 | before the first neighbour, the loop's remaining run is the whole of `NeighbourScan` |
| Search.ScanChild | lib/traversals.js:28-29 | exploring unmarked neighbour `i` appends its run and hands the marks it left to neighbour `i + 1` |
| Search.ScanSkip | lib/traversals.js:28 | a marked node or a non-neighbour adds nothing |
| Search.ScanEnd | lib/traversals.js:27 | after the last neighbour, the loop has sent exactly `NeighbourScan` and left its marks |
| Search.ExplorationExplored | lib/traversals.js:21-34 | every run of `dfsExplore` marks exactly the nodes it reports, each once and `node` first, reachable, with all their neighbours marked, the least unmarked neighbour second |
| Search.ScanExploring | lib/traversals.js:27-31 | the rest of the neighbour loop keeps the loop's invariant up to the last neighbour |
| Search.ScanExploringChild | lib/traversals.js:28-29 | exploring an unmarked neighbour and then the rest of the loop keeps the invariant |
| Search.ScanExploringSkip | lib/traversals.js:28 | skipping a neighbour and then the rest of the loop keeps the invariant |
| Search.ChildExploring | lib/traversals.js:28-29 | the run of an unmarked neighbour joins the loop's nodes |
| Search.ExploreStart | lib/traversals.js:22-25 | entering a node marks it and reports the node, after the edge from a truthy parent |
| Search.UnseenShrinks | lib/traversals.js:22 | marks only grow, so the set of unmarked nodes only shrinks |
| Search.UnseenMark | lib/traversals.js:22 | marking an unmarked node strictly shrinks the unmarked set; this is the termination measure of the recursion |
| Search.ExploreChild | lib/traversals.js:28-29 | the nodes of a recursive exploration of an unmarked neighbour join the parent's, keeping them reachable and unrepeated |
| Search.ExploreSkip | lib/traversals.js:28 | skipping a marked node or a non-neighbour keeps the loop's invariant |
| Search.ExploreFinish | lib/traversals.js:33 | after the loop and the `leave` to a truthy parent, every node reported has all its neighbours marked |
| Search.DfsEnter | lib/traversals.js:22-25 | marks `node` and nothing else, and sends exactly `Entry`: `visit` for a truthy parent, then `visitNode` |
| Search.DfsLeave | lib/traversals.js:33 | sends exactly `Exit`: `leave` back to a truthy parent only |
| Search.DfsExplore | lib/traversals.js:21-34 | `dfsExplore` sends exactly the events of `Exploration` and leaves its marks; so it marks exactly the nodes it reports, each once and `node` first, all reachable, with all their neighbours marked; edge events come from truthy parents only |
| Search.ReportSummary | lib/traversals.js:36 | the summary counts all the traverser's visited nodes |
| Search.DfsVisits | lib/traversals.js:16-37 | from an unmarked start, the visited nodes are its component, each once, with the least neighbour second |
| Search.DfsFromFresh | lib/traversals.js:16-34 | with a fresh visited array, the exploration sends exactly `DfsTrail`, whose visited nodes are the component of the start, each once, start first, least neighbour second |
| Search.Dfs | lib/traversals.js:16-37 | `dfs` sends exactly `DfsTrail` and then the summary of the visited nodes; it visits exactly the component of the start, each node once, start first, least neighbour second; no edge event enters or leaves the root, and none comes from node `0` |
| Search.DfsOnFork | lib/traversals.js:16-34 | on the graph 0-1, 0-2, 2-3 from node 0 the events are `visitNode` 0, 1, 2, `visit(2, 3)`, `visitNode` 3, `leave(3, 2)` |
| Search.BfsOnTriangle | lib/traversals.js:60-68 | on the triangle from node 0, crediting both 1 and 2 to node 0 meets `Earliest`, and crediting 2 to node 1 does not |
| Search.Parents | lib/traversals.js:60-68 | the nodes dequeued for each discovery, in order |
| Search.BfsReports | lib/traversals.js:67-68 | two events per discovery |
| Search.BfsReportedNodes | lib/traversals.js:67-68 | `bfs` reports the start and then the dequeued node once per discovered neighbour, not the neighbour itself |
| Search.NodesOfReport | lib/traversals.js:67-68 | one discovery reports its parent once |
| Search.ParentsSnoc | lib/traversals.js:64-68 | a new discovery appends its parent |
| Search.BfsLog | lib/traversals.js:51-83 | the `bfs` log starts with the start node and ends with a summary counting one node per discovery plus the start |
| Search.BfsReportsSnoc | lib/traversals.js:67-68 | a discovery appends its `visit` and `visitNode` events |
| Search.BfsStart | lib/traversals.js:49-51 | after marking the start, the queue loop's invariant holds |
| Search.BfsDequeue | lib/traversals.js:60 | `Q.shift()` begins the scan of the next node in discovery order |
| Search.TreeWeaken | lib/traversals.js:60 | the discovery tree stays valid as more nodes are dequeued |
| Search.MarksDiscover | lib/traversals.js:63-65 | marking a new neighbour keeps the marked nodes exactly the discovered ones, reachable and unrepeated |
| Search.TreeDiscover | lib/traversals.js:63-64 | a new discovery is a tree edge from the dequeued node |
| Search.OrderedDiscover | lib/traversals.js:62-64 | discoveries stay ordered by parent, and by child within a parent |
| Search.CoveredDiscover | lib/traversals.js:65 | marking a node keeps the neighbours of the finished nodes marked |
| Search.EarliestDiscover | lib/traversals.js:62-65 | a node found while scanning a dequeued node has no neighbour among the nodes dequeued before it |
| Search.BfsDiscover | lib/traversals.js:63-68 | discovering an unmarked neighbour keeps the scan's invariant |
| Search.BfsSkip | lib/traversals.js:63 | skipping a marked node or a non-neighbour keeps the scan's invariant |
| Search.BfsScanned | lib/traversals.js:62-70 | after the scan every neighbour of the dequeued node is marked |
| Search.BfsDone | lib/traversals.js:58 | with an empty queue, the discovered nodes are the component of the start, each once, each credited to the first dequeued node next to it |
| Search.ProgressTrans | lib/traversals.js:62-70 | progress over two stretches of a scan is progress over both |
| Search.BfsStep | lib/traversals.js:63-68 | one turn of the scan: an unmarked neighbour is marked, enqueued and reported with `visit` then `visitNode` of the dequeued node |
| Search.BfsScan | lib/traversals.js:62-70 | the scan of one dequeued node marks, enqueues and reports its unmarked neighbours in ascending order |
| Search.BfsReportSummary | lib/traversals.js:83 | the summary counts the traverser's visited nodes |
| Search.BfsDrain | lib/traversals.js:55-77 | the queue loop ends having discovered exactly the component of the start, each node credited to the first dequeued node next to it |
| Search.Bfs | lib/traversals.js:42-88 | `bfs` marks exactly the component of the start, each node once; discoveries come in queue order, and in ascending order per dequeued node; no node dequeued before a discovery's parent is next to the discovered node; the log is the start, two events per discovery, and the summary |
| EdgeLists.RowEdges | lib/traversals.js:210-220 | each record of a row names that row, a column of it, and the cell found there |
| EdgeLists.EdgesOf | lib/traversals.js:209-222 | each record names a present cell `(i, j)` with `j < i` and carries its type and weight |
| EdgeLists.Lookup | lib/traversals.js:224 | a pair has no edge exactly when no record joins it |
| EdgeLists.FromEdgeList | lib/traversals.js:224 | the rebuilt graph has `numNodes` triangular rows and the given stops |
| EdgeLists.LookupAppend | lib/traversals.js:219 | a later record takes precedence over an earlier one |
| EdgeLists.LookupRow | lib/traversals.js:210-220 | looking up a pair in one row's records finds that row's cell |
| EdgeLists.LookupEdgesOf | lib/traversals.js:209-222 | every cell of the matrix is found again among its records |
| EdgeLists.RowRoundTrip | lib/traversals.js:209-224 | each row of the rebuilt graph is the matrix's row |
| EdgeLists.EdgeListRoundTrip | lib/traversals.js:209-224 | building the graph from the edge list of a matrix gives that matrix back, with the given stops |
| EdgeLists.CollectEdges | lib/traversals.js:208-222 | the double loop adds exactly the records `EdgesOf` lists, in its order |
| Transfers.Flatten | lib/traversals.js:187 | the nodes collected are at least as many as in any one grouping |
| Transfers.FlattenMember | lib/traversals.js:187 | a node was seen exactly when some grouping holds it |
| Transfers.FlattenPush | lib/traversals.js:186-187 | pushing a grouping appends its nodes to the seen nodes |
| Transfers.SkipSeen | lib/traversals.js:183 | skipping a seen node keeps the loop's invariant |
| Transfers.SeenInComponent | lib/traversals.js:183-187 | a seen node is in the component of the start of some grouping |
| Transfers.UnseenComponentFresh | lib/traversals.js:183-187 | the component of an unseen node holds no seen node |
| Transfers.VisitedFresh | lib/traversals.js:185-187 | the nodes `dfs` visits from an unseen node are unseen, and none lies below it |
| Transfers.NewGrouping | lib/traversals.js:185-186 | those nodes form a grouping, started at its least node |
| Transfers.SeenPush | lib/traversals.js:187 | pushing the visited nodes keeps every seen node in range and covers the start |
| Transfers.GroupingsPush | lib/traversals.js:186 | pushing the new grouping keeps the groupings well formed, with ascending starts |
| Transfers.AddGrouping | lib/traversals.js:183-188 | one `dfs` from an unseen node extends the partition by its component |
| Transfers.PushEach | lib/traversals.js:187 | the `forEach` push appends the visited nodes to the seen ones |
| Transfers.FreshVisitedNodes | lib/traversals.js:184-186 | a fresh traverser's visited nodes are those of the search alone |
| Transfers.Partition | lib/traversals.js:177-189 | the loop leaves groupings that are components, each listed once, started at its least node, in ascending order of start, covering all nodes |
| Transfers.PartitionCovers | lib/traversals.js:182-189 | the groupings cover exactly the nodes of the graph |
| Transfers.PartitionDisjoint | lib/traversals.js:182-189 | no node lies in two groupings |
| Transfers.Filter | lib/traversals.js:193 | keeps exactly the groupings of more than one node |
| Transfers.FilterFirst | lib/traversals.js:193 | the first grouping of more than one node heads the filtered list |
| Transfers.IsolatedGrouping | lib/traversals.js:191-193 | the grouping of a node without a neighbour is that node alone |
| Transfers.LeastLinkedGrouping | lib/traversals.js:182-189 | the grouping holding the least linked node starts at it |
| Transfers.EarlierGroupingsSingle | lib/traversals.js:191-193 | every grouping before it is a single node |
| Transfers.FirstMergeGroup | lib/traversals.js:193-202 | the pair passed to `mergeTop` is the least node with a TRANSFER edge and its least TRANSFER neighbour |
| Transfers.MergeOnce | lib/traversals.js:174-224 | one round of the loop computes exactly `ContractStep`: a valid graph with one node fewer |
| Transfers.MergeTransferNodes | lib/traversals.js:166-227 | `undefined` exactly when there is no TRANSFER edge; otherwise the full contraction, with no TRANSFER edge left and fewer nodes |
| Paths.Reversed | lib/path.js:12-14 | the reversal has the same length, with element `i` taken from position `n - 1 - i` |
| Paths.ReversedTwice | lib/path.js:12-14 | reversing twice restores the original |
| Paths.ReversedElements | lib/path.js:12-14 | reversal keeps the elements |
| Paths.Path.constructor | lib/path.js:4-6 | a new path is empty |
| Paths.Path.Length | lib/path.js:8-10 | the number of nodes |
| Paths.Path.Reverse | lib/path.js:12-14 | reverses the nodes in place and returns them |
| Paths.Path.Add | lib/path.js:16-18 | the length grows by one, the node is last, and the earlier nodes are unchanged |
| Paths.Path.Contains | lib/path.js:20-22 | holds exactly when the node occurs in the path |
| Paths.Path.At | lib/path.js:24-26 | the node at an in-range index, and `undefined` outside; the path is only read |
| Paths.Path.FillTo | lib/path.js:28-43 | below the current length it fails with the source's message and changes nothing; otherwise the length becomes `length`, the old nodes stay, and every added node is `value` |

## Left out

- Modelled as unseen code:
  - lib/graph.js, lib/graphTraverser.js, lib/edge.js, lib/edgeList.js and lib/stop.js are not part of this model.
  - A graph is its triangular cell matrix plus its stop list.
  - `edgeExists(i, i)` is taken to be false.
  - `graph.numNodes` is taken to equal `graph.length()`.
  - `getTransferEdges().length() > 0` is modelled as `HasTransferEdge`.
  - `new TransitGraph(edgeList, n, stops)` is modelled as `FromEdgeList`: each record is stored in the cell of its endpoints, and a later record wins. The double loop never adds two records for one cell.
- EdgeLists.FromEdgeList: states only the shape of the rebuilt graph; what the rebuilt graph holds is stated by `EdgeListRoundTrip`.
- The centrality functions are not modelled: `closenessCentrality`, `pageRank`, `katzCentrality` and `outwardAccessibility`. They are floating-point iterations over code that is not shown.
- `findCriticalEdges` is not modelled. It depends on randomness and on an external evolutionary search.
- Left out of `bfs`:
  - the asynchronous scheduling (`async.whilst`, `setImmediate`), since `bfs` is modelled as a plain loop;
  - `logger.info`;
  - the completion `callback`.
- The unused `socket` parameter of `mergeTransferNodes` is not modelled.
- The absent traverser is not modelled. The traverser is always present here, so the model says nothing about runs that pass none. Without a traverser the searches report nothing and their marking is the same.
- Stops.Mean: computes with exact `real` numbers, as all weights and coordinates in the model are. JavaScript's double rounding is lost; in the mean, the halved sum of two doubles rounds in the source.
- Paths.Path.Reverse: returns a copy of the reversed nodes. lib/path.js returns `this.nodes` itself, so the caller's array aliases the path's storage; the model does not capture that aliasing.
- The traverser's own bookkeeping is not modelled. It is a log of the calls it receives.
- Search.Dfs: requires an in-range start node; the source does not guard against one out of range.
- Search.Bfs: requires an in-range start node; the source does not guard against one out of range.
- Surgery.MatrixSurgery.MergeTop: requires two distinct in-range indices. `mergeTransferNodes`, the only caller, always passes two nodes of one grouping.
- Surgery.MatrixSurgery.PushUnionRow: requires a non-empty matrix, which `merge` guarantees.
- The visited arrays `D` of `dfs` and `bfs` are allocated as all-`false` arrays rather than by a `push` loop.
- Transfers.MergeOnce: the edge-list loop reads the merged copy through `CellsOf`, which is defined only on a copy without markers. `Cleanup` proves that no marker remains.
- `index.js` is not modelled; it only re-exports modules.
- `Geometry` in lib/enums.js is not modelled; the core does not use it.
