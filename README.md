# Maximum flow: Edmonds–Karp over an object graph, and Ford–Fulkerson over a matrix

This project models a Java repository that computes maximum flow twice, and it proves properties of both models.

The first computation uses an object graph:
- an `Edge` record with a mutable flow;
- a `FlowNetwork` whose edge list and per-vertex adjacency lists share the same `Edge` objects, and which can rebuild a fresh residual network from the current flows;
- a `MaxFlowFinder` that runs Edmonds–Karp: a breadth-first search for an augmenting path, the bottleneck of that path, and `updateFlow`, which maps each residual edge back to the first base edge with matching endpoints;
- `NetworkParser.validateNetwork`, which checks the vertex count, the edge endpoints and the capacities.

The second computation, in `main1/Main.java`, is a compact Ford–Fulkerson with breadth-first search. It works on a square residual capacity matrix that it updates in place.

The modules and the source they model:

- `Flows` (flows.dfy): the flows of a network as values. An `EdgeState` holds from, to, capacity and flow. The module defines the residual network as `createResidualGraph` builds it, feasibility (0 ≤ flow ≤ capacity), "one base edge per unordered vertex pair", and the net outflow of a vertex.
- `Paths` (paths.dfy): walks through a list of edges, reachability, simple walks, and closed vertex sets that block reachability.
- `Augmenting` (augment.dfy): `updateFlow` as a function on values. `FindArc` finds the first edge u → v. `Credit` credits one residual edge, forward before backward. `Augment` applies `Credit` along a whole path. The module proves conservation and feasibility, and gives a counter-example for antiparallel base edges.
- `Edges` (edge.dfy): class `Edge`.
- `Networks` (network.dfy): class `FlowNetwork`. Edges live in an arena (`edges: seq<Edge>`), and the adjacency lists hold indices into it. A flow set through either view is therefore seen through the other.
- `Counting` (counting.dfy): counts the unset flags, which bounds the breadth-first search loops.
- `MaxFlow` (maxflow.dfy): class `MaxFlowFinder`. It covers the search, path reconstruction, bottleneck, update, the main loop and the `PathInfo` records.
- `Parser` (parser.dfy): `validateNetwork`.
- `MatrixModel` (matrix_model.dfy): the residual matrix as `seq<seq<int>>`. It covers the push of flow along one pair, augmentation along a parent chain, the path flow, the breadth-first search bookkeeping, and the invariant that the main loop keeps.
- `Cuts` (cuts.dfy): cut capacities of a matrix and the max-flow/min-cut theorem for the matrix algorithm.
- `MatrixFlow` (matrix.dfy): class `ResidualMatrix`, with `graph` as an `array2<int>` and `parent` as an `array<int>`. It holds `addEdge`, `bfs` and `fordFulkerson`, plus the six-vertex network from `main`, whose maximum flow is proved to be 23.

Integers are unbounded. `Integer.MAX_VALUE` is kept as the constant `IntMax`, the start value of the running minimum.

## Model

| member | source | states |
|---|---|---|
| Edges.Edge.constructor | src/main/java/networkflow/Edge.java:22-27 | the edge keeps the given endpoints and capacity, starts with flow 0, and so its residual capacity equals its capacity |
| Edges.Edge.SetFlow | src/main/java/networkflow/Edge.java:70-81 | after setFlow(x) the flow is x, with no range check, and the residual capacity is capacity − x; endpoints and capacity are constants and cannot change |
| Networks.SelectOutgoing | src/networkflow/FlowNetwork.java:40-54 | the edges named by the indices of edges leaving v are exactly the in-order subsequence of the edge list whose source is v |
| Networks.FlowNetwork.constructor | src/networkflow/FlowNetwork.java:15-24 | n vertices, n empty adjacency lists, an empty edge list |
| Networks.FlowNetwork.AddEdge | src/networkflow/FlowNetwork.java:40-45 | one fresh edge with flow 0 is appended to the edge list and its index to the end of the adjacency list of `from`; all other adjacency lists and all existing edges are unchanged, and every adjacency list stays the in-order list of the edges leaving its vertex |
| Networks.FlowNetwork.GetAdjacencyList | src/networkflow/FlowNetwork.java:52-54 | returns the same edge objects as the edge list, exactly those leaving v, in insertion order |
| Networks.FlowNetwork.AddContribution | src/networkflow/FlowNetwork.java:72-87 | one round of the residual loop appends the forward edge (capacity − flow, if positive) and then the backward edge (flow, if positive), and nothing else |
| Networks.FlowNetwork.CreateResidualGraph | src/networkflow/FlowNetwork.java:68-90 | a fresh network with the same vertex count whose edges are exactly the residual edges of the base flows, in order; the base network is not modified |
| Flows.Residual | src/networkflow/FlowNetwork.java:72-87 | at most two residual edges per base edge, each with flow 0 and positive capacity |
| Flows.ResidualMembers | src/networkflow/FlowNetwork.java:72-87 | an edge is in the residual network if and only if it is the forward remainder or the backward flow of some base edge |
| Flows.ResidualSource | src/networkflow/FlowNetwork.java:72-87 | every residual edge comes from a base edge, as its forward or its backward part |
| Flows.ResidualComplete | src/networkflow/FlowNetwork.java:72-87 | every forward or backward part of a base edge is in the residual network |
| Flows.ResidualInRange | src/networkflow/FlowNetwork.java:80-85 | when base endpoints lie in [0, n), so do residual endpoints |
| Flows.NetOutUpdate | src/main/java/networkflow/Edge.java:70-72 | changing one edge's flow changes the net outflow of its tail by the difference and that of its head by minus the difference |
| Flows.NetOutBound | src/networkflow/MaxFlowFinder.java:69-90 | with feasible flows, no vertex sends out more than the capacity of its outgoing edges |
| Flows.OutCapacityIgnoresFlow | src/networkflow/MaxFlowFinder.java:171-198 | changing flows leaves each vertex's outgoing capacity unchanged |
| Flows.UniquePairsIgnoresFlow | src/networkflow/MaxFlowFinder.java:171-198 | changing flows keeps "one base edge per unordered pair" |
| Paths.ClosedSetHoldsWalks | src/networkflow/MaxFlowFinder.java:113-131 | a walk through positive edges that starts inside a set closed under positive edges ends inside it |
| Paths.ClosedSetBlocksReach | src/networkflow/MaxFlowFinder.java:113-136 | a vertex outside such a closed set is unreachable from a vertex inside it |
| Paths.RankedWalkIsSimple | src/networkflow/MaxFlowFinder.java:139-148 | a walk whose edges go from lower to higher search rank never repeats a vertex |
| Paths.SimpleHasNoLoop | src/networkflow/MaxFlowFinder.java:139-148 | an edge of a simple walk is not a self-loop |
| Paths.SimpleEdgesDistinctPairs | src/networkflow/MaxFlowFinder.java:139-148 | two different edges of a simple walk never join the same unordered pair of vertices |
| Augmenting.FindArc | src/networkflow/MaxFlowFinder.java:179-186 | returns the first edge u → v of the list, or none exactly when there is no such edge |
| Augmenting.Augment | src/networkflow/MaxFlowFinder.java:171-198 | augmenting changes flows only: endpoints and capacities stay as they were |
| Augmenting.FindArcIgnoresFlow | src/networkflow/MaxFlowFinder.java:179-195 | the edge that the update finds does not depend on current flows, so earlier updates on the path do not redirect later ones |
| Augmenting.ResidualEdgeFindsArc | src/networkflow/MaxFlowFinder.java:179-195 | every residual edge u → v finds a base edge, either u → v or v → u |
| Augmenting.CreditNetOut | src/networkflow/MaxFlowFinder.java:179-195 | crediting residual edge u → v by b raises the net outflow of u by b, lowers that of v by b, and leaves other vertices alone |
| Augmenting.AugmentNetOut | src/networkflow/MaxFlowFinder.java:171-198 | augmenting along a path from s to t by b raises the net outflow of s by b, lowers that of t by b, and conserves every other vertex |
| Augmenting.CreditHitsOrigin | src/networkflow/MaxFlowFinder.java:179-195 | with one base edge per pair, the update credits exactly the base edge that the residual edge came from |
| Augmenting.DistinctOrigins | src/networkflow/MaxFlowFinder.java:171-198 | with one base edge per pair, different edges of a simple path come from different base edges |
| Augmenting.CreditFeasible | src/networkflow/MaxFlowFinder.java:179-195 | crediting by at most the residual capacity keeps 0 ≤ flow ≤ capacity and changes no other edge |
| Augmenting.AugmentPrefixFeasible | src/networkflow/MaxFlowFinder.java:171-198 | after the first k credits, flows are feasible and the base edges of the remaining path edges are still untouched |
| Augmenting.AugmentFeasible | src/networkflow/MaxFlowFinder.java:171-198 | with one base edge per pair, augmenting along a simple residual path by at most its bottleneck keeps every base edge within 0 ≤ flow ≤ capacity |
| Augmenting.AntiparallelOverflow | src/networkflow/MaxFlowFinder.java:179-195 | with antiparallel base edges 0 → 1 and 1 → 0, augmenting along the residual edge 0 → 1 (the reverse of 1 → 0) credits 0 → 1 past its capacity |
| Counting.CountFalseVisit | main1/Main.java:54-57 | marking an unmarked vertex lowers the count of unmarked vertices by one |
| Counting.CountFalseSubset | src/networkflow/MaxFlowFinder.java:117-131 | a subset with as many unset flags as its superset is equal to it |
| MaxFlow.BottleneckIsMinimum | src/networkflow/MaxFlowFinder.java:156-164 | the bottleneck is at most every edge's residual capacity and equals one of them, or IntMax for the empty path |
| MaxFlow.AugmentStep | src/networkflow/MaxFlowFinder.java:69-90 | augmenting by the bottleneck of a simple residual path (bottleneck ≥ 1) keeps shape, feasibility and unique pairs, moves exactly b from t to s in net outflow, and keeps the outgoing capacity of s |
| MaxFlow.ProgressStart | src/networkflow/MaxFlowFinder.java:57-63 | the starting flows meet the loop invariant with total 0 |
| MaxFlow.ProgressRound | src/networkflow/MaxFlowFinder.java:69-90 | one round keeps the loop invariant with total + b, b ≥ 1, and strictly lowers the source's unused outgoing capacity, which stays ≥ 0 |
| MaxFlow.RunningTotalsAppend | src/networkflow/MaxFlowFinder.java:74-75 | appending PathInfo(path, total + b, b) keeps "each record holds the running total including its own bottleneck" |
| MaxFlow.HistoryRound | src/networkflow/MaxFlowFinder.java:69-90 | a round along a simple augmenting path of the flows reached so far extends the history: the flows become those augmented along it by its bottleneck, and the total grows by that bottleneck |
| MaxFlow.DescribesAppend | src/networkflow/MaxFlowFinder.java:74-75 | appending PathInfo(path, total + bottleneck, bottleneck) for the new path keeps record k holding path k, its bottleneck and the running total |
| MaxFlow.RecordRound | src/networkflow/MaxFlowFinder.java:69-90 | the history and the records both advance by the same path in one round |
| MaxFlow.ResidualPathArcs | src/networkflow/FlowNetwork.java:79-86 | the edges of a path through a residual network have flow 0, so their states are their endpoints and capacities with flow 0 |
| MaxFlow.RecordedPathInRange | src/networkflow/MaxFlowFinder.java:121-128 | edges of a residual path have endpoints in range |
| MaxFlow.FirstOutgoing | src/networkflow/MaxFlowFinder.java:179-186 | the first edge to v on the adjacency list of u is the first edge u → v of the whole edge list |
| MaxFlow.NoOutgoing | src/networkflow/MaxFlowFinder.java:188-195 | no edge to v on the adjacency list of u means no edge u → v at all |
| MaxFlow.ClosedEdgesBlockReach | src/networkflow/MaxFlowFinder.java:134-136 | when every positive edge out of a visited vertex leads to a visited vertex and the sink is unvisited, the sink is unreachable |
| MaxFlow.RankedPathIsSimple | src/networkflow/MaxFlowFinder.java:139-148 | the edges followed back from the sink form a simple path from the source to the sink |
| MaxFlow.SearchStart | src/networkflow/MaxFlowFinder.java:108-114 | the search state with only the source visited and queued meets the search invariant |
| MaxFlow.SearchPop | src/networkflow/MaxFlowFinder.java:118 | taking the head off the queue keeps the search invariant |
| MaxFlow.SearchVisit | src/networkflow/MaxFlowFinder.java:125-129 | visiting a new vertex through a positive edge, recording that edge and queueing the vertex keeps the search invariant |
| MaxFlow.CloseVertex | src/networkflow/MaxFlowFinder.java:121-130 | after scanning its list, every positive edge out of the dequeued vertex leads to a visited vertex |
| MaxFlow.SearchFinished | src/networkflow/MaxFlowFinder.java:117 | once the queue is empty, every visited vertex has been scanned |
| MaxFlow.MaxFlowFinder.constructor | src/networkflow/MaxFlowFinder.java:33-50 | stores the network, source and sink, with an empty path log |
| MaxFlow.MaxFlowFinder.FindAugmentingPath | src/networkflow/MaxFlowFinder.java:106-149 | returns no path exactly when the sink is unreachable through positive residual edges; a returned path leads from source to sink through edges of the residual network and is simple |
| MaxFlow.MaxFlowFinder.Explore | src/networkflow/MaxFlowFinder.java:108-131 | the sink is left unvisited only if it is unreachable; every visited vertex but the source has a recorded edge from a vertex visited earlier |
| MaxFlow.MaxFlowFinder.ProcessNext | src/networkflow/MaxFlowFinder.java:117-131 | one round of the search loop keeps the search invariant and closes the dequeued vertex |
| MaxFlow.MaxFlowFinder.VisitNeighbours | src/networkflow/MaxFlowFinder.java:121-130 | every positive edge of the list leads to a visited vertex afterwards; visited vertices stay visited |
| MaxFlow.MaxFlowFinder.ReconstructPath | src/networkflow/MaxFlowFinder.java:139-148 | following the recorded edges back from the sink and reversing gives a simple path from the source to the sink through residual edges |
| MaxFlow.MaxFlowFinder.FindBottleneckCapacity | src/networkflow/MaxFlowFinder.java:156-164 | the running minimum from IntMax equals the bottleneck of the path |
| MaxFlow.MaxFlowFinder.AdjustFirst | src/networkflow/MaxFlowFinder.java:179-186 | adds delta to the first base edge u → v if there is one, reports whether there was, and changes no other flow |
| MaxFlow.MaxFlowFinder.AddToEdge | src/networkflow/MaxFlowFinder.java:182 | setFlow(getFlow() + delta) changes only that edge's flow, seen through the shared edge list |
| MaxFlow.MaxFlowFinder.FirstTo | src/networkflow/MaxFlowFinder.java:179-180 | the position of the first edge to v in the list, or its length when none |
| MaxFlow.MaxFlowFinder.CreditResidualEdge | src/networkflow/MaxFlowFinder.java:174-196 | credits the first base edge u → v, or failing that debits the first base edge v → u |
| MaxFlow.MaxFlowFinder.UpdateFlow | src/networkflow/MaxFlowFinder.java:171-198 | the new flows are those of Augment along the path by the bottleneck |
| MaxFlow.MaxFlowFinder.NextPath | src/networkflow/MaxFlowFinder.java:63-69 | rebuilds the residual network and finds a simple augmenting path, or none exactly when the sink is unreachable |
| MaxFlow.MaxFlowFinder.RecordPath | src/networkflow/MaxFlowFinder.java:74-75 | the total grows by b; below 1000 vertices the path is appended with the new total, otherwise nothing is logged |
| MaxFlow.MaxFlowFinder.AugmentOnce | src/networkflow/MaxFlowFinder.java:71-88 | one loop round adds the path's bottleneck to the total, makes the flows those of Augment along the path by that bottleneck, and below 1000 vertices appends PathInfo(path, new total, bottleneck) to the log; the loop invariant holds and the source's unused outgoing capacity strictly drops |
| MaxFlow.MaxFlowFinder.Round | src/networkflow/MaxFlowFinder.java:69-90 | one loop round extends the ghost history of paths by the path found, and the records stay in step with it |
| MaxFlow.MaxFlowFinder.Saturate | src/networkflow/MaxFlowFinder.java:69-90 | the loop ends with the invariant kept and the sink unreachable in the residual network; the final flows and total are those of replaying the history of augmenting paths, and below 1000 vertices record k holds path k, its bottleneck and the running total |
| MaxFlow.MaxFlowFinder.FindMaxFlow | src/networkflow/MaxFlowFinder.java:57-99 | with one base edge per pair and source ≠ sink: edges keep their shape, flows stay within capacities, the source's net outflow grows by the returned total and the sink's shrinks by it while every other vertex is unchanged, and the sink is unreachable at the end. A ghost trace lists the paths taken: each was a simple augmenting path of the flows reached before it, the final flows are those of augmenting along each by its bottleneck, and the total is the sum of the bottlenecks. Below 1000 vertices record k holds the edges of path k, its bottleneck and the running total |
| Parser.FirstEdgeProblemSpec | src/networkflow/NetworkParser.java:61-79 | the edge loop accepts exactly when every edge passes its three checks; otherwise it reports the problem of the first failing edge |
| Parser.ValidateAccepts | src/networkflow/NetworkParser.java:51-82 | accepted if and only if there are at least 2 vertices, every endpoint is in [0, vertices) and no capacity is negative; zero capacities and self-loops pass |
| Parser.ValidateRejects | src/networkflow/NetworkParser.java:55-78 | a rejection is "too few vertices" exactly when vertices < 2; otherwise it names the first bad source, bad destination or negative capacity of some edge |
| Parser.ValidateNetwork | src/networkflow/NetworkParser.java:51-82 | the verdict on the network's vertex count and edges, accepted exactly when the network is well formed; the network is not modified |
| MatrixModel.SameEntries | main1/Main.java:79-83 | proof scaffolding: two square matrices with equal entries are equal, which lets each in-place update of `graph` be stated as a new matrix value |
| MatrixModel.Put | main1/Main.java:34-36 | sets one entry and leaves the others and the shape unchanged |
| MatrixModel.SumUpdate | main1/Main.java:81-82 | changing one entry of a row changes its sum by the difference |
| MatrixModel.Push | main1/Main.java:81-82 | pushing f along u → v lowers entry (u, v) by f, raises (v, u) by f, and changes nothing else |
| MatrixModel.PushRowSums | main1/Main.java:81-82 | a push moves f out of row u's sum and into row v's |
| MatrixModel.AugmentPairSums | main1/Main.java:79-83 | augmenting along a vertex sequence preserves graph[u][v] + graph[v][u] for every pair |
| MatrixModel.AugmentRowSums | main1/Main.java:79-83 | augmenting along a walk from s to t lowers s's row sum by f, raises t's by f, and keeps the others |
| MatrixModel.AugmentNonNegative | main1/Main.java:79-83 | with non-negative entries, distinct vertices and f at most each path entry, every entry stays ≥ 0 |
| MatrixModel.PathFlowBounds | main1/Main.java:72-76 | on a positive walk the path flow is ≥ 1, at most every path entry, and equal to one of them |
| MatrixModel.BalancedRound | main1/Main.java:70-86 | one round keeps the loop invariant (entries ≥ 0, pair sums and row sums balanced against the original by the total) with total + f, where f ≥ 1, and strictly lowers the source's row sum, which stays ≥ 0 |
| MatrixModel.ScanStart | main1/Main.java:40-48 | the state with only the source visited and queued meets the scanning invariant |
| MatrixModel.ScanPop | main1/Main.java:51 | polling the queue keeps the scanning invariant |
| MatrixModel.ScanVisit | main1/Main.java:54-57 | queueing v with parent u through a positive entry keeps the scanning invariant |
| MatrixModel.CloseRow | main1/Main.java:53-59 | after the row loop, every positive entry of row u leads to a visited vertex |
| MatrixModel.ScanFinished | main1/Main.java:50 | once the queue is empty, every visited vertex has been scanned |
| MatrixModel.WalkStaysVisited | main1/Main.java:50-62 | a walk from a visited source through positive entries stays inside a closed visited set |
| MatrixModel.ClosedBlocksReach | main1/Main.java:62 | when the visited set is closed under positive entries, an unvisited sink is not connected to the source |
| MatrixModel.Chain | main1/Main.java:73-74 | following parent links from a visited vertex gives a walk from the source through positive entries, with strictly increasing search ranks |
| MatrixModel.ChainDistinct | main1/Main.java:73-83 | the parent chain never repeats a vertex |
| Cuts.PickSplit | main1/Main.java:79-83 | a row sum splits into the part inside a vertex set and the part outside it |
| Cuts.BlockSplit | main1/Main.java:79-83 | the rows of a set split into the entries inside the set and the entries leaving it |
| Cuts.ColumnPairs | main1/Main.java:79-83 | preserved pair sums carry over to a column plus its mirrored row |
| Cuts.InnerBlock | main1/Main.java:79-83 | with pair sums preserved, the total of entries inside a vertex set is unchanged |
| Cuts.RowsBalance | main1/Main.java:85 | the row sums of a set change by exactly the total when the set holds the source but not the sink |
| Cuts.BlockNonNegative | main1/Main.java:79-83 | a block of a non-negative matrix is ≥ 0 |
| Cuts.ClosedBlockZero | main1/Main.java:50-62 | no residual capacity leaves a closed visited set |
| Cuts.FlowAcrossCut | main1/Main.java:66-88 | for every source–sink cut, the flow so far is the cut's original capacity minus its residual capacity |
| Cuts.CutBound | main1/Main.java:66-88 | the flow so far never exceeds the capacity of any source–sink cut |
| Cuts.MaxFlowMinCut | main1/Main.java:66-88 | when the reached set is closed, the flow equals its cut's capacity and is at most every cut's capacity, so it is maximum |
| Cuts.CutSix | main1/Main.java:17-29 | proof scaffolding for the example of main: the capacity of a cut of a 6-vertex matrix written out as a sum of entries |
| MatrixFlow.ResidualMatrix.constructor | main1/Main.java:14 | a fresh vertices × vertices matrix of zeros |
| MatrixFlow.ResidualMatrix.Cells | main1/Main.java:7 | the matrix view agrees with the array entry by entry |
| MatrixFlow.ResidualMatrix.AddEdge | main1/Main.java:34-36 | sets graph[u][v] = c, overwriting rather than adding, and changes nothing else |
| MatrixFlow.ResidualMatrix.Bfs | main1/Main.java:39-63 | returns true exactly when the sink is connected to the source through positive entries; the graph is unchanged; every visited vertex's parent chain leads back to the source through positive entries; the visited set is closed |
| MatrixFlow.ResidualMatrix.ScanNext | main1/Main.java:50-60 | one round of the search loop keeps the scanning invariant and closes the polled row |
| MatrixFlow.ResidualMatrix.ScanRow | main1/Main.java:53-59 | every positive entry of the row leads to a visited vertex afterwards; visited vertices stay visited |
| MatrixFlow.ResidualMatrix.PathFlow | main1/Main.java:72-76 | the minimum over the parent chain from IntMax equals the path flow of the chain |
| MatrixFlow.ResidualMatrix.AugmentPath | main1/Main.java:79-83 | the new matrix is the original augmented along the parent chain by pathFlow |
| MatrixFlow.ResidualMatrix.AugmentRound | main1/Main.java:70-86 | one loop round keeps the invariant, adds a path flow ≥ 1 to the total, and strictly lowers the source's row sum |
| MatrixFlow.ResidualMatrix.FordFulkerson | main1/Main.java:66-89 | with non-negative capacities and source ≠ sink it terminates; the final matrix is the original less a flow of the returned value; the sink is unreachable; and the value equals the capacity of the reached cut and is at most every cut's capacity, so it is a maximum flow |
| MatrixFlow.ExampleCutCapacity | main1/Main.java:17-26 | the cut capacity of the example network as a formula in the cut |
| MatrixFlow.ExampleMinCut | main1/Main.java:17-26 | every source–sink cut of the example has capacity ≥ 23, and {0, 1, 2, 4} has capacity 23 |
| MatrixFlow.ExampleBuilt | main1/Main.java:14-26 | the ten addEdge calls on a zero 6 × 6 matrix give the example capacities |
| MatrixFlow.BuildExample | main1/Main.java:13-26 | builds the 6-vertex example network of main |
| MatrixFlow.Example | main1/Main.java:10-31 | fordFulkerson(0, 5) on the example network returns 23 |

## Left out

- Input, output and timing are left out: `printResults`, all `System.out`/`System.err` messages, the progress message every 1000 iterations and its iteration counter, `System.nanoTime`, `toString` of `Edge` and `FlowNetwork`, `NetworkParser.parseFromFile` and the whole of `NetworkFlowApp`. They only read files, prompt or print.
- `detailedLogging` and `setDetailedLogging` are left out, because the flag is stored but never read. The two constructors of `MaxFlowFinder` become one.
- Java's 32-bit `int` is left out. Integers are unbounded, and `Integer.MAX_VALUE` appears only as the start value `IntMax` of the running minimums. Sums of capacities that overflow 32 bits are not modelled.
- The getters of `Edge` and `getVertices`/`getEdges` of `FlowNetwork` are read as fields: `from`, `to` and `capacity` are `const` fields, and `flow`, `vertices` and `edges` are read directly.
- MaxFlow.MaxFlowFinder.FindMaxFlow: requires what the source relies on but never checks. These are source ≠ sink (otherwise the loop never ends), endpoints in range, feasible starting flows, and at most one base edge per unordered vertex pair. `Augmenting.AntiparallelOverflow` shows a pair of antiparallel edges where the update breaks capacities.
- Networks.FlowNetwork.constructor: takes a `nat`. `new ArrayList<>(vertices)` throws IllegalArgumentException for a negative count, and the model does not represent that exception.
- Networks.FlowNetwork.AddEdge: `requires 0 <= from < vertices` stands for the IndexOutOfBoundsException that `adjacencyList.get(from)` throws otherwise. The exception is not modelled.
- Networks.FlowNetwork.CreateResidualGraph: requires every edge that carries flow to have `to` in range. This stands for the IndexOutOfBoundsException of the reverse `addEdge(to, from, flow)` at src/networkflow/FlowNetwork.java:85. The exception is not modelled.
- Parser.ValidateNetwork: `parseFromFile` calls `addEdge` for every edge it reads (src/networkflow/NetworkParser.java:38) before `validateNetwork` runs. In the application, an edge with a bad `from` therefore raises the exception above, and the `InvalidSource` verdict is never reached that way.
- MatrixFlow.ResidualMatrix.constructor: takes a `nat`. `new int[vertices][vertices]` throws NegativeArraySizeException for a negative count, and the model does not represent that exception.
- MatrixFlow.ResidualMatrix.AddEdge: the range requires on `u` and `v` stand for the ArrayIndexOutOfBoundsException of `graph[u][v] = c`. The exception is not modelled.
- MatrixFlow.ResidualMatrix.Bfs: the range requires on `source` and `sink` stand for the ArrayIndexOutOfBoundsException of `visited[source]` and `visited[sink]`. The exception is not modelled.
- MatrixFlow.ResidualMatrix.FordFulkerson: the range requires on `source` and `sink` stand for the ArrayIndexOutOfBoundsException that `bfs` raises. The exception is not modelled.
- MaxFlow.MaxFlowFinder.FindMaxFlow: proves that no augmenting path remains at the end, but not that the flow value equals a minimum cut. The max-flow/min-cut theorem is proved for the matrix version only.
- MaxFlow.MaxFlowFinder.FindAugmentingPath: does not state that the path found is a shortest one (the fewest edges, ties broken by adjacency-list order). The contract states simplicity, which is what the update and the termination argument need.
- MaxFlow.MaxFlowFinder.Saturate: the Java loop `while ((path = findAugmentingPath(residualGraph)) != null)` is written as `while true` with a `break` when no path is found. The residual network is rebuilt at the head of each round rather than at its end, which gives the same sequence of searches.
- MaxFlow.MaxFlowFinder.Saturate: the path records are collected in a local sequence and stored in `augmentingPaths` when the loop ends. Nothing reads the field in between. The copy `new ArrayList<>(path)` is modelled by storing the sequence value. A record's path is tied to the states of its edges through `Arcs`, which takes the constant endpoints and capacities with flow 0. Residual edges are built with flow 0, and nothing ever sets their flow.
- MaxFlow.MaxFlowFinder.Explore: `HashMap`, `LinkedList` and `ArrayList` become a `map`, a `seq` queue and a `seq`.
- MaxFlow.MaxFlowFinder.ReconstructPath: appending and then `Collections.reverse` is modelled as prepending, which gives the same list.
- MaxFlow.MaxFlowFinder.AdjustFirst: the loop with `break` becomes a search for the first matching position (`FirstTo`) followed by one `setFlow`.
- Parser.ValidateNetwork: returns a `Verdict` that names the first problem, in place of `false` plus an error message on standard error.
- MatrixFlow.ResidualMatrix.FordFulkerson: requires non-negative capacities and source ≠ sink, which `main` meets but `fordFulkerson` does not check. With source = sink the source loop never ends.
- MatrixFlow.ResidualMatrix: the static fields `graph` and `parent` become fields of an object. `int[][]` becomes a rectangular `array2`, so rows cannot be jagged or aliased. `parent` is a zero-length array until the first `bfs` allocates it.
- MatrixFlow.ResidualMatrix.Bfs: the `visited` array and the queue are local, as in the source. The search ranks and the scanned set are ghost bookkeeping.
