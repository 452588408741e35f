# network — a verified Dafny model

This project models the core of the Java library `com.tgelder.network` and
proves properties about it. It covers four pieces:

- **The graph.** `Network` is an immutable weighted directed multigraph:
  - the out/in adjacency indices its constructor builds;
  - the queries `getOut`, `getIn`, `getBelow`, `getAbove`, `getEdges`, `getReverses`;
  - the edits `merge`, `disconnect`, `setCosts` and `createGridNetwork`.
- **`NetworkSearch.search`.** A Dijkstra traversal that:
  - orders its frontier by `(cost, node id)`;
  - relaxes only the cheapest of parallel edges;
  - lowers a tentative cost only on strict improvement;
  - offers every popped node to a policy that may take it and may stop the search.
- **The two policies** that drive it:
  - `FindClosest`: the matching nodes at the least distance;
  - `FindWithinCost`: the nodes cheaper than a threshold;
  - `FindNodes`: a copy of `FindWithinCost` in the top-level package.
- **`Pathfinder.find`.** An A* search ordered by `(G + heuristic, node id)`
  that reads the path back through parent edges (`buildPath`).

Modules, one per component:

| file | module | models |
|---|---|---|
| `wrappers.dfy` | `Wrappers` | `Option`, `Result` |
| `network.dfy` | `Networks` | `Network.java` except the grid |
| `grid.dfy` | `Grids` | `Network.createGridNetwork` |
| `paths.dfy` | `Paths` | paths, costs and shortest distance, which both searches are measured against |
| `frontier.dfy` | `Frontiers` | the `(key, id)` frontier and the cheapest-parallel-edge collapse the two searches share |
| `policies.dfy` | `Policies` | `FindClosest`, `FindWithinCost`, and the search's driving of a policy |
| `find_nodes.dfy` | `FindNodesPolicy` | `FindNodes` |
| `network_search.dfy` | `NetworkSearch` | `NetworkSearch.search` and what each policy makes of it |
| `pathfinder.dfy` | `Pathfinder` | `Pathfinder.find` and `buildPath` |

Representation:

- **Nodes** are the dense range `[0, nodeCount)`. Both engines index per-node
  arrays by node id.
- **Edges** are `Edge(id, from, to, cost)`. The `id` stands for Java object
  identity: two edges with equal endpoints and cost are still two members of
  a network.
- **Costs** are `nat`.
- **The heuristic** is a parameter `h: (nat, nat) -> nat`.
- **A policy** is a datatype with a pure `Take` step. `Feed` offers a
  sequence of visits to it the way the search does.
- **The search's output.** `Search` returns the sequence of popped visits as
  a ghost value, and every statement about the result is made in terms of
  that sequence.
- **The per-node arrays** are sequences. The `TreeSet` frontier is a set with
  a `(key, id)`-minimum pop.

## Model

| member | source | states |
|---|---|---|
| `Networks.Group` | src/main/java/com/tgelder/network/Network.java:24-28 | The index the constructor builds gives, for every node, exactly the edges with that endpoint in edge order (the reference filter `Select`), and holds no empty group |
| `Networks.Out` | src/main/java/com/tgelder/network/Network.java:38-45 | `getOut(v)` holds exactly the network's edges leaving `v`, parallel copies included, in edge order |
| `Networks.In` | src/main/java/com/tgelder/network/Network.java:47-54 | `getIn(v)` holds exactly the network's edges entering `v`, parallel copies included |
| `Networks.NoEdgesIsEmpty` | src/main/java/com/tgelder/network/Network.java:38-54 | A node with no outgoing (incoming) edge gets the empty sequence rather than an error |
| `Networks.Below` | src/main/java/com/tgelder/network/Network.java:30-32 | `getBelow(v)` holds `u` if and only if some edge runs from `v` to `u`, and holds no node twice |
| `Networks.Above` | src/main/java/com/tgelder/network/Network.java:34-36 | `getAbove(v)` holds `u` if and only if some edge runs from `u` to `v`, and holds no node twice |
| `Networks.EdgesBetween` | src/main/java/com/tgelder/network/Network.java:56-58 | `getEdges(a, b)` holds exactly the edges from `a` to `b`, and is empty exactly when there are none |
| `Networks.Reverses` | src/main/java/com/tgelder/network/Network.java:60-62 | `getReverses(e)` holds exactly the edges running from `e.to` to `e.from` |
| `Networks.ReverseSymmetric` | src/main/java/com/tgelder/network/Network.java:60-62 | For two network edges, `f` reverses `e` exactly when `e` reverses `f` |
| `Networks.SelfLoopIsOwnReverse` | src/main/java/com/tgelder/network/Network.java:60-62 | A self-loop is among its own reverses |
| `Networks.Merge` | src/main/java/com/tgelder/network/Network.java:64-71 | The merged nodes are the union of both node sets. Every edge of `other` is kept. An edge of `this` is kept exactly when `other` has no edge with the same endpoints. Nothing else appears |
| `Networks.MergeOtherWins` | src/main/java/com/tgelder/network/Network.java:64-71 | For every endpoint pair, the merge holds `other`'s edges if it has any, otherwise `this`'s |
| `Networks.MergeSelf` | src/main/java/com/tgelder/network/Network.java:64-71 | Merging a network with itself gives it back unchanged |
| `Networks.Disconnect` | src/main/java/com/tgelder/network/Network.java:108-112 | `disconnect(S)` keeps the nodes and keeps exactly the edges with neither endpoint in `S` |
| `Networks.DisconnectTwice` | src/main/java/com/tgelder/network/Network.java:108-112 | Disconnecting `S` then `T` is disconnecting `S + T`, edge order included |
| `Networks.DisconnectIdempotent` | src/main/java/com/tgelder/network/Network.java:108-112 | Disconnecting the same set twice is disconnecting it once |
| `Networks.SetCosts` | src/main/java/com/tgelder/network/Network.java:114-120 | `setCosts(S, c)` keeps the nodes and the edge positions. Each edge touching `S` is replaced by a new edge with the same endpoints and cost `c`, whose identity differs from every other edge of the result and, when the identities drawn are unused, from every edge of the input. Every other edge is the same edge |
| `Networks.SetCostsIdempotent` | src/main/java/com/tgelder/network/Network.java:114-120 | Setting the same cost on the same nodes twice gives, position by position, edges with the same endpoints and costs as setting it once; only the new edges' identities differ |
| `Networks.DisconnectAfterSetCosts` | src/main/java/com/tgelder/network/Network.java:108-120 | Repricing the edges of nodes that are then disconnected has no effect on the result |
| `Networks.DisconnectRepriced` | src/main/java/com/tgelder/network/Network.java:108-120 | Filtering out the edges touching `S` commutes with repricing them, by induction over the edge sequence |
| `Grids.CreateGrid` | src/main/java/com/tgelder/network/Network.java:73-106 | The grid has exactly `width * height` nodes, every endpoint is one of them, and its edges are exactly one per on-grid cell and offset whose neighbour is on the grid, from the index of the cell to the index of its neighbour |
| `Grids.GridEdgesMembers` | src/main/java/com/tgelder/network/Network.java:83-103 | The three nested loops emit exactly the edges of the cells and offsets that stay on the grid |
| `Grids.CellIndexFormula` | src/main/java/com/tgelder/network/Network.java:92-93 | The row-by-row cell index is `width * y + x` |
| `Grids.CellIndexInjective` | src/main/java/com/tgelder/network/Network.java:92-93 | Two different cells whose x is below `width` get different node indices |
| `Grids.CellIndexBound` | src/main/java/com/tgelder/network/Network.java:76-93 | Every cell of the grid has an index below `width * height`, the node count |
| `Grids.GridSuccessors` | src/main/java/com/tgelder/network/Network.java:83-100 | The successors of cell `(x, y)` are exactly the cells its on-grid offsets reach |
| `Grids.GridOut` | src/main/java/com/tgelder/network/Network.java:82-100 | `getOut` of a cell's node holds exactly that cell's edges, one per offset that stays on the grid, in offset order |
| `Grids.FourSteps` | src/test/java/com/tgelder/network/NetworkTest.java:157-158 | With the four orthogonal offsets, the on-grid steps from a cell reach exactly its on-grid orthogonal neighbours |
| `Grids.FourSuccessors` | src/test/java/com/tgelder/network/NetworkTest.java:157-159 | On any four-neighbour grid, `getBelow` of a cell is exactly its on-grid orthogonal neighbours |
| `Grids.FourCountSides` | src/test/java/com/tgelder/network/NetworkTest.java:161-189 | A cell has one on-grid orthogonal neighbour for each of left, top, right and bottom that it is not on the border of |
| `Grids.FourDegree` | src/test/java/com/tgelder/network/NetworkTest.java:161-189 | On any four-neighbour grid, `getOut(c).count()` is the number of the cell's on-grid orthogonal neighbours |
| `Grids.FourUnitCosts` | src/test/java/com/tgelder/network/NetworkTest.java:161-189 | When each orthogonal step costs its Euclidean length 1, every out-edge of every cell costs 1 |
| `Grids.GridCorner` | src/test/java/com/tgelder/network/NetworkTest.java:161-163 | Corner 0 has exactly the successors 1 and `width` (3 on the tested 3 x 3 grid) |
| `Grids.GridCornerDegree` | src/test/java/com/tgelder/network/NetworkTest.java:161 | Corner 0 has exactly two out-edges |
| `Grids.GridCornerCosts` | src/test/java/com/tgelder/network/NetworkTest.java:162-163 | Each out-edge of corner 0 costs 1 |
| `Grids.GridSide` | src/test/java/com/tgelder/network/NetworkTest.java:165-168 | Side cell 1 has exactly the successors 0, 2 and `width + 1` (4 on the 3 x 3 grid) |
| `Grids.GridSideDegree` | src/test/java/com/tgelder/network/NetworkTest.java:165 | Side cell 1 has exactly three out-edges |
| `Grids.GridSideCosts` | src/test/java/com/tgelder/network/NetworkTest.java:166-168 | Each out-edge of side cell 1 costs 1 |
| `Grids.GridCentre` | src/test/java/com/tgelder/network/NetworkTest.java:179-183 | Cell (1, 1), the centre 4 of the 3 x 3 grid, has exactly the successors 1, `width`, `width + 2` and `2 * width + 1` (1, 3, 5, 7) |
| `Grids.GridCentreDegree` | src/test/java/com/tgelder/network/NetworkTest.java:179 | The centre has exactly four out-edges |
| `Grids.GridCentreCosts` | src/test/java/com/tgelder/network/NetworkTest.java:180-183 | Each out-edge of the centre costs 1 |
| `Paths.PathIsChain` | src/main/java/com/tgelder/network/search/Pathfinder.java:70-79 | A path built edge by edge is exactly a chain whose first edge leaves the start, whose last edge reaches the goal, and whose consecutive edges meet |
| `Paths.Cut` | src/main/java/com/tgelder/network/search/NetworkSearch.java:25-57 | Under a consistent potential, any path out of a settled, relaxed closed set crosses the frontier at a node whose key is at most the path's cost plus the end's potential |
| `Paths.PopSettles` | src/main/java/com/tgelder/network/search/NetworkSearch.java:27-28 | A frontier node of least key carries its shortest distance |
| `Paths.Exhausted` | src/main/java/com/tgelder/network/search/NetworkSearch.java:25 | Once the frontier is empty, every node reachable from a closed node is closed |
| `Frontiers.PopMin` | src/main/java/com/tgelder/network/search/NetworkSearch.java:17-27 | `pollFirst` returns a frontier node that comes before every other in `(key, id)` order, and removes exactly it |
| `Frontiers.Cheapest` | src/main/java/com/tgelder/network/search/NetworkSearch.java:39-41 | Grouping by target and taking the minimum by cost yields one edge per target of the input, taken from the input, no dearer than any parallel edge |
| `Frontiers.CheapestEarliest` | src/main/java/com/tgelder/network/search/NetworkSearch.java:39-41 | On a tie `minBy` keeps the first of the equally cheap edges: the chosen edge sits at a position before which every edge to the same target is strictly dearer |
| `Frontiers.Neighbours` | src/main/java/com/tgelder/network/search/NetworkSearch.java:39-41 | The neighbour map holds, for every unclosed target of `v`, a cheapest network edge from `v` to it, and nothing else |
| `Frontiers.Improve` | src/main/java/com/tgelder/network/search/NetworkSearch.java:45-55 | An open node's cost changes only to a strictly lower offer, and then to that offer; an unopened node takes the offer |
| `Policies.Take` | src/main/java/com/tgelder/network/search/FindClosest.java:15-31 | FindClosest ignores a node failing the condition and changes nothing. The first match is taken and fixes the closest cost. A later match is taken at that cost, stops the policy when dearer, and is `InvalidState` when cheaper. `done` is never cleared |
| `Policies.FeedWithinCost` | src/main/java/com/tgelder/network/search/FindWithinCost.java:12-19 | On visits in cost order, FindWithinCost takes exactly the nodes visited below the threshold, and is done exactly when some visit reached it |
| `Policies.FeedClosest` | src/main/java/com/tgelder/network/search/FindClosest.java:15-31 | On visits in cost order, FindClosest never fails. It takes exactly the matching nodes visited at the least matching cost, and is done exactly when a dearer match was seen |
| `FindNodesPolicy.TakeNodes` | src/main/java/com/tgelder/network/FindNodes.java:12-19 | A node is taken if and only if its cost is below the threshold; the policy is done exactly once a cost at or above it has been seen |
| `FindNodesPolicy.FeedNodesAgrees` | src/main/java/com/tgelder/network/FindNodes.java:11-24 | Over every sequence of visits, FindNodes takes the same nodes and ends with the same `done` flag as FindWithinCost |
| `NetworkSearch.Expand` | src/main/java/com/tgelder/network/search/NetworkSearch.java:43-57 | The relaxation loop opens every neighbour and offers it the popped cost plus its edge's cost. An open node keeps its cost unless the offer is strictly lower. Every other node is untouched |
| `NetworkSearch.ExpandStep` | src/main/java/com/tgelder/network/search/NetworkSearch.java:30-57 | Closing the popped node and relaxing its cheapest out-edges keeps the engine's invariant: arrays match the closed set and frontier, and every closed or frontier cost is the cost of a real path. Closed costs are shortest, and every edge leaving the closed set is relaxed |
| `NetworkSearch.Search` | src/main/java/com/tgelder/network/search/NetworkSearch.java:11-61 | The start is popped first at cost 0, each node at most once, and each at its shortest distance. Pops come in cost order, and in `(cost, id)` order when every edge costs something. The result is exactly the nodes the policy took, and every node in a successful result is reachable from the start. The search stops at the first pop after which the policy fails or is done, and otherwise pops every reachable node |
| `NetworkSearch.WithinCostResult` | src/main/java/com/tgelder/network/search/FindWithinCost.java:12-19 | On a search trace, the nodes FindWithinCost takes are exactly those with a path from the start cheaper than the threshold |
| `NetworkSearch.SearchWithinCost` | src/main/java/com/tgelder/network/search/NetworkSearch.java:11-61 | The search with FindWithinCost returns exactly the nodes whose shortest distance from the start is below the threshold |
| `NetworkSearch.ClosestIn` | src/main/java/com/tgelder/network/search/FindClosest.java:15-31 | Every node FindClosest takes on a search trace is a matching node no farther from the start than any matching node |
| `NetworkSearch.ClosestOut` | src/main/java/com/tgelder/network/search/FindClosest.java:15-31 | Every matching node at least distance is taken |
| `NetworkSearch.SearchClosest` | src/main/java/com/tgelder/network/search/NetworkSearch.java:11-61 | The search with FindClosest returns exactly the matching nodes at the least distance among matching nodes, ties included, and nothing when none is reachable |
| `Pathfinder.Relax` | src/main/java/com/tgelder/network/search/Pathfinder.java:50-62 | A relaxed node is open and its distance is at most the offer. An open node's distance never rises. Either nothing changes, or the node takes the offer through the offered edge, and it changes exactly when the offer is strictly lower or the node was not yet open, so a tie keeps the old parent |
| `Pathfinder.RelaxAsWritten` | src/main/java/com/tgelder/network/search/Pathfinder.java:50-59 | As written, the node's open flag never changes, and any offer to an unopened node replaces its distance and parent |
| `Pathfinder.AsWrittenKeepsWorseOffer` | src/main/java/com/tgelder/network/search/Pathfinder.java:50-59 | Offers of 11 and then 101 to a fresh node leave it, as written, at 101 with the dearer parent, but at 11 with the corrected relaxation |
| `Pathfinder.RelaxKeepsBest` | src/main/java/com/tgelder/network/search/Pathfinder.java:50-59 | With the node marked open, the distance after any sequence of offers is the least offer |
| `Pathfinder.Expand` | src/main/java/com/tgelder/network/search/Pathfinder.java:48-63 | The relaxation loop relaxes every neighbour with `G` of the popped node plus its edge's cost. An improved neighbour takes `F = G + h`. Every other node keeps its label and key |
| `Pathfinder.Stepped` | src/main/java/com/tgelder/network/search/Pathfinder.java:35-63 | Closing a popped non-goal node and relaxing its cheapest out-edges keeps the invariant. Frontier nodes carry `F = G + h` and a cheapest parent edge from a closed node. Parent edges lead back to the start through nodes closed earlier. Under a consistent heuristic closed nodes carry their shortest distance |
| `Pathfinder.BuildPath` | src/main/java/com/tgelder/network/search/Pathfinder.java:70-79 | Following parent edges from the goal yields a path from start to goal, of cost `G[goal]`, made of cheapest parallel edges; it is empty when start is goal |
| `Pathfinder.Find` | src/main/java/com/tgelder/network/search/Pathfinder.java:16-67 | A path is returned exactly when the goal is reachable. The path chains from start to goal through network edges, each a cheapest one among its parallel edges. It is empty when start is goal. It is a shortest path when the heuristic is consistent. All of this is about the search with the corrected relaxation (see Findings) |

## Left out

- Floating point. Costs are `double` in the source and `nat` here, so there is no rounding and no negative cost.
- Grids.CreateGrid: the grid's step cost `Math.sqrt(dx * dx + dy * dy)` is a parameter `stepCost` of the offset, because it is floating point. `UnitSteps` states that it is 1 for the four orthogonal offsets, and the cost lemmas assume exactly that.
- Networks.SetCosts: Java object identity of the new edges is modelled by drawing identities `nextId`, `nextId + 1`, ... from a caller-supplied counter. That they are unused in the input is stated only under `FreshFor(g, nextId)`; the model does not allocate them itself.
- Networks.SetCostsIdempotent: the second call creates new edges again, so the two results agree on endpoints and costs position by position, not on edge identity.
- Grids.CreateGrid takes `nat` width and height. Negative Java `int` dimensions are not modelled: for example width = height = -1 gives the Java code a one-node network with no edges.
- Java `int` overflow of `width * height` and of cell indices in `createGridNetwork` is not modelled, because integers are unbounded here.
- Grids.CreateGrid requires the y-offset array to be at least as long as the x-offset array. With a shorter one the source fails with an array index exception, which is not modelled.
- Frontier re-keying. Both engines change a node's key (`cost[]`, `F[]`) before `TreeSet.remove`, so the stale entry may survive and the node may be popped twice. The model's frontier is a set, so it behaves as remove, re-key, reinsert. The stale-entry behaviour is not modelled.
- NetworkSearch.Search: the `(cost, id)` pop order is stated only when every edge costs something. With zero-cost edges a node can be relaxed to the popped cost with a smaller id, so only per-pop minimality and non-decreasing cost hold.
- NetworkSearch.Search requires a policy that is not yet done, as every policy is when constructed. The source would pop and offer the start once even to a finished policy.
- NetworkSearch.Search requires the start to be a node of the network. The source would fail indexing its arrays otherwise.
- Pathfinder.Find requires the start to be a node of the network, for the same reason.
- Pathfinder.Find: the model runs the corrected relaxation of the Findings table (mark a node open on its first offer, replace `G` only on a strict improvement), and so do `Pathfinder.Expand` and `Pathfinder.Stepped`. The Java code as written is modelled only by `Pathfinder.RelaxAsWritten`. On the Findings input (0->1 (1), 0->2 (1), 1->3 (10), 2->3 (100), zero heuristic) the Java code returns the path 0->2->3 of cost 101, while `Find` returns a path of cost 11.
- Pathfinder.Find: shortest paths are proved for a consistent heuristic (`h(u) <= cost(u, v) + h(v)` on every edge). An admissible but inconsistent heuristic is not covered, because closed nodes are never reopened.
- `EuclideanHeuristic` relies on floating point and is not part of this model. The heuristic is an arbitrary function parameter.
- The order of tied entries of `getBelow`, `merge` and set results is not stated beyond membership and edge order. (Among equally cheap parallel edges, the earliest in edge order is kept, as `minBy` over the insertion-ordered out-edges does; `Frontiers.CheapestEarliest` states it.)
- The two `Search` interfaces have no behaviour of their own. They are represented by the `Policy` datatype and the `FindNodes` datatype.
- `NetworkBenchmark` only times other code and has no logic of its own.
- The concrete search runs in the test suites (for example the 3 x 3 A* routes and the threshold-6 result) are not restated as lemmas; the general `Find`, `SearchWithinCost` and `SearchClosest` contracts cover them.

## Findings

| source | as written | input that shows it | evidently intended | confidence | as-written member | corrected member |
|---|---|---|---|---|---|---|
| src/main/java/com/tgelder/network/search/Pathfinder.java:55-59 | The `open` flag is set only in the branch where it is already true, so no node ever becomes open. Every later offer to a frontier node replaces its `G` and parent even when it is dearer | Graph 0->1 (1), 0->2 (1), 1->3 (10), 2->3 (100), searched from 0 to 3 with a zero heuristic: node 3 is offered 11 through node 1 and then 101 through node 2, and keeps 101 and the dearer parent | Mark the node open on its first offer and replace `G` only on a strict improvement | not executed | `Pathfinder.RelaxAsWritten`, `Pathfinder.AsWrittenKeepsWorseOffer` | `Pathfinder.Relax`, `Pathfinder.RelaxKeepsBest`, `Pathfinder.Expand`, `Pathfinder.Stepped`, `Pathfinder.Find` |
