# Travelling-salesman solvers over a cost matrix, modelled in Dafny

The modelled system solves the travelling-salesman problem on an `n×n` integer
cost matrix `graph`. Vertex 0 is the root of every tour, and an entry `<= 0`
means "no edge". Four independent solvers share two small records:

- `Vertex` is an immutable link `(id, prev, costToReach)` of a search path.
  It is the datatype `Vertices.Vertex`, with an `Option` predecessor. Its
  getters are the datatype's destructors, so they return exactly the
  constructor's arguments. A datatype value cannot be changed after
  construction. Every chain is finite, because a datatype is well-founded.
  Chains share their tails exactly as the Java objects do.
- `VerticesPair` holds, for one vertex, parallel arrays of vertex ids and
  costs. It is the class `VerticesPairs.VerticesPair` over two `array<int>`
  fields, with a value view `PairValue`.

The solvers are these:

- **DynamicProgrammingTSP** (`DynamicProgramming`, `CheapestPaths`,
  `Combinations`, `Bits`). Visited sets are `nat` bit masks. Java's `1 << e`,
  `&`, `|`, `^` and `& ~` are written out as recursive functions on naturals
  and related to a `Bit(e, s)` predicate. The memo table is an `array2<int>`,
  filled in place by nested loops in increasing subset size. Every entry is
  proved equal to `PathCost(v, mask)`. That is a recurrence over masks, and it
  is proved to be the cheapest path from 0 through exactly `mask` ending at
  `v`. The closing minimum is proved to be at most the cost of every tour.
  The argmin walk is proved to rebuild a tour. Under non-negative costs it
  costs exactly the returned minimum.
- **BackTrackingTSP** (`BackTracking`, `SearchPaths`). It is a class with a
  shared `visitedVertices` array. The recursive search is split into one
  method per block of the Java method, and these are mutually recursive. Each
  one is proved to leave the array exactly as it found it. Each one keeps the
  best cost and `lastVertex` consistent with a real tour, and only ever
  improves the best strictly. Each one also proves that no tour over positive
  edges extending the current path is cheaper than the best found. So the
  final cost is optimal over all such tours.
- **SubOptimalDfsTSP** (`SubOptimalDfs`). This is the greedy
  nearest-neighbour run. A pure function `GreedyRun` describes the whole run,
  and the class's recursive `Dfs` method is proved to follow it. When no
  unvisited vertex is reachable, the Java code indexes `graph[..][-1]` and
  throws. The model reports that outcome as a failure (`None` / `false`).
  On a complete graph with positive off-diagonal costs, and every path of
  `n` edges below `MAX_VALUE`, the run is proved never to fail.
- **BranchBoundTSP** (`BranchBound`, `BranchBoundSearch`, `BranchBoundQueue`,
  `PathNodes`, `PairTables`). `PathNode` is a class whose fields are all
  `const`: it is never changed after construction. A child deep-copies its
  parent's visited array and pair table. It then patches the two pairs of the
  new edge with `replaceVertex`. The lower bound is kept doubled (`lb2 ==
  2·lb`) as an integer. The priority queue is a sequence field, and `Poll`
  removes any node of least bound. The main loop is proved to terminate,
  using a potential in which a node weighs `(n+1)^(n - visited)`.

## What the code does that a reader might not expect

- The branch-and-bound search steps from `current` to `i` over
  `graph[i][current]`. It closes a tour over `graph[0][current]`
  (BranchBoundTSP.java:82,92,94). So it runs on the transposed matrix. The
  model proves what this means: the reported cost is the cost in `graph` of
  the stack `getShortestPath` returns, read from the bottom of the stack. That
  order is the reverse of the popped order.
- The root `PathNode` constructor never assigns `currentVertexId`, so it stays
  0 whatever vertex is marked (PathNode.java:26-35). `PathNode.Root` keeps
  that.
- `initializeClosestPairs` does not skip entries `<= 0`. A "no edge" sentinel
  can therefore be counted as a cheapest edge (BranchBoundTSP.java:40,47).
  The model keeps that too.
- For `n == 1` the dynamic-programming solver returns `Integer.MAX_VALUE`,
  because its closing loop skips vertex 0. A tour `[0, 0]` of cost 0 would
  also have been a reasonable result. The model follows the code:
  `GetShortestPathCost` returns `INF` for `n <= 1`.
- The dynamic-programming solver seeds `memory[0][1]` with `graph[0][0]`
  (DynamicProgrammingTSP.java:55-56, with `i == 0`). That entry is never read.
- `getShortestPathCost` of the dynamic-programming solver starts from the
  cached cost and appends to the cached list. So only a first call gives the
  optimal tour by itself. `DynamicProgramming.DynamicProgrammingTSP.GetShortestPathCost`
  states the general effect, and states the optimality facts for a first call.

## Model

| member | source | states |
|---|---|---|
| `Bits.NotIn` | graphs_tsp_project/src/com/company/DynamicProgrammingTSP.java:115-117 | `notIn(e, s)` holds exactly when bit `e` of `s` is clear |
| `Bits.FullMask` | graphs_tsp_project/src/com/company/DynamicProgrammingTSP.java:33 | `endState = 2^n - 1` is below `2^n`, has `n` bits, and holds every vertex below `n` |
| `Bits.OrPow2` | graphs_tsp_project/src/com/company/DynamicProgrammingTSP.java:142 | the bitwise or of `set` and `1 << i` on a clear bit `i` adds `2^i` |
| `Bits.AndNotPow2` | graphs_tsp_project/src/com/company/DynamicProgrammingTSP.java:147 | `set & ~(1 << i)` on a set bit `i` subtracts `2^i` |
| `Bits.XorPow2` | graphs_tsp_project/src/com/company/DynamicProgrammingTSP.java:64 | `subset ^ (1 << next)` on a set bit removes `next` from the subset |
| `Bits.ClearBit` | graphs_tsp_project/src/com/company/DynamicProgrammingTSP.java:106 | clearing a set bit leaves one bit fewer, with every other bit unchanged |
| `Bits.ClearKeeps` | graphs_tsp_project/src/com/company/DynamicProgrammingTSP.java:106 | removing a set bit `e` from `state` keeps every other set bit and lowers the bit count by one |
| `Bits.FullHas` | graphs_tsp_project/src/com/company/DynamicProgrammingTSP.java:33 | every vertex below `n` is a member of `endState` |
| `Bits.PopCountZero` | graphs_tsp_project/src/com/company/DynamicProgrammingTSP.java:115-117 | a mask has no members exactly when it is 0 |
| `Combinations.CombinationsInto` | graphs_tsp_project/src/com/company/DynamicProgrammingTSP.java:130-150 | the recursive overload appends exactly `Choose(set, at, r, n)` to the accumulator |
| `Combinations.CombinationsOf` | graphs_tsp_project/src/com/company/DynamicProgrammingTSP.java:121-125 | `combinations(r, n)` lists every mask below `2^n` with `r` bits and nothing else, each once, `C(n, r)` masks, and nothing when `r > n` |
| `Combinations.ChooseSound` | graphs_tsp_project/src/com/company/DynamicProgrammingTSP.java:130-150 | every mask produced is below `2^n`, keeps the bits fixed so far, and has `r` more bits |
| `Combinations.ChooseComplete` | graphs_tsp_project/src/com/company/DynamicProgrammingTSP.java:130-150 | every mask of `r` bits at or above `at` is produced |
| `Combinations.ChooseDistinct` | graphs_tsp_project/src/com/company/DynamicProgrammingTSP.java:130-150 | no mask is produced twice |
| `Combinations.ChooseSize` | graphs_tsp_project/src/com/company/DynamicProgrammingTSP.java:130-150 | `C(n - at, r)` masks are produced, none when `n - at < r` (the early return at 133-134) |
| `Combinations.PopCountBound` | graphs_tsp_project/src/com/company/DynamicProgrammingTSP.java:133-134 | a mask below `2^n` with no bit below `at` has at most `n - at` bits |
| `CheapestPaths.MinDistIsMin` | graphs_tsp_project/src/com/company/DynamicProgrammingTSP.java:65-72 | `minDist` is at most every candidate `memory[end][subset ^ next] + graph[end][next]`, and it equals one of them unless it is `MAX_VALUE` |
| `CheapestPaths.PathCostIsLowest` | graphs_tsp_project/src/com/company/DynamicProgrammingTSP.java:54-76 | the value the table holds for `(v, mask)` is at most the cost of every path from 0 through exactly `mask` ending at `v` |
| `CheapestPaths.TourMinIsMin` | graphs_tsp_project/src/com/company/DynamicProgrammingTSP.java:79-85 | the closing minimum is at most its start and every `memory[i][endState] + graph[i][0]` for `i != 0`, and it equals one of them |
| `CheapestPaths.TourMinIsLowest` | graphs_tsp_project/src/com/company/DynamicProgrammingTSP.java:79-85 | for `n >= 2` the closing minimum is at most the cost of every tour |
| `CheapestPaths.PickIsFirstMin` | graphs_tsp_project/src/com/company/DynamicProgrammingTSP.java:94-103 | the argmin finds a vertex exactly when the state holds a non-root vertex, and that vertex is the first of least `memory[j][state] + graph[j][last]` |
| `CheapestPaths.WalkStep` | graphs_tsp_project/src/com/company/DynamicProgrammingTSP.java:92-108 | one reconstruction step picks a non-root vertex of the state and continues from the state without it |
| `CheapestPaths.WalkVisits` | graphs_tsp_project/src/com/company/DynamicProgrammingTSP.java:92-108 | the walk names every non-root vertex of the state exactly once and nothing else |
| `CheapestPaths.NextPickValue` | graphs_tsp_project/src/com/company/DynamicProgrammingTSP.java:58-103 | the next argmin attains exactly the table value of the vertex just picked |
| `CheapestPaths.WalkCost` | graphs_tsp_project/src/com/company/DynamicProgrammingTSP.java:87-108 | under non-negative costs, the path the walk spells out costs exactly the value its first pick was chosen for |
| `CheapestPaths.LeaveOut` | graphs_tsp_project/src/com/company/DynamicProgrammingTSP.java:105-106 | removing the picked vertex leaves a state the walk can continue from, one step shorter |
| `CheapestPaths.ArrivePick` | graphs_tsp_project/src/com/company/DynamicProgrammingTSP.java:94-106 | the next argmin is a member of the smaller state, and its table value plus the edge into the previous pick is that pick's table value |
| `CheapestPaths.RouteReverse` | graphs_tsp_project/src/com/company/DynamicProgrammingTSP.java:105-111 | the path a walk spells out, read from the root, is `[0]`, the walk reversed, then the last vertex |
| `CheapestPaths.WalkArrives` | graphs_tsp_project/src/com/company/DynamicProgrammingTSP.java:92-108 | under non-negative costs, the rest of the walk after a pick, read from the root and ending at the pick, costs exactly the pick's table value |
| `CheapestPaths.ClosedOrderIsTour` | graphs_tsp_project/src/com/company/DynamicProgrammingTSP.java:87-111 | an order of the non-root vertices between two roots is a tour |
| `CheapestPaths.ReconstructedIsTour` | graphs_tsp_project/src/com/company/DynamicProgrammingTSP.java:87-111 | the reconstructed list has `n+1` entries, starts and ends with 0, and holds every other vertex exactly once |
| `CheapestPaths.ReconstructedCost` | graphs_tsp_project/src/com/company/DynamicProgrammingTSP.java:79-111 | under non-negative costs, the reconstructed tour's summed edge cost equals the returned cost when that is below `MAX_VALUE` |
| `CheapestPaths.PickIsTourMin` | graphs_tsp_project/src/com/company/DynamicProgrammingTSP.java:79-103 | the first argmin over `endState` is a non-root vertex whose closing cost is the returned minimum |
| `CheapestPaths.SolverIsOptimal` | graphs_tsp_project/src/com/company/DynamicProgrammingTSP.java:46-112 | for `n >= 2` no tour is cheaper than the returned cost, which the reconstructed tour attains, and for `n <= 1` the cost is `MAX_VALUE` |
| `DynamicProgramming.RootPairShape` | graphs_tsp_project/src/com/company/DynamicProgrammingTSP.java:54-56 | `leftShiftedRoot` or-ed with `1 << i` is a mask below `2^n`, and it is `{0, i}` for `i != 0` |
| `DynamicProgramming.MinOverEnds` | graphs_tsp_project/src/com/company/DynamicProgrammingTSP.java:64-72 | the `end` loop computes the cheapest-path value of `(next, subset)` from the smaller entries |
| `DynamicProgramming.FillSubset` | graphs_tsp_project/src/com/company/DynamicProgrammingTSP.java:62-74 | the `next` loop fills every entry of one subset and writes no other entry |
| `DynamicProgramming.FillTable` | graphs_tsp_project/src/com/company/DynamicProgrammingTSP.java:51-76 | after the fill, `memory[i][{0, i}] == graph[0][i]`, and every entry with 0 and `v != 0` in the mask holds the cheapest-path value |
| `DynamicProgramming.ClosingMin` | graphs_tsp_project/src/com/company/DynamicProgrammingTSP.java:79-85 | the closing loop computes the closing minimum from the table |
| `DynamicProgramming.ArgminEnd` | graphs_tsp_project/src/com/company/DynamicProgrammingTSP.java:94-103 | the `j` loop computes the argmin that `PickIsFirstMin` describes |
| `DynamicProgramming.Advance` | graphs_tsp_project/src/com/company/DynamicProgrammingTSP.java:94-107 | one reconstruction turn yields a non-root vertex and the state with its bit cleared by `^` |
| `DynamicProgramming.Reconstruct` | graphs_tsp_project/src/com/company/DynamicProgrammingTSP.java:87-108 | the reconstruction loop appends exactly the argmin walk from the full state |
| `DynamicProgramming.KeepMidway` | graphs_tsp_project/src/com/company/DynamicProgrammingTSP.java:105-107 | one turn of the reconstruction loop keeps the list built so far a prefix of the full walk, with the rest still to come |
| `DynamicProgramming.DynamicProgrammingTSP.constructor` | graphs_tsp_project/src/com/company/DynamicProgrammingTSP.java:30-39 | `endState` is the full mask, the root is 0, the cost starts at `MAX_VALUE` and the path empty |
| `DynamicProgramming.DynamicProgrammingTSP.GetShortestPath` | graphs_tsp_project/src/com/company/DynamicProgrammingTSP.java:42-44 | returns the cached path |
| `DynamicProgramming.DynamicProgrammingTSP.GetShortestPathCost` | graphs_tsp_project/src/com/company/DynamicProgrammingTSP.java:48-113 | the new cost is the closing minimum from the cached cost, and the new path is the reversed `cached + [0] + walk + [0]`; on a first call the path is a tour, no tour is cheaper than the cost, and under non-negative costs the path costs exactly that |
| `Vertices.LinkedPath` | graphs_tsp_project/src/com/company/Vertex.java:8-12 | a chain built link by link from `Vertex(0, null, 0)` is a path from 0 whose summed edge cost is the `costToReach` it carries |
| `Vertices.BackIdsReversed` | graphs_tsp_project/src/com/company/BackTrackingTSP.java:78-84 | following `prev` from a link lists its path in reverse |
| `Vertices.StackFrom` | graphs_tsp_project/src/com/company/BackTrackingTSP.java:73-87 | the stack is `[0]` without a last vertex, and otherwise 0 then the ids back to the root; popped, it is the path followed by 0 |
| `SearchPaths.CloseFullPath` | graphs_tsp_project/src/com/company/BackTrackingTSP.java:37-46 | a full search path closed by 0 is a tour whose cost is `costToReach + graph[id][0]`, and it is over positive edges exactly when that edge is |
| `SearchPaths.Extend` | graphs_tsp_project/src/com/company/BackTrackingTSP.java:55-63 | stepping to an unmarked vertex over a positive edge makes a search node one deeper, with `costToReach = parent + graph[parent][i]` and the vertex marked |
| `SearchPaths.SetMark` | graphs_tsp_project/src/com/company/BackTrackingTSP.java:58 | `visitedVertices[i] = b` changes that entry and no other |
| `BackTracking.NewBest` | graphs_tsp_project/src/com/company/BackTrackingTSP.java:45-46 | a full path with a positive edge back to 0 is a consistent best tour at `costToReach + graph[id][0]` |
| `BackTracking.CloseBound` | graphs_tsp_project/src/com/company/BackTrackingTSP.java:37-48 | no tour extending a full path is cheaper than the best after the closing test |
| `BackTracking.SkipBound` | graphs_tsp_project/src/com/company/BackTrackingTSP.java:55 | a visited vertex, or one without a positive edge, starts no tour from the current path |
| `BackTracking.StepBound` | graphs_tsp_project/src/com/company/BackTrackingTSP.java:60-63 | the cost prune loses no tour cheaper than the best |
| `BackTracking.RootOnPath` | graphs_tsp_project/src/com/company/BackTrackingTSP.java:21-26 | `new Vertex(0, null, 0)` with only 0 marked is a search node with one vertex visited |
| `BackTracking.BoundedFromRoot` | graphs_tsp_project/src/com/company/BackTrackingTSP.java:25-28 | a bound on the tours through `[0]` bounds every tour |
| `BackTracking.BackTrackingTSP.constructor` | graphs_tsp_project/src/com/company/BackTrackingTSP.java:12-22 | only vertex 0 is marked, the cost is `MAX_VALUE` and there is no last vertex |
| `BackTracking.BackTrackingTSP.GetShortestPathCost` | graphs_tsp_project/src/com/company/BackTrackingTSP.java:25-28 | the result never exceeds the previous best and is at most the cost of every tour over positive edges; the array is restored |
| `BackTracking.BackTrackingTSP.BackTrack` | graphs_tsp_project/src/com/company/BackTrackingTSP.java:31-70 | leaves `visitedVertices` as it found it, only improves the best strictly, keeps it a real tour, and bounds every tour extending the current path |
| `BackTracking.BackTrackingTSP.CloseTour` | graphs_tsp_project/src/com/company/BackTrackingTSP.java:37-48 | the closed tour replaces the best exactly when it is strictly cheaper |
| `BackTracking.BackTrackingTSP.Explore` | graphs_tsp_project/src/com/company/BackTrackingTSP.java:53-69 | the loop over `i` restores the array and bounds every tour extending the current path |
| `BackTracking.BackTrackingTSP.TryVertex` | graphs_tsp_project/src/com/company/BackTrackingTSP.java:55-68 | vertex `i` is tried only if unvisited with a positive edge, and the array is restored |
| `BackTracking.BackTrackingTSP.Descend` | graphs_tsp_project/src/com/company/BackTrackingTSP.java:56-67 | marks `i`, recurses only when the new cost is below the best, then unmarks `i` |
| `BackTracking.BackTrackingTSP.GetShortestPath` | graphs_tsp_project/src/com/company/BackTrackingTSP.java:73-87 | `[0]` when no tour was found; otherwise popped it is a tour of the best cost |
| `SubOptimalDfs.Nearest` | graphs_tsp_project/src/com/company/SubOptimalDfsTSP.java:44-61 | the scan yields -1 or an unvisited vertex behind a positive edge, at cost at most `MAX_VALUE` |
| `SubOptimalDfs.NearestIsFirstMin` | graphs_tsp_project/src/com/company/SubOptimalDfsTSP.java:44-61 | the scan finds nothing exactly when no vertex is eligible; otherwise it finds the cheapest edge, the lowest id on ties |
| `SubOptimalDfs.GreedyRun` | graphs_tsp_project/src/com/company/SubOptimalDfsTSP.java:34-67 | a run keeps `n` marks and ends on a real vertex when it closes |
| `SubOptimalDfs.GreedyMarksGrow` | graphs_tsp_project/src/com/company/SubOptimalDfsTSP.java:65 | visited entries only go from false to true |
| `SubOptimalDfs.StepUnfold` | graphs_tsp_project/src/com/company/SubOptimalDfsTSP.java:63-66 | a run that neither closes nor gets stuck continues from the chosen vertex, one more visited |
| `SubOptimalDfs.GreedyRunTour` | graphs_tsp_project/src/com/company/SubOptimalDfsTSP.java:37-41 | a run that closes ends on a full search path extending the start, with a positive edge back to 0 |
| `SubOptimalDfs.GreedyTourFromRoot` | graphs_tsp_project/src/com/company/SubOptimalDfsTSP.java:26-41 | from the constructor's state, a closed run is a tour over positive edges of cost `costToReach + graph[last][0]` |
| `SubOptimalDfs.GreedyCompletes` | graphs_tsp_project/src/com/company/SubOptimalDfsTSP.java:32-66 | on a complete graph with positive off-diagonal costs, and every path of `n` edges below `MAX_VALUE`, the run never reaches the `-1` index (an edge of `MAX_VALUE` fails the strict `<` at SubOptimalDfsTSP.java:55) |
| `SubOptimalDfs.GreedyFromRootCompletes` | graphs_tsp_project/src/com/company/SubOptimalDfsTSP.java:26-30 | the same from the state the constructor leaves |
| `SubOptimalDfs.SubOptimalDfsTSP.constructor` | graphs_tsp_project/src/com/company/SubOptimalDfsTSP.java:13-23 | only vertex 0 is marked, the cost is `MAX_VALUE` and there is no last vertex |
| `SubOptimalDfs.SubOptimalDfsTSP.GetShortestPathCost` | graphs_tsp_project/src/com/company/SubOptimalDfsTSP.java:26-30 | follows the greedy run; a stuck run is a failure that changes no field; a closed run gives a tour of the returned cost |
| `SubOptimalDfs.SubOptimalDfsTSP.Dfs` | graphs_tsp_project/src/com/company/SubOptimalDfsTSP.java:34-67 | the recursion does what `GreedyRun` says to the marks, the cost and `lastVertex` |
| `SubOptimalDfs.SubOptimalDfsTSP.ClosestVertex` | graphs_tsp_project/src/com/company/SubOptimalDfsTSP.java:44-61 | the loop computes the scan `Nearest` describes |
| `SubOptimalDfs.SubOptimalDfsTSP.GetShortestPath` | graphs_tsp_project/src/com/company/SubOptimalDfsTSP.java:70-84 | `[0]` without a last vertex; otherwise popped it is the greedy path followed by 0 |
| `VerticesPairs.WorstSlotIsMax` | graphs_tsp_project/src/com/company/VerticesPair.java:17-26 | the scan picks the costliest slot whose id is not `prev`, the later on ties, and slot 0 when there is none |
| `VerticesPairs.Replaced` | graphs_tsp_project/src/com/company/VerticesPair.java:12-29 | after `replaceVertex` the pair contains `vertexId`, and both array lengths are unchanged |
| `VerticesPairs.ReplacedSlot` | graphs_tsp_project/src/com/company/VerticesPair.java:14-28 | an id already held changes nothing; otherwise exactly one slot gets `(vertexId, cost)`, the one `WorstSlotIsMax` describes |
| `VerticesPairs.VerticesPair.constructor` | graphs_tsp_project/src/com/company/VerticesPair.java:9 | a new pair whose arrays are fresh, empty and do not alias; Java leaves both null until the setters run |
| `VerticesPairs.VerticesPair.ContainsVertex` | graphs_tsp_project/src/com/company/VerticesPair.java:31-37 | true exactly when some slot's id is `vertexId` |
| `VerticesPairs.VerticesPair.ReplaceVertex` | graphs_tsp_project/src/com/company/VerticesPair.java:12-29 | the new contents are `Replaced(old contents)` |
| `VerticesPairs.VerticesPair.SetVerticesIds` | graphs_tsp_project/src/com/company/VerticesPair.java:39-42 | stores a fresh copy of the argument, so the two never alias |
| `VerticesPairs.VerticesPair.SetCostsToReachVertices` | graphs_tsp_project/src/com/company/VerticesPair.java:44-47 | stores a fresh copy of the argument, so the two never alias |
| `VerticesPairs.CopyOf` | graphs_tsp_project/src/com/company/VerticesPair.java:40-41 | `System.arraycopy` into a fresh array of equal contents |
| `PairTables.LowerBoundUpdate` | graphs_tsp_project/src/com/company/PathNode.java:75-80 | replacing one pair changes the doubled bound by the difference of the two pair sums |
| `PairTables.Patched` | graphs_tsp_project/src/com/company/PathNode.java:62-67 | in the child's table only the pairs of the two endpoints differ, and they then hold each other |
| `PairTables.CalculateLowerBound` | graphs_tsp_project/src/com/company/PathNode.java:75-80 | the summing loop computes `2·lb`, the sum over all pairs of `cost[0] + cost[1]` |
| `PairTables.CopyPair` | graphs_tsp_project/src/com/company/PathNode.java:46-48 | a fresh pair with fresh arrays holding the same contents |
| `PairTables.CopyPairs` | graphs_tsp_project/src/com/company/PathNode.java:43-50 | a deep copy of the pair list, no two copies sharing an array |
| `PairTables.ReplaceAt` | graphs_tsp_project/src/com/company/PathNode.java:64-67 | `replaceVertex` on one pair of a deep copy changes that pair's contents only |
| `PairTables.PatchPairs` | graphs_tsp_project/src/com/company/PathNode.java:62-67 | the two `replaceVertex` calls leave the copied table patched as `Patched` says |
| `PathNodes.RootMarks` | graphs_tsp_project/src/com/company/PathNode.java:29-30 | a fresh visited array with exactly the given vertex marked |
| `PathNodes.MarkedCopy` | graphs_tsp_project/src/com/company/PathNode.java:56-59 | a fresh copy of the parent's visited array with `vertexToVisit` also set |
| `PathNodes.PathNode.CompareTo` | graphs_tsp_project/src/com/company/PathNode.java:17-23 | orders by bound and returns -1, never 0, on equal bounds |
| `PathNodes.PathNode.Root` | graphs_tsp_project/src/com/company/PathNode.java:26-35 | exactly the given vertex is visited, count 1, cost 0, no predecessor, pairs as given, `currentVertexId` left 0, bound from the pairs |
| `PathNodes.PathNode.Child` | graphs_tsp_project/src/com/company/PathNode.java:38-72 | visited is the parent's plus `vertexToVisit`, count and cost grow by 1 and `costToReachVertex`, the table is the parent's patched, and the parent's arrays still hold its marks and table |
| `PathNodes.ChildArrays` | graphs_tsp_project/src/com/company/PathNode.java:43-71 | the child's fresh arrays hold the patched table, its bound and the extended marks |
| `PathNodes.PatchedCopies` | graphs_tsp_project/src/com/company/PathNode.java:43-71 | the copied pairs, patched, and the bound of the patched table |
| `BranchBoundSearch.Closest2IsFirstTwo` | graphs_tsp_project/src/com/company/BranchBoundTSP.java:35-52 | slot 0 holds the first cheapest `j != i` and slot 1 the first cheapest of the rest, with `cost[0] <= cost[1]`; an empty slot stays `(-1, MAX_VALUE)` |
| `BranchBoundSearch.ClosestPair` | graphs_tsp_project/src/com/company/BranchBoundTSP.java:53-54 | each row's pair has two ids and two costs |
| `BranchBoundSearch.ClosestTable` | graphs_tsp_project/src/com/company/BranchBoundTSP.java:27-59 | `n` pairs, one per row, each scannable by `replaceVertex` |
| `BranchBoundSearch.Transpose` | graphs_tsp_project/src/com/company/BranchBoundTSP.java:82-94 | the matrix the search actually walks, with `graph[i][current]` as the edge `current -> i` |
| `BranchBoundSearch.CostTransposed` | graphs_tsp_project/src/com/company/BranchBoundTSP.java:82-94 | a path costs in the transposed matrix what its reverse costs in `graph` |
| `BranchBoundSearch.PositiveTransposed` | graphs_tsp_project/src/com/company/BranchBoundTSP.java:82-92 | a path uses positive transposed edges exactly when its reverse uses positive edges of `graph` |
| `BranchBoundSearch.ReverseTour` | graphs_tsp_project/src/com/company/BranchBoundTSP.java:104-118 | a tour read backwards is a tour |
| `BranchBoundSearch.PotentialRemove` | graphs_tsp_project/src/com/company/BranchBoundTSP.java:75 | polling a node takes its weight off the queue's potential |
| `BranchBoundSearch.ChildrenWeighLess` | graphs_tsp_project/src/com/company/BranchBoundTSP.java:90-99 | up to `n` children, one level deeper, weigh less than their parent |
| `BranchBoundSearch.TrailVisits` | graphs_tsp_project/src/com/company/BranchBoundTSP.java:92-94 | a node as the search builds it visits distinct vertices from 0 over positive transposed edges, marks exactly them, counts them, and its cost is the path's |
| `BranchBoundSearch.TrailBelow` | graphs_tsp_project/src/com/company/BranchBoundTSP.java:92 | a node with an unvisited vertex has visited fewer than `n` |
| `BranchBoundSearch.ChildOk` | graphs_tsp_project/src/com/company/BranchBoundTSP.java:92-94 | a child over a positive transposed edge to an unvisited vertex extends its parent's trail, and the parent had visited fewer than `n` |
| `BranchBoundSearch.SpawnedExact` | graphs_tsp_project/src/com/company/BranchBoundTSP.java:90-97 | the vertices that get a child are exactly those below `n` that pass the loop's test, each once, in increasing order |
| `BranchBoundSearch.BestIsTour` | graphs_tsp_project/src/com/company/BranchBoundTSP.java:82-85 | a full node closed by a positive edge `graph[0][current]` stands for a tour, read back from the root, over positive edges of cost `pathTotalCost + graph[0][current]` |
| `BranchBoundSearch.BoundOverestimates` | graphs_tsp_project/src/com/company/PathNode.java:75-80 | on `[[0,1,100],[100,0,1],[1,100,0]]` the doubled root bound is 303 while a tour over positive edges costs 3, so the row bound is not a lower bound on directed matrices |
| `BranchBoundSearch.LeastExists` | graphs_tsp_project/src/com/company/BranchBoundTSP.java:75 | a non-empty queue has a node of least bound |
| `BranchBoundQueue.QueueSnoc` | graphs_tsp_project/src/com/company/BranchBoundTSP.java:96 | adding a well-formed node keeps the queue well formed |
| `BranchBoundQueue.QueueRemove` | graphs_tsp_project/src/com/company/BranchBoundTSP.java:75 | removing a node keeps the queue well formed and yields a well-formed node |
| `BranchBound.BranchBoundTSP.constructor` | graphs_tsp_project/src/com/company/BranchBoundTSP.java:17-24 | empty queue, cost `MAX_VALUE`, no best node |
| `BranchBound.BranchBoundTSP.ClosestOf` | graphs_tsp_project/src/com/company/BranchBoundTSP.java:32-52 | the inner loop with its running minima computes `Closest2` of the row |
| `BranchBound.BranchBoundTSP.ClosestPairOf` | graphs_tsp_project/src/com/company/BranchBoundTSP.java:31-54 | a fresh pair holding the row's two closest ids and costs |
| `BranchBound.BranchBoundTSP.InitializeClosestPairs` | graphs_tsp_project/src/com/company/BranchBoundTSP.java:27-59 | `n` fresh pairs holding `ClosestTable` |
| `BranchBound.BranchBoundTSP.Enqueue` | graphs_tsp_project/src/com/company/BranchBoundTSP.java:96 | `priorityQueue.add` appends the node and nothing else changes |
| `BranchBound.BranchBoundTSP.Poll` | graphs_tsp_project/src/com/company/BranchBoundTSP.java:75 | returns a queued node of least bound, any one on ties, and removes exactly that node at its position, leaving the rest of the queue in order |
| `BranchBound.BranchBoundTSP.GetShortestPathCost` | graphs_tsp_project/src/com/company/BranchBoundTSP.java:62-66 | seeds the root node and searches; the cost never increases, and every node left has a bound at least the cost |
| `BranchBound.BranchBoundTSP.BranchAndBound` | graphs_tsp_project/src/com/company/BranchBoundTSP.java:70-101 | terminates, never increases the cost, keeps the best a real tour, and stops with every queued bound at least the best |
| `BranchBound.BranchBoundTSP.Close` | graphs_tsp_project/src/com/company/BranchBoundTSP.java:82-86 | a node with all `n` visited, a positive `graph[0][current]` and a strictly smaller closed cost becomes the best; nothing changes otherwise |
| `BranchBound.BranchBoundTSP.Expand` | graphs_tsp_project/src/com/company/BranchBoundTSP.java:90-99 | appends to the queue exactly one child of the polled node for each vertex `i` that is unvisited, has `graph[i][current] > 0` and gives a cost below the best, in increasing order of `i`, and lowers the potential |
| `BranchBound.BranchBoundTSP.TryChild` | graphs_tsp_project/src/com/company/BranchBoundTSP.java:92-97 | queues a child exactly when `i` is unvisited, `graph[i][current] > 0` and the child's cost is below the best; the child is at `i` and costs the parent's cost plus `graph[i][current]` |
| `BranchBound.BranchBoundTSP.Grow` | graphs_tsp_project/src/com/company/BranchBoundTSP.java:90-98 | one turn of the `for` loop extends the children queued so far to those for every vertex up to `i` that passes the test |
| `BranchBound.NewChild` | graphs_tsp_project/src/com/company/BranchBoundTSP.java:94 | the child visits exactly one more, previously unvisited, vertex, never more than `n`, at cost plus `graph[i][current]` |
| `BranchBound.BranchBoundTSP.GetShortestPath` | graphs_tsp_project/src/com/company/BranchBoundTSP.java:104-118 | `[0]` without a best node; otherwise 0 and then the ids back to the root, which has `n+1` entries and, read from the bottom, is a tour over positive edges of the best cost |

## Left out

- `Main.java`: reading the matrix with `Scanner`, the argument check, timing, printing, and catching `OutOfMemoryError`. These are I/O and resource handling.
- `BruteForceTSP` is called from `Main.java` but its source is not part of this model.
- Java's 32-bit `int` overflow. Costs are unbounded integers, and `Integer.MAX_VALUE` is the constant `INF`, used as the solvers use it.
- `BranchBound.BranchBoundTSP.GetShortestPathCost`: differs from Java wherever a closest pair keeps its `(-1, MAX_VALUE)` slot, for example every 2-vertex matrix, or a 1-vertex matrix with a positive diagonal entry (BranchBoundTSP.java:32-54). Java adds `cost[0] + cost[1]` in `int` (PathNode.java:78), so that sum wraps to a negative number and the root passes the cutoff at BranchBoundTSP.java:77; Java then finds the tour, for example 8 for `[[0,3],[5,0]]`. The model adds without wrapping, so the root bound is at least `2·MAX_VALUE`, the search stops at the first poll, and the result is `MAX_VALUE`.
- The `double` type of `PathNode.lb` and of `BranchBoundTSP.shortestPathCost`. The bound is always an integer sum halved, so the model keeps `2·lb` as an integer and compares it with `2·shortestPathCost`.
- The `double`s of the dynamic-programming solver: the return type of `getShortestPathCost` (DynamicProgrammingTSP.java:48) only widens the `int` cost, and `prevDist` and `newDist` (DynamicProgrammingTSP.java:98-99) are `int` sums widened to `double`. The model compares those sums as integers.
- `java.util.PriorityQueue` heap internals. Only the contract that `poll` removes a node of least bound is modelled. `Stack`, `ArrayList` and `Collections.reverse` are Dafny sequences.
- `DynamicProgramming.DynamicProgrammingTSP.GetShortestPathCost`: requires `n <= 30`, the width of the `int` masks the code shifts; larger `n` is left out.
- `DynamicProgramming.DynamicProgrammingTSP.GetShortestPathCost`: the cost of the reconstructed tour is proved equal to the returned cost only when every matrix entry is non-negative and the cost is below `MAX_VALUE`. With negative entries the unbounded model can reach `MAX_VALUE` sums that 32-bit Java would wrap.
- `BackTracking.BackTrackingTSP.constructor`, `SubOptimalDfs.SubOptimalDfsTSP.constructor` and `BranchBound.BranchBoundTSP.GetShortestPathCost`: require `n >= 1`. For an empty matrix the Java code indexes `visitedVertices[0]` and throws.
- `BranchBound.BranchBoundTSP.GetShortestPathCost`: no optimality is claimed, although the source describes the search as finding the shortest path (BranchBoundTSP.java:61). Half the sum of the two cheapest entries of each row is not a lower bound on a directed matrix, so the cutoff at BranchBoundTSP.java:77 can prune the optimal tour. `BranchBoundSearch.BoundOverestimates` shows it: for `[[0,1,100],[100,0,1],[1,100,0]]` the root bound is 151.5 while the tour `[0,1,2,0]` costs 3. Searching the transposed matrix does not lose optimality, since reversal maps tours to tours of equal cost (`CostTransposed`, `PositiveTransposed`).
- `VerticesPairs.VerticesPair.ReplaceVertex`: requires at least one slot and a cost for every id slot. The Java code writes slot 0 when no slot qualifies, so it throws on an empty pair. Its `&&` (VerticesPair.java:21) reads `costsToReachVertices[i]` only for slots whose id is not `prev`, so the cost requirement is stronger than Java needs when the extra slots hold `prev`; every pair the solver builds has two ids and two costs.
- `VerticesPairs.VerticesPair.constructor`: Java leaves both arrays `null` (VerticesPair.java:9); the model gives them fresh empty arrays. Every caller runs both setters next (BranchBoundTSP.java:53-54, PathNode.java:47-48), so neither value is ever read.
- The Java `Vertex` and `PathNode` getters are not separate members. They are the datatype's destructors and the class's `const` fields.
