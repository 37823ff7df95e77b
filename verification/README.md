# Verified model of the distance-matrix service

The service answers origin-destination matrices. It looks every pair up in a two-level cache, plans walks that pass
the missing pairs, asks a route provider for those walks, and fills the matrix. This project models the parts of it
that compute: what they promise is stated and proved here for all inputs and all runs.

* The arc-cover planner (`internal/arccover`). `types`, `normalize`, `components`, `trails`, `lower_bound`: required
  arcs, their normal form, weak components, the minimum number of trails and the lower bound on routes.
  `graph_rule`, `heap_rule`, `dense_rule`, `dense_rounds` describe the multigraph, the indexed heap and fragment growth
  on values, `heap_step` says exactly when an arc keeps the heap ordered, and `heap_order` is a run that loses the order;
  `graph`, `heap`, `dense` are the classes and loops that change them in place, proved against those descriptions.
  `packing_rule` states the packing rule naively, `packer` is the indexed packer with its lazy cursors, `packing_bound`
  proves the 3/2 bound, `packing_greedy` that the picks determine the packing, and `packing_routes` the legs, round trips
  and splitting. `required_set` is the bitset, `validate_rule` and `validate` the completion and the statistics,
  `planner` the whole, `plan_run` how limit and window reach the growth loop.
* The matrix engine (`internal/engine`) with waypoint batching. `batching` has packets and reassembly, `engine_rule` the
  run on values with a cut at every look at the deadline, `engine_safety` what the stores keep and what a retry gains,
  `engine_transparency` that a coherent cache cannot be seen in the result, `engine` the methods, `engine_planner` the
  engine with the default planner, `engine_cells` what every cell shows whatever the provider answers, `engine_counts`
  when a run ends and what it counts.
* Two small state machines with whole-run guarantees: `round_robin` and `rate_limit`.

Where the code works in place, a class or a method with loops is proved equal to a function on values, and the theorems
are about that function. What comes from outside is a parameter that the theorems quantify over: whether each look at
a context finds it done, every reply of the provider, the order in which calls complete, the scores of pool items, the
time of each request, the geohash and the formatting of coordinates.

Three things the code does that one might not expect:

* `ValidateAndComplete` marks the ids on a route before it finds a gap and drops the route. Completion therefore holds
  exactly under the condition in `ValidateRule.CompletesExactlyWhen`; `ValidateRule.GapLosesArc` is an input that loses
  an arc. Plans made by this planner have no gaps.
* Growing a fragment changes two keys with one `Remove` before the first of two `Update` calls, and the two calls do not
  always restore the heap order. `HeapStep.StepKeepsOrderExactlyWhen` gives the exact condition, checkable before the
  calls. `HeapOrder.RunLosesOrder` and `HeapOrder.RunStartsSecondBest` are a run that loses the order and then starts a
  fragment from a balanced vertex while a better one has surplus left. Membership in the heap is exact all the same
  (`DenseRule.GrowTracks`), and the cover, the bounds and the counts below hold with or without the order.
* A cached edge serves every pair of points in the same two cells, and steps for bridge legs replace cached segments.
  Transparency therefore assumes that values depend on the cells and that no step is a fallback.

## Model

| member | source | states |
|---|---|---|
| Components.WeakComponents | internal/arccover/trail.go:5-43 | The union-find labels are those of the reference function `Labels` on touched vertices and -1 on untouched ones |
| Components.LabelsAreConnectivity | internal/arccover/trail.go:3-43 | Two vertices have the same label if and only if an undirected path of required arcs joins them |
| Components.LabelIsLeast | internal/arccover/trail.go:17-27 | The label of a vertex is the least vertex of its component |
| Components.Find | internal/arccover/trail.go:10-16 | Path halving ends, because parents never exceed their child, returns the root, and changes no vertex's root |
| Components.Union | internal/arccover/trail.go:17-27 | Linking the larger root under the smaller renames exactly that component |
| Trails.MinimumTrailCount | internal/arccover/trail.go:47-95 | The code computes Tau: over the components that hold an arc, the positive surplus or one, whichever is larger |
| Trails.TrailBound | internal/arccover/trail.go:45-95 | No partition of the arcs into directed trails has fewer than Tau trails |
| Trails.TrailBoundAttained | internal/arccover/trail.go:45-95 | Some partition of the arcs into directed trails has exactly Tau trails (joining and splicing trails until nothing can be merged) |
| Trails.IrreducibleIsMinimal | internal/arccover/trail.go:45-95 | A partition in which no two trails can be joined and no closed trail can be spliced in already has Tau trails |
| LowerBounds.ComputeLowerBound | internal/arccover/lower_bound.go:4-18 | The code returns the largest of the three bounds, and 0 without arcs or legs |
| LowerBounds.LowerBoundIsLeast | internal/arccover/lower_bound.go:9-17 | With arcs and legs the bound is the least k with m <= kL, m + Tau <= k(L+1) and Tau <= k*floor((L+1)/2), the inequalities every covering plan satisfies |
| LowerBounds.LowerBoundSound | internal/arccover/lower_bound.go:3-18 | Every plan of walks of at most maxLegs legs that covers all required arcs, repeats and bridges allowed, has at least ComputeLowerBound routes |
| LowerBounds.CoverSplitsIntoTrails | internal/arccover/lower_bound.go:9-16 | A covering plan cuts into a trail partition with m + trails <= R(L+1), m <= RL and trails <= R*floor((L+1)/2) |
| LowerBounds.CoverById | internal/arccover/validate.go:28-33 | A plan in which every arc shows up under its own id covers the arcs in the sense of the bound |
| LowerBounds.CoverByPair | internal/arccover/lower_bound.go:3-18 | For arcs with different pairs, a plan that travels every pair, by required legs or bridges, covers them too |
| RequiredSets.RequiredSet.New | internal/arccover/required_set.go:10-21 | The bitset built from the arcs answers Contains exactly as the plain set of their pairs would |
| RequiredSets.RequiredSet.Add | internal/arccover/required_set.go:28-31 | Add makes its own pair a member and changes no other pair's answer |
| RequiredSets.IndexInjective | internal/arccover/required_set.go:23-25 | Different pairs of vertices have different bit numbers |
| RequiredSets.OrBitSetsOne | internal/arccover/required_set.go:28-40 | Setting bit b of a word changes the test of bit b only |
| Packers.PackFragments | internal/arccover/packing.go:12-212 | With size buckets, lazy cursors and compacted start lists the packer returns exactly the routes of the naive rule `PackedRoutes` |
| Packers.Packer.PeekStart | internal/arccover/packing.go:78-94 | The cursor moves to the first unused fragment of that size and start, or past the end if there is none |
| Packers.Packer.PickFromSize | internal/arccover/packing.go:97-142 | The least unused fragment of the size whose bridge is no required pair, else the least of the size, else none |
| Packers.Packer.PopBestSize | internal/arccover/packing.go:144-160 | The least unused fragment of the largest size, or none when all are used |
| Packers.Packer.PickFit | internal/arccover/packing.go:162-177 | The choice is the naive rule's best fit for the space and the end of the route |
| PackingRule.BestOfWins | internal/arccover/packing.go:6-7 | The naive rule's choice beats every other candidate: larger, then no duplicate bridge, then smaller id |
| PackingRule.BestIsUnique | internal/arccover/packing.go:6-7 | Whoever beats every other candidate is the choice |
| PackingGreedy.PackingIsGreedy | internal/arccover/packing.go:97-211 | Pick by pick: every fragment packed goes before all others that were free and fitted (larger, then no bridge along a required pair, then smaller id), a route is closed only when nothing fits, and routes are opened until nothing is free; stated on the finished groups |
| PackingGreedy.GreedyIsUnique | internal/arccover/packing.go:97-211 | Only one packing is like that |
| PackingBound.PackedOnce | internal/arccover/packing.go:179-211 | Every fragment is packed exactly once, within the capacity, and the packing is first-fit-decreasing in disguise (`GoodPacking`: what opens a later route did not fit in any earlier one) |
| PackingBound.ThreeHalves | internal/arccover/packing.go:144-211 | Such a packing uses at most 3/2 of the bins of any other packing |
| PackingBound.PackingIsThreeHalves | internal/arccover/packing.go:12-212 | If the fragments can be grouped into K routes of at most L legs with bridges, PackFragments returns R routes with 2R <= 3K |
| PackingBound.PackingIsHalfFull | internal/arccover/packing.go:179-211 | All routes but the last are more than half full: (R - 1) * (L + 2) is at most twice the sizes of all fragments, bridges included |
| PackingRoutes.RoutesToRequiredFragments | internal/arccover/packing.go:253-276 | The code cuts every route at its bridges and numbers the pieces |
| PackingRoutes.PackUnpackRoundTrip | internal/arccover/packing.go:179-276 | Unpacking the packed routes gives back the fragments' edge sequences, in some order of the fragments |
| PackingRoutes.PackedArcs | internal/arccover/packing.go:179-224 | The required legs of the packed routes are exactly the arcs of the fragments, as often as they occur |
| PackingRoutes.PackedWalk | internal/arccover/packing.go:187-209 | Every packed route is a non-empty continuous walk of at most maxLegs legs |
| PackingRoutes.RouteShape | internal/arccover/packing.go:187-208 | A route has one leg less than the sizes of its fragments add up to, bridges included (a bridge may be a v to v leg) |
| PackingRoutes.SplitFragmentsByMaxLegs | internal/arccover/packing.go:227-250 | The code returns the pieces of `ChopAll`, numbered from 0 |
| PackingRoutes.ChopIsLossless | internal/arccover/packing.go:240-247 | The pieces of a trail have at most maxLegs arcs, all but the last exactly that many, and put together are the trail |
| PackingRoutes.ChopAllIsLossless | internal/arccover/packing.go:226-250 | The pieces of all fragments put together are their arcs, none is longer than maxLegs, and one that is shorter ends its fragment |
| Graphs.MutableGraph.New | internal/arccover/graph.go:15-37 | The constructed graph is `InitialGraph`: sorted lists, all arcs alive, degrees counted |
| GraphRule.InitialConsistent | internal/arccover/graph.go:14-37 | In the new graph lists, degrees and the counter describe exactly the required arcs |
| GraphRule.SortSorts | internal/arccover/graph.go:39-51 | Adjacency lists come out ascending by head, then id |
| Graphs.MutableGraph.SortEdgeIDs | internal/arccover/graph.go:39-51 | The insertion sort computes `SortIds` of the list |
| Graphs.MutableGraph.SortAdjacency | internal/arccover/graph.go:33-35 | Sorting one adjacency list touches no other |
| Graphs.MutableGraph.Remove | internal/arccover/graph.go:59-82 | Swap-remove computes `RemoveArc` of the graph |
| GraphRule.RemoveKeepsConsistent | internal/arccover/graph.go:59-82 | Removing a living arc keeps lists, degrees and counter in agreement with the arcs left, one fewer |
| GraphRule.RemovalSwaps | internal/arccover/graph.go:69-81 | The last arc of the list takes the place of the removed one; every other arc and every other list stays where it is |
| GraphRule.LeftBagAfterRemove | internal/arccover/graph.go:59-82 | Removal takes exactly one copy of the arc out of the arcs left |
| Graphs.MutableGraph.RemainingArcs | internal/arccover/graph.go:106-114 | The living arcs in ascending id order |
| Graphs.MutableGraph.SelectDenseNext | internal/arccover/graph.go:118-147 | The code returns the arc of `SelectNext`, and none exactly if no arc leaves u |
| GraphRule.NextIsBest | internal/arccover/graph.go:118-147 | With W the window, or 8 if it is not positive: the arc taken stands among the first W listed, its head leads the heads of all of them by out-in, then out, then smaller number, in the arcs left, and no arc listed before it has the same head |
| GraphRule.BestSuccessorWins | internal/arccover/graph.go:116-147 | No successor in the window is preferred to the chosen one under (out-in, out, -v) |
| Heaps.IndexedVertexHeap.New | internal/arccover/graph.go:168-184 | The code pushes the vertices with outgoing arcs in ascending order (`NewHeap`) |
| HeapRule.NewHeapOrdered | internal/arccover/graph.go:167-207 | A new heap is ordered, with order and pos inverse to each other |
| HeapRule.NewHeapTracks | internal/arccover/graph.go:167-184 | A new heap holds exactly the vertices with outgoing arcs |
| Heaps.IndexedVertexHeap.IsBetter | internal/arccover/graph.go:186-197 | The comparison is (out-in, out, -v) |
| Heaps.IndexedVertexHeap.SiftUpFrom | internal/arccover/graph.go:245-254 | The loop computes `SiftUp` and keeps pos and order inverse |
| Heaps.IndexedVertexHeap.SiftDownFrom | internal/arccover/graph.go:256-274 | The loop computes `SiftDown` and keeps pos and order inverse |
| Heaps.IndexedVertexHeap.PushVertex | internal/arccover/graph.go:199-207 | The code computes `Push` |
| Heaps.IndexedVertexHeap.RemoveVertex | internal/arccover/graph.go:223-237 | The code computes `Delete` |
| Heaps.IndexedVertexHeap.UpdateVertex | internal/arccover/graph.go:209-221 | The code computes `Update` |
| Heaps.IndexedVertexHeap.PopBestWithOutgoing | internal/arccover/graph.go:277-286 | The code computes `Pop`; -1 stands for InvalidVertex |
| HeapRule.UpdateMutual | internal/arccover/graph.go:209-243 | Update keeps pos and order inverse, and afterwards v is active exactly if it has outgoing arcs, whatever the order was |
| HeapRule.UpdateRestoresOrder | internal/arccover/graph.go:209-274 | If the heap was ordered and only v's key or eligibility changed, Update(v) makes it ordered again |
| HeapRule.PopIsBest | internal/arccover/graph.go:276-286 | On an ordered heap Pop returns an active vertex with outgoing arcs that no other one beats, and leaves an ordered heap with all the others |
| HeapRule.PopTracked | internal/arccover/graph.go:276-286 | Whatever the order, on a heap of exactly the vertices with outgoing arcs Pop returns one of them and takes out only it |
| HeapStep.StepKeepsOrderExactlyWhen | internal/arccover/dense.go:33-35 | One arc taken from an ordered heap, then Update(From) and Update(To): the heap is ordered again if and only if the arc does not displace a vertex (`Displaces`, a guard on the heap before the two updates: the vertex that the first one puts into a place below To stops under To, and beats the parent To is going to rise past) |
| HeapStep.GrowKeepsOrderExactlyWhen | internal/arccover/dense.go:26-38 | While a fragment grows on an ordered heap, the heap is ordered after every arc if and only if no arc displaces a vertex |
| HeapStep.UndisturbedRunStartsBest | internal/arccover/dense.go:18-43 | In any run, a fragment before which no arc displaced a vertex starts from a vertex that leads every vertex with arcs left by out-in, then out, then smaller number |
| HeapStep.BestStartHasSurplus | internal/arccover/dense.go:22-26 | While some vertex has positive balance, such a start has, as the surplus argument needs |
| HeapOrder.RunLosesOrder | internal/arccover/dense.go:33-35 | A run on eight arcs: the heap after the first pop is ordered, the first arc displaces a vertex, and the heap is unordered |
| HeapOrder.RunStartsSecondBest | internal/arccover/dense.go:22-26 | In the same run the second fragment starts from a vertex of balance 0 although a better one, with surplus left, is in the heap |
| Dense.GrowFragment | internal/arccover/dense.go:26-38 | The loop computes `Grow` on the graph and `HeapAfter` on the heap |
| Dense.GrowFragments | internal/arccover/dense.go:16-43 | The growth loop computes `GrowAll` up to the cancellation point |
| Dense.DenseRouteFirst | internal/arccover/dense.go:7-51 | The fragments are those of `DenseFragments`, and no arc is left; nothing happens when maxLegs <= 0 |
| DenseRule.GrowTrail | internal/arccover/dense.go:26-38 | A fragment is a directed trail from its start and stops short only where no arc leaves |
| DenseRule.GrowBag | internal/arccover/dense.go:26-38 | The arcs of a fragment are exactly those that left the graph |
| DenseRule.GrowIsGreedy | internal/arccover/dense.go:26-38 | Each arc of a fragment is the one to take, by that rule, from where the fragment stands in the graph without the arcs before it |
| DenseRule.ShortFragmentLowersSurplus | internal/arccover/dense.go:26-38 | From a start with positive balance, a fragment shorter than maxLegs ends elsewhere and lowers the total surplus of the rest by exactly one, for any window |
| DenseRule.ShortFragmentKeepsSurplus | internal/arccover/dense.go:26-38 | From a start without surplus, a fragment shorter than maxLegs leaves the total surplus as it is |
| DenseRule.ShortFragmentCloses | internal/arccover/dense.go:26-38 | From a fully balanced graph, a fragment shorter than maxLegs returns to its start |
| DenseRule.GrowTracks | internal/arccover/dense.go:33-35 | After each fragment the heap again holds exactly the vertices with outgoing arcs, although two keys change per arc |
| DenseRule.GrowAllConsumes | internal/arccover/dense.go:18-43 | Uncancelled, the growth loop alone consumes every arc |
| DenseRule.DenseTrailsExact | internal/arccover/dense.go:18-50 | Whatever the cancellation point, every arc lies in exactly one fragment, and every fragment is a non-empty trail of at most maxLegs arcs |
| DenseRounds.RoundsAreFragments | internal/arccover/dense.go:18-43 | The fragments of the growth loop are the arcs of its rounds |
| DenseRounds.RunIsGrown | internal/arccover/dense.go:18-43 | A run of the loop: the first round works on the graph of the required arcs and each other one on what the round before left; each is a greedy trail of maxLegs arcs or one that ends where no arc leaves; no look before a round found the context done, and the run ends only where no arc is left or the next look does |
| DenseRounds.RunCounts | internal/arccover/dense.go:18-43 | Over a whole run, cancelled or not: full fragments times maxLegs are at most the arcs, and shorter fragments from starts with surplus number at most the initial surplus plus the full fragments |
| Normalize.NormalizeRequired | internal/arccover/util.go:45-59 | The code returns the normal form |
| Normalize.AssignEdgeIDs | internal/arccover/util.go:38-42 | Every id becomes the index; nothing else changes |
| Normalize.NormalForm | internal/arccover/util.go:45-59 | The normal form has ids equal to indexes, ascending pairs, and every pair as often as the input |
| Normalize.NormalFormIsUnique | internal/arccover/util.go:45-59 | Only one list has these properties |
| Normalize.OrderIndependence | internal/arccover/util.go:45-59 | Inputs with the same bag of pairs have the same normal form, whatever their order and ids |
| Validate.ValidateAndComplete | internal/arccover/validate.go:9-63 | The two passes compute `Completed`, fallback counter included |
| Validate.ScanRoute | internal/arccover/validate.go:23-35 | The scan marks the ids of the legs before the first gap and reports whether there is one |
| ValidateRule.CompletedAreWalks | internal/arccover/validate.go:12-46 | Whatever comes in, every route that comes out is a non-empty continuous walk within the limit |
| ValidateRule.CompletesExactlyWhen | internal/arccover/validate.go:9-63 | The result covers every required id if and only if every required id some scan marked is carried by a kept route |
| ValidateRule.WalksStay | internal/arccover/validate.go:12-46 | Exactly the routes that are non-empty walks within the limit stay |
| ValidateRule.EveryArcIsServed | internal/arccover/validate.go:47-60 | Every required arc whose id was not lost ends on a required leg with its own id and endpoints; an added route is the one leg from the arc's tail to its head |
| ValidateRule.FallbacksAreCounted | internal/arccover/validate.go:16-20 | The fallback counter grows by the legs of every overlong route and by one per added route, and no other statistic changes |
| ValidateRule.CompletionOfContinuous | internal/arccover/validate.go:9-63 | If all routes are continuous, overlong ones included, the result covers every required id and adds exactly one single-leg route per required id no kept route carries |
| ValidateRule.GapLosesArc | internal/arccover/validate.go:23-35 | A route with a gap can lose an arc: its id is marked before the route is dropped |
| ValidateRule.CompleteIsUnchanged | internal/arccover/validate.go:9-63 | A plan that is already valid and complete is returned as it is |
| ValidateRule.SecondPassCompletes | internal/arccover/validate.go:9-63 | After a second pass nothing is uncovered, and a third changes nothing |
| Validate.FinalizePlan | internal/arccover/validate.go:66-120 | The code computes `Finalized`: the completed plan, with bridges and duplicates counted and Optimal set when calls equal a positive bound |
| Validate.DuplicatesSnoc | internal/arccover/validate.go:88-107 | Duplicates are bridges along a required pair and required legs after the first of their id |
| Validate.CountCoverage | internal/arccover/validate.go:123-143 | The number of different required ids on required legs |
| Validate.FullCoverage | internal/arccover/validate.go:122-143 | That number is the number of arcs if and only if every required id is covered |
| Planner.NewDensePlanner | internal/arccover/planner.go:14-22 | Missing settings become 17 legs and a window of 8; positive ones stay |
| Planner.DensePlan | internal/arccover/dense.go:54-67 | The code composes growth and packing into `DensePlanned` |
| Planner.MakePlan | internal/arccover/planner.go:25-57 | The code computes `Planned`, defaults and the empty case included |
| Planner.FragmentsExact | internal/arccover/dense.go:54-57 | The grown fragments are trails within the limit, with ascending ids, that hold every required arc exactly once |
| Planner.DensePlanExact | internal/arccover/dense.go:54-67 | DensePlan's routes carry every required arc exactly once, so validation has nothing to drop or add |
| Planner.PlanIsExactCover | internal/arccover/planner.go:25-57 | For every input and cancellation point: non-empty walks within the limit in which each normalized arc appears exactly once as a required leg with its own endpoints, and no single-pair fallbacks |
| Planner.PlanBounds | internal/arccover/planner.go:38-57 | With the limit the caller's, else the configured one, else 17: calls are routes, the bound reported is `LowerBound` for that limit, no plan of walks within it that covers the arcs has fewer routes than the bound, and none fewer than a plan flagged Optimal |
| Planner.PlanWithinFour | internal/arccover/planner.go:25-57 | For every input and cancellation point the plan has at most four times the routes of any plan that covers the arcs by walks within the caller's limit, else the configured one, else 17 |
| Planner.PlanStatistics | internal/arccover/validate.go:88-118 | In a finished plan one leg per required arc is required and every other a bridge; the duplicates are the bridges that run along a required pair |
| Planner.PlanFlags | internal/arccover/validate.go:109-118 | Optimal exactly if the calls meet a positive bound; the gap is calls less bound over bound, or 0; cancelled as the last look found |
| PlanRun.PlanPacksRun | internal/arccover/planner.go:25-57 | The plan's routes are the packing of the trails of the growth loop's run on the normalized arcs, with the caller's limit, else the configured one, else 17, and the configured window, else 8, and of one trail per arc a cancellation left |
| Planner.PlanOrderIndependence | internal/arccover/planner.go:36-57 | Inputs with the same bag of pairs get the same plan, whatever their order and ids |
| Planner.PlanWithin | internal/arccover/packing.go:201-206 | Every leg of a plan, bridge or not, runs between vertices of the graph |
| Batching.WaypointsPacket | internal/geo/route.go:27-40 | The code returns `Packets`; a batch of zero or less gives none |
| Batching.PacketsKeepHops | internal/geo/route.go:27-40 | For every batch >= 1 the legs of the packets in order are exactly the legs of the full list |
| Batching.PacketSpan | internal/geo/route.go:29-38 | Packet k is one stretch of the list, of at most batch waypoints for the first and batch + 1 for the others |
| Batching.PacketsShareOne | internal/geo/route.go:31-33 | Neighbouring packets share exactly one waypoint |
| Batching.ShortListIsOnePacket | internal/geo/route.go:27-40 | A list of at most batch waypoints is one packet |
| Batching.RouteWaypoints | internal/planner/planner.go:25-67 | The steps in packet order if every call was made and answered, else an error; the result and the number of calls do not depend on the order in which calls complete |
| Batching.CollectedIsReplies | internal/planner/planner.go:40-66 | The result is the replies' steps, one reply after the other in packet order, unless some call found the context done or failed |
| Batching.StepsFollowTheWaypoints | internal/planner/planner.go:32-66 | If every packet is answered leg by leg, the reassembled steps travel exactly the legs of the waypoint list |
| Batching.RoutePair | internal/planner/planner.go:70-81 | One call; the first step, or the totals of a reply without steps |
| Engines.Engine.LookupEdge | internal/engine/engine.go:276-298 | The code computes `Lookup`: cache, zero-distance hit within a cell, archive with promotion |
| Engines.Engine.PersistEdge | internal/engine/engine.go:300-311 | The code computes `Persist`: the cache, and the archive unless it is written elsewhere or the distance is zero |
| Engines.Computation.Probe | internal/engine/engine.go:127-172 | The probing loops compute `Probed`, cut at the first look that finds the deadline passed |
| Engines.Computation.Execute | internal/engine/engine.go:174-211 | Planning and executing compute `Executed`, cut at the deadline or an error |
| Engines.Computation.Fill | internal/engine/engine.go:213-252 | The filling loops compute `Computed` |
| Engines.Computation.FillGap | internal/engine/engine.go:313-327 | A pair without segment is looked up, else asked for alone and stored unless the answer is a fallback |
| Engines.Compute | internal/engine/engine.go:77-253 | Outcome, matrices, statistics and stores are those of `Computed`; too many points or fewer than two are refused |
| EngineCells.CellShows | internal/engine/engine.go:127-252 | Any run, any mix of real and fallback steps: a filled cell shows distance and duration of the last step the executed routes brought for its pair; if they brought none, of the pair's first hit while probing; if it had none, of the second lookup, else of the first step or the totals of the single-pair reply |
| EngineCells.CellsAreFilledInOrder | internal/engine/engine.go:213-252 | A finished run fills every cell off the diagonal and none on it, one that ends before the third phase none, one that ends in it the cells before some point, row by row |
| EngineCells.StoredLast | internal/engine/engine.go:201-211 | After the routes each key of the cache, and of an archive the engine writes, holds the edge of the last real step filed under it (for the archive, of a positive distance), or what probing left there |
| EngineCounts.LooksDecide | internal/engine/engine.go:135-252 | The run ends with the deadline at the first look that finds the context expired, and otherwise takes no such look |
| EngineCounts.RunLooks | internal/engine/engine.go:135-252 | A finished run looks once per cell off the diagonal, once after planning, once per route, and once per cell while filling |
| EngineCounts.RunCountsHits | internal/engine/engine.go:142-171 | Cache hits and cold hits are the cells that open their pair with a hit in the cache or in the archive, cache misses the cells off the diagonal whose pair has had no hit yet; the later phases change none of them |
| EngineCounts.RunCalls | internal/engine/engine.go:196-247 | A finished run counts a provider call per packet and per pair asked for alone, and a fallback edge for every fallback step either brought |
| EngineTransparency.CacheTransparency | internal/engine/engine.go:127-252 | Uninterrupted, with coherent stores and a provider that answers every leg: no entry on the diagonal and the provider's value in every other cell, whatever the stores hold at the start |
| EngineTransparency.StoresDoNotShow | internal/engine/engine.go:127-252 | Two runs of one request on different coherent stores return the same matrix |
| EngineTransparency.CallsAreRoutes | internal/engine/engine.go:174-252 | The third phase makes no provider call; with a batch size above one, calls are the planned routes |
| EngineTransparency.OneCallPerRoute | internal/engine/engine.go:70-75 | A planned route fits one packet, hence costs one call |
| EnginePlanner.DensePlannerServes | internal/engine/engine.go:63-68 | The default planner gives the engine non-empty walks within the limit over the request's points that pass every miss, whatever its own cancellation |
| EnginePlanner.EndToEnd | internal/engine/engine.go:77-253 | With the default planner and a batch size above one, cache, planner, batching and provider together return the provider's value in every cell off the diagonal, at one call per planned route |
| EnginePlanner.RoutesWithinFour | internal/engine/engine.go:70-75 | With the default planner a run plans at most four times the routes of any walks of batch size less one legs, or eleven without a batch, that pass every missed pair |
| EnginePlanner.CallsWithinFour | internal/engine/engine.go:77-253 | So does an uninterrupted run with coherent stores in provider calls |
| EngineSafety.StoredIsRead | internal/engine/engine.go:276-311 | A step that was stored is what its pair looks up next, from the cache, else from an archive the engine writes, unless the step goes nowhere |
| EngineSafety.PromotedIsWarm | internal/engine/engine.go:288-297 | An archive hit filed under its own ends is a cache hit with the same step the next time |
| EngineSafety.KeysNeverDisappear | internal/engine/engine.go:276-327 | Wherever the deadline cuts the run, every key stored at any time is stored at the end |
| EngineSafety.OnlyRealEdgesAreStored | internal/engine/engine.go:201-211 | Wherever the deadline cuts the run, any property of the edges stored before and of the provider's real steps holds of all edges stored after: no fallback step is stored |
| EngineSafety.RetryMissesLess | internal/engine/engine.go:127-172 | As far as a run probed before any cut, an identical retry misses only pairs the run missed |
| EngineSafety.CompletedRoutesAreStored | internal/engine/engine.go:185-211 | The real steps of a completed route are cached at the end of the run |
| EngineSafety.AnsweredPairsAreNotMissedAgain | internal/engine/engine.go:185-211 | A retry does not miss a pair that a completed route really answered |
| EngineSafety.ProbeCounts | internal/engine/engine.go:142-170 | After probing, cache misses are the arcs to plan, warm and cold hits together the segments found, and a store that is absent has no hits |
| EngineSafety.MissedIsNotStored | internal/engine/engine.go:146-171 | A run misses no pair whose key is cached or archived when it begins, and with a cache none within one cell |
| EngineSafety.WithinACellIsZero | internal/cache/store.go:123-131 | With a cache, a pair within one cell that is not filed there hits with distance and duration zero |
| RoundRobin.NextSmoothWeighted | internal/loadbalance/loadbalance.go:220-238 | The loop computes `AfterPick` on the counters and returns the `Winner` |
| RoundRobin.PickIsFirstLargest | internal/loadbalance/loadbalance.go:223-232 | The winner has a positive weight; nobody who has one is ahead of it after the raise, and of equals it comes first |
| RoundRobin.PickMoves | internal/loadbalance/loadbalance.go:223-237 | A pick raises every counter by the item's weight if that is positive, and the winner pays the sum of the positive weights |
| RoundRobin.CountersStayBalanced | internal/loadbalance/loadbalance.go:220-238 | Over any run of additions, removals, resets and picks the counters add up to zero, even if the weights change on every call |
| RoundRobin.PickKeepsSum | internal/loadbalance/loadbalance.go:220-238 | One pick keeps the sum of the counters, whatever they are and whatever the weights |
| RoundRobin.FullCycle | internal/loadbalance/loadbalance.go:220-238 | With W > 0 the sum of the positive weights, W picks choose each item exactly its weight times, the others never, and return all counters to zero |
| RoundRobin.PrefixIsFair | internal/loadbalance/loadbalance.go:220-238 | In every prefix of k picks, W * picks < k * weight + W |
| RoundRobin.PrefixIsFairFromBelow | internal/loadbalance/loadbalance.go:220-238 | In every prefix of k picks, W * picks >= k * weight - (items - 1) * W |
| RoundRobin.PicksRepeat | internal/loadbalance/loadbalance.go:220-238 | The picks repeat with period W |
| RoundRobin.Pool.Add | internal/loadbalance/loadbalance.go:73-80 | A new item joins with counter zero and a base weight of at least one; the counters still add up to zero |
| RoundRobin.Pool.RemoveAll | internal/loadbalance/loadbalance.go:82-85 | No item is left |
| RoundRobin.Pool.Reset | internal/loadbalance/loadbalance.go:254-265 | Every counter becomes zero |
| RoundRobin.Pool.Next | internal/loadbalance/loadbalance.go:132-148 | One selection with the current scores as weights; an empty pool selects nobody |
| RateLimit.TenantLimiter.Allow | internal/middleware/limit.go:47-61 | The answer and the new counters are those of the tenant's own window; no other tenant's counter changes |
| RateLimit.TenantLimiter.Serve | internal/middleware/limit.go:47-61 | Over a run of requests the answers are `Allowed` |
| RateLimit.TwiceTheLimit | internal/middleware/limit.go:47-61 | With a clock that never goes back, any interval of one window length, ends included, sees at most 2 * limit accepted requests |
| RateLimit.LessThanTwiceTheLimit | internal/middleware/limit.go:47-61 | With the end not counted, such an interval sees at most 2 * limit - 1 accepted requests |
| RateLimit.RunIsLimited | internal/middleware/limit.go:47-61 | Both bounds hold for every tenant in any run of all tenants' requests |
| RateLimit.TenantsAreIndependent | internal/middleware/limit.go:47-61 | A tenant's answers are those it would get alone |
| RateLimit.RejectedOnlyWhenFull | internal/middleware/limit.go:56-58 | A request is turned away only after at least limit accepted ones less than a window ago |
| RateLimit.BoundsAreReached | internal/middleware/limit.go:51-55 | For every limit and window some run reaches the first bound, and the second too unless the window is a single instant |

## Left out

- Packers.PackFragments: requires non-empty fragments with ascending ids; the source documents that buckets are ordered by id because fragments arrive in that order, and the planner's fragments do; an empty fragment has no end to continue from
- Validate.FinalizePlan: requires the ends of bridges to be vertices the required arcs mention or lie below; for others the bitset would answer for another pair or index out of range
- EngineTransparency.CacheTransparency: assumes a batch size of at least one, which the constructor of the batching planner ensures, and that values depend only on the cells of the request's points
- Engines.Engine.LookupEdge: a store answers or has no entry; an error of a store and the lookup of a request that is not strict are not modelled
- Engines.Computation.Probe: strict requests only; the lookup of the reverse pair is not modelled
- Engines.Computation.Execute: the arc-cover planner returns a plan; its errors are not modelled, and the default planner has none
- Engines.Computation.Fill: strict requests only; a segment of the reverse pair is not used
- Engines.Compute: strict mode with a given time slot only; fuzzy and reverse lookups, adjacent slots and the default slot from the clock are not modelled
- Engines.Engine.PersistEdge: with an asynchronous archive writer the archive does not change during the run; the writer's queue and its drops are not part of this model
- Redis itself (expiry, the geo index, failed commands) and the MySQL archive: both stores are maps from tenant, method, strategy, cells and slot to an edge
- Conversion of coordinates, haversine distances and geohash encoding: points are pairs of reals, cells an arbitrary function of a point
- Floating point: distances, durations and the optimality gap are reals
- 32-bit vertex and edge ids and 64-bit counters: ids are natural numbers, endpoints are required to be below the number of vertices
- Wall-clock fields of plan statistics, elapsed time and the cache hit ratio
- sort.Slice: replaced by an insertion sort with the same comparison; the normal form is unique, so any sort gives it
- The sorted list of component labels in MinimumTrailCount: the sum runs over the labels in ascending order directly
- Sharing of the slice `plan.Routes[:0]` with its old contents in ValidateAndComplete: routes are values here
- Clone, FirstAliveOut and splitmix64: not used by the planner
- Goroutines: a packet call either finds the context done or is made; calls complete in an arbitrary order
- Scoring of pool items (decay, success rates, probe gate): the effective weights are arbitrary integers
- The lookup by item in the pool and the recording of outcomes: they do not touch the counters
- Nil entries in the list of pool items: no operation adds one
- HTTP handlers, configuration, metrics, the provider registry and the Amap request and response formats
