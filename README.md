# A* solver and 2-d tree, modelled in Dafny

This project models the two algorithmic engines of a street-map routing
back end. The properties proved are those in the table under "Model";
what the model does not capture, or does not prove, is listed under
"Left out".

- **The A\* shortest-path solver** (`graph/AStarSolver.java`), in
  `astar.dfy`. The constructor does the whole search:
  - it runs a best-first search from `start`, keeping for every vertex
    seen its best known cost `distTo` and its predecessor `edgeTo`;
  - the frontier is a min-priority queue keyed by cost plus the
    heuristic estimate to `end`;
  - each polled vertex's outgoing edges are relaxed with `relax`;
  - afterwards the run is classified as SOLVED, TIMEOUT or UNSOLVABLE,
    and on SOLVED the path is rebuilt by walking `edgeTo` back from the
    goal and reversing it.

  `AStarSolver` is a class whose fields the constructor and `relax`
  update in place, as in the source. One relaxation is also described on
  values (`RelaxStep`), the loop over a vertex's edges as a fold of
  relaxations (`RelaxAll`), and one round of the loop as a poll followed
  by that fold (`Settle`). The search invariant is proved on these
  values:
  - `start` is the root at cost 0 and no cost is negative;
  - the `edgeTo` links form a tree;
  - each link stands for an edge of the graph whose target costs at
    least its source's cost plus the edge's weight;
  - every frontier priority is the vertex's cost plus its heuristic;
  - every reached vertex off the frontier has had its edges relaxed.

  The methods `Relax`, `RelaxNeighbors` and `Expand` are proved to
  compute exactly `RelaxStep`, `RelaxAll` and `Settle` on the fields.
  From the invariant it follows that:
  - on SOLVED, `start` followed by the solution is a walk of the graph
    whose edges weigh at most the reported weight;
  - UNSOLVABLE is reported exactly when time was left and `end` cannot
    be reached from `start`;
  - with an admissible heuristic (never negative, and never more than
    the weight of a walk to `end`), the SOLVED weight is exactly the
    weight of the walk found, and no walk from `start` to `end` weighs
    less.

  The search loop is also described on values, as the fold `Run` of
  `Settle` over the vertices it polled, each of least priority on the
  frontier the rounds before it left. The loop is proved to leave exactly
  the state `Run` gives.
- **The min-priority queue the solver is written against**, in
  `priority_queue.dfy`. Its implementation is not part of this model. It
  is a value holding each key's priority plus the keys in arrival order.
  The order makes the minimum a function of the queue, so `peek` and
  `poll` name the same key: the earliest-arrived key of least priority.
- **The 2-d tree** (`ps/KDTree.java`), in `kd_tree.dfy`:
  - nodes are heap objects whose `left`/`right` links `Insert` rewrites;
  - each node carries the value of the subtree it roots, and insertion
    and the ordering invariant are stated and proved on those values;
  - the nearest-point query is a recursive function on the heap proved
    equal to a value-level search, which is proved exact.

The solver's clock, the Java `Stopwatch`, is given as the sequence of its
readings: `clock[k]` is what the k-th call of `elapsedTime` returns. The
model assumes that the readings never go backwards and that the one
before the last has reached the timeout, so the loop ends within the
readings given (see "Left out").

The graph is given by each vertex's list of outgoing edges (a vertex with
no entry has none) and by the heuristic. Costs are exact reals, and
`Infinite` stands for the `Double.MAX_VALUE` placeholder.

Line 75 of `graph/AStarSolver.java`, which would add `start` to the
solution, is commented out. So the rebuilt solution holds every vertex
of the walk except `start`, and when `start == end` it is empty. The
model follows the code here.

## Model

| member | source | states |
|---|---|---|
| `MinPriorityQueue.MinPQ.Size` | graph/AStarSolver.java:49 | the size is the number of keys; it is 0 exactly when there are none |
| `MinPriorityQueue.MinPQ.Contains` | graph/AStarSolver.java:98 | true exactly when the vertex is a key |
| `MinPriorityQueue.MinPQ.Peek` | graph/AStarSolver.java:49 | on a non-empty queue, returns a key whose priority is at most every key's priority |
| `MinPriorityQueue.MinPQ.Poll` | graph/AStarSolver.java:50 | returns the key `Peek` names; the remaining queue is valid and holds exactly the other keys at their old priorities |
| `MinPriorityQueue.MinPQ.Insert` | graph/AStarSolver.java:47 | a new key gets the given priority; every other key is unchanged and the queue stays valid |
| `MinPriorityQueue.MinPQ.ChangePriority` | graph/AStarSolver.java:99 | a present key gets the new priority; every other key is unchanged and the queue stays valid |
| `MinPriorityQueue.Empty` | graph/AStarSolver.java:42 | the new queue is valid and holds no key |
| `MinPriorityQueue.MinIndex` | graph/AStarSolver.java:49-50 | picks the position of a least-priority key, with no earlier key as small (ties go to the earliest arrival) |
| `MinPriorityQueue.RemoveAt` | graph/AStarSolver.java:50 | removing one position from a repeat-free key list removes exactly that key and keeps the list repeat-free |
| `AStar.MinCost` | graph/AStarSolver.java:92 | the result is one of the two costs and is not more than either; the second wins only when strictly cheaper |
| `AStar.RelaxStep` | graph/AStarSolver.java:83-105 | after relaxing an edge out of a vertex with a cost, the edge's target has a cost, and that cost is not more than the source's cost plus the edge's weight |
| `AStar.RelaxStepEffect` | graph/AStarSolver.java:83-105 | after relaxing `p -> q` of weight `w`, `q` has an entry and its cost is the smaller of its old cost (`Infinite` when absent) and `distTo[p] + w`, the old one on a tie; no other cost changes and none increases. On a strict improvement `edgeTo[q] = p` and `q`'s priority is its new cost plus the heuristic; otherwise `edgeTo` and the frontier are unchanged |
| `AStar.RelaxAll` | graph/AStarSolver.java:53-55 | relaxing a list of edges in order loses no `distTo` entry |
| `AStar.InitialStateInv` | graph/AStarSolver.java:45-47 | the start state (`distTo[start] = 0`, `edgeTo[start] = start`, `start` on the frontier at its heuristic) satisfies the search invariant, with only `start` on the frontier |
| `AStar.RelaxKeepsInvariant` | graph/AStarSolver.java:83-105 | relaxing an edge of the graph of non-negative weight out of a reached vertex keeps the search invariant, and every vertex that was relaxed and stays off the frontier stays relaxed |
| `AStar.RelaxKeepsTree` | graph/AStarSolver.java:92-103 | relaxation keeps `start` the root at cost 0, every cost non-negative, and every vertex other than `start` strictly above its predecessor (cheaper, or as cheap and linked earlier) |
| `AStar.RelaxKeepsFrontier` | graph/AStarSolver.java:98-103 | relaxation keeps every frontier vertex reached, with a predecessor and priority equal to cost plus heuristic, and keeps a reached `end` on the frontier |
| `AStar.RelaxKeepsLinks` | graph/AStarSolver.java:92-103 | relaxation keeps every `edgeTo` link backed by an edge of the graph from the predecessor, with the vertex's cost at least the predecessor's cost plus that edge's weight |
| `AStar.RelaxKeepsClosed` | graph/AStarSolver.java:92-103 | relaxation never undoes an earlier one: every vertex off the frontier whose edges were relaxed still has them relaxed |
| `AStar.PollKeepsInvariant` | graph/AStarSolver.java:50 | taking a vertex other than `end` off the frontier keeps the invariant, except that the polled vertex's edges are still to be relaxed |
| `AStar.RelaxAllKeepsInvariant` | graph/AStarSolver.java:53-55 | relaxing, in order, edges of the graph out of a reached vertex keeps the invariant, and no vertex loses its predecessor |
| `AStar.RelaxAllSettles` | graph/AStarSolver.java:53-55 | relaxing, in order, edges out of a polled vertex leaves it off the frontier at its cost, leaves every one of those edges relaxed, and raises no cost |
| `AStar.SettleKeepsInvariant` | graph/AStarSolver.java:50-55 | one round of the loop, polling a frontier vertex other than `end` and relaxing all its edges, keeps the whole search invariant and raises no cost |
| `AStar.RunExtend` | graph/AStarSolver.java:49-56 | polling a vertex of least priority other than `end` extends the run by exactly one `Settle` round at that vertex, and the polls stay in an order the loop can make |
| `AStar.SearchedBy` | graph/AStarSolver.java:45-56 | a state that the rounds over the polls reach from the initial state, with the polls in order, is the one `Searched` describes |
| `AStar.NoIncreaseTransitive` | graph/AStarSolver.java:49-56 | "no cost increased" composes over successive rounds of the loop |
| `AStar.BelowStrictOrder` | graph/AStarSolver.java:71-74 | the order along predecessor links is irreflexive and transitive, so the walk back cannot cycle |
| `AStar.PathExtend` | graph/AStarSolver.java:72-73 | prepending a vertex whose predecessor is `v` turns a path from that vertex into a path from `v` |
| `AStar.PathShorten` | graph/AStarSolver.java:72-73 | dropping the last vertex of a non-empty `edgeTo` path gives the path to that vertex's predecessor |
| `AStar.PathUnique` | graph/AStarSolver.java:71-74 | two `edgeTo` paths between the same two vertices are equal, so the rebuilt solution is the one chain from `start` to `end` |
| `AStar.WalkStep` | graph/AStarSolver.java:71-74 | one step of the walk back from the goal reaches a vertex with a predecessor, extends the path, and strictly shrinks the set of vertices below, so the walk ends |
| `AStar.Reverse` | graph/AStarSolver.java:76 | the result has the same length, with element `i` taken from position `n - 1 - i` |
| `AStar.ReverseSnoc` | graph/AStarSolver.java:72-76 | reversing a list with `x` appended puts `x` first |
| `AStar.PathIsRoute` | graph/AStarSolver.java:69-76 | under the invariant, the `edgeTo` path from `start` to a reached vertex, preceded by `start`, is a walk of the graph whose edges weigh at most that vertex's cost |
| `AStar.RouteReached` | graph/AStarSolver.java:49-56 | when the frontier is empty, every vertex on a walk of the graph from `start` has been reached |
| `AStar.ClassificationHolds` | graph/AStarSolver.java:58-77 | under the invariant, when the run stopped on the timeout, on an empty frontier or on `end` at the frontier's head, the outcome rule gives TIMEOUT exactly when the last reading reached the timeout. UNSOLVABLE only on an empty frontier with time left. SOLVED with `end` of least priority, weight `distTo[end]` and the `edgeTo` chain as path. Otherwise an empty path and weight 0 |
| `AStar.SolvedIsRoute` | graph/AStarSolver.java:69-77 | on SOLVED, `start` followed by the solution is a walk of the graph whose edges weigh at most the solution weight |
| `AStar.UnsolvableExactly` | graph/AStarSolver.java:64-67 | UNSOLVABLE is the outcome exactly when time was left and no walk of the graph leads from `start` to `end` |
| `AStar.ClosedStep` | graph/AStarSolver.java:53-55 | along a walk from `start`, the next vertex after a reached vertex that is off the frontier is reached, at a cost no more than the walk up to it |
| `AStar.FirstOnFrontier` | graph/AStarSolver.java:49-56 | on a walk from `start` to a frontier vertex, the first vertex on the frontier costs at most the walk up to it |
| `AStar.RestBound` | graph/AStarSolver.java:14-16 | with an admissible heuristic, the heuristic at a vertex of a walk to `end` is at most the rest of the walk's weight |
| `AStar.FrontierBound` | graph/AStarSolver.java:69-70 | with `end` of least priority on the frontier, when a frontier vertex costs at most `prefix` and its heuristic is at most `rest` (or it is `end` and `rest` is 0), `end` costs at most `prefix + rest` |
| `AStar.HeadIsShortest` | graph/AStarSolver.java:69-70 | with `end` of least priority on the frontier and an admissible heuristic, `end`'s cost is at most the weight of every walk of the graph from `start` to `end` |
| `AStar.SolvedIsShortest` | graph/AStarSolver.java:14-16 | on SOLVED with an admissible heuristic, no walk from `start` to `end` weighs less than the solution weight, and `start` followed by the solution is a walk weighing exactly that |
| `AStar.ReadingsBelow` | graph/AStarSolver.java:49 | on a clock that never goes back, a reading below the timeout follows only readings below it |
| `AStar.AStarSolver.constructor` | graph/AStarSolver.java:40-78 | the solver keeps the query and the clock it was given and satisfies `Classified`: the classification; the walk, shortest-walk and UNSOLVABLE facts; `distTo`, `edgeTo` and the final frontier are what `Run` gives over the loop's polls, each of least priority; the poll count; and which reading is `timeSpent`. When `start == end`, no state is explored, the outcome is not UNSOLVABLE, and the solution is empty with weight 0 |
| `AStar.AStarSolver.Search` | graph/AStarSolver.java:49-56 | the loop leaves exactly the state `Run` gives from the initial state over the vertices it polled, each of least priority on the frontier before it was polled; it keeps the invariant and the poll count. It stops with no further reading on an empty frontier or on `end` at the head, or on one further reading at or past the timeout. Every poll followed a reading below the timeout. No cost increases. The polled vertices start with `start` and never include `end` |
| `AStar.AStarSolver.Round` | graph/AStarSolver.java:49-55 | after a reading below the timeout, one round polls the head and relaxes its edges, leaving exactly `Settle` of the old state at the head; it records the poll and restores the loop invariant; no cost increases |
| `AStar.AStarSolver.Expand` | graph/AStarSolver.java:50-55 | polls the head, counts it (`numStatesExplored` up by one) and relaxes its edges; the new state is exactly `Settle` of the old one at the head |
| `AStar.AStarSolver.RelaxNeighbors` | graph/AStarSolver.java:53-55 | relaxing every outgoing edge of a reached vertex, in the listed order, leaves exactly the state `RelaxAll` gives over those edges |
| `AStar.AStarSolver.Relax` | graph/AStarSolver.java:83-105 | the new `distTo`, `edgeTo` and frontier are exactly those of `RelaxStep` on the old state (whose effect `RelaxStepEffect` states); `changePriority` when the target is queued, `insert` otherwise |
| `AStar.AStarSolver.Finish` | graph/AStarSolver.java:58-77 | from the final reading and frontier, the outcome, weight and path satisfy the classification, the walk fact on SOLVED, the shortest-walk fact and exact weight under an admissible heuristic, and the exact condition for UNSOLVABLE; when `start == end` the weight is 0 |
| `AStar.AStarSolver.BuildSolution` | graph/AStarSolver.java:69-77 | walking `edgeTo` back from the goal to `start`, excluding `start`, then reversing, yields a path from `start` to the goal |
| `AStar.AStarSolver.Conclude` | graph/AStarSolver.java:58-77 | the result fields hold the classified outcome, time, weight and path, with the polls and the index of the reading |
| `AStar.AStarSolver.Outcome` | graph/AStarSolver.java:114-116 | TIMEOUT exactly when the time spent reached the timeout; UNSOLVABLE exactly when time was left and `end` cannot be reached in the graph, and only with an empty frontier |
| `AStar.AStarSolver.Solution` | graph/AStarSolver.java:122-124 | empty unless SOLVED; on SOLVED the `edgeTo` chain from `start` (excluded) to `end`, which preceded by `start` is a walk of the graph |
| `AStar.AStarSolver.SolutionWeight` | graph/AStarSolver.java:130-132 | 0 unless SOLVED; on SOLVED the cost of `end`, and at least the summed weight of a walk of the graph from `start` through the solution; with an admissible heuristic exactly that walk's weight, and no walk from `start` to `end` weighs less; never negative |
| `AStar.AStarSolver.NumStatesExplored` | graph/AStarSolver.java:138-140 | the number of polls made inside the search loop (the final poll of the goal is not counted), each after a reading below the timeout; the polls are listed in order, each of least priority on the frontier left by the rounds before it, and the rounds over them leave exactly the final `distTo`, `edgeTo` and frontier |
| `KdTree.Orientation.Flip` | ps/KDTree.java:36-38 | a child splits on the other axis |
| `KdTree.Compare` | ps/KDTree.java:45-47 | a three-way comparison: negative, zero or positive exactly when less, equal or greater |
| `KdTree.ComparePoints` | ps/KDTree.java:43-48 | HORIZONTAL compares the x coordinates and VERTICAL the y coordinates, in both directions of each sign |
| `KdTree.Dist` | ps/KDTree.java:64 | the squared distance between two points is never negative |
| `KdTree.DistZero` | ps/KDTree.java:64 | the squared distance is zero exactly between equal points |
| `KdTree.TreeInsert` | ps/KDTree.java:25-41 | insertion always yields a non-empty tree |
| `KdTree.InsertPoints` | ps/KDTree.java:25-41 | after insertion the tree's point set is the old set plus `p` |
| `KdTree.InsertKeepsOrder` | ps/KDTree.java:34-39 | insertion preserves the kd ordering: left points strictly below the node on its axis, right points at or above it, axes alternating |
| `KdTree.InsertDuplicate` | ps/KDTree.java:30-31 | in a kd-ordered tree, inserting a point already stored returns the tree unchanged |
| `KdTree.BuildTree` | ps/KDTree.java:13-17 | inserting the input points one by one, starting on x, stores exactly the input points in a kd-ordered tree |
| `KdTree.KDTreeNode.constructor` | ps/KDTree.java:92-95 | a new leaf holds the point and orientation, with no children |
| `KdTree.KDTreeNode.Relink` | ps/KDTree.java:36-38 | after a child link is rewritten, the node's value is its point between its children's values |
| `KdTree.KDTree.constructor` | ps/KDTree.java:13-17 | the tree is valid and kd ordered; it is the insertion of the points in order, and its point set is exactly the input points |
| `KdTree.KDTree.Insert` | ps/KDTree.java:25-41 | the subtree afterwards is `TreeInsert` of the old one: a fresh leaf for an empty subtree, otherwise the same node, with node orientations kept |
| `KdTree.KDTree.Nearest` | ps/KDTree.java:52-55 | on a non-empty tree, returns a stored point whose distance to `(x, y)` is at most that of every stored point |
| `KdTree.KDTree.NearestHelper` | ps/KDTree.java:57-81 | the heap search computes exactly the value-level search `NearestIn` on the subtree's value |
| `KdTree.NearestIn` | ps/KDTree.java:57-81 | the search returns `best` or a point of the subtree, and no farther from the goal than `best` |
| `KdTree.NearestInCorrect` | ps/KDTree.java:57-81 | the search's answer is no farther from the goal than any point of the subtree |
| `KdTree.NearestInKeepsBest` | ps/KDTree.java:64-65 | when `best` is already as close as every point of the subtree, it is returned unchanged (ties go to the point seen first) |
| `KdTree.SampleTree` | ps/KDTree.java:121-129 | in the six-point sample tree, the query at (3, 3) returns (3, 3) |

## Left out

- `AugmentedStreetMapGraph.java`: database loading, `closest`,
  `getLocationsByPrefix`, `getLocations` and `cleanString` are not part of
  this model.
- The `AStarGraph` and `WeightedEdge` implementations are not part of this
  model. The graph is a value: each vertex's edge list and a heuristic
  function.
- `DoubleMapPQ` is not part of this model. The queue is a value that the
  solver passes along and gets back, in place of the object it mutates.
  Ties go to the earliest-arrived key, a choice of this model.
- The stopwatch is wall-clock time, so it is modelled by its readings, as
  described above. `explorationTime` is not modelled.
- `AStar.AStarSolver.constructor`: requires the stopwatch readings to reach
  the timeout within the sequence given. With real time the loop stops on
  its own; a finite sequence needs this to bound it.
- `AStar.AStarSolver.constructor`: requires every edge weight to be
  non-negative and every listed edge to leave the vertex it is listed
  for. With a negative weight the `edgeTo` links can form a cycle, and
  then the walk back at `graph/AStarSolver.java:71-74` never reaches
  `start`. For example: edges S→A 1, A→B 1, B→A −5 and B→C 10, heuristic
  100 at A and B and 0 at S and C, and `end` = C.
- `AStar.AStarSolver.SolutionWeight`: equality with the summed edge
  weights of the walk through the solution, and that no walk weighs less,
  are proved only for an admissible heuristic (`Admissible`). For any
  other heuristic only "at least the walk's weight" is proved.
- `AStar.AStarSolver.constructor`: requires the stopwatch readings never
  to go backwards (`Monotone`). A wall clock can go backwards. Suppose the
  reading at `graph/AStarSolver.java:49` reaches the timeout while the
  frontier's head is not `end`, and the reading at line 58 is then below
  the timeout. Then line 69 polls that head, and line 77 reports SOLVED
  with a path to a vertex other than `end`. The model does not cover
  such a clock.
- IEEE double arithmetic is left out. Costs are exact reals, and
  `Double.MAX_VALUE` is the `Infinite` cost. A finite cost plus a weight is
  always below it.
- Java's `goal != start` at `graph/AStarSolver.java:71` compares object
  identity. The model compares values. If a graph hands out a vertex that
  equals `start` but is a different object, the Java walk can take one
  more step than the model.
- `relax`'s `else` branch at `graph/AStarSolver.java:95-96` is dead code,
  because line 89 already created the entry. The model has only the
  `replace` path.
- Optimality of the returned path is proved only for an admissible
  heuristic. The source does not check the heuristic, and with one that
  overestimates, a longer walk can be returned.
- `numStatesExplored` is an unbounded natural; Java `int` overflow is not
  modelled.
- `KdTree.KDTree.Insert`: on a duplicate point the heap is also left
  unchanged, but this is stated on values (`KdTree.InsertDuplicate`), not
  as a frame on the heap.
- Points have integer coordinates, and `Point.distance` is the squared
  Euclidean distance. Only comparisons between distances are used, and
  `Point` itself is not part of this model. `Double.compare`'s ordering of
  -0.0 and NaN is not modelled.
- The `orientation()`, `point()`, `left()` and `right()` accessors of
  `KDTreeNode` and its four-argument constructor are unused and not
  modelled.
