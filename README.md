# Longest path in a weighted directed acyclic graph

`main.py` computes the length of the longest path in a weighted graph
given as an adjacency list: `graph[u]` lists the edges `(v, w)` leaving
node `u`, with target `v` and weight `w`. It works in two stages.

- `topological_sort` is Kahn's algorithm:
  - count every node's in-degree;
  - queue the nodes of in-degree 0;
  - repeatedly pop the front node, output it, and decrement the in-degree
    of each of its successors, queueing a successor once its in-degree
    reaches 0.
- `calculate_longest_path` is the dynamic programme over that order:
  - every distance starts at minus infinity;
  - every node of the order is seeded at 0;
  - every edge is relaxed in order;
  - the answer is the largest distance.
- `longest_path` runs one stage after the other.

The model is written in Dafny and has five modules.

- `Seqs` holds facts about sequences of node indices (distinctness, range,
  counting).
- `Graphs` holds graphs, walks and their weights, acyclicity, in-degree
  counts and node orders, with the lemmas linking them.
- `TopoSort` is Kahn's algorithm as imperative code:
  - an `array<int>` of in-degrees updated in place;
  - the queue as a sequence with front removal.
- `Longest` is the relaxation as imperative code over an `array<Dist>`,
  plus the composition. `Dist` is either `Unreached` (minus infinity) or
  `Reached(d)`. Comparison and addition (`DistLe`, `DistLt`, `AddWeight`)
  follow what minus infinity does in Python at main.py:62-73; `DistOrder`
  states their laws.
- `Scenarios` holds concrete graphs and their proved answers.

The contracts hold for every valid graph. Acyclicity is not a precondition
anywhere:
- Kahn's algorithm outputs every node exactly when the graph has no cycle.
  On a cyclic graph it gives a shorter order and raises no error.
- On an acyclic graph, `LongestPath` returns the largest weight of any walk.
  A single node counts as a walk of weight 0.
- On any graph, a reached result is 0 or more and is the weight of some walk.
- The result is `Unreached` exactly when every node has an incoming edge.

In the code, a chain `0 -> 1 -> ... -> n-1` whose edges all weigh `w` gives
`(n - 1) * w` only when `w >= 0`. When `w <= 0` it gives 0, the weight of a
single node. The model follows the code and proves both cases
(`ChainLongest`, `ChainNonPositive`, and `ChainAnswer` for what
`LongestPath` returns).

## Model

| member | source | states |
|---|---|---|
| TopoSort.CountInDegrees | main.py:30-33 | the fresh counter array has one entry per node, and entry `v` is the number of edges in the whole graph whose target is `v` |
| TopoSort.ZeroInDegreeNodes | main.py:36 | the initial queue lists nodes in strictly increasing order, and a node is in it exactly when its counter is 0 |
| TopoSort.PopFront | main.py:40-42 | popping the front node and appending it to the output keeps the queue bookkeeping. Every counter then equals the edges into it from nodes not yet output, plus the not-yet-used edges of the popped node |
| TopoSort.ReleaseSuccessors | main.py:43-46 | after the popped node's edges are used up, every counter equals the number of edges into its node from nodes not yet output. A node has been queued exactly when its counter is 0. Nodes already queued keep their place |
| TopoSort.ReleaseEdge | main.py:43-46 | decrementing the counter of one edge's target keeps every counter equal to the edges into it still to be used. The target then belongs in the queue exactly when its counter reaches 0 |
| TopoSort.TopologicalSort | main.py:17-48 | the order has distinct nodes of the graph. Every node comes after every node with an edge into it. Every node of in-degree 0 is included, and a node is left out only if some edge into it comes from a node also left out, so every node whose predecessors are all output is output. The order holds all `N` nodes exactly when the graph has no cycle, and is shorter otherwise, with no error |
| TopoSort.KahnOutcome | main.py:40-48 | if every node left out still has an unused incoming edge, then the order is full exactly when the graph has no cycle |
| Graphs.InDegreeZero | main.py:30-36 | a node's in-degree is 0 exactly when no edge of the graph targets it |
| Graphs.IncomingZero | main.py:44-46 | the count of edges into `v` from nodes not yet output is 0 exactly when every node with an edge into `v` has been output |
| Graphs.IncomingRemove | main.py:41-44 | outputting node `u` lowers the count of remaining edges into `v` by exactly the number of `u`'s edges that target `v` |
| Graphs.PredecessorsInsideMeansCycle | main.py:40-48 | a non-empty set of nodes, each with an incoming edge from inside the set, lies on a cycle. So the nodes Kahn's algorithm leaves out witness a cycle |
| Graphs.PredecessorsFirstForward | main.py:36-48 | if every node comes after all nodes with an edge into it, then every edge between nodes of the order points forward |
| Graphs.ForwardOrderAcyclic | main.py:17-25 | an order of all nodes in which every edge points forward rules out any cycle |
| Graphs.Extend | main.py:72-73 | extending a walk by an edge of its last node gives a walk whose weight grows by that edge's weight |
| Longest.DistOrder | main.py:62-73 | minus infinity is below every distance; the comparison is a total order whose strict part is `DistLt`; adding a weight keeps the order and leaves minus infinity unchanged |
| Longest.MaxDist | main.py:76 | the maximum is an element of the list and no element exceeds it, with minus infinity below every number |
| Longest.SeedDistances | main.py:62-67 | after seeding, a node's distance is 0 exactly when it occurs in the order, and is unreached otherwise |
| Longest.RelaxEdgesOf | main.py:71-73 | relaxing the edges of `order[i]` lowers no distance, changes only targets of those edges, and extends the relaxation state from the first `i` nodes of the order to the first `i + 1`. Unless `order[i]` has an edge to itself, every edge of `order[i]` is relaxed afterwards, in any order, and every changed distance equals `order[i]`'s distance plus the weight of one of its edges into that node, so it is the larger of its old value and the best such sum |
| Longest.OwnEdgesRelaxed | main.py:71-73 | one relaxation step on node `u` without a self-loop keeps the edges of `u` relaxed so far relaxed and relaxes the current one |
| Longest.RelaxInOrder | main.py:70-73 | the relaxation over the whole order lowers no distance, changes only nodes that an edge of an ordered node targets, and leaves every reached distance the weight of a walk. In an order where edges point forward, it leaves every edge of an ordered node relaxed |
| Longest.RelaxStep | main.py:71-73 | relaxing one edge never lowers any distance. Every reached distance stays the weight of a walk ending at its node. In an order where edges point forward, every edge processed so far stays relaxed, meaning `dist[v] >= dist[u] + w` |
| Longest.PathBound | main.py:70-73 | when every ordered node is at least 0 and every edge leaving an ordered node is relaxed, no walk through the order weighs more than the distance of its last node |
| Longest.MaxOfRelaxed | main.py:76 | the largest relaxed distance is reached exactly when the order is non-empty. It is then at least 0 and the weight of some walk. In a forward order, it bounds every walk through the order |
| Longest.CalculateLongestPath | main.py:50-76 | the result is reached exactly when the order is non-empty. It is then at least 0 and the weight of a walk. When the order sends edges forward, no walk through it weighs more |
| Longest.LongestPath | main.py:1-15 | on an acyclic graph, the result is the largest weight of any walk. On any graph, a reached result is at least 0 and the weight of some walk. The result is unreached exactly when every node has an incoming edge |
| Scenarios.Certificate | main.py:61-76 | a distance vector that is at least 0 everywhere, relaxes every edge and is at most `d`, together with a walk of weight `d`, proves that `d` is the longest walk weight |
| Scenarios.MaxPathWeightUnique | main.py:1-15 | the longest walk weight is unique, so two calls on the same acyclic graph agree |
| Scenarios.IncreasingEdgesAcyclic | main.py:17-25 | a graph whose every edge goes from a smaller node to a larger one has no cycle |
| Scenarios.NoEdges | main.py:61-76 | a graph with nodes but no edges is acyclic and has longest walk 0 |
| Scenarios.DiamondLongest | main.py:1-15 | the four-node diamond `0->1 (5), 0->2 (3), 1->3 (6), 2->3 (4)` is acyclic and has longest walk 11 |
| Scenarios.DiamondAnswer | main.py:1-15 | `LongestPath` of the diamond returns 11 |
| Scenarios.NegativeEdgeLongest | main.py:70-76 | the graph with the single edge `0 -> 1` of weight -2 is acyclic, and its longest walk is a single node, with weight 0 |
| Scenarios.NegativeEdgeAnswer | main.py:1-15 | `LongestPath` of that graph returns 0 |
| Scenarios.SelfLoopIsCycle | main.py:40-48 | an edge from a node to itself makes the graph cyclic, whatever its weight |
| Scenarios.ChainAcyclic | main.py:17-25 | the chain `0 -> 1 -> ... -> n-1` has no cycle |
| Scenarios.ChainLongest | main.py:1-15 | a chain of `n` nodes whose edges all weigh `w >= 0` is acyclic and has longest walk `(n - 1) * w` |
| Scenarios.ChainNonPositive | main.py:1-15 | a chain of `n` nodes whose edges all weigh `w <= 0` is acyclic and has longest walk 0 |
| Scenarios.ChainAnswer | main.py:1-15 | `LongestPath` of that chain returns `(n - 1) * w` when `w >= 0` and 0 when `w < 0` |

## Left out

- Minus infinity is modelled as the datatype case `Unreached`, with integer weights. IEEE floating-point values and arithmetic are not modelled.
- `collections.deque` is modelled as a sequence with front removal and appending at the end. Only its first-in, first-out behaviour is kept.
- Cycle detection and rejection: the code does neither. The model states what happens on a cyclic graph: a shorter order and no error.
- Path reconstruction: the code does not implement it either; only the length is returned.
- An empty graph (`N = 0`) makes `max` raise an error. `CalculateLongestPath` and `LongestPath` require `N > 0` instead of modelling that error.
- An edge whose target is not a node is a precondition violation (`ValidGraph`). So is a node of the order passed to `CalculateLongestPath` that is not a node of the graph (`InRange`). In Python either raises `IndexError` at main.py:33, main.py:66 or main.py:72, or, for a negative index, silently wraps to the end of the list.
- Numeric width and overflow are not modelled: weights and sums are unbounded integers.
- LongestPath: on a cyclic graph its contract says only that a reached result is at least 0 and the weight of some walk. The stronger fact, that the result bounds every walk running through Kahn's order, is stated by `CalculateLongestPath` for any order sending edges forward, and `TopologicalSort`'s order does that on every graph (`PredecessorsFirstForward`). `LongestPath` does not restate it, because the order is internal to it and the model gives no characterisation of it independent of Kahn's algorithm, such as "the nodes not reachable from a cycle".
