# Graph algorithms — a verified Dafny model

This project models the `Graph` class of `graph_algorithms/graph.py`:
- an adjacency dictionary from integer vertices to ordered lists of
  `(neighbour, weight)` pairs, with a `directed` flag;
- edge insertion;
- the traversals (BFS, DFS);
- cycle detection and topological sorting;
- Dijkstra's and Bellman-Ford's shortest paths;
- Prim's spanning tree;
- Tarjan's bridge search.

It also models the three example graphs built by
`graph_algorithms/example.py`.

`Graph` is a class (`Graphs.Graph`) with two fields, which its methods
update in place:
- `adj: map<int, seq<Arc>>`;
- `order: seq<int>`, the keys in insertion order, which is Python's
  dictionary iteration order.

The Python closures (`dfs_util`, `has_cycle`, the nested `dfs` of
`find_bridges`) are recursive methods. They thread the sets, lists and
tables that the closures mutate as parameters and results, and every loop
of the source is a `while` loop with its invariants. Each method is proved
against graph-theoretic definitions. These definitions are:
- edges, paths, reachability and cycles (`Adjacency`);
- weighted walks, with the distance type `Dist = Fin(n) | Inf` standing for
  `float('infinity')` (`Walks`);
- finish orders and topological orders (`Traversal`);
- Tarjan's discovery, low and parent tables (`Bridges`);
- trees grown from a root along adjacency records (`Spanning`).

The files are:

| file | module | contents |
|---|---|---|
| adjacency.dfy | Adjacency | arcs, `EdgeAdded`, paths, reachability, cycles |
| walks.dfy | Walks | walks, `IsShortestFrom`, negative cycles, the relaxed-and-witnessed certificate |
| heaps.dfy | Heaps | `heappop` as "remove a least entry" on a sequence |
| traversal.dfy | Traversal | recursive helpers of `dfs`, `detect_cycle`, `topological_sort` |
| dijkstra.dfy | Dijkstra | the loop state of `dijkstra` and its termination measure |
| bellman.dfy | BellmanFord | the relaxation passes and the final check of `bellman_ford` |
| spanning.dfy | Spanning | `prim_mst` as written, its counterexample, and the corrected loop's invariants |
| bridges.dfy | Bridges | the recursive `dfs(vertex, parent)` of `find_bridges` |
| graph.dfy | Graphs | the class `Graph` and the loops of its methods |
| tarjan.dfy | Tarjan | uniqueness of the depth-first tables, and so of the bridges up to order |
| examples.dfy | Examples | the graphs of `example.py` and what the methods return on them |

## Model

| member | source | states |
|---|---|---|
| Graphs.Graph.constructor | graph_algorithms/graph.py:6-8 | a new graph has no keys and keeps the given `directed` flag |
| Graphs.Graph.AddEdge | graph_algorithms/graph.py:10-14 | the new map is `EdgeAdded`: (v, w) is appended to u's list and, when undirected, (u, w) to v's; a new key goes last in the key order; the class invariant (key order, symmetry when undirected) is kept |
| Adjacency.EdgeAddedLists | graph_algorithms/graph.py:10-14 | after `add_edge(u, v, w)` u's list is the old one plus (v, w), v's list gains (u, w) when undirected, and every other list is unchanged |
| Adjacency.EdgeAddedKeyOrder | graph_algorithms/graph.py:12-14 | `add_edge` keeps the key order a duplicate-free listing of exactly the keys |
| Adjacency.EdgeAddedSymmetric | graph_algorithms/graph.py:12-14 | undirected insertion keeps every record paired with its mirror |
| Adjacency.SymmetricIsClosed | graph_algorithms/graph.py:12-14 | in a symmetric map every neighbour is a key |
| Graphs.Graph.Bfs | graph_algorithms/graph.py:16-34 | the result starts at `start`, has no repeats, and holds exactly the vertices reachable from `start` |
| Graphs.BfsVisit | graph_algorithms/graph.py:26-32 | handling a dequeued vertex keeps every seen vertex reachable and listed once, and puts every neighbour of a dequeued vertex in `visited` |
| Graphs.BfsNeighbour | graph_algorithms/graph.py:29-32 | one neighbour: an unvisited one is marked and enqueued, and afterwards it is visited |
| Graphs.Graph.Dfs | graph_algorithms/graph.py:36-52 | the result starts at `start`, has no repeats, and holds exactly the vertices reachable from `start` |
| Traversal.DfsUtil | graph_algorithms/graph.py:43-49 | the call appends `v` and then only vertices reachable from `v`, without repeats; `visited` and `result` keep the same elements; every neighbour of a vertex it appends ends up visited |
| Traversal.DfsChild | graph_algorithms/graph.py:47-49 | one neighbour of the loop: afterwards it is visited, and the call's invariant still holds |
| Graphs.Graph.DetectCycle | graph_algorithms/graph.py:54-79 | on a map whose neighbours are all keys, the result is true exactly when the map has a cycle (a closed path of at least one edge) |
| Traversal.HasCycleFrom | graph_algorithms/graph.py:61-73 | `true` shows a cycle; `false` leaves the recursion stack as it was and extends a finish order in which every neighbour of a finished vertex finished earlier |
| Traversal.BackEdgeIsCycle | graph_algorithms/graph.py:69-70 | an edge back to a vertex on the current path closes a cycle |
| Traversal.OrderedNoCycle | graph_algorithms/graph.py:75-79 | a finish order covering every key rules out a cycle, which justifies the final `return False` |
| Graphs.Graph.TopologicalSort | graph_algorithms/graph.py:81-104 | the call fails with "must be a DAG" exactly when the graph is undirected or has a cycle; otherwise the result lists every key once, and each vertex comes before each of its neighbours |
| Graphs.FinishAll | graph_algorithms/graph.py:100-102 | the loop over the keys leaves a duplicate-free stack of exactly the keys, in finish order |
| Traversal.TopoDfs | graph_algorithms/graph.py:91-98 | the call pushes `v` after everything it newly visits; the stack stays duplicate-free and in finish order |
| Traversal.TopoChild | graph_algorithms/graph.py:94-96 | one neighbour of the loop: afterwards it is on the stack, and the call's invariant still holds |
| Traversal.ReversedFinishIsTopological | graph_algorithms/graph.py:104 | reversing a duplicate-free finish order gives a topological order |
| Traversal.TopologicalNoCycle | graph_algorithms/graph.py:81-86 | a topological order of all keys rules out a cycle, the converse direction of the DAG test |
| Graphs.Graph.Dijkstra | graph_algorithms/graph.py:106-127 | with no negative cycle reachable from `start`, the table has the keys plus `start`; each entry is infinity exactly when the vertex is unreachable, and otherwise is the length of a walk from `start` that no walk undercuts |
| Graphs.Visit | graph_algorithms/graph.py:115-125 | one pass of the loop keeps the table invariant, and lowers the termination measure (the infinite vertices; then the finite distances plus the queue length) |
| Graphs.RelaxFrom | graph_algorithms/graph.py:120-125 | relaxing all arcs of the popped vertex keeps every distance witnessed and settles the vertex |
| Dijkstra.Finish | graph_algorithms/graph.py:114-127 | once the queue is empty the table holds the shortest distances |
| Walks.NonNegativeNoNegativeCycle | graph_algorithms/graph.py:106-109 | non-negative weights leave no negative cycle, so they meet `Dijkstra`'s precondition |
| Graphs.Graph.BellmanFord | graph_algorithms/graph.py:129-149 | the call raises the negative-cycle error exactly when a negative cycle is reachable from `start`; otherwise it returns a relaxed table of the shortest distances over the keys plus `start` |
| Graphs.RelaxPasses | graph_algorithms/graph.py:136-141 | after the \|keys\| - 1 passes, every walk from `start` of at most that many arcs ends at a finite vertex no farther than the walk's length, and every finite entry is a walk's length |
| Graphs.RelaxPass | graph_algorithms/graph.py:138-141 | one pass lowers the table and extends the walk-length bound by one arc |
| Graphs.RelaxKey | graph_algorithms/graph.py:139-141 | the arcs of one key are relaxed against the table at the start of the pass |
| BellmanFord.PassDone | graph_algorithms/graph.py:137-141 | a full pass over a table that bounds walks of k arcs bounds walks of k + 1 arcs |
| Graphs.FindImprovable | graph_algorithms/graph.py:144-147 | the check finds an arc whose relaxation would still lower the table, or shows that no arc can |
| BellmanFord.CheckFails | graph_algorithms/graph.py:146-147 | an arc still improvable after \|keys\| - 1 passes implies a reachable negative cycle |
| BellmanFord.CheckDone | graph_algorithms/graph.py:144-149 | if no arc is improvable, the table is relaxed, no negative cycle is reachable, and the table holds the shortest distances |
| Walks.CertificateIsShortest | graph_algorithms/graph.py:110-111 | a relaxed table that is 0 at `start` and whose finite entries are walk lengths holds the shortest distances |
| Walks.RelaxedNoNegativeCycle | graph_algorithms/graph.py:143-147 | a relaxed table finite at `start` leaves no negative cycle reachable from it |
| Walks.ShortestUnique | graph_algorithms/graph.py:127 | two shortest-distance tables over the same vertices are equal, so both algorithms return the same table |
| Walks.AllWalksBounded | graph_algorithms/graph.py:137 | without a negative cycle, bounding walks of \|keys\| - 1 arcs bounds every walk |
| Heaps.MinPair | graph_algorithms/graph.py:115 | `heappop` returns a least (distance, vertex) entry |
| Heaps.MinTriple | graph_algorithms/graph.py:168 | `heappop` returns a least (weight, u, v) entry, in Python's tuple order |
| Heaps.Without | graph_algorithms/graph.py:115 | popping the entry removes it and keeps every other entry |
| Heaps.WithoutCount | graph_algorithms/graph.py:168 | popping removes exactly one copy of the popped entry |
| Graphs.Graph.PrimMst | graph_algorithms/graph.py:151-176 | a directed graph raises the "undirected only" error; a graph without keys fails as `next(iter(...))` does; otherwise the result is the loop as written on the edge list from the first key, a tree grown from that key along adjacency records, of at most \|keys\| - 1 edges |
| Spanning.EdgeListArcs | graph_algorithms/graph.py:160-164 | the edge list holds an entry (w, u, v) exactly for each record u -> (v, w) of a key u |
| Spanning.PrimStepsTree | graph_algorithms/graph.py:167-176 | every edge the loop reports joins a vertex already in the tree to a new one, along an adjacency record |
| Spanning.PrimStopsShort | graph_algorithms/graph.py:167-176 | on the connected graph 0-1 (5), 1-2 (1) the loop as written returns only (0, 1, 5), leaving the reachable vertex 2 out of the tree |
| Graphs.Graph.PrimMstFixed | graph_algorithms/graph.py:151-176 | the corrected loop returns a tree grown from the first key whose vertices are exactly those reachable from it, and each edge is a least-weight record leaving the tree grown before it |
| Spanning.CheapestStep | graph_algorithms/graph.py:167-171 | in the corrected loop, a least heap entry weighs no more than any record leaving the tree, so joining through it keeps every edge least across its cut |
| Spanning.FixedJoin | graph_algorithms/graph.py:169-171 | in the corrected loop, joining a new endpoint keeps the tree grown along records, and keeps every record out of the tree either inside it or in the heap |
| Spanning.FixedExhausted | graph_algorithms/graph.py:167 | when the heap runs empty the tree contains everything reachable from the root |
| Graphs.Graph.FindBridges | graph_algorithms/graph.py:178-205 | every key is discovered; the discovery, parent and low tables form a depth-first forest over the keys taken in key order, with each low value the least of its candidates; the result lists, once each, exactly the tree edges (p, c) with low[c] > disc[p], each an edge of the map; since such tables are unique (`Tarjan.ForestUnique`), the result is fixed up to its order |
| Graphs.BridgeForest | graph_algorithms/graph.py:201-203 | the loop over the keys discovers every key; each root is the first key not yet discovered, each child is reached through its parent's first arc to an undiscovered vertex, each low value is bounded by every candidate and equal to one of them, and the bridges are listed once each |
| Graphs.DfsRoot | graph_algorithms/graph.py:202-203 | a top-level `dfs(v, None)` on the first undiscovered key extends the forest by the tree rooted at `v` |
| Bridges.BridgeDfs | graph_algorithms/graph.py:187-199 | `dfs(v, parent)` stamps `v` with the next time; every vertex it discovers is reached through the first arc of its parent to an undiscovered vertex, once every vertex discovered after the parent is done; the low value of `v` and of each vertex below it is at most its discovery time, every tree child's low value and every other neighbour's discovery time, and equals one of them; the bridges it appends, once each, are exactly the tree edges below `v` whose child's low value exceeds the parent's discovery time |
| Bridges.BridgeArc | graph_algorithms/graph.py:191-199 | one neighbour: an undiscovered one is explored, low[v] takes its low value and the tree edge is reported when the child cannot reach above `v`; any other neighbour than the parent lowers low[v] to its discovery time; afterwards low[v] is the least of its candidates among the arcs handled so far |
| Tarjan.DfsUnique | graph_algorithms/graph.py:187-203 | two discovery and parent tables over every key that both follow depth-first order from keys taken in key order are equal |
| Tarjan.LowsFrom | graph_algorithms/graph.py:194-199 | over the same discovery and parent tables, two low tables that both equal the least of each vertex's candidates agree |
| Tarjan.ForestUnique | graph_algorithms/graph.py:178-205 | two forests over every key in the same key order have the same discovery, parent and low tables, and their bridge lists are permutations of each other |
| Bridges.ForestBridgesAreEdges | graph_algorithms/graph.py:196-197 | every reported bridge is an edge of the map |
| Examples.SampleGraph | graph_algorithms/example.py:5-13 | the six `add_edge` calls build 0: [1, 2], 1: [2], 2: [0, 3], 3: [3] |
| Examples.SampleExample | graph_algorithms/example.py:15-17 | `bfs(2)` and `dfs(2)` each list the four vertices 0-3 once, starting at 2, and `detect_cycle()` is true |
| Examples.SampleReach | graph_algorithms/example.py:15-16 | exactly the vertices 0-3 are reachable from 2 |
| Examples.WeightedGraph | graph_algorithms/example.py:31-36 | the five `add_edge` calls build the weighted directed graph |
| Examples.WeightedShortest | graph_algorithms/example.py:38-39 | {0: 0, 1: 3, 2: 2, 3: 4} are the shortest distances from 0, and no negative cycle is reachable |
| Examples.WeightedExample | graph_algorithms/example.py:38-39 | `dijkstra(0)` and `bellman_ford(0)` both return {0: 0, 1: 3, 2: 2, 3: 4} |
| Examples.UndirectedGraph | graph_algorithms/example.py:42-46 | the four `add_edge` calls build the undirected graph, with keys in the order 0, 1, 2, 3 |
| Examples.UndirectedPrim | graph_algorithms/example.py:48 | the loop as written returns 0-2, 2-3, 0-1 of total weight 9, while 0-2, 2-1, 2-3 is a spanning tree of weight 6 |
| Examples.UndirectedExample | graph_algorithms/example.py:48 | `prim_mst()` returns [(0, 2, 2), (2, 3, 3), (0, 1, 4)] |
| Examples.UndirectedFixed | graph_algorithms/example.py:48 | the corrected loop returns [(0, 2, 2), (2, 1, 1), (2, 3, 3)], of weight 6: each step's least record out of the tree is unique |
| Examples.FixedTree | graph_algorithms/example.py:48 | the corrected loop's contract allows only the tree 0-2, 2-1, 2-3 on the undirected graph |
| Examples.UndirectedForest | graph_algorithms/example.py:49 | the tables disc = {0: 0, 1: 1, 2: 2, 3: 3}, parent 0 <- 1 <- 2 <- 3 and low = {0: 0, 1: 0, 2: 0, 3: 3} form a depth-first forest with the single bridge (2, 3) |
| Examples.UndirectedBridges | graph_algorithms/example.py:49 | `find_bridges()` returns exactly [(2, 3)] |

## Left out

- The integers are unbounded, as Python's are. `float('infinity')` is the
  `Inf` case of `Dist`, and no floating point is modelled.
- Defaultdict insertion: `self.graph[x]` on a missing key creates an empty
  list. The model reads a missing key as an empty list (`Nbrs`) and does not
  add the key. `bfs` and `dfs` are affected only in that side effect.
- Graphs.Graph.DetectCycle, Graphs.Graph.TopologicalSort,
  Graphs.Graph.FindBridges, Graphs.Graph.Dijkstra and
  Graphs.Graph.BellmanFord require `Closed(adj)`: every neighbour is a key.
  Python's behaviour off that precondition is not modelled. Reading
  `self.graph[x]` for a vertex x that is not a key inserts it. Python raises
  only in these cases:
  - `detect_cycle` raises `RuntimeError` when a call `has_cycle(vertex)`
    from the loop at graph.py:75 inserts a key and then returns `False`, so
    that the loop advances over a dictionary whose size changed. When the
    call returns `True` first the result is `True`. For example, 0->0, 0->1
    gives `True`.
  - `topological_sort` on a directed map raises that `RuntimeError` from
    its own `detect_cycle` unless a cycle is found first. The DAG of
    `example.py` (5->2, 5->0, 4->0, 4->1, 2->3, 3->1) is such a map,
    because 0 and 1 never become keys. So `example.py` stops at graph.py:75
    and never reaches its later calls.
  - `find_bridges` raises `RuntimeError` on every map that is not closed.
    Its loop at graph.py:201 visits every key, and it advances after the
    insertion.
  - `dijkstra` raises `KeyError` at graph.py:123 only when a vertex
    reachable from `start` has a neighbour that is neither a key nor
    `start`.
  - `bellman_ford` reads `distances[v]` only when `distances[u]` is finite.
    So it raises `KeyError` at graph.py:140 or 146 only when a vertex with a
    finite distance has such a neighbour.
  - The precondition also excludes inputs on which Python succeeds. For
    example, `dijkstra(0)` and `bellman_ford(0)` on the directed map 0->1,
    1->0, 5->6 return {0: 0, 1: 1, 5: inf}.
- Graphs.Graph.Dijkstra requires that no negative cycle is reachable from
  `start`:
  - with one reachable, the Python loop keeps lowering distances and never
    ends;
  - negative arcs without such a cycle are allowed, since the loop re-pushes
    improved vertices;
  - non-negative weights meet the precondition
    (`Walks.NonNegativeNoNegativeCycle`).
- Graphs.Graph.Bfs and Graphs.Graph.Dfs state the order of the result only
  as: `start` first, no repeats, exactly the reachable vertices. The exact
  visiting order (queue order, list order of neighbours) is not stated.
- Graphs.Graph.FindBridges returns its discovery, low and parent tables as
  ghost results. Its contract characterises the result by Tarjan's
  condition on those tables, not by the graph-theoretic definition of a
  bridge (an edge whose removal disconnects its endpoints). That
  equivalence is not proved.
- Graphs.Graph.FindBridges: the order of the result list is not stated.
  The contract fixes the set of bridges and lists each once, so two results
  are permutations of each other (`Tarjan.ForestUnique`). It does not say
  in which order the recursion appends them.
- Graphs.Graph.PrimMst does not state that the tree has minimum weight. The
  loop as written does not promise it (see Findings).
- Graphs.Graph.PrimMstFixed: minimum total weight is not proved. The
  contract states Prim's greedy condition, that each edge is a least-weight
  record leaving the tree grown before it. Minimality follows from that
  condition by the cut property of spanning trees, an exchange argument
  over arbitrary spanning trees that this model does not formalise.
- The heap is a sequence with "remove a least entry" (`Heaps`). The binary
  heap layout of `heapq`, and which of several equal least entries it
  returns, are not modelled. Python compares the whole tuple, and so does
  the model.
- `next(iter(self.graph))` on an empty graph raises `StopIteration`, which
  the model returns as the error `NoVertex`. The three `ValueError`s are the
  `Err` results `NotADag`, `NegativeCycle` and `NotUndirected`.
- The default arguments `directed=False` (graph.py:6) and `weight=1`
  (graph.py:10) are not modelled as defaults. `Graphs.Graph.constructor`
  and `Graphs.Graph.AddEdge` take them as explicit parameters, and the
  example constructions pass the values Python would use.
- Python's recursion limit is not modelled, and neither are the `print`
  calls of `example.py`. `bfs` and `dfs` allow any `start`, as the source
  does.

## Findings

| source | as written | input that shows it | evidently intended | confidence | as-written member | corrected member |
|---|---|---|---|---|---|---|
| graph_algorithms/graph.py:167-176 | all edges go on the heap at once, and an edge popped while neither endpoint is in the tree is discarded for good | the connected graph `add_edge(0, 1, 5)`, `add_edge(1, 2, 1)`: the result is [(0, 1, 5)], and 2 is never joined; on the undirected graph of `example.py` the result has weight 9 although a spanning tree of weight 6 exists | a minimum-weight spanning tree of the vertices reachable from the first key, grown only through least-weight edges out of the tree; the corrected loop is proved to span them and to meet the greedy condition, and on `example.py`'s graph to return the weight-6 tree (`Examples.UndirectedFixed`), but minimality in general is not proved (see Left out) | not executed | Spanning.PrimStopsShort | Graphs.Graph.PrimMstFixed |
