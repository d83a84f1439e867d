/**
 * The `Graph` class of graph_algorithms/graph.py: a `directed` flag fixed
 * at construction and an adjacency map from vertex to an ordered list of
 * (neighbour, weight) records, whose keys Python iterates in insertion
 * order (`order`). Each query is a method whose contract states what it
 * computes in terms of paths, walks and trees of that map.
 */
module Graphs {
  import opened Adjacency
  import opened Walks
  import opened Heaps
  import opened Traversal
  import opened Dijkstra
  import opened BellmanFord
  import opened Spanning
  import opened Bridges

  /**
   * The `ValueError`s the class raises, and `NoVertex` for the
   * `StopIteration` of `next(iter(self.graph))` on an empty graph.
   */
  datatype GraphError = NotADag | NegativeCycle | NotUndirected | NoVertex

  datatype Result<T> = Ok(value: T) | Err(error: GraphError)

  class Graph {
    const directed: bool
    var adj: AdjMap
    var order: seq<int>

    /** `order` lists the keys in insertion order, and an undirected graph holds every record with its mirror. */
    ghost predicate Valid()
      reads this
    {
      KeyOrder(order, adj) && (!directed ==> Symmetric(adj))
    }

    /** `Graph(directed)`: an empty map. */
    constructor(directed: bool)
      ensures Valid()
      ensures this.directed == directed && adj == map[] && order == []
    {
      this.directed := directed;
      adj := map[];
      order := [];
    }

    /** `add_edge(u, v, weight)`: appends (v, w) to u's list and, when undirected, (u, w) to v's. */
    method AddEdge(u: int, v: int, w: int)
      requires Valid()
      modifies this
      ensures Valid()
      ensures adj == EdgeAdded(old(adj), u, v, w, directed)
      ensures order == KeysAdded(old(order), u, v, directed)
    {
      EdgeAddedKeyOrder(order, adj, u, v, w, directed);
      if !directed {
        EdgeAddedSymmetric(adj, u, v, w);
      }
      adj := WithArc(adj, u, Arc(v, w));
      order := WithKey(order, u);
      if !directed {
        adj := WithArc(adj, v, Arc(u, w));
        order := WithKey(order, v);
      }
    }

    /**
     * `bfs(start)`: vertices in the order they leave the queue. It starts
     * at `start`, repeats nothing, and holds exactly the vertices reachable
     * from `start`.
     */
    method Bfs(start: int) returns (r: seq<int>)
      ensures |r| > 0 && r[0] == start && Distinct(r)
      ensures forall x :: x in r <==> Reachable(adj, start, x)
    {
      var g := adj;
      var visited := {start};
      r := [];
      var queue := [start];
      ReachableRefl(g, start);
      while queue != []
        invariant BfsSeen(g, start, visited, r + queue)
        invariant forall k, a :: 0 <= k < |r| && a in Nbrs(g, r[k]) ==> a.dst in visited
        decreases Vertices(g) + {start} - visited, |queue|
      {
        var vertex := queue[0];
        Rotate(r, queue);
        queue := queue[1..];
        r := r + [vertex];
        visited, queue := BfsVisit(g, start, vertex, visited, r, queue);
      }
      assert r + queue == r;
      forall x | Reachable(g, start, x) ensures x in r {
        ClosedSetContainsReachable(g, visited, start, x);
      }
    }

    /**
     * `dfs(start)`: vertices in pre-order. It starts at `start`, repeats
     * nothing, and holds exactly the vertices reachable from `start`.
     */
    method Dfs(start: int) returns (r: seq<int>)
      ensures |r| > 0 && r[0] == start && Distinct(r)
      ensures forall x :: x in r <==> Reachable(adj, start, x)
    {
      var visited;
      visited, r := DfsUtil(adj, start, {}, []);
      forall x | Reachable(adj, start, x) ensures x in r {
        forall y, a | y in visited && a in Nbrs(adj, y) ensures a.dst in visited {
          var k :| 0 <= k < |r| && r[k] == y;
        }
        ClosedSetContainsReachable(adj, visited, start, x);
      }
    }

    /**
     * `detect_cycle()`: runs `has_cycle` from every unvisited key in key
     * order. The answer is true exactly when the map has a cycle (a closed
     * path of at least one edge; on an undirected map every edge is one).
     */
    method DetectCycle() returns (found: bool)
      requires Valid() && Closed(adj)
      ensures found <==> HasCycle(adj)
    {
      var g := adj;
      var visited: set<int> := {};
      ghost var fin: seq<int> := [];
      var i := 0;
      while i < |order|
        invariant 0 <= i <= |order|
        invariant forall x :: x in visited <==> x in fin
        invariant FinishOrdered(g, fin)
        invariant forall j :: 0 <= j < i ==> order[j] in visited
      {
        var v := order[i];
        if v !in visited {
          var f, recStack;
          assert [] + [v] == [v];
          f, visited, recStack, fin := HasCycleFrom(g, v, [], visited, {}, fin);
          if f {
            return true;
          }
        }
        i := i + 1;
      }
      OrderedNoCycle(g, fin);
      return false;
    }

    /**
     * `topological_sort()`: fails on an undirected map or one with a cycle;
     * otherwise lists every key once, each before all of its neighbours.
     */
    method TopologicalSort() returns (r: Result<seq<int>>)
      requires Valid() && Closed(adj)
      ensures r.Err? <==> !directed || HasCycle(adj)
      ensures r.Err? ==> r.error == NotADag
      ensures r.Ok? ==> Distinct(r.value) && (forall x :: x in r.value <==> x in adj) && Topological(adj, r.value)
    {
      if !directed {
        return Err(NotADag);
      }
      var cyclic := DetectCycle();
      if cyclic {
        return Err(NotADag);
      }
      var g := adj;
      var stack := FinishAll(g, order);
      ReversedFinishIsTopological(g, stack);
      var rs := Reverse(stack);
      forall x ensures x in rs <==> x in stack {
        if x in stack {
          var k :| 0 <= k < |stack| && stack[k] == x;
          assert rs[|stack| - 1 - k] == x;
        }
      }
      return Ok(rs);
    }

    /**
     * `dijkstra(start)`: without a negative cycle reachable from `start`
     * (the condition under which its loop ends), a table over the keys and
     * `start` holding the shortest distance from `start` to each, infinity
     * exactly for the unreachable ones.
     */
    method Dijkstra(start: int) returns (dist: map<int, Dist>)
      requires Valid() && Closed(adj) && !NegativeCycleFrom(adj, start)
      ensures dist.Keys == adj.Keys + {start}
      ensures IsShortestFrom(adj, start, dist)
    {
      var g := adj;
      dist := (map x | x in g :: Inf)[start := Fin(0)];
      var pq: seq<Pair> := [(0, start)];
      ghost var ks := if start in g then order else order + [start];
      ghost var m := MapFloor(g, order);
      MapFloorIsFloor(g, order);
      ghost var B := Depth(m, |g.Keys + {start}|);
      Bottom(g, start, m);
      Start(g, start, order, dist, ks, B);
      while pq != []
        invariant Table(g, start, dist, ks, B) && Queued(dist, pq) && Pending(g, dist, pq, {})
        invariant dist.Keys == g.Keys + {start}
        invariant forall i :: 0 <= i < |ks| ==> ks[i] in dist
        decreases Unreached(dist), Pot(dist, ks, B) + |pq|
      {
        dist, pq := Visit(g, start, dist, pq, ks, B);
      }
      Finish(g, start, dist, ks, B);
    }

    /**
     * `bellman_ford(start)`: |keys| - 1 relaxation passes over every arc in
     * key and list order, then one checking pass. It fails exactly when a
     * negative cycle is reachable from `start`; otherwise no arc can be
     * relaxed and the table holds the shortest distances from `start`.
     */
    method BellmanFord(start: int) returns (r: Result<map<int, Dist>>)
      requires Valid() && Closed(adj)
      ensures r.Err? <==> NegativeCycleFrom(adj, start)
      ensures r.Err? ==> r.error == NegativeCycle
      ensures r.Ok? ==>
        r.value.Keys == adj.Keys + {start} && Relaxed(adj, r.value) && IsShortestFrom(adj, start, r.value)
    {
      var g := adj;
      var dist, k := RelaxPasses(g, order, start);
      var improvable, u, a := FindImprovable(g, order, dist);
      if improvable {
        CheckFails(g, start, dist, k, u, a);
        return Err(NegativeCycle);
      }
      CheckDone(g, start, dist, order);
      return Ok(dist);
    }

    /**
     * `prim_mst()` as written: every (weight, u, v) record in one heap from
     * the start, the first key as root, and a popped edge kept only when
     * exactly one end is in the tree. It returns a tree grown from the root
     * along records of the map, with fewer edges than there are keys.
     */
    method PrimMst() returns (r: Result<seq<MstEdge>>)
      requires Valid()
      ensures directed ==> r == Err(NotUndirected)
      ensures !directed && order == [] ==> r == Err(NoVertex)
      ensures !directed && order != [] ==> r == Ok(PrimSteps(EdgeList(adj, order), {order[0]}, [], |adj.Keys|))
      ensures r.Ok? ==> order != [] && TreeOf(adj, order[0], r.value) && |r.value| <= |adj.Keys| - 1
    {
      if directed {
        return Err(NotUndirected);
      }
      if order == [] {
        return Err(NoVertex);
      }
      var g := adj;
      var root := order[0];
      var n := |order|;
      KeyOrderCard(order, g);
      var mst: seq<MstEdge> := [];
      var visited := {root};
      var edges := EdgeList(g, order);
      ghost var all := edges;
      while edges != [] && |visited| < n
        invariant PrimSteps(edges, visited, mst, n) == PrimSteps(all, {root}, [], n)
        decreases |edges|
      {
        var k := MinTriple(edges);
        var w, u, v := edges[k].0, edges[k].1, edges[k].2;
        edges := Without(edges, k);
        if u in visited && v !in visited {
          visited := visited + {v};
          mst := mst + [(u, v, w)];
        } else if v in visited && u !in visited {
          visited := visited + {u};
          mst := mst + [(v, u, w)];
        }
      }
      EdgeListArcs(g, order);
      PrimStepsTree(g, root, all, {root}, [], n);
      SymmetricIsClosed(g);
      TreeInKeys(g, root, mst);
      TreeBound(root, mst, g.Keys);
      return Ok(mst);
    }

    /**
     * `prim_mst()` with the loop corrected: the heap starts with the records
     * out of the root and gains those out of each vertex as it joins, so
     * that a popped record is dropped only when its far end is already in
     * the tree. The tree then spans exactly the vertices reachable from the
     * first key, and each edge is a least-weight record leaving the tree
     * grown before it.
     */
    method PrimMstFixed() returns (r: Result<seq<MstEdge>>)
      requires Valid()
      ensures directed ==> r == Err(NotUndirected)
      ensures !directed && order == [] ==> r == Err(NoVertex)
      ensures !directed && order != [] ==> r.Ok?
      ensures r.Ok? ==> order != [] && TreeOf(adj, order[0], r.value)
      ensures r.Ok? ==> order != [] && forall x :: x in Tree(order[0], r.value) <==> Reachable(adj, order[0], x)
      ensures r.Ok? ==> order != [] && Cheapest(adj, order[0], r.value)
    {
      if directed {
        return Err(NotUndirected);
      }
      if order == [] {
        return Err(NoVertex);
      }
      var g := adj;
      var root := order[0];
      KeyOrderCard(order, g);
      SymmetricIsClosed(g);
      var mst: seq<MstEdge> := [];
      var visited := {root};
      var heap := ArcsOf(root, Nbrs(g, root));
      FixedStart(g, root);
      ReachableRefl(g, root);
      while heap != [] && |visited| < |order|
        invariant Grown(g, root, visited, mst) && HeapOut(g, visited, heap) && Frontier(g, visited, heap)
        invariant visited <= g.Keys
        invariant forall x :: x in visited ==> Reachable(g, root, x)
        invariant Cheapest(g, root, mst)
        decreases |g.Keys - visited|, |heap|
      {
        var k := MinTriple(heap);
        var w, u, v := heap[k].0, heap[k].1, heap[k].2;
        if v in visited {
          FixedSkip(g, visited, heap, k);
          heap := Without(heap, k);
        } else {
          FixedJoin(g, root, visited, mst, heap, k);
          CheapestStep(g, root, visited, mst, heap);
          assert IsEdge(g, u, v);
          ReachableStep(g, root, u, v);
          heap := Without(heap, k) + ArcsOf(v, Nbrs(g, v));
          visited := visited + {v};
          mst := mst + [(u, v, w)];
        }
      }
      forall x | Reachable(g, root, x) ensures x in visited {
        if heap == [] {
          FixedExhausted(g, root, visited, x);
        } else {
          FixedFull(g, root, visited, x);
        }
      }
      return Ok(mst);
    }

    /**
     * `find_bridges()`: `dfs(v, None)` from every key not yet discovered, in
     * key order. Every key ends up discovered, and the list holds exactly
     * the DFS tree edges (p, c) with low[c] > disc[p], each of them a record
     * of the map. The discovery, low and parent tables are returned as
     * ghost results.
     */
    method FindBridges() returns (bridges: seq<(int, int)>, ghost disc: map<int, int>, ghost low: map<int, int>,
                                  ghost par: map<int, Option<int>>)
      requires Valid() && Closed(adj)
      ensures disc.Keys == adj.Keys
      ensures Forest(adj, order, disc, low, par, bridges, |adj.Keys|)
      ensures forall b :: b in bridges <==> IsBridge(b, adj.Keys, disc, low, par)
      ensures Unrepeated(bridges)
      ensures forall b :: b in bridges ==> IsEdge(adj, b.0, b.1)
    {
      bridges, disc, low, par := BridgeForest(adj, order);
      ForestBridgesAreEdges(adj, order, disc, low, par, bridges, |adj.Keys|);
    }
  }

  /**
   * The loop `for vertex in self.graph` of `topological_sort`: a
   * `dfs_util(vertex)` from every key not yet visited. On an acyclic map the
   * stack ends up holding every key once, in a finish order.
   */
  method FinishAll(g: AdjMap, order: seq<int>) returns (stack: seq<int>)
    requires KeyOrder(order, g) && Closed(g) && !HasCycle(g)
    ensures FinishOrdered(g, stack) && Distinct(stack)
    ensures forall x :: x in stack <==> x in g
  {
    ClosedVertices(g);
    var visited: set<int> := {};
    stack := [];
    var i := 0;
    while i < |order|
      invariant 0 <= i <= |order|
      invariant forall x :: x in visited <==> x in stack
      invariant FinishOrdered(g, stack) && Distinct(stack)
      invariant forall j :: 0 <= j < i ==> order[j] in visited
      invariant visited <= g.Keys
    {
      var v := order[i];
      assert v in order;
      if v !in visited {
        assert [] + [v] == [v];
        visited, stack := TopoDfs(g, v, [], visited, stack);
      }
      i := i + 1;
    }
    forall x | x in g ensures x in stack {
      assert order[IndexOf(order, x)] in visited;
    }
  }

  /**
   * The loop `for vertex in self.graph` of `find_bridges`: a top-level
   * `dfs(vertex, None)` from every key not yet discovered. Every key ends up
   * discovered and the forest tables hold.
   */
  method BridgeForest(g: AdjMap, order: seq<int>)
    returns (bridges: seq<(int, int)>, ghost disc: map<int, int>, ghost low: map<int, int>,
             ghost par: map<int, Option<int>>)
    requires KeyOrder(order, g) && Closed(g)
    ensures disc.Keys == g.Keys
    ensures Forest(g, order, disc, low, par, bridges, |g.Keys|)
  {
    ClosedVertices(g);
    var discovery: map<int, int> := map[];
    var lows: map<int, int> := map[];
    var time := 0;
    bridges := [];
    par := map[];
    ForestStart(g, order);
    var i := 0;
    while i < |order|
      invariant 0 <= i <= |order|
      invariant Forest(g, order, discovery, lows, par, bridges, time)
      invariant discovery.Keys <= g.Keys
      invariant forall j {:trigger Seen(discovery, order[j])} :: 0 <= j < i ==> Seen(discovery, order[j])
    {
      assert order[i] in order;
      discovery, lows, time, bridges, par := ForestStep(g, order, i, discovery, lows, time, bridges, par);
      i := i + 1;
    }
    Covered(g, order, discovery);
    disc, low := discovery, lows;
    assert |disc| == |g.Keys|;
}

  /** Discovery tables that cover every key in key order and hold only keys are over exactly the keys. */
  lemma Covered(g: AdjMap, order: seq<int>, disc: map<int, int>)
    requires KeyOrder(order, g) && disc.Keys <= g.Keys
    requires forall j {:trigger Seen(disc, order[j])} :: 0 <= j < |order| ==> Seen(disc, order[j])
    ensures disc.Keys == g.Keys
  {
    forall x | x in g ensures x in disc {
      var j := IndexOf(order, x);
      assert Seen(disc, order[j]);
    }
  }

  /** One round of the loop of `find_bridges`: order[i] is discovered afterwards, and so is every earlier key. */
  method ForestStep(g: AdjMap, order: seq<int>, i: int, disc: map<int, int>, low: map<int, int>, time: int,
                    bridges: seq<(int, int)>, ghost par: map<int, Option<int>>)
    returns (disc': map<int, int>, low': map<int, int>, time': int, bridges': seq<(int, int)>,
             ghost par': map<int, Option<int>>)
    requires Closed(g) && KeyOrder(order, g) && 0 <= i < |order|
    requires Forest(g, order, disc, low, par, bridges, time) && disc.Keys <= g.Keys
    requires forall j {:trigger Seen(disc, order[j])} :: 0 <= j < i ==> Seen(disc, order[j])
    ensures Forest(g, order, disc', low', par', bridges', time') && disc'.Keys <= g.Keys
    ensures forall j {:trigger Seen(disc', order[j])} :: 0 <= j < i + 1 ==> Seen(disc', order[j])
  {
    var v := order[i];
    disc', low', time', bridges', par' := disc, low, time, bridges, par;
    assert v in order;
    if v !in disc {
      forall j, k | 0 <= j < k < |order| && order[k] == v ensures order[j] in disc {
        assert k == i;
        assert Seen(disc, order[j]);
      }
      disc', low', time', bridges', par' := DfsRoot(g, order, v, disc, low, time, bridges, par);
    }
    forall j | 0 <= j < i + 1 ensures Seen(disc', order[j]) {
      if j < i {
        assert Seen(disc, order[j]);
      }
    }
  }

  /**
   * The top-level call `dfs(v, None)` of `find_bridges` on an undiscovered
   * key: it discovers v and keeps the forest tables consistent.
   */
  method DfsRoot(g: AdjMap, ghost order: seq<int>, v: int, disc: map<int, int>, low: map<int, int>, time: int,
                 bridges: seq<(int, int)>, ghost par: map<int, Option<int>>)
    returns (disc': map<int, int>, low': map<int, int>, time': int, bridges': seq<(int, int)>,
             ghost par': map<int, Option<int>>)
    requires Closed(g) && v in g && v !in disc && disc.Keys <= g.Keys
    requires Forest(g, order, disc, low, par, bridges, time)
    requires forall j, k :: 0 <= j < k < |order| && order[k] == v ==> order[j] in disc
    ensures Forest(g, order, disc', low', par', bridges', time')
    ensures disc.Keys + {v} <= disc'.Keys <= g.Keys
  {
    disc', low', time', bridges', par' := BridgeDfs(g, v, None, disc, low, time, bridges, par);
    ForestRoot(g, order, v, time, disc, low, par, bridges, time', disc', low', par', bridges');
    ClosedVertices(g);
    assert Tables(v, None, time, disc, low, par, disc', low', par');
    assert Agree(disc, disc');
    assert forall x :: x in disc ==> x in disc';
  }

  /**
   * One round of the `while pq` loop of `dijkstra`: pop a least entry
   * (d, v); skip it when d exceeds dist[v], otherwise relax the arcs of v.
   * The table and queue invariants hold again, and the loop measure (the
   * unreached vertices, then the shifted distances plus the queue length)
   * drops.
   */
  method Visit(g: AdjMap, start: int, dist: map<int, Dist>, pq: seq<Pair>, ghost ks: seq<int>, ghost B: int)
    returns (dist': map<int, Dist>, pq': seq<Pair>)
    requires Closed(g) && !NegativeCycleFrom(g, start) && WalksAbove(g, start, B)
    requires pq != []
    requires Table(g, start, dist, ks, B) && Queued(dist, pq) && Pending(g, dist, pq, {})
    requires dist.Keys == g.Keys + {start}
    requires forall i :: 0 <= i < |ks| ==> ks[i] in dist
    ensures Table(g, start, dist', ks, B) && Queued(dist', pq') && Pending(g, dist', pq', {})
    ensures dist'.Keys == g.Keys + {start}
    ensures forall i :: 0 <= i < |ks| ==> ks[i] in dist'
    ensures Unreached(dist') < Unreached(dist) ||
      (Unreached(dist') == Unreached(dist) && Pot(dist', ks, B) + |pq'| < Pot(dist, ks, B) + |pq|)
  {
    var k := MinPair(pq);
    var d, v := pq[k].0, pq[k].1;
    Pop(g, dist, pq, k);
    pq' := Without(pq, k);
    dist' := dist;
    if dist[v].Fin? && d > dist[v].n {
      return;
    }
    dist', pq' := RelaxFrom(g, start, dist, pq', ks, B, v, d);
    Settle(g, start, dist', pq', ks, B, v, d);
  }

  /**
   * The `for neighbor, weight` loop of `dijkstra` on the vertex `v` popped
   * at its distance d: each arc that improves its target lowers the
   * target's distance and pushes the new entry. The loop lowers the measure
   * of the outer loop, or leaves it as it was.
   */
  method RelaxFrom(g: AdjMap, start: int, dist: map<int, Dist>, pq: seq<Pair>, ghost ks: seq<int>, ghost B: int,
                   v: int, d: int)
    returns (dist': map<int, Dist>, pq': seq<Pair>)
    requires Closed(g) && !NegativeCycleFrom(g, start) && WalksAbove(g, start, B)
    requires Relaxing(g, start, dist, pq, ks, B, v, d, 0)
    requires dist.Keys == g.Keys + {start}
    requires forall i :: 0 <= i < |ks| ==> ks[i] in dist
    ensures Relaxing(g, start, dist', pq', ks, B, v, d, |Nbrs(g, v)|)
    ensures dist'.Keys == dist.Keys
    ensures forall i :: 0 <= i < |ks| ==> ks[i] in dist'
    ensures Unreached(dist') <= Unreached(dist)
    ensures Unreached(dist') == Unreached(dist) ==> Pot(dist', ks, B) + |pq'| <= Pot(dist, ks, B) + |pq|
  {
    dist', pq' := dist, pq;
    var nbrs := Nbrs(g, v);
    var i := 0;
    while i < |nbrs|
      invariant 0 <= i <= |nbrs|
      invariant Relaxing(g, start, dist', pq', ks, B, v, d, i)
      invariant dist'.Keys == dist.Keys
      invariant forall i :: 0 <= i < |ks| ==> ks[i] in dist'
      invariant Unreached(dist') <= Unreached(dist)
      invariant Unreached(dist') == Unreached(dist) ==> Pot(dist', ks, B) + |pq'| <= Pot(dist, ks, B) + |pq|
    {
      var a := nbrs[i];
      assert a in g[v];
      var distance := d + a.w;
      if Below(distance, dist'[a.dst]) {
        RelaxImproves(g, start, dist', pq', ks, B, v, d, i, a, a.dst, distance);
        RelaxImprovesMeasure(g, start, dist', pq', ks, B, v, d, i, a, a.dst, distance);
        dist' := dist'[a.dst := Fin(distance)];
        pq' := pq' + [(distance, a.dst)];
      } else {
        RelaxKeeps(g, start, dist', pq', ks, B, v, d, i, a);
      }
      i := i + 1;
    }
  }

  /**
   * The `for _ in range(len(self.graph) - 1)` loop of `bellman_ford`: from
   * the table {key: inf, ..., start: 0}, k = |keys| - 1 passes (none for an
   * empty graph), after which every walk from `start` of at most k arcs is
   * bounded by the table.
   */
  method RelaxPasses(g: AdjMap, order: seq<int>, start: int) returns (dist: map<int, Dist>, k: nat)
    requires KeyOrder(order, g) && Closed(g)
    ensures k == if |g.Keys| > 0 then |g.Keys| - 1 else 0
    ensures dist.Keys == g.Keys + {start}
    ensures Witnessed(g, start, dist) && dist[start].Fin? && dist[start].n <= 0
    ensures BoundedBy(g, start, dist, k)
  {
    dist := (map x | x in g :: Inf)[start := Fin(0)];
    Initial(g, start, dist);
    KeyOrderCard(order, g);
    k := 0;
    while k < |order| - 1
      invariant 0 <= k <= if |order| > 0 then |order| - 1 else 0
      invariant dist.Keys == g.Keys + {start}
      invariant Witnessed(g, start, dist) && dist[start].Fin? && dist[start].n <= 0
      invariant BoundedBy(g, start, dist, k)
    {
      dist := RelaxPass(g, start, order, dist, k);
      k := k + 1;
    }
  }

  /**
   * One pass of `for u in self.graph: for v, weight in self.graph[u]` in
   * `bellman_ford`: every arc that improves its target lowers it. Over a
   * table bounding the walks from `start` of at most k arcs, the pass
   * leaves one bounding those of at most k + 1.
   */
  method RelaxPass(g: AdjMap, start: int, order: seq<int>, dist: map<int, Dist>, ghost k: nat)
    returns (dist': map<int, Dist>)
    requires KeyOrder(order, g) && Closed(g) && dist.Keys == g.Keys + {start}
    requires Witnessed(g, start, dist) && dist[start].Fin? && dist[start].n <= 0
    requires BoundedBy(g, start, dist, k)
    ensures dist'.Keys == dist.Keys && Lower(dist, dist')
    ensures Witnessed(g, start, dist') && dist'[start].Fin? && dist'[start].n <= 0
    ensures BoundedBy(g, start, dist', k + 1)
  {
    dist' := dist;
    PassStart(g, start, dist, order);
    var i := 0;
    while i < |order|
      invariant 0 <= i <= |order|
      invariant Pass(g, start, dist, dist', order, i, 0)
    {
      dist' := RelaxKey(g, start, order, dist, dist', i);
      i := i + 1;
    }
    PassDone(g, start, dist, dist', order, k);
  }

  /** The arcs of the key order[i], in list order, within a pass that began at d0. */
  method RelaxKey(g: AdjMap, start: int, order: seq<int>, ghost d0: map<int, Dist>, dist: map<int, Dist>, i: int)
    returns (dist': map<int, Dist>)
    requires KeyOrder(order, g) && Closed(g) && d0.Keys == g.Keys + {start}
    requires 0 <= i < |order| && Pass(g, start, d0, dist, order, i, 0)
    ensures Pass(g, start, d0, dist', order, i + 1, 0)
  {
    dist' := dist;
    var u := order[i];
    var nbrs := Nbrs(g, u);
    var j := 0;
    while j < |nbrs|
      invariant 0 <= j <= |nbrs|
      invariant Pass(g, start, d0, dist', order, i, j)
    {
      var a := nbrs[j];
      PassStep(g, start, d0, dist', order, i, j, u, a);
      if Improves(dist', u, a) {
        dist' := dist'[a.dst := Fin(dist'[u].n + a.w)];
      }
      j := j + 1;
    }
    PassNext(g, start, d0, dist', order, i);
  }

  /**
   * The checking pass of `bellman_ford`: the first arc, in key and list
   * order, that could still improve its target, or none.
   */
  method FindImprovable(g: AdjMap, order: seq<int>, dist: map<int, Dist>)
    returns (found: bool, u: int, a: Arc)
    requires KeyOrder(order, g) && Closed(g) && forall x :: x in g ==> x in dist
    ensures found ==> u in dist && a in Nbrs(g, u) && a.dst in dist && Improves(dist, u, a)
    ensures !found ==> Checked(g, dist, order, |order|, 0)
  {
    found, u, a := false, 0, Arc(0, 0);
    var i := 0;
    while i < |order|
      invariant 0 <= i <= |order|
      invariant Checked(g, dist, order, i, 0)
    {
      var nbrs := g[order[i]];
      var j := 0;
      while j < |nbrs|
        invariant 0 <= j <= |nbrs|
        invariant Checked(g, dist, order, i, j)
      {
        assert nbrs[j] in g[order[i]];
        if Improves(dist, order[i], nbrs[j]) {
          return true, order[i], nbrs[j];
        }
        j := j + 1;
      }
      CheckNext(g, dist, order, i);
      i := i + 1;
    }
  }

  /**
   * The vertices BFS has seen (dequeued, then queued) in order: from
   * `start`, without repeats, reachable, and exactly the visited set.
   */
  ghost predicate BfsSeen(g: AdjMap, start: int, visited: set<int>, seen: seq<int>)
  {
    Distinct(seen) && |seen| > 0 && seen[0] == start &&
    (forall x :: x in visited <==> x in seen) &&
    visited <= Vertices(g) + {start} &&
    (forall x :: x in visited ==> Reachable(g, start, x))
  }

  /** Queueing an unvisited neighbour of a seen vertex keeps the seen vertices and shrinks the unseen ones. */
  lemma BfsEnqueue(g: AdjMap, start: int, visited: set<int>, seen: seq<int>, vertex: int, i: int)
    requires BfsSeen(g, start, visited, seen) && vertex in visited
    requires 0 <= i < |Nbrs(g, vertex)| && Nbrs(g, vertex)[i].dst !in visited
    ensures var n := Nbrs(g, vertex)[i].dst;
      BfsSeen(g, start, visited + {n}, seen + [n]) &&
      Vertices(g) + {start} - (visited + {n}) < Vertices(g) + {start} - visited
  {
    var n := Nbrs(g, vertex)[i].dst;
    ArcInVertices(g, vertex, i);
    assert Nbrs(g, vertex)[i] in Nbrs(g, vertex);
    ReachableStep(g, start, vertex, n);
    assert n in Vertices(g) + {start} - visited;
  }

  /**
   * The `for neighbor` loop of `bfs` on the vertex just dequeued (the last
   * of `r`): every unvisited neighbour is marked and queued, in list order.
   */
  method BfsVisit(g: AdjMap, start: int, vertex: int, visited: set<int>, r: seq<int>, queue: seq<int>)
    returns (visited': set<int>, queue': seq<int>)
    requires BfsSeen(g, start, visited, r + queue) && |r| > 0 && r[|r| - 1] == vertex
    requires forall k, a :: 0 <= k < |r| - 1 && a in Nbrs(g, r[k]) ==> a.dst in visited
    ensures BfsSeen(g, start, visited', r + queue')
    ensures forall k, a :: 0 <= k < |r| && a in Nbrs(g, r[k]) ==> a.dst in visited'
    ensures visited <= visited' && (visited' == visited ==> queue' == queue)
  {
    visited', queue' := visited, queue;
    var nbrs := Nbrs(g, vertex);
    var i := 0;
    while i < |nbrs|
      invariant 0 <= i <= |nbrs|
      invariant BfsSeen(g, start, visited', r + queue')
      invariant visited <= visited' && (visited' == visited ==> queue' == queue)
      invariant forall j :: 0 <= j < i ==> nbrs[j].dst in visited'
    {
      ghost var vis := visited';
      visited', queue' := BfsNeighbour(g, start, vertex, visited, r, queue, i, visited', queue');
      forall j | 0 <= j < i + 1 ensures nbrs[j].dst in visited' {
        if j < i {
          assert nbrs[j].dst in vis;
        }
      }
      i := i + 1;
    }
    forall k, a | 0 <= k < |r| && a in Nbrs(g, r[k]) ensures a.dst in visited' {
      if k == |r| - 1 {
        var j :| 0 <= j < |nbrs| && nbrs[j] == a;
      }
    }
  }

  /** One round of the `for neighbor` loop of `bfs`: neighbour i ends up visited, queued when it was not. */
  method BfsNeighbour(g: AdjMap, start: int, vertex: int, ghost visited: set<int>, r: seq<int>, ghost queue: seq<int>,
                      i: int, vis: set<int>, q: seq<int>)
    returns (vis': set<int>, q': seq<int>)
    requires BfsSeen(g, start, vis, r + q) && vertex in vis && 0 <= i < |Nbrs(g, vertex)|
    requires visited <= vis && (vis == visited ==> q == queue)
    ensures BfsSeen(g, start, vis', r + q') && Nbrs(g, vertex)[i].dst in vis'
    ensures vis <= vis' && visited <= vis' && (vis' == visited ==> q' == queue)
  {
    vis', q' := vis, q;
    var n := Nbrs(g, vertex)[i].dst;
    if n !in vis {
      BfsEnqueue(g, start, vis, r + q, vertex, i);
      Assoc(r, q, n);
      vis' := vis + {n};
      q' := q + [n];
      assert n in vis' && n !in visited;
    }
  }

  lemma Assoc(r: seq<int>, q: seq<int>, n: int)
    ensures (r + q) + [n] == r + (q + [n])
  {
  }

  lemma Rotate(r: seq<int>, q: seq<int>)
    requires q != []
    ensures r + q == (r + [q[0]]) + q[1..]
  {
    assert q == [q[0]] + q[1..];
  }
}
