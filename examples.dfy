/**
 * The graphs that graph_algorithms/example.py builds, and what the model
 * says about them: the directed graph has a cycle and reaches every vertex
 * from 2, the weighted graph has the shortest distances
 * {0: 0, 1: 3, 2: 2, 3: 4} from 0 (which `Dijkstra` and `BellmanFord`
 * therefore return), and on the undirected graph `prim_mst` as written
 * returns a spanning tree of weight 9 although one of weight 6 exists.
 */
module Examples {
  import opened Adjacency
  import opened Walks
  import opened Heaps
  import opened Spanning
  import opened Graphs
  import opened Bridges
  import Tarjan

  // ---------------------------------------------------------------------
  // g = Graph(directed=True) with 0->1, 0->2, 1->2, 2->0, 2->3, 3->3
  // ---------------------------------------------------------------------

  function Sample(): AdjMap
  {
    map[0 := [Arc(1, 1), Arc(2, 1)], 1 := [Arc(2, 1)], 2 := [Arc(0, 1), Arc(3, 1)], 3 := [Arc(3, 1)]]
  }

  /** Directed `add_edge(u, v, w)` on a map whose list for u followed by (v, w) is `l`. */
  lemma Appended(adj: AdjMap, u: int, v: int, w: int, l: seq<Arc>)
    requires Nbrs(adj, u) + [Arc(v, w)] == l
    ensures EdgeAdded(adj, u, v, w, true) == adj[u := l]
  {
  }

  /** The six `add_edge` calls on `Graph(directed=True)`. */
  method SampleGraph() returns (g: Graph)
    ensures g.Valid() && g.directed && g.adj == Sample() && g.order == [0, 1, 2, 3]
  {
    g := new Graph(true);
    SampleFirst();
    g.AddEdge(0, 1, 1);
    SampleSecond();
    g.AddEdge(0, 2, 1);
    SampleThird();
    g.AddEdge(1, 2, 1);
    SampleFourth();
    g.AddEdge(2, 0, 1);
    SampleFifth();
    g.AddEdge(2, 3, 1);
    SampleSixth();
    g.AddEdge(3, 3, 1);
  }

  lemma SampleFirst()
    ensures EdgeAdded(map[], 0, 1, 1, true)
         == map[0 := [Arc(1, 1)]]
    ensures KeysAdded([], 0, 1, true) == [0]
  {
    Appended(map[], 0, 1, 1, [Arc(1, 1)]);
  }

  lemma SampleSecond()
    ensures EdgeAdded(map[0 := [Arc(1, 1)]], 0, 2, 1, true)
         == map[0 := [Arc(1, 1), Arc(2, 1)]]
    ensures KeysAdded([0], 0, 2, true) == [0]
  {
    Appended(map[0 := [Arc(1, 1)]], 0, 2, 1, [Arc(1, 1), Arc(2, 1)]);
  }

  lemma SampleThird()
    ensures EdgeAdded(map[0 := [Arc(1, 1), Arc(2, 1)]], 1, 2, 1, true)
         == map[0 := [Arc(1, 1), Arc(2, 1)], 1 := [Arc(2, 1)]]
    ensures KeysAdded([0], 1, 2, true) == [0, 1]
  {
    Appended(map[0 := [Arc(1, 1), Arc(2, 1)]], 1, 2, 1, [Arc(2, 1)]);
  }

  lemma SampleFourth()
    ensures EdgeAdded(map[0 := [Arc(1, 1), Arc(2, 1)], 1 := [Arc(2, 1)]], 2, 0, 1, true)
         == map[0 := [Arc(1, 1), Arc(2, 1)], 1 := [Arc(2, 1)], 2 := [Arc(0, 1)]]
    ensures KeysAdded([0, 1], 2, 0, true) == [0, 1, 2]
  {
    Appended(map[0 := [Arc(1, 1), Arc(2, 1)], 1 := [Arc(2, 1)]], 2, 0, 1, [Arc(0, 1)]);
  }

  lemma SampleFifth()
    ensures EdgeAdded(map[0 := [Arc(1, 1), Arc(2, 1)], 1 := [Arc(2, 1)], 2 := [Arc(0, 1)]], 2, 3, 1, true)
         == map[0 := [Arc(1, 1), Arc(2, 1)], 1 := [Arc(2, 1)], 2 := [Arc(0, 1), Arc(3, 1)]]
    ensures KeysAdded([0, 1, 2], 2, 3, true) == [0, 1, 2]
  {
    Appended(map[0 := [Arc(1, 1), Arc(2, 1)], 1 := [Arc(2, 1)], 2 := [Arc(0, 1)]], 2, 3, 1, [Arc(0, 1), Arc(3, 1)]);
  }

  lemma SampleSixth()
    ensures EdgeAdded(map[0 := [Arc(1, 1), Arc(2, 1)], 1 := [Arc(2, 1)], 2 := [Arc(0, 1), Arc(3, 1)]], 3, 3, 1, true)
         == Sample()
    ensures KeysAdded([0, 1, 2], 3, 3, true) == [0, 1, 2, 3]
  {
    Appended(map[0 := [Arc(1, 1), Arc(2, 1)], 1 := [Arc(2, 1)], 2 := [Arc(0, 1), Arc(3, 1)]], 3, 3, 1, [Arc(3, 1)]);
  }

  /** `detect_cycle()` is true on it: the self-loop 3 -> 3 is a cycle. */
  lemma SampleHasCycle()
    ensures Closed(Sample()) && HasCycle(Sample())
  {
    SelfLoopIsCycle(Sample(), 3, 1);
  }

  /** `bfs(2)` and `dfs(2)` list exactly 0, 1, 2 and 3: those are the vertices reachable from 2. */
  lemma SampleReach(x: int)
    ensures Reachable(Sample(), 2, x) <==> 0 <= x <= 3
  {
    var g := Sample();
    assert IsEdge(g, 2, 0) && IsEdge(g, 0, 1) && IsEdge(g, 2, 3) by {
      assert Arc(0, 1) in Nbrs(g, 2) && Arc(1, 1) in Nbrs(g, 0) && Arc(3, 1) in Nbrs(g, 2);
    }
    if 0 <= x <= 3 {
      var p := if x == 2 then [2] else if x == 0 then [2, 0] else if x == 1 then [2, 0, 1] else [2, 3];
      assert IsPath(g, p) && p[0] == 2 && p[|p| - 1] == x;
    }
    if Reachable(g, 2, x) {
      var S := {0, 1, 2, 3};
      forall y, a | y in S && a in Nbrs(g, y) ensures a.dst in S {
        assert y in g;
      }
      ClosedSetContainsReachable(g, S, 2, x);
    }
  }

  /** `g.bfs(2)`, `g.dfs(2)` and `g.detect_cycle()` on the sample graph. */
  method SampleExample() returns (bfs: seq<int>, dfs: seq<int>, cyclic: bool)
    ensures |bfs| == 4 && bfs[0] == 2 && forall x :: x in bfs <==> 0 <= x <= 3
    ensures |dfs| == 4 && dfs[0] == 2 && forall x :: x in dfs <==> 0 <= x <= 3
    ensures cyclic
  {
    var g := SampleGraph();
    bfs := g.Bfs(2);
    dfs := g.Dfs(2);
    forall x ensures x in bfs <==> 0 <= x <= 3 {
      SampleReach(x);
    }
    forall x ensures x in dfs <==> 0 <= x <= 3 {
      SampleReach(x);
    }
    FourElements(bfs);
    FourElements(dfs);
    SampleHasCycle();
    cyclic := g.DetectCycle();
  }

  /** A sequence without repeats whose elements are exactly 0, 1, 2 and 3 has length four. */
  lemma FourElements(s: seq<int>)
    requires Distinct(s) && forall x :: x in s <==> 0 <= x <= 3
    ensures |s| == 4
  {
    DistinctCard(s);
    assert Elems(s) == {0, 1, 2, 3};
  }

  // ---------------------------------------------------------------------
  // weighted_graph = Graph(directed=True) with 0->1 (4), 0->2 (2), 1->2 (3),
  // 2->3 (2), 3->1 (-1)
  // ---------------------------------------------------------------------

  function Weighted(): AdjMap
  {
    map[0 := [Arc(1, 4), Arc(2, 2)], 1 := [Arc(2, 3)], 2 := [Arc(3, 2)], 3 := [Arc(1, -1)]]
  }

  /** The distances the example prints for both algorithms. */
  function WeightedDistances(): map<int, Dist>
  {
    map[0 := Fin(0), 1 := Fin(3), 2 := Fin(2), 3 := Fin(4)]
  }

  /**
   * {0: 0, 1: 3, 2: 2, 3: 4} holds the shortest distances from 0 (1 is
   * reached through 0 -> 2 -> 3 -> 1 of length 3), and the negative arc
   * 3 -> 1 closes no negative cycle.
   */
  lemma WeightedShortest()
    ensures Closed(Weighted())
    ensures IsShortestFrom(Weighted(), 0, WeightedDistances())
    ensures !NegativeCycleFrom(Weighted(), 0)
  {
    WeightedRelaxed();
    WeightedWitnessed();
    CertificateIsShortest(Weighted(), 0, WeightedDistances());
    RelaxedNoNegativeCycle(Weighted(), 0, WeightedDistances());
  }

  /** No arc of the weighted graph can lower an entry of the table. */
  lemma WeightedRelaxed()
    ensures Closed(Weighted()) && Relaxed(Weighted(), WeightedDistances())
  {
    var g, d := Weighted(), WeightedDistances();
    forall u, a | u in d && d[u].Fin? && a in Nbrs(g, u)
      ensures a.dst in d && d[a.dst].Fin? && d[a.dst].n <= d[u].n + a.w
    {
      assert u in g;
    }
  }

  /** Each entry is the length of a walk from 0: [0], [0, 2], [0, 2, 3] and [0, 2, 3, 1]. */
  lemma WeightedWitnessed()
    ensures Witnessed(Weighted(), 0, WeightedDistances())
  {
    var g, d := Weighted(), WeightedDistances();
    forall v | v in d && d[v].Fin? ensures exists w :: WalkFrom(g, w, 0, v) && Sum(w.ws) == d[v].n {
      assert [2, 2, -1][..2] == [2, 2] && [2, 2][..1] == [2] && [2][..0] == [];
      assert Sum([2]) == 2 && Sum([2, 2]) == 4 && Sum([2, 2, -1]) == 3;
      var w := if v == 0 then Walk([0], []) else if v == 2 then Walk([0, 2], [2])
               else if v == 3 then Walk([0, 2, 3], [2, 2]) else Walk([0, 2, 3, 1], [2, 2, -1]);
      assert WalkFrom(g, w, 0, v) && Sum(w.ws) == d[v].n;
    }
  }

  /**
   * `weighted_graph.dijkstra(0)` and `weighted_graph.bellman_ford(0)`: both
   * return {0: 0, 1: 3, 2: 2, 3: 4}.
   */
  method WeightedExample() returns (dijkstra: map<int, Dist>, bellmanFord: Result<map<int, Dist>>)
    ensures dijkstra == WeightedDistances()
    ensures bellmanFord == Ok(WeightedDistances())
  {
    var g := WeightedGraph();
    WeightedShortest();
    dijkstra := g.Dijkstra(0);
    ShortestUnique(Weighted(), 0, dijkstra, WeightedDistances());
    bellmanFord := g.BellmanFord(0);
    ShortestUnique(Weighted(), 0, bellmanFord.value, WeightedDistances());
  }

  /** The five `add_edge` calls on `Graph(directed=True)`. */
  method WeightedGraph() returns (g: Graph)
    ensures g.Valid() && g.directed && g.adj == Weighted() && g.order == [0, 1, 2, 3]
  {
    g := new Graph(true);
    WeightedFirst();
    g.AddEdge(0, 1, 4);
    WeightedSecond();
    g.AddEdge(0, 2, 2);
    WeightedThird();
    g.AddEdge(1, 2, 3);
    WeightedFourth();
    g.AddEdge(2, 3, 2);
    WeightedFifth();
    g.AddEdge(3, 1, -1);
  }

  lemma WeightedFirst()
    ensures EdgeAdded(map[], 0, 1, 4, true) == map[0 := [Arc(1, 4)]]
    ensures KeysAdded([], 0, 1, true) == [0]
  {
    Appended(map[], 0, 1, 4, [Arc(1, 4)]);
  }

  lemma WeightedSecond()
    ensures EdgeAdded(map[0 := [Arc(1, 4)]], 0, 2, 2, true) == map[0 := [Arc(1, 4), Arc(2, 2)]]
    ensures KeysAdded([0], 0, 2, true) == [0]
  {
    Appended(map[0 := [Arc(1, 4)]], 0, 2, 2, [Arc(1, 4), Arc(2, 2)]);
  }

  lemma WeightedThird()
    ensures EdgeAdded(map[0 := [Arc(1, 4), Arc(2, 2)]], 1, 2, 3, true) == map[0 := [Arc(1, 4), Arc(2, 2)], 1 := [Arc(2, 3)]]
    ensures KeysAdded([0], 1, 2, true) == [0, 1]
  {
    Appended(map[0 := [Arc(1, 4), Arc(2, 2)]], 1, 2, 3, [Arc(2, 3)]);
  }

  lemma WeightedFourth()
    ensures EdgeAdded(map[0 := [Arc(1, 4), Arc(2, 2)], 1 := [Arc(2, 3)]], 2, 3, 2, true) == map[0 := [Arc(1, 4), Arc(2, 2)], 1 := [Arc(2, 3)], 2 := [Arc(3, 2)]]
    ensures KeysAdded([0, 1], 2, 3, true) == [0, 1, 2]
  {
    Appended(map[0 := [Arc(1, 4), Arc(2, 2)], 1 := [Arc(2, 3)]], 2, 3, 2, [Arc(3, 2)]);
  }

  lemma WeightedFifth()
    ensures EdgeAdded(map[0 := [Arc(1, 4), Arc(2, 2)], 1 := [Arc(2, 3)], 2 := [Arc(3, 2)]], 3, 1, -1, true) == Weighted()
    ensures KeysAdded([0, 1, 2], 3, 1, true) == [0, 1, 2, 3]
  {
    Appended(map[0 := [Arc(1, 4), Arc(2, 2)], 1 := [Arc(2, 3)], 2 := [Arc(3, 2)]], 3, 1, -1, [Arc(1, -1)]);
  }

  // ---------------------------------------------------------------------
  // undirected_graph = Graph() with 0-1 (4), 0-2 (2), 1-2 (1), 2-3 (3)
  // ---------------------------------------------------------------------

  function Undirected(): AdjMap
  {
    map[0 := [Arc(1, 4), Arc(2, 2)], 1 := [Arc(0, 4), Arc(2, 1)], 2 := [Arc(0, 2), Arc(1, 1), Arc(3, 3)],
        3 := [Arc(2, 3)]]
  }

  /** Undirected `add_edge(u, v, w)` on a map whose lists for u and v, extended, are `lu` and `lv`. */
  lemma AppendedBoth(adj: AdjMap, u: int, v: int, w: int, lu: seq<Arc>, lv: seq<Arc>)
    requires u != v && Nbrs(adj, u) + [Arc(v, w)] == lu && Nbrs(adj, v) + [Arc(u, w)] == lv
    ensures EdgeAdded(adj, u, v, w, false) == adj[u := lu][v := lv]
  {
  }

  lemma UndirectedFirst()
    ensures EdgeAdded(map[], 0, 1, 4, false) == map[0 := [Arc(1, 4)], 1 := [Arc(0, 4)]]
    ensures KeysAdded([], 0, 1, false) == [0, 1]
  {
    AppendedBoth(map[], 0, 1, 4, [Arc(1, 4)], [Arc(0, 4)]);
  }

  lemma UndirectedSecond()
    ensures EdgeAdded(map[0 := [Arc(1, 4)], 1 := [Arc(0, 4)]], 0, 2, 2, false)
         == map[0 := [Arc(1, 4), Arc(2, 2)], 1 := [Arc(0, 4)], 2 := [Arc(0, 2)]]
    ensures KeysAdded([0, 1], 0, 2, false) == [0, 1, 2]
  {
    var m := map[0 := [Arc(1, 4)], 1 := [Arc(0, 4)]];
    AppendedBoth(m, 0, 2, 2, [Arc(1, 4), Arc(2, 2)], [Arc(0, 2)]);
    var r := m[0 := [Arc(1, 4), Arc(2, 2)]][2 := [Arc(0, 2)]];
    assert r.Keys == {0, 1, 2};
  }

  lemma UndirectedThird()
    ensures EdgeAdded(map[0 := [Arc(1, 4), Arc(2, 2)], 1 := [Arc(0, 4)], 2 := [Arc(0, 2)]], 1, 2, 1, false)
         == map[0 := [Arc(1, 4), Arc(2, 2)], 1 := [Arc(0, 4), Arc(2, 1)], 2 := [Arc(0, 2), Arc(1, 1)]]
    ensures KeysAdded([0, 1, 2], 1, 2, false) == [0, 1, 2]
  {
    var m := map[0 := [Arc(1, 4), Arc(2, 2)], 1 := [Arc(0, 4)], 2 := [Arc(0, 2)]];
    AppendedBoth(m, 1, 2, 1, [Arc(0, 4), Arc(2, 1)], [Arc(0, 2), Arc(1, 1)]);
    var r := m[1 := [Arc(0, 4), Arc(2, 1)]][2 := [Arc(0, 2), Arc(1, 1)]];
    assert r.Keys == {0, 1, 2};
  }

  lemma UndirectedFourth()
    ensures EdgeAdded(map[0 := [Arc(1, 4), Arc(2, 2)], 1 := [Arc(0, 4), Arc(2, 1)], 2 := [Arc(0, 2), Arc(1, 1)]],
                      2, 3, 3, false)
         == Undirected()
    ensures KeysAdded([0, 1, 2], 2, 3, false) == [0, 1, 2, 3]
  {
    var m := map[0 := [Arc(1, 4), Arc(2, 2)], 1 := [Arc(0, 4), Arc(2, 1)], 2 := [Arc(0, 2), Arc(1, 1)]];
    AppendedBoth(m, 2, 3, 3, [Arc(0, 2), Arc(1, 1), Arc(3, 3)], [Arc(2, 3)]);
    var r := m[2 := [Arc(0, 2), Arc(1, 1), Arc(3, 3)]][3 := [Arc(2, 3)]];
    assert r.Keys == {0, 1, 2, 3};
  }

  /** The four `add_edge` calls on `Graph()`. */
  method UndirectedGraph() returns (g: Graph)
    ensures g.Valid() && !g.directed && g.adj == Undirected() && g.order == [0, 1, 2, 3]
  {
    g := new Graph(false);
    UndirectedFirst();
    g.AddEdge(0, 1, 4);
    UndirectedSecond();
    g.AddEdge(0, 2, 2);
    UndirectedThird();
    g.AddEdge(1, 2, 1);
    UndirectedFourth();
    g.AddEdge(2, 3, 3);
  }

  /** The heap entries of each key's records. */
  lemma UndirectedArcs()
    ensures ArcsOf(0, Nbrs(Undirected(), 0)) == [(4, 0, 1), (2, 0, 2)]
    ensures ArcsOf(1, Nbrs(Undirected(), 1)) == [(4, 1, 0), (1, 1, 2)]
    ensures ArcsOf(2, Nbrs(Undirected(), 2)) == [(2, 2, 0), (1, 2, 1), (3, 2, 3)]
    ensures ArcsOf(3, Nbrs(Undirected(), 3)) == [(3, 3, 2)]
  {
  }

  /** The comprehension in `prim_mst` on that map. */
  lemma UndirectedEdgeList()
    ensures EdgeList(Undirected(), [0, 1, 2, 3])
         == [(4, 0, 1), (2, 0, 2), (4, 1, 0), (1, 1, 2), (2, 2, 0), (1, 2, 1), (3, 2, 3), (3, 3, 2)]
  {
    var g := Undirected();
    EdgeListSnoc(g, [], 0);
    EdgeListSnoc(g, [0], 1);
    EdgeListSnoc(g, [0, 1], 2);
    EdgeListSnoc(g, [0, 1, 2], 3);
    assert [0, 1, 2] + [3] == [0, 1, 2, 3];
    UndirectedArcs();
    assert EdgeList(g, [0, 1]) == [(4, 0, 1), (2, 0, 2), (4, 1, 0), (1, 1, 2)];
    assert EdgeList(g, [0, 1, 2]) == [(4, 0, 1), (2, 0, 2), (4, 1, 0), (1, 1, 2), (2, 2, 0), (1, 2, 1), (3, 2, 3)];
  }

  /** A popped entry with both or neither endpoint in the tree is dropped. */
  lemma Drop(edges: seq<Triple>, visited: set<int>, mst: seq<MstEdge>, n: int, k: nat, rest: seq<Triple>)
    requires |visited| < n && k < |edges| && MinTriple(edges) == k && Without(edges, k) == rest
    requires (edges[k].1 in visited) == (edges[k].2 in visited)
    ensures PrimSteps(edges, visited, mst, n) == PrimSteps(rest, visited, mst, n)
  {
  }

  /** A popped entry (w, u, v) with only u in the tree brings in v. */
  lemma Join(edges: seq<Triple>, visited: set<int>, mst: seq<MstEdge>, n: int, k: nat, rest: seq<Triple>)
    requires |visited| < n && k < |edges| && MinTriple(edges) == k && Without(edges, k) == rest
    requires edges[k].1 in visited && edges[k].2 !in visited
    ensures PrimSteps(edges, visited, mst, n)
         == PrimSteps(rest, visited + {edges[k].2}, mst + [(edges[k].1, edges[k].2, edges[k].0)], n)
  {
  }

  /**
   * The loop on that edge list: (1, 1, 2) and (1, 2, 1) find neither end in
   * the tree {0} and are lost; (2, 0, 2) brings in 2 and (2, 2, 0) is
   * dropped; (3, 2, 3) brings in 3 and (3, 3, 2) is dropped; (4, 0, 1)
   * brings in 1, and with all four keys in the tree the loop stops.
   */
  lemma UndirectedPops()
    ensures PrimSteps([(4, 0, 1), (2, 0, 2), (4, 1, 0), (1, 1, 2), (2, 2, 0), (1, 2, 1), (3, 2, 3), (3, 3, 2)], {0}, [], 4)
         == [(0, 2, 2), (2, 3, 3), (0, 1, 4)]
  {
    PopsFront();
    PopsBack();
  }

  lemma PopsFront()
    ensures PrimSteps([(4, 0, 1), (2, 0, 2), (4, 1, 0), (1, 1, 2), (2, 2, 0), (1, 2, 1), (3, 2, 3), (3, 3, 2)], {0}, [], 4)
         == PrimSteps([(4, 0, 1), (4, 1, 0), (2, 2, 0), (3, 2, 3), (3, 3, 2)], {0, 2}, [(0, 2, 2)], 4)
  {
    PopFirst();
    PopSecond();
    PopThird();
  }

  lemma PopsBack()
    ensures PrimSteps([(4, 0, 1), (4, 1, 0), (2, 2, 0), (3, 2, 3), (3, 3, 2)], {0, 2}, [(0, 2, 2)], 4)
         == [(0, 2, 2), (2, 3, 3), (0, 1, 4)]
  {
    PopFourth();
    PopFifth();
    PopSixth();
    PopSeventh();
    assert |{0, 1, 2, 3}| == 4;
  }

  /** Pop 1: (1, 1, 2) finds neither endpoint in the tree {0} and is lost. */
  lemma PopFirst()
    ensures PrimSteps([(4, 0, 1), (2, 0, 2), (4, 1, 0), (1, 1, 2), (2, 2, 0), (1, 2, 1), (3, 2, 3), (3, 3, 2)], {0}, [], 4)
         == PrimSteps([(4, 0, 1), (2, 0, 2), (4, 1, 0), (2, 2, 0), (1, 2, 1), (3, 2, 3), (3, 3, 2)], {0}, [], 4)
  {
    var e := [(4, 0, 1), (2, 0, 2), (4, 1, 0), (1, 1, 2), (2, 2, 0), (1, 2, 1), (3, 2, 3), (3, 3, 2)];
    assert |{0}| == 1;
    MinUnique(e, 3);
    PoppedFirst();
    Drop(e, {0}, [], 4, 3, [(4, 0, 1), (2, 0, 2), (4, 1, 0), (2, 2, 0), (1, 2, 1), (3, 2, 3), (3, 3, 2)]);
  }

  lemma PoppedFirst()
    ensures Without([(4, 0, 1), (2, 0, 2), (4, 1, 0), (1, 1, 2), (2, 2, 0), (1, 2, 1), (3, 2, 3), (3, 3, 2)], 3)
         == [(4, 0, 1), (2, 0, 2), (4, 1, 0), (2, 2, 0), (1, 2, 1), (3, 2, 3), (3, 3, 2)]
  {
  }

  /** Pop 2: its mirror (1, 2, 1) is lost too. */
  lemma PopSecond()
    ensures PrimSteps([(4, 0, 1), (2, 0, 2), (4, 1, 0), (2, 2, 0), (1, 2, 1), (3, 2, 3), (3, 3, 2)], {0}, [], 4)
         == PrimSteps([(4, 0, 1), (2, 0, 2), (4, 1, 0), (2, 2, 0), (3, 2, 3), (3, 3, 2)], {0}, [], 4)
  {
    var e := [(4, 0, 1), (2, 0, 2), (4, 1, 0), (2, 2, 0), (1, 2, 1), (3, 2, 3), (3, 3, 2)];
    assert |{0}| == 1;
    MinUnique(e, 4);
    PoppedSecond();
    Drop(e, {0}, [], 4, 4, [(4, 0, 1), (2, 0, 2), (4, 1, 0), (2, 2, 0), (3, 2, 3), (3, 3, 2)]);
  }

  lemma PoppedSecond()
    ensures Without([(4, 0, 1), (2, 0, 2), (4, 1, 0), (2, 2, 0), (1, 2, 1), (3, 2, 3), (3, 3, 2)], 4)
         == [(4, 0, 1), (2, 0, 2), (4, 1, 0), (2, 2, 0), (3, 2, 3), (3, 3, 2)]
  {
  }

  /** Pop 3: (2, 0, 2) brings in 2. */
  lemma PopThird()
    ensures PrimSteps([(4, 0, 1), (2, 0, 2), (4, 1, 0), (2, 2, 0), (3, 2, 3), (3, 3, 2)], {0}, [], 4)
         == PrimSteps([(4, 0, 1), (4, 1, 0), (2, 2, 0), (3, 2, 3), (3, 3, 2)], {0, 2}, [(0, 2, 2)], 4)
  {
    var e := [(4, 0, 1), (2, 0, 2), (4, 1, 0), (2, 2, 0), (3, 2, 3), (3, 3, 2)];
    assert |{0}| == 1;
    MinUnique(e, 1);
    PoppedThird();
    Join(e, {0}, [], 4, 1, [(4, 0, 1), (4, 1, 0), (2, 2, 0), (3, 2, 3), (3, 3, 2)]);
    assert {0} + {2} == {0, 2};
    assert [] + [(0, 2, 2)] == [(0, 2, 2)];
  }

  lemma PoppedThird()
    ensures Without([(4, 0, 1), (2, 0, 2), (4, 1, 0), (2, 2, 0), (3, 2, 3), (3, 3, 2)], 1)
         == [(4, 0, 1), (4, 1, 0), (2, 2, 0), (3, 2, 3), (3, 3, 2)]
  {
  }

  /** Pop 4: the mirror (2, 2, 0) has both endpoints in the tree and is dropped. */
  lemma PopFourth()
    ensures PrimSteps([(4, 0, 1), (4, 1, 0), (2, 2, 0), (3, 2, 3), (3, 3, 2)], {0, 2}, [(0, 2, 2)], 4)
         == PrimSteps([(4, 0, 1), (4, 1, 0), (3, 2, 3), (3, 3, 2)], {0, 2}, [(0, 2, 2)], 4)
  {
    var e := [(4, 0, 1), (4, 1, 0), (2, 2, 0), (3, 2, 3), (3, 3, 2)];
    assert |{0, 2}| == 2;
    MinUnique(e, 2);
    PoppedFourth();
    Drop(e, {0, 2}, [(0, 2, 2)], 4, 2, [(4, 0, 1), (4, 1, 0), (3, 2, 3), (3, 3, 2)]);
  }

  lemma PoppedFourth()
    ensures Without([(4, 0, 1), (4, 1, 0), (2, 2, 0), (3, 2, 3), (3, 3, 2)], 2)
         == [(4, 0, 1), (4, 1, 0), (3, 2, 3), (3, 3, 2)]
  {
  }

  /** Pop 5: (3, 2, 3) brings in 3. */
  lemma PopFifth()
    ensures PrimSteps([(4, 0, 1), (4, 1, 0), (3, 2, 3), (3, 3, 2)], {0, 2}, [(0, 2, 2)], 4)
         == PrimSteps([(4, 0, 1), (4, 1, 0), (3, 3, 2)], {0, 2, 3}, [(0, 2, 2), (2, 3, 3)], 4)
  {
    var e := [(4, 0, 1), (4, 1, 0), (3, 2, 3), (3, 3, 2)];
    assert |{0, 2}| == 2;
    MinUnique(e, 2);
    PoppedFifth();
    Join(e, {0, 2}, [(0, 2, 2)], 4, 2, [(4, 0, 1), (4, 1, 0), (3, 3, 2)]);
    assert {0, 2} + {3} == {0, 2, 3};
    assert [(0, 2, 2)] + [(2, 3, 3)] == [(0, 2, 2), (2, 3, 3)];
  }

  lemma PoppedFifth()
    ensures Without([(4, 0, 1), (4, 1, 0), (3, 2, 3), (3, 3, 2)], 2)
         == [(4, 0, 1), (4, 1, 0), (3, 3, 2)]
  {
  }

  /** Pop 6: the mirror (3, 3, 2) is dropped. */
  lemma PopSixth()
    ensures PrimSteps([(4, 0, 1), (4, 1, 0), (3, 3, 2)], {0, 2, 3}, [(0, 2, 2), (2, 3, 3)], 4)
         == PrimSteps([(4, 0, 1), (4, 1, 0)], {0, 2, 3}, [(0, 2, 2), (2, 3, 3)], 4)
  {
    var e := [(4, 0, 1), (4, 1, 0), (3, 3, 2)];
    assert |{0, 2, 3}| == 3;
    MinUnique(e, 2);
    PoppedSixth();
    Drop(e, {0, 2, 3}, [(0, 2, 2), (2, 3, 3)], 4, 2, [(4, 0, 1), (4, 1, 0)]);
  }

  lemma PoppedSixth()
    ensures Without([(4, 0, 1), (4, 1, 0), (3, 3, 2)], 2)
         == [(4, 0, 1), (4, 1, 0)]
  {
  }

  /** Pop 7: (4, 0, 1) brings in 1. */
  lemma PopSeventh()
    ensures PrimSteps([(4, 0, 1), (4, 1, 0)], {0, 2, 3}, [(0, 2, 2), (2, 3, 3)], 4)
         == PrimSteps([(4, 1, 0)], {0, 1, 2, 3}, [(0, 2, 2), (2, 3, 3), (0, 1, 4)], 4)
  {
    var e := [(4, 0, 1), (4, 1, 0)];
    assert |{0, 2, 3}| == 3;
    MinUnique(e, 0);
    PoppedSeventh();
    Join(e, {0, 2, 3}, [(0, 2, 2), (2, 3, 3)], 4, 0, [(4, 1, 0)]);
    assert {0, 2, 3} + {1} == {0, 1, 2, 3};
    assert [(0, 2, 2), (2, 3, 3)] + [(0, 1, 4)] == [(0, 2, 2), (2, 3, 3), (0, 1, 4)];
  }

  lemma PoppedSeventh()
    ensures Without([(4, 0, 1), (4, 1, 0)], 0)
         == [(4, 1, 0)]
  {
  }

  /** The total weight of a reported tree. */
  function Weight(mst: seq<MstEdge>): int
  {
    if mst == [] then 0 else Weight(mst[..|mst| - 1]) + mst[|mst| - 1].2
  }

  /** 0-2, 2-1, 2-3 is a tree grown from 0 along the map's records over all four keys. */
  lemma BetterTree()
    ensures TreeOf(Undirected(), 0, [(0, 2, 2), (2, 1, 1), (2, 3, 3)])
    ensures forall x :: x in Tree(0, [(0, 2, 2), (2, 1, 1), (2, 3, 3)]) <==> x in Undirected()
  {
    var g := Undirected();
    BetterTwo();
    assert Arc(3, 3) in Nbrs(g, 2);
    JoinStep(g, 0, {0, 1, 2}, [(0, 2, 2), (2, 1, 1)], (2, 3, 3));
    assert {0, 1, 2} + {3} == g.Keys;
    assert [(0, 2, 2), (2, 1, 1)] + [(2, 3, 3)] == [(0, 2, 2), (2, 1, 1), (2, 3, 3)];
  }

  lemma BetterTwo()
    ensures Grown(Undirected(), 0, {0, 1, 2}, [(0, 2, 2), (2, 1, 1)])
  {
    var g := Undirected();
    BetterOne();
    assert Arc(1, 1) in Nbrs(g, 2);
    JoinStep(g, 0, {0, 2}, [(0, 2, 2)], (2, 1, 1));
    assert {0, 2} + {1} == {0, 1, 2};
    assert [(0, 2, 2)] + [(2, 1, 1)] == [(0, 2, 2), (2, 1, 1)];
  }

  /** The tree of the root alone. */
  lemma GrownRoot(adj: AdjMap, root: int)
    ensures Grown(adj, root, {root}, [])
  {
  }

  lemma BetterOne()
    ensures Grown(Undirected(), 0, {0, 2}, [(0, 2, 2)])
  {
    var g := Undirected();
    GrownRoot(g, 0);
    assert Arc(2, 2) in Nbrs(g, 0);
    JoinStep(g, 0, {0}, [], (0, 2, 2));
    assert {0} + {2} == {0, 2};
    assert [] + [(0, 2, 2)] == [(0, 2, 2)];
  }

  lemma Weights()
    ensures Weight([(0, 2, 2), (2, 3, 3), (0, 1, 4)]) == 9
    ensures Weight([(0, 2, 2), (2, 1, 1), (2, 3, 3)]) == 6
  {
    var t := [(0, 2, 2), (2, 1, 1), (2, 3, 3)];
    assert t[..2] == [(0, 2, 2), (2, 1, 1)] && t[..2][..1] == [(0, 2, 2)] && [(0, 2, 2)][..0] == [];
    var u := [(0, 2, 2), (2, 3, 3), (0, 1, 4)];
    assert u[..2] == [(0, 2, 2), (2, 3, 3)] && u[..2][..1] == [(0, 2, 2)];
  }

  /**
   * On the example's undirected graph `prim_mst` as written returns the tree
   * 0-2, 2-3, 0-1 of weight 9, while 0-2, 2-1, 2-3 is a tree of the same
   * graph, grown from 0 over all four keys, of weight 6.
   */
  lemma UndirectedPrim()
    ensures PrimSteps(EdgeList(Undirected(), [0, 1, 2, 3]), {0}, [], 4) == [(0, 2, 2), (2, 3, 3), (0, 1, 4)]
    ensures Weight([(0, 2, 2), (2, 3, 3), (0, 1, 4)]) == 9
    ensures TreeOf(Undirected(), 0, [(0, 2, 2), (2, 1, 1), (2, 3, 3)])
    ensures forall x :: x in Tree(0, [(0, 2, 2), (2, 1, 1), (2, 3, 3)]) <==> x in Undirected()
    ensures Weight([(0, 2, 2), (2, 1, 1), (2, 3, 3)]) == 6
  {
    UndirectedEdgeList();
    UndirectedPops();
    BetterTree();
    Weights();
  }

  lemma UndirectedKeys()
    ensures |Undirected().Keys| == 4
  {
    assert Undirected().Keys == {0, 1, 2, 3};
  }

  /** The value `prim_mst` computes on the map, its first key and its number of keys. */
  lemma UndirectedRun()
    ensures PrimSteps(EdgeList(Undirected(), [0, 1, 2, 3]), {[0, 1, 2, 3][0]}, [], |Undirected().Keys|)
         == [(0, 2, 2), (2, 3, 3), (0, 1, 4)]
  {
    UndirectedEdgeList();
    UndirectedPops();
    UndirectedKeys();
    assert [0, 1, 2, 3][0] == 0;
  }

  /** `undirected_graph.prim_mst()` returns the weight-9 tree 0-2, 2-3, 0-1. */
  method UndirectedExample() returns (r: Result<seq<MstEdge>>)
    ensures r == Ok([(0, 2, 2), (2, 3, 3), (0, 1, 4)])
  {
    var g := UndirectedGraph();
    UndirectedRun();
    r := g.PrimMst();
  }

  // ---------------------------------------------------------------------
  // The corrected Prim loop on the undirected graph
  // ---------------------------------------------------------------------

  lemma UndirectedReach()
    ensures Reachable(Undirected(), 0, 1) && Reachable(Undirected(), 0, 2) && Reachable(Undirected(), 0, 3)
  {
    var g := Undirected();
    ReachableRefl(g, 0);
    assert Arc(1, 4) in Nbrs(g, 0) && Arc(2, 2) in Nbrs(g, 0) && Arc(3, 3) in Nbrs(g, 2);
    ReachableStep(g, 0, 0, 1);
    ReachableStep(g, 0, 0, 2);
    ReachableStep(g, 0, 2, 3);
  }

  /** A tree grown along the records of a closed map that holds every key has one edge fewer than keys. */
  lemma SpanLength(adj: AdjMap, root: int, m: seq<MstEdge>)
    requires Closed(adj) && root in adj && TreeOf(adj, root, m)
    requires forall x :: x in adj ==> x in Tree(root, m)
    ensures |m| + 1 == |adj.Keys|
  {
    var t := Tree(root, m);
    TreeDistinct(root, m);
    TreeInKeys(adj, root, m);
    assert forall i :: 0 <= i < |t| ==> t[i] in adj.Keys;
    DistinctBound(t, adj.Keys);
    DistinctCard(t);
    assert Elems(t) == adj.Keys + (Elems(t) - adj.Keys) by {
      forall x | x in adj ensures x in Elems(t) {
        assert x in t;
      }
    }
  }

  /** A tree grown from 0 over exactly the vertices reachable from 0 has three edges. */
  lemma FixedLength(m: seq<MstEdge>)
    requires TreeOf(Undirected(), 0, m)
    requires forall x :: x in Tree(0, m) <==> Reachable(Undirected(), 0, x)
    ensures |m| == 3
  {
    var g := Undirected();
    UndirectedClosed();
    UndirectedKeys();
    UndirectedReach();
    ReachableRefl(g, 0);
    forall x | x in g ensures x in Tree(0, m) {
      assert Reachable(g, 0, x);
    }
    SpanLength(g, 0, m);
  }

  /** The least record out of {0} is 0 -> 2 (2). */
  lemma FixedFirst(m: seq<MstEdge>)
    requires TreeOf(Undirected(), 0, m) && Cheapest(Undirected(), 0, m) && |m| >= 1
    ensures m[0] == (0, 2, 2)
  {
    var g := Undirected();
    assert m[..0] == [];
    assert Tree(0, m[..0]) == [0];
    assert LeastOut(g, [0], m[0].2);
    assert Arc(2, 2) in Nbrs(g, 0);
    assert Arc(m[0].1, m[0].2) in Nbrs(g, 0);
  }

  /** The least record out of {0, 2} is 2 -> 1 (1). */
  lemma FixedSecond(m: seq<MstEdge>)
    requires TreeOf(Undirected(), 0, m) && Cheapest(Undirected(), 0, m) && |m| >= 2 && m[0] == (0, 2, 2)
    ensures m[1] == (2, 1, 1)
  {
    var g := Undirected();
    assert m[..1] == [(0, 2, 2)];
    var t := Tree(0, m[..1]);
    assert t == [0, 2];
    assert LeastOut(g, t, m[1].2);
    assert Arc(1, 1) in Nbrs(g, 2);
    assert m[1].0 in t && m[1].1 !in t;
    assert Arc(m[1].1, m[1].2) in Nbrs(g, m[1].0);
  }

  /** The least record out of {0, 2, 1} is 2 -> 3 (3). */
  lemma FixedThird(m: seq<MstEdge>)
    requires TreeOf(Undirected(), 0, m) && Cheapest(Undirected(), 0, m) && |m| >= 3
    requires m[0] == (0, 2, 2) && m[1] == (2, 1, 1)
    ensures m[2] == (2, 3, 3)
  {
    var g := Undirected();
    assert m[..2] == [(0, 2, 2), (2, 1, 1)];
    var t := Tree(0, m[..2]);
    assert t == [0, 2, 1];
    assert LeastOut(g, t, m[2].2);
    assert Arc(3, 3) in Nbrs(g, 2);
    assert m[2].0 in t && m[2].1 !in t;
    assert Arc(m[2].1, m[2].2) in Nbrs(g, m[2].0);
  }

  /**
   * `prim_mst()` with the corrected loop on the undirected graph returns
   * 0-2, 2-1, 2-3, the tree of weight 6: each step's least record out of
   * the tree is unique.
   */
  method UndirectedFixed() returns (r: Result<seq<MstEdge>>)
    ensures r == Ok([(0, 2, 2), (2, 1, 1), (2, 3, 3)]) && Weight(r.value) == 6
  {
    var g := UndirectedGraph();
    r := g.PrimMstFixed();
    FixedTree(r.value);
    Weights();
  }

  /** The only tree the corrected loop's contract allows on the undirected graph. */
  lemma FixedTree(m: seq<MstEdge>)
    requires TreeOf(Undirected(), 0, m) && Cheapest(Undirected(), 0, m)
    requires forall x :: x in Tree(0, m) <==> Reachable(Undirected(), 0, x)
    ensures m == [(0, 2, 2), (2, 1, 1), (2, 3, 3)]
  {
    FixedLength(m);
    FixedFirst(m);
    FixedSecond(m);
    FixedThird(m);
  }

  // ---------------------------------------------------------------------
  // find_bridges on the undirected graph
  // ---------------------------------------------------------------------

  /** The tables `dfs(0, None)` fills in on the undirected graph. */
  function BridgeDisc(): map<int, int>
  {
    map[0 := 0, 1 := 1, 2 := 2, 3 := 3]
  }

  function BridgeLow(): map<int, int>
  {
    map[0 := 0, 1 := 0, 2 := 0, 3 := 3]
  }

  function BridgePar(): map<int, Option<int>>
  {
    map[0 := None, 1 := Some(0), 2 := Some(1), 3 := Some(2)]
  }

  /** 0 is the root, its low value its own time. */
  lemma BridgeZero()
    ensures Finished(Undirected(), BridgeDisc(), BridgeLow(), BridgePar(), 0)
    ensures KeyFirst([0, 1, 2, 3], BridgeDisc(), BridgePar(), 0)
  {
  }

  /** 1 hangs below 0 through 0's first arc; its low value comes from its child 2. */
  lemma BridgeOne()
    ensures Finished(Undirected(), BridgeDisc(), BridgeLow(), BridgePar(), 1)
    ensures KeyFirst([0, 1, 2, 3], BridgeDisc(), BridgePar(), 1)
  {
    var g, d, l, p := Undirected(), BridgeDisc(), BridgeLow(), BridgePar();
    assert LowFrom(d, l, p, 1, Some(0), Nbrs(g, 1)[1].dst);
    assert Nbrs(g, 0)[0].dst == 1 && Before(g, d, 0, 0, d[1]);
    assert Arc(1, 4) in Nbrs(g, 0);
  }

  /** 2 hangs below 1 through 1's second arc; its low value is the time of its neighbour 0. */
  lemma BridgeTwo()
    ensures Finished(Undirected(), BridgeDisc(), BridgeLow(), BridgePar(), 2)
    ensures KeyFirst([0, 1, 2, 3], BridgeDisc(), BridgePar(), 2)
  {
    var g, d, l, p := Undirected(), BridgeDisc(), BridgeLow(), BridgePar();
    assert LowFrom(d, l, p, 2, Some(1), Nbrs(g, 2)[0].dst);
    assert Nbrs(g, 1)[1].dst == 2 && Before(g, d, 1, 1, d[2]);
    assert Arc(2, 1) in Nbrs(g, 1);
  }

  /** 3 hangs below 2 through 2's third arc; it reaches nothing above itself. */
  lemma BridgeThree()
    ensures Finished(Undirected(), BridgeDisc(), BridgeLow(), BridgePar(), 3)
    ensures KeyFirst([0, 1, 2, 3], BridgeDisc(), BridgePar(), 3)
  {
    var g, d := Undirected(), BridgeDisc();
    assert Nbrs(g, 2)[2].dst == 3 && Before(g, d, 2, 2, d[3]);
    assert Arc(3, 3) in Nbrs(g, 2);
  }

  /** Only the tree edge 2-3 has a child whose low value exceeds its parent's time. */
  lemma BridgeOnly()
    ensures BridgesOf([(2, 3)], BridgeDisc().Keys, BridgeDisc(), BridgeLow(), BridgePar())
  {
    var d, l, p := BridgeDisc(), BridgeLow(), BridgePar();
    forall b | IsBridge(b, d.Keys, d, l, p) ensures b == (2, 3) {
      assert b.1 == 3;
    }
  }

  /** The tables above form a depth-first forest over all four keys. */
  lemma UndirectedForest()
    ensures Forest(Undirected(), [0, 1, 2, 3], BridgeDisc(), BridgeLow(), BridgePar(), [(2, 3)], 4)
  {
    var d := BridgeDisc();
    forall x | Seen(d, x)
      ensures Finished(Undirected(), d, BridgeLow(), BridgePar(), x) && KeyFirst([0, 1, 2, 3], d, BridgePar(), x)
    {
      if x == 0 {
        BridgeZero();
      } else if x == 1 {
        BridgeOne();
      } else if x == 2 {
        BridgeTwo();
      } else {
        BridgeThree();
      }
    }
    BridgeOnly();
  }

  /** A list that holds just `e`, once, is `[e]`. */
  lemma SingleList(bs: seq<(int, int)>, e: (int, int))
    requires multiset(bs) == multiset{e}
    ensures bs == [e]
  {
    assert |bs| == |multiset(bs)| == 1;
    assert bs[0] in multiset(bs);
  }

  /** `undirected_graph.find_bridges()` returns [(2, 3)]. */
  method UndirectedBridges() returns (bridges: seq<(int, int)>)
    ensures bridges == [(2, 3)]
  {
    var g := UndirectedGraph();
    UndirectedClosed();
    ghost var disc, low, par;
    bridges, disc, low, par := g.FindBridges();
    UndirectedKeys();
    UndirectedForest();
    assert BridgeDisc().Keys == Undirected().Keys;
    Tarjan.ForestUnique(Undirected(), [0, 1, 2, 3], 4, disc, low, par, bridges,
                        BridgeDisc(), BridgeLow(), BridgePar(), [(2, 3)]);
    SingleList(bridges, (2, 3));
  }

  lemma UndirectedClosed()
    ensures Closed(Undirected())
  {
  }
}
