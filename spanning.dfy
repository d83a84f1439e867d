/**
 * `Graph.prim_mst`: the edge list built from every adjacency record, and
 * the loop that pops least (weight, u, v) entries and joins a popped edge to
 * the tree when exactly one of its endpoints is already in it.
 *
 * `PrimSteps` is that loop as written. It discards for good an edge popped
 * while neither endpoint is in the tree, so on a connected graph it can
 * stop short of a spanning tree (`PrimStopsShort`). The tree it builds is
 * still a tree grown from the first key along graph edges (`PrimStepsTree`).
 */
module Spanning {
  import opened Adjacency
  import opened Heaps

  /** A reported tree edge (u, v, w): u was already in the tree, v joins it through an edge of weight w. */
  type MstEdge = (int, int, int)

  /** The heap entries (weight, u, v) of the arcs out of `u`, in list order. */
  function ArcsOf(u: int, arcs: seq<Arc>): (r: seq<Triple>)
    ensures |r| == |arcs|
    ensures forall k :: 0 <= k < |arcs| ==> r[k] == (arcs[k].w, u, arcs[k].dst)
  {
    seq(|arcs|, k requires 0 <= k < |arcs| => (arcs[k].w, u, arcs[k].dst))
  }

  /** The comprehension `[(weight, u, v) for u in graph for v, weight in graph[u]]`. */
  function EdgeList(adj: AdjMap, order: seq<int>): seq<Triple>
  {
    if order == [] then []
    else
      var u := order[|order| - 1];
      EdgeList(adj, order[..|order| - 1]) + ArcsOf(u, Nbrs(adj, u))
  }

  /** The edge list holds an entry (w, u, v) exactly when u is listed in `order` and u -> (v, w) is one of its records. */
  lemma {:induction false} EdgeListArcs(adj: AdjMap, order: seq<int>)
    ensures forall e :: e in EdgeList(adj, order) ==> e.1 in order && Arc(e.2, e.0) in Nbrs(adj, e.1)
    ensures forall i, a :: 0 <= i < |order| && a in Nbrs(adj, order[i]) ==> (a.w, order[i], a.dst) in EdgeList(adj, order)
  {
    if order != [] {
      var init := order[..|order| - 1];
      var u := order[|order| - 1];
      EdgeListArcs(adj, init);
      assert forall i :: 0 <= i < |order| - 1 ==> order[i] == init[i];
      forall a | a in Nbrs(adj, u) ensures (a.w, u, a.dst) in ArcsOf(u, Nbrs(adj, u)) {
        var k :| 0 <= k < |Nbrs(adj, u)| && Nbrs(adj, u)[k] == a;
        assert ArcsOf(u, Nbrs(adj, u))[k] == (a.w, u, a.dst);
      }
    }
  }

  /** The tree's vertices in joining order: the root, then each edge's new endpoint. */
  function Tree(root: int, mst: seq<MstEdge>): (t: seq<int>)
    ensures |t| == |mst| + 1 && t[0] == root
    ensures forall i :: 0 <= i < |mst| ==> t[i + 1] == mst[i].1
  {
    if mst == [] then [root] else Tree(root, mst[..|mst| - 1]) + [mst[|mst| - 1].1]
  }

  /** Every edge joins a vertex already in the tree to one that is not. */
  ghost predicate GrowsTree(root: int, mst: seq<MstEdge>)
  {
    forall i :: 0 <= i < |mst| ==>
      mst[i].0 in Tree(root, mst[..i]) && mst[i].1 !in Tree(root, mst[..i])
  }

  /** Every edge (u, v, w) is the adjacency record u -> (v, w). */
  ghost predicate AlongArcs(adj: AdjMap, mst: seq<MstEdge>)
  {
    forall i :: 0 <= i < |mst| ==> Arc(mst[i].1, mst[i].2) in Nbrs(adj, mst[i].0)
  }

  /** A grown tree never repeats a vertex, so it has one edge fewer than vertices. */
  lemma {:induction false} TreeDistinct(root: int, mst: seq<MstEdge>)
    requires GrowsTree(root, mst)
    ensures Distinct(Tree(root, mst))
    decreases |mst|
  {
    if mst != [] {
      var k := |mst| - 1;
      var init := mst[..k];
      assert GrowsTree(root, init) by {
        forall i | 0 <= i < |init| ensures init[i].0 in Tree(root, init[..i]) && init[i].1 !in Tree(root, init[..i]) {
          assert init[..i] == mst[..i];
        }
      }
      TreeDistinct(root, init);
      assert mst[..k] == init;
      assert mst[k].1 !in Tree(root, init);
    }
  }

  /** A grown tree inside a set of n vertices has at most n - 1 edges. */
  lemma TreeBound(root: int, mst: seq<MstEdge>, S: set<int>)
    requires GrowsTree(root, mst)
    requires forall x :: x in Tree(root, mst) ==> x in S
    ensures |mst| <= |S| - 1
  {
    TreeDistinct(root, mst);
    DistinctBound(Tree(root, mst), S);
  }

  /** Joining a vertex outside the tree through an edge from inside keeps it grown. */
  lemma GrowsTreeStep(root: int, mst: seq<MstEdge>, e: MstEdge)
    requires GrowsTree(root, mst)
    requires e.0 in Tree(root, mst) && e.1 !in Tree(root, mst)
    ensures GrowsTree(root, mst + [e])
  {
    var m := mst + [e];
    forall i | 0 <= i < |m| ensures m[i].0 in Tree(root, m[..i]) && m[i].1 !in Tree(root, m[..i]) {
      assert m[..i] == if i < |mst| then mst[..i] else mst;
    }
  }

  /**
   * The loop of `prim_mst` as written, from the remaining heap `edges`, the
   * set `visited` and the tree so far; `n` is the number of keys. A popped
   * edge with both or neither endpoint visited is dropped.
   */
  function PrimSteps(edges: seq<Triple>, visited: set<int>, mst: seq<MstEdge>, n: int): seq<MstEdge>
    decreases |edges|
  {
    if edges == [] || |visited| >= n then mst
    else
      var k := MinTriple(edges);
      var w, u, v := edges[k].0, edges[k].1, edges[k].2;
      var rest := Without(edges, k);
      if u in visited && v !in visited then PrimSteps(rest, visited + {v}, mst + [(u, v, w)], n)
      else if v in visited && u !in visited then PrimSteps(rest, visited + {u}, mst + [(v, u, w)], n)
      else PrimSteps(rest, visited, mst, n)
  }

  /** The heap entries are adjacency records of a symmetric map. */
  ghost predicate HeapOfArcs(adj: AdjMap, edges: seq<Triple>)
  {
    forall e :: e in edges ==> Arc(e.2, e.0) in Nbrs(adj, e.1)
  }

  /** `mst` is a tree grown from `root` along adjacency records, and `visited` is its vertex set. */
  ghost predicate Grown(adj: AdjMap, root: int, visited: set<int>, mst: seq<MstEdge>)
  {
    TreeOf(adj, root, mst) && forall x :: x in visited <==> x in Tree(root, mst)
  }

  /** `mst` is a tree grown from `root` along adjacency records. */
  ghost predicate TreeOf(adj: AdjMap, root: int, mst: seq<MstEdge>)
  {
    GrowsTree(root, mst) && AlongArcs(adj, mst)
  }

  /** `b` begins with `a`. */
  predicate Prefix(a: seq<MstEdge>, b: seq<MstEdge>)
  {
    |a| <= |b| && b[..|a|] == a
  }

  /** Joining an unvisited vertex through an arc from a visited one keeps the tree grown. */
  lemma JoinStep(adj: AdjMap, root: int, visited: set<int>, mst: seq<MstEdge>, e: MstEdge)
    requires Grown(adj, root, visited, mst)
    requires e.0 in visited && e.1 !in visited && Arc(e.1, e.2) in Nbrs(adj, e.0)
    ensures Grown(adj, root, visited + {e.1}, mst + [e]) && Prefix(mst, mst + [e])
  {
    GrowsTreeStep(root, mst, e);
    assert Tree(root, mst + [e]) == Tree(root, mst) + [e.1];
  }

  lemma PrefixTrans(a: seq<MstEdge>, b: seq<MstEdge>, c: seq<MstEdge>)
    requires Prefix(a, b) && Prefix(b, c)
    ensures Prefix(a, c)
  {
    assert c[..|a|] == c[..|b|][..|a|];
  }

  /**
   * From a grown tree whose vertex set is `visited`, the loop as written
   * keeps growing a tree along graph edges, and only extends the tree it
   * started from.
   */
  lemma {:induction false} PrimStepsTree(adj: AdjMap, root: int, edges: seq<Triple>, visited: set<int>,
                                         mst: seq<MstEdge>, n: int)
    requires Symmetric(adj) && HeapOfArcs(adj, edges)
    requires Grown(adj, root, visited, mst)
    ensures TreeOf(adj, root, PrimSteps(edges, visited, mst, n))
    ensures Prefix(mst, PrimSteps(edges, visited, mst, n))
    decreases |edges|
  {
    if edges != [] && |visited| < n {
      var k := MinTriple(edges);
      var w, u, v := edges[k].0, edges[k].1, edges[k].2;
      var rest := Without(edges, k);
      assert edges[k] in edges;
      assert HeapOfArcs(adj, rest);
      if u in visited && v !in visited {
        JoinStep(adj, root, visited, mst, (u, v, w));
        PrimStepsTree(adj, root, rest, visited + {v}, mst + [(u, v, w)], n);
        PrefixTrans(mst, mst + [(u, v, w)], PrimSteps(rest, visited + {v}, mst + [(u, v, w)], n));
      } else if v in visited && u !in visited {
        assert Arc(u, w) in Nbrs(adj, v) by {
          assert u in adj;
        }
        JoinStep(adj, root, visited, mst, (v, u, w));
        PrimStepsTree(adj, root, rest, visited + {u}, mst + [(v, u, w)], n);
        PrefixTrans(mst, mst + [(v, u, w)], PrimSteps(rest, visited + {u}, mst + [(v, u, w)], n));
      } else {
        PrimStepsTree(adj, root, rest, visited, mst, n);
      }
    } else {
      assert mst[..|mst|] == mst;
    }
  }

  /** The undirected map built by add_edge(0, 1, 5), add_edge(1, 2, 1). */
  function ShortGraph(): AdjMap
  {
    map[0 := [Arc(1, 5)], 1 := [Arc(0, 5), Arc(2, 1)], 2 := [Arc(1, 1)]]
  }

  lemma ShortGraphBuilt()
    ensures EdgeAdded(EdgeAdded(map[], 0, 1, 5, false), 1, 2, 1, false) == ShortGraph()
    ensures KeysAdded(KeysAdded([], 0, 1, false), 1, 2, false) == [0, 1, 2]
  {
    var g1 := EdgeAdded(map[], 0, 1, 5, false);
    var g2 := EdgeAdded(g1, 1, 2, 1, false);
    assert g1.Keys == {0, 1} && g1[0] == [Arc(1, 5)] && g1[1] == [Arc(0, 5)];
    assert g2.Keys == {0, 1, 2} && g2[0] == [Arc(1, 5)];
    assert g2[1] == [Arc(0, 5), Arc(2, 1)] && g2[2] == [Arc(1, 1)];
    assert g2 == ShortGraph();
  }

  /** The comprehension visits the keys in order, each key's list in list order. */
  lemma EdgeListSnoc(adj: AdjMap, order: seq<int>, u: int)
    ensures EdgeList(adj, order + [u]) == EdgeList(adj, order) + ArcsOf(u, Nbrs(adj, u))
  {
    assert (order + [u])[..|order|] == order;
  }

  lemma ShortEdgeList()
    ensures EdgeList(ShortGraph(), [0, 1, 2]) == [(5, 0, 1), (5, 1, 0), (1, 1, 2), (1, 2, 1)]
  {
    var g := ShortGraph();
    EdgeListSnoc(g, [], 0);
    EdgeListSnoc(g, [0], 1);
    EdgeListSnoc(g, [0, 1], 2);
    assert ArcsOf(0, Nbrs(g, 0)) == [(5, 0, 1)];
    assert ArcsOf(1, Nbrs(g, 1)) == [(5, 1, 0), (1, 1, 2)];
    assert ArcsOf(2, Nbrs(g, 2)) == [(1, 2, 1)];
  }

  /** An entry strictly below every other one is the one popped. */
  lemma MinUnique(q: seq<Triple>, j: nat)
    requires j < |q| && forall i :: 0 <= i < |q| && i != j ==> !TripleLe(q[i], q[j])
    ensures MinTriple(q) == j
  {
  }

  /** The first two pops on that edge list: both weight-1 entries find neither endpoint in the tree and are lost. */
  lemma ShortDrops()
    ensures PrimSteps([(5, 0, 1), (5, 1, 0), (1, 1, 2), (1, 2, 1)], {0}, [], 3)
      == PrimSteps([(5, 0, 1), (5, 1, 0)], {0}, [], 3)
  {
    var e0 := [(5, 0, 1), (5, 1, 0), (1, 1, 2), (1, 2, 1)];
    var e1 := [(5, 0, 1), (5, 1, 0), (1, 2, 1)];
    MinUnique(e0, 2);
    assert Without(e0, 2) == e1;
    MinUnique(e1, 2);
    assert Without(e1, 2) == [(5, 0, 1), (5, 1, 0)];
  }

  /** The last two pops: (5, 0, 1) brings in 1, and (5, 1, 0) then has both endpoints in the tree. */
  lemma ShortJoin()
    ensures PrimSteps([(5, 0, 1), (5, 1, 0)], {0}, [], 3) == [(0, 1, 5)]
  {
    var e2 := [(5, 0, 1), (5, 1, 0)];
    var e3 := [(5, 1, 0)];
    assert |{0, 1}| == 2 by { assert {0, 1} == {0} + {1}; }
    MinUnique(e2, 0);
    assert Without(e2, 0) == e3;
    assert {0} + {1} == {0, 1};
    assert Without(e3, 0) == [];
    assert PrimSteps(e3, {0, 1}, [(0, 1, 5)], 3) == [(0, 1, 5)];
  }

  lemma ShortConnected()
    ensures Reachable(ShortGraph(), 0, 2)
  {
    var g := ShortGraph();
    assert IsEdge(g, 0, 1) && IsEdge(g, 1, 2) by {
      assert Arc(1, 5) in Nbrs(g, 0) && Arc(2, 1) in Nbrs(g, 1);
    }
    assert IsPath(g, [0, 1, 2]);
  }

  /**
   * On that connected graph the loop as written returns one edge and leaves
   * vertex 2 out of the tree, although 2 is reachable from the root 0.
   */
  lemma PrimStopsShort()
    ensures PrimSteps(EdgeList(ShortGraph(), [0, 1, 2]), {0}, [], 3) == [(0, 1, 5)]
    ensures Reachable(ShortGraph(), 0, 2) && 2 !in Tree(0, [(0, 1, 5)])
  {
    ShortEdgeList();
    ShortDrops();
    ShortJoin();
    ShortConnected();
  }

  // ---------------------------------------------------------------------
  // The corrected loop: lazy Prim, which pushes only the records out of a
  // vertex as it joins the tree, so that no popped edge is lost.
  // ---------------------------------------------------------------------

  /** Every heap entry (w, u, v) is a record u -> (v, w) out of a tree vertex u. */
  ghost predicate HeapOut(adj: AdjMap, visited: set<int>, heap: seq<Triple>)
  {
    forall e :: e in heap ==> e.1 in visited && Arc(e.2, e.0) in Nbrs(adj, e.1)
  }

  /** Every record out of the tree ends inside it or still waits in the heap. */
  ghost predicate Frontier(adj: AdjMap, visited: set<int>, heap: seq<Triple>)
  {
    forall x, a :: x in visited && a in Nbrs(adj, x) ==> a.dst in visited || (a.w, x, a.dst) in heap
  }

  lemma ArcsOfHolds(u: int, arcs: seq<Arc>, a: Arc)
    requires a in arcs
    ensures (a.w, u, a.dst) in ArcsOf(u, arcs)
  {
    var k :| 0 <= k < |arcs| && arcs[k] == a;
    assert ArcsOf(u, arcs)[k] == (a.w, u, a.dst);
  }

  /** `w` is no more than the weight of any record from a vertex of `tree` to a vertex outside it. */
  ghost predicate LeastOut(adj: AdjMap, tree: seq<int>, w: int)
  {
    forall x, a :: x in tree && a in Nbrs(adj, x) && a.dst !in tree ==> w <= a.w
  }

  /**
   * Prim's greedy condition: every edge is a least-weight record leaving the
   * tree grown so far (the cut the tree defines).
   */
  ghost predicate Cheapest(adj: AdjMap, root: int, mst: seq<MstEdge>)
  {
    forall i :: 0 <= i < |mst| ==> LeastOut(adj, Tree(root, mst[..i]), mst[i].2)
  }

  /**
   * A least heap entry leaving the tree weighs no more than any record out
   * of the tree, since every such record still waits in the heap.
   */
  lemma CheapestStep(adj: AdjMap, root: int, visited: set<int>, mst: seq<MstEdge>, heap: seq<Triple>)
    requires Grown(adj, root, visited, mst) && Frontier(adj, visited, heap) && Cheapest(adj, root, mst)
    requires heap != []
    ensures var e := heap[MinTriple(heap)];
      Cheapest(adj, root, mst + [(e.1, e.2, e.0)])
  {
    var e := heap[MinTriple(heap)];
    var mst' := mst + [(e.1, e.2, e.0)];
    forall i | 0 <= i < |mst'| ensures LeastOut(adj, Tree(root, mst'[..i]), mst'[i].2) {
      if i < |mst| {
        assert mst'[..i] == mst[..i];
        assert LeastOut(adj, Tree(root, mst[..i]), mst[i].2);
      } else {
        assert mst'[..i] == mst;
        forall x, a | x in Tree(root, mst) && a in Nbrs(adj, x) && a.dst !in Tree(root, mst) ensures e.0 <= a.w {
          assert (a.w, x, a.dst) in heap;
        }
      }
    }
  }

  /** The state before the first pop: the root alone, and the records out of it in the heap. */
  lemma FixedStart(adj: AdjMap, root: int)
    ensures Grown(adj, root, {root}, [])
    ensures HeapOut(adj, {root}, ArcsOf(root, Nbrs(adj, root)))
    ensures Frontier(adj, {root}, ArcsOf(root, Nbrs(adj, root)))
  {
    forall a | a in Nbrs(adj, root) ensures (a.w, root, a.dst) in ArcsOf(root, Nbrs(adj, root)) {
      ArcsOfHolds(root, Nbrs(adj, root), a);
    }
  }

  /** Popping an entry whose far end is already in the tree loses nothing. */
  lemma FixedSkip(adj: AdjMap, visited: set<int>, heap: seq<Triple>, k: nat)
    requires HeapOut(adj, visited, heap) && Frontier(adj, visited, heap)
    requires k < |heap| && heap[k].2 in visited
    ensures HeapOut(adj, visited, Without(heap, k)) && Frontier(adj, visited, Without(heap, k))
  {
  }

  /**
   * Popping an entry (w, u, v) whose far end v is new joins v through that
   * record and pushes the records out of v.
   */
  lemma FixedJoin(adj: AdjMap, root: int, visited: set<int>, mst: seq<MstEdge>, heap: seq<Triple>, k: nat)
    requires Grown(adj, root, visited, mst) && HeapOut(adj, visited, heap) && Frontier(adj, visited, heap)
    requires k < |heap| && heap[k].2 !in visited
    ensures var e, v := heap[k], heap[k].2;
      var heap' := Without(heap, k) + ArcsOf(v, Nbrs(adj, v));
      Arc(v, e.0) in Nbrs(adj, e.1) &&
      Grown(adj, root, visited + {v}, mst + [(e.1, v, e.0)]) &&
      HeapOut(adj, visited + {v}, heap') && Frontier(adj, visited + {v}, heap')
  {
    var e, v := heap[k], heap[k].2;
    assert e in heap;
    var rest := Without(heap, k);
    var heap' := rest + ArcsOf(v, Nbrs(adj, v));
    JoinStep(adj, root, visited, mst, (e.1, v, e.0));
    forall x, a | x in visited + {v} && a in Nbrs(adj, x) ensures a.dst in visited + {v} || (a.w, x, a.dst) in heap' {
      if x == v {
        ArcsOfHolds(v, Nbrs(adj, v), a);
      } else if a.dst !in visited + {v} {
        assert (a.w, x, a.dst) in heap && (a.w, x, a.dst) != heap[k];
      }
    }
    forall f | f in heap' ensures f.1 in visited + {v} && Arc(f.2, f.0) in Nbrs(adj, f.1) {
      if f !in rest {
        var j :| 0 <= j < |Nbrs(adj, v)| && f == ArcsOf(v, Nbrs(adj, v))[j];
        assert Nbrs(adj, v)[j] in Nbrs(adj, v);
      }
    }
  }

  /** With the heap empty the tree is closed under records, so it holds everything reachable from the root. */
  lemma FixedExhausted(adj: AdjMap, root: int, visited: set<int>, t: int)
    requires root in visited && Frontier(adj, visited, []) && Reachable(adj, root, t)
    ensures t in visited
  {
    ClosedSetContainsReachable(adj, visited, root, t);
  }

  /** With every key in the tree, it holds everything reachable from the root of a closed map. */
  lemma FixedFull(adj: AdjMap, root: int, visited: set<int>, t: int)
    requires Closed(adj) && root in adj && visited <= adj.Keys && |visited| >= |adj.Keys|
    requires Reachable(adj, root, t)
    ensures t in visited
  {
    assert adj.Keys == visited + (adj.Keys - visited);
    assert adj.Keys - visited == {};
    ClosedSetContainsReachable(adj, adj.Keys, root, t);
  }

  /** Every vertex of a tree grown along the records of a closed map is a key. */
  lemma TreeInKeys(adj: AdjMap, root: int, mst: seq<MstEdge>)
    requires Closed(adj) && root in adj && AlongArcs(adj, mst)
    ensures forall x :: x in Tree(root, mst) ==> x in adj
  {
    forall x | x in Tree(root, mst) ensures x in adj {
      var i :| 0 <= i < |Tree(root, mst)| && Tree(root, mst)[i] == x;
      if i > 0 {
        assert Arc(mst[i - 1].1, mst[i - 1].2) in adj[mst[i - 1].0];
      }
    }
  }
}
