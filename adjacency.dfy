/**
 * Adjacency lists of a graph on integer vertices, the way `Graph` stores
 * them (a dictionary from vertex to an ordered list of (neighbour, weight)
 * pairs), and the graph-theoretic notions its algorithms are specified with:
 * edges, paths, reachability and cycles.
 */
module Adjacency {

  /** One record of an adjacency list: the neighbour and the edge weight. */
  datatype Arc = Arc(dst: int, w: int)

  type AdjMap = map<int, seq<Arc>>

  /** The neighbour list of `x`; a vertex without a key has no neighbours. */
  function Nbrs(adj: AdjMap, x: int): seq<Arc>
  {
    if x in adj then adj[x] else []
  }

  predicate Distinct(s: seq<int>)
  {
    forall i, j :: 0 <= i < j < |s| ==> s[i] != s[j]
  }

  function Elems(s: seq<int>): set<int>
  {
    set x | x in s
  }

  /** `order` lists every key of `adj` exactly once: the dictionary's iteration order. */
  ghost predicate KeyOrder(order: seq<int>, adj: AdjMap)
  {
    Distinct(order) && (forall x :: x in order <==> x in adj)
  }

  /** Every neighbour is itself a key. */
  ghost predicate Closed(adj: AdjMap)
  {
    forall u, a :: u in adj && a in adj[u] ==> a.dst in adj
  }

  /** Every record u -> (v, w) has its mirror v -> (u, w): what undirected insertion builds. */
  ghost predicate Symmetric(adj: AdjMap)
  {
    forall u, a :: u in adj && a in adj[u] ==> Arc(u, a.w) in Nbrs(adj, a.dst)
  }

  ghost predicate NonNegative(adj: AdjMap)
  {
    forall u, a :: u in adj && a in adj[u] ==> a.w >= 0
  }

  /** Every vertex named in `adj`, as a key or as a neighbour. */
  function Vertices(adj: AdjMap): set<int>
  {
    adj.Keys + set u, a | u in adj && a in adj[u] :: a.dst
  }

  // ---------------------------------------------------------------------
  // Edge insertion (graph.py, add_edge)
  // ---------------------------------------------------------------------

  /** Appends `a` to the end of `u`'s list, creating the key if needed. */
  function WithArc(adj: AdjMap, u: int, a: Arc): AdjMap
  {
    adj[u := Nbrs(adj, u) + [a]]
  }

  /** The key order after `u` is touched: a new key goes last. */
  function WithKey(order: seq<int>, u: int): seq<int>
  {
    if u in order then order else order + [u]
  }

  /** The adjacency map after `add_edge(u, v, w)`. */
  function EdgeAdded(adj: AdjMap, u: int, v: int, w: int, directed: bool): AdjMap
  {
    var once := WithArc(adj, u, Arc(v, w));
    if directed then once else WithArc(once, v, Arc(u, w))
  }

  /** The key order after `add_edge(u, v, w)`. */
  function KeysAdded(order: seq<int>, u: int, v: int, directed: bool): seq<int>
  {
    var once := WithKey(order, u);
    if directed then once else WithKey(once, v)
  }

  /** `add_edge` appends exactly (v, w) to u's list and, when undirected, (u, w) to v's; nothing else changes. */
  lemma EdgeAddedLists(adj: AdjMap, u: int, v: int, w: int, directed: bool, x: int)
    ensures var adj' := EdgeAdded(adj, u, v, w, directed);
      Nbrs(adj', x) ==
        if x == u && x == v && !directed then Nbrs(adj, x) + [Arc(v, w), Arc(u, w)]
        else if x == u then Nbrs(adj, x) + [Arc(v, w)]
        else if x == v && !directed then Nbrs(adj, x) + [Arc(u, w)]
        else Nbrs(adj, x)
  {
    if x == u && x == v && !directed {
      assert Nbrs(adj, x) + [Arc(v, w)] + [Arc(u, w)] == Nbrs(adj, x) + [Arc(v, w), Arc(u, w)];
    }
  }

  /** `add_edge` keeps the order a listing of the keys. */
  lemma EdgeAddedKeyOrder(order: seq<int>, adj: AdjMap, u: int, v: int, w: int, directed: bool)
    requires KeyOrder(order, adj)
    ensures KeyOrder(KeysAdded(order, u, v, directed), EdgeAdded(adj, u, v, w, directed))
  {
    WithKeyOrder(order, adj, u, Arc(v, w));
    if !directed {
      WithKeyOrder(WithKey(order, u), WithArc(adj, u, Arc(v, w)), v, Arc(u, w));
    }
  }

  lemma WithKeyOrder(order: seq<int>, adj: AdjMap, u: int, a: Arc)
    requires KeyOrder(order, adj)
    ensures KeyOrder(WithKey(order, u), WithArc(adj, u, a))
  {
    if u !in order {
      var o := order + [u];
      forall i, j | 0 <= i < j < |o| ensures o[i] != o[j] {
        if j == |order| { assert o[i] in order; }
      }
    }
  }

  /** Undirected insertion keeps the mirror property. */
  lemma EdgeAddedSymmetric(adj: AdjMap, u: int, v: int, w: int)
    requires Symmetric(adj)
    ensures Symmetric(EdgeAdded(adj, u, v, w, false))
  {
    var adj' := EdgeAdded(adj, u, v, w, false);
    forall x, a: Arc | x in adj' && a in adj'[x] ensures Arc(x, a.w) in Nbrs(adj', a.dst) {
      EdgeAddedLists(adj, u, v, w, false, x);
      EdgeAddedLists(adj, u, v, w, false, a.dst);
      if a in Nbrs(adj, x) {
        assert Arc(x, a.w) in Nbrs(adj, a.dst);
      }
    }
  }

  /** A symmetric map is closed: the mirror record makes every neighbour a key. */
  lemma SymmetricIsClosed(adj: AdjMap)
    requires Symmetric(adj)
    ensures Closed(adj)
  {
    forall u, a | u in adj && a in adj[u] ensures a.dst in adj {
      assert Arc(u, a.w) in Nbrs(adj, a.dst);
    }
  }

  /** The measure of the depth-first helpers: the unvisited vertices shrink on each recursive call. */
  lemma MeasureShrinks(adj: AdjMap, v: int, visited: set<int>, n: int, visited': set<int>)
    requires v !in visited && visited + {v} <= visited' && n !in visited' && n in Vertices(adj)
    ensures Vertices(adj) + {n} - visited' < Vertices(adj) + {v} - visited
  {
    assert v !in Vertices(adj) + {n} - visited';
  }

  /** On a closed map the vertices are the keys. */
  lemma ClosedVertices(adj: AdjMap)
    requires Closed(adj)
    ensures Vertices(adj) == adj.Keys
  {
  }

  /** Every neighbour is a vertex. */
  lemma ArcInVertices(adj: AdjMap, v: int, i: int)
    requires 0 <= i < |Nbrs(adj, v)|
    ensures Nbrs(adj, v)[i].dst in Vertices(adj)
  {
    assert v in adj && Nbrs(adj, v)[i] in adj[v];
  }

  // ---------------------------------------------------------------------
  // Paths, reachability and cycles
  // ---------------------------------------------------------------------

  ghost predicate IsEdge(adj: AdjMap, x: int, y: int)
  {
    exists a :: a in Nbrs(adj, x) && a.dst == y
  }

  /** A non-empty vertex sequence whose consecutive vertices are joined by edges. */
  ghost predicate IsPath(adj: AdjMap, p: seq<int>)
  {
    |p| >= 1 && forall i :: 0 <= i < |p| - 1 ==> IsEdge(adj, p[i], p[i + 1])
  }

  ghost predicate Reachable(adj: AdjMap, s: int, t: int)
  {
    exists p :: IsPath(adj, p) && p[0] == s && p[|p| - 1] == t
  }

  /** A closed path of at least one edge. On a symmetric map every edge u-v gives u, v, u. */
  ghost predicate IsCycle(adj: AdjMap, p: seq<int>)
  {
    IsPath(adj, p) && |p| >= 2 && p[0] == p[|p| - 1]
  }

  ghost predicate HasCycle(adj: AdjMap)
  {
    exists p :: IsCycle(adj, p)
  }

  lemma ReachableRefl(adj: AdjMap, s: int)
    ensures Reachable(adj, s, s)
  {
    assert IsPath(adj, [s]);
  }

  lemma PathAppend(adj: AdjMap, p: seq<int>, y: int)
    requires IsPath(adj, p) && IsEdge(adj, p[|p| - 1], y)
    ensures IsPath(adj, p + [y])
  {
    var q := p + [y];
    forall i | 0 <= i < |q| - 1 ensures IsEdge(adj, q[i], q[i + 1]) {
      if i < |p| - 1 {
        assert q[i] == p[i] && q[i + 1] == p[i + 1];
      }
    }
  }

  lemma ReachableStep(adj: AdjMap, s: int, x: int, y: int)
    requires Reachable(adj, s, x) && IsEdge(adj, x, y)
    ensures Reachable(adj, s, y)
  {
    var p :| IsPath(adj, p) && p[0] == s && p[|p| - 1] == x;
    PathAppend(adj, p, y);
    assert (p + [y])[0] == s;
  }

  lemma ReachablePrepend(adj: AdjMap, x: int, y: int, t: int)
    requires IsEdge(adj, x, y) && Reachable(adj, y, t)
    ensures Reachable(adj, x, t)
  {
    var p :| IsPath(adj, p) && p[0] == y && p[|p| - 1] == t;
    var q := [x] + p;
    forall i | 0 <= i < |q| - 1 ensures IsEdge(adj, q[i], q[i + 1]) {
      if i > 0 {
        assert q[i] == p[i - 1] && q[i + 1] == p[i];
      }
    }
    assert IsPath(adj, q) && q[0] == x && q[|q| - 1] == t;
  }

  /**
   * A set that holds `s` and every neighbour of each of its members holds
   * every vertex reachable from `s`.
   */
  lemma ClosedSetContainsReachable(adj: AdjMap, S: set<int>, s: int, t: int)
    requires s in S
    requires forall x, a :: x in S && a in Nbrs(adj, x) ==> a.dst in S
    requires Reachable(adj, s, t)
    ensures t in S
  {
    var p :| IsPath(adj, p) && p[0] == s && p[|p| - 1] == t;
    var k := 0;
    while k < |p| - 1
      invariant 0 <= k <= |p| - 1
      invariant p[k] in S
    {
      assert IsEdge(adj, p[k], p[k + 1]);
      var a :| a in Nbrs(adj, p[k]) && a.dst == p[k + 1];
      k := k + 1;
    }
  }

  /** A self-loop is a cycle. */
  lemma SelfLoopIsCycle(adj: AdjMap, x: int, w: int)
    requires Arc(x, w) in Nbrs(adj, x)
    ensures HasCycle(adj)
  {
    assert IsEdge(adj, x, x);
    assert IsCycle(adj, [x, x]);
  }

  /** On a symmetric map any edge is a cycle: there and straight back. */
  lemma SymmetricEdgeIsCycle(adj: AdjMap, u: int, a: Arc)
    requires Symmetric(adj) && u in adj && a in adj[u]
    ensures HasCycle(adj)
  {
    assert Arc(u, a.w) in Nbrs(adj, a.dst);
    assert IsEdge(adj, u, a.dst) && IsEdge(adj, a.dst, u);
    assert IsCycle(adj, [u, a.dst, u]);
  }

  // ---------------------------------------------------------------------
  // Sequences
  // ---------------------------------------------------------------------

  /** The first position of `x` in `s`. */
  function IndexOf(s: seq<int>, x: int): (k: nat)
    requires x in s
    ensures k < |s| && s[k] == x
    ensures forall j :: 0 <= j < k ==> s[j] != x
  {
    if s[0] == x then 0 else IndexOf(s[1..], x) + 1
  }

  lemma IndexInPrefix(s: seq<int>, x: int, j: int)
    requires 0 <= j <= |s| && x in s[..j]
    ensures x in s && IndexOf(s, x) < j
  {
    var i :| 0 <= i < j && s[..j][i] == x;
    assert s[i] == x;
  }

  function Reverse(s: seq<int>): (r: seq<int>)
    ensures |r| == |s|
    ensures forall i :: 0 <= i < |s| ==> r[i] == s[|s| - 1 - i]
  {
    if s == [] then [] else Reverse(s[1..]) + [s[0]]
  }

  lemma {:induction false} DistinctCard(s: seq<int>)
    requires Distinct(s)
    ensures |Elems(s)| == |s|
  {
    if s != [] {
      DistinctCard(s[1..]);
      assert Elems(s) == Elems(s[1..]) + {s[0]};
      assert s[0] !in Elems(s[1..]);
    }
  }

  /** A duplicate-free sequence drawn from `S` is no longer than `S` is large. */
  lemma DistinctBound(s: seq<int>, S: set<int>)
    requires Distinct(s)
    requires forall i :: 0 <= i < |s| ==> s[i] in S
    ensures |s| <= |S|
  {
    DistinctCard(s);
    assert Elems(s) <= S;
    assert S == Elems(s) + (S - Elems(s));
  }

  /** The dictionary's iteration order is as long as the dictionary. */
  lemma KeyOrderCard(order: seq<int>, adj: AdjMap)
    requires KeyOrder(order, adj)
    ensures |order| == |adj.Keys|
  {
    DistinctCard(order);
    assert Elems(order) == adj.Keys;
  }
}
