/**
 * Weighted walks, extended-integer distances and what it means for a
 * distance table to hold shortest distances. Dijkstra and Bellman-Ford are
 * both specified against `IsShortestFrom`; `Relaxed` (no edge can be
 * relaxed) and `Witnessed` (every finite distance is the length of a walk)
 * are the certificate both algorithms establish.
 */
module Walks {
  import opened Adjacency

  /** A distance: a finite integer or +infinity (Python's float('infinity')). */
  datatype Dist = Fin(n: int) | Inf

  /** A walk: vertices vs[0..k] and the weights of the k arcs taken between them. */
  datatype Walk = Walk(vs: seq<int>, ws: seq<int>)

  function Sum(ws: seq<int>): int
  {
    if ws == [] then 0 else Sum(ws[..|ws| - 1]) + ws[|ws| - 1]
  }

  lemma {:induction false} SumAppend(a: seq<int>, b: seq<int>)
    ensures Sum(a + b) == Sum(a) + Sum(b)
  {
    if b != [] {
      assert (a + b)[..|a + b| - 1] == a + b[..|b| - 1];
      SumAppend(a, b[..|b| - 1]);
    } else {
      assert a + b == a;
    }
  }

  ghost predicate IsWalk(adj: AdjMap, w: Walk)
  {
    |w.vs| == |w.ws| + 1 &&
    forall i :: 0 <= i < |w.ws| ==> Arc(w.vs[i + 1], w.ws[i]) in Nbrs(adj, w.vs[i])
  }

  ghost predicate WalkFrom(adj: AdjMap, w: Walk, s: int, t: int)
  {
    IsWalk(adj, w) && w.vs[0] == s && w.vs[|w.vs| - 1] == t
  }

  function Extend(w: Walk, a: Arc): Walk
  {
    Walk(w.vs + [a.dst], w.ws + [a.w])
  }

  lemma ExtendWalk(adj: AdjMap, w: Walk, s: int, u: int, a: Arc)
    requires WalkFrom(adj, w, s, u) && a in Nbrs(adj, u)
    ensures WalkFrom(adj, Extend(w, a), s, a.dst)
    ensures Sum(Extend(w, a).ws) == Sum(w.ws) + a.w
  {
    var e := Extend(w, a);
    assert e.ws[..|e.ws| - 1] == w.ws;
    forall i | 0 <= i < |e.ws| ensures Arc(e.vs[i + 1], e.ws[i]) in Nbrs(adj, e.vs[i]) {
      if i < |w.ws| {
        assert e.vs[i + 1] == w.vs[i + 1] && e.ws[i] == w.ws[i] && e.vs[i] == w.vs[i];
      }
    }
  }

  lemma WalkIsPath(adj: AdjMap, w: Walk)
    requires IsWalk(adj, w)
    ensures IsPath(adj, w.vs)
  {
    forall i | 0 <= i < |w.vs| - 1 ensures IsEdge(adj, w.vs[i], w.vs[i + 1]) {
      assert Arc(w.vs[i + 1], w.ws[i]) in Nbrs(adj, w.vs[i]);
    }
  }

  /** Every path can be walked: pick, for every step, one arc that makes it. */
  lemma {:induction false} PathIsWalk(adj: AdjMap, p: seq<int>)
    requires IsPath(adj, p)
    ensures exists w :: IsWalk(adj, w) && w.vs == p
  {
    if |p| == 1 {
      assert IsWalk(adj, Walk(p, []));
    } else {
      var q := p[..|p| - 1];
      assert IsPath(adj, q) by {
        forall i | 0 <= i < |q| - 1 ensures IsEdge(adj, q[i], q[i + 1]) {
          assert q[i] == p[i] && q[i + 1] == p[i + 1];
        }
      }
      PathIsWalk(adj, q);
      var w :| IsWalk(adj, w) && w.vs == q;
      assert IsEdge(adj, p[|p| - 2], p[|p| - 1]);
      var a :| a in Nbrs(adj, p[|p| - 2]) && a.dst == p[|p| - 1];
      ExtendWalk(adj, w, p[0], p[|p| - 2], a);
      assert Extend(w, a).vs == p;
    }
  }

  // ---------------------------------------------------------------------
  // Distance tables
  // ---------------------------------------------------------------------

  /** Python's `x < d` where `d` may be float('infinity'). */
  predicate Below(x: int, d: Dist)
  {
    d.Inf? || x < d.n
  }

  /** `d'` is nowhere above `dist`. */
  ghost predicate Lower(dist: map<int, Dist>, d': map<int, Dist>)
  {
    forall x :: x in dist ==> x in d' && (dist[x].Fin? ==> d'[x].Fin? && d'[x].n <= dist[x].n)
  }

  /** No edge leaving a vertex with a finite distance can still be relaxed. */
  ghost predicate Relaxed(adj: AdjMap, dist: map<int, Dist>)
  {
    forall u, a :: u in dist && dist[u].Fin? && a in Nbrs(adj, u) ==>
      a.dst in dist && dist[a.dst].Fin? && dist[a.dst].n <= dist[u].n + a.w
  }

  /** Every finite distance is the length of some walk from `s`. */
  ghost predicate Witnessed(adj: AdjMap, s: int, dist: map<int, Dist>)
  {
    forall v :: v in dist && dist[v].Fin? ==>
      exists w :: WalkFrom(adj, w, s, v) && Sum(w.ws) == dist[v].n
  }

  /**
   * `dist` holds shortest distances from `s`: a vertex is at infinity exactly
   * when it is unreachable, and a finite entry is the length of a walk from
   * `s` that no walk from `s` undercuts.
   */
  ghost predicate IsShortestFrom(adj: AdjMap, s: int, dist: map<int, Dist>)
  {
    forall v :: v in dist ==>
      (dist[v].Inf? <==> !Reachable(adj, s, v)) &&
      (dist[v].Fin? ==>
        (exists w :: WalkFrom(adj, w, s, v) && Sum(w.ws) == dist[v].n) &&
        (forall w :: WalkFrom(adj, w, s, v) ==> dist[v].n <= Sum(w.ws)))
  }

  /** `p` leads from `s` to the closed walk `c`, and `c` has negative length. */
  ghost predicate NegativeCycleVia(adj: AdjMap, s: int, p: Walk, c: Walk)
  {
    IsWalk(adj, c) && WalkFrom(adj, p, s, c.vs[0]) && c.vs[|c.vs| - 1] == c.vs[0] && Sum(c.ws) < 0
  }

  /** A closed walk of negative length reachable from `s`. */
  ghost predicate NegativeCycleFrom(adj: AdjMap, s: int)
  {
    exists p: Walk, c: Walk :: NegativeCycleVia(adj, s, p, c)
  }

  /** Along a walk out of a finite vertex, a relaxed table grows by at most the walk's length. */
  lemma {:induction false} RelaxedBound(adj: AdjMap, dist: map<int, Dist>, w: Walk)
    requires Relaxed(adj, dist) && IsWalk(adj, w)
    requires w.vs[0] in dist && dist[w.vs[0]].Fin?
    decreases |w.ws|
    ensures var t := w.vs[|w.vs| - 1];
      t in dist && dist[t].Fin? && dist[t].n <= dist[w.vs[0]].n + Sum(w.ws)
  {
    if w.ws != [] {
      var k := |w.ws| - 1;
      var pre := Walk(w.vs[..k + 1], w.ws[..k]);
      assert IsWalk(adj, pre) by {
        forall i | 0 <= i < |pre.ws| ensures Arc(pre.vs[i + 1], pre.ws[i]) in Nbrs(adj, pre.vs[i]) {
          assert pre.vs[i + 1] == w.vs[i + 1] && pre.ws[i] == w.ws[i] && pre.vs[i] == w.vs[i];
        }
      }
      RelaxedBound(adj, dist, pre);
      assert Arc(w.vs[k + 1], w.ws[k]) in Nbrs(adj, w.vs[k]);
    }
  }

  /** A relaxed table that is finite at `s` leaves no negative cycle reachable from `s`. */
  lemma RelaxedNoNegativeCycle(adj: AdjMap, s: int, dist: map<int, Dist>)
    requires Relaxed(adj, dist) && s in dist && dist[s].Fin?
    ensures !NegativeCycleFrom(adj, s)
  {
    forall p: Walk, c: Walk | IsWalk(adj, c) && WalkFrom(adj, p, s, c.vs[0]) && c.vs[|c.vs| - 1] == c.vs[0]
      ensures !NegativeCycleVia(adj, s, p, c)
    {
      RelaxedBound(adj, dist, p);
      RelaxedBound(adj, dist, c);
    }
  }

  /** A relaxed, witnessed table with `s` at 0 holds the shortest distances from `s`. */
  lemma CertificateIsShortest(adj: AdjMap, s: int, dist: map<int, Dist>)
    requires Relaxed(adj, dist) && Witnessed(adj, s, dist)
    requires s in dist && dist[s] == Fin(0)
    ensures IsShortestFrom(adj, s, dist)
  {
    forall v | v in dist
      ensures dist[v].Inf? <==> !Reachable(adj, s, v)
      ensures dist[v].Fin? ==> forall w :: WalkFrom(adj, w, s, v) ==> dist[v].n <= Sum(w.ws)
    {
      forall w | WalkFrom(adj, w, s, v) ensures dist[v].Fin? && dist[v].n <= Sum(w.ws) {
        RelaxedBound(adj, dist, w);
      }
      if Reachable(adj, s, v) {
        var p :| IsPath(adj, p) && p[0] == s && p[|p| - 1] == v;
        PathIsWalk(adj, p);
        var w :| IsWalk(adj, w) && w.vs == p;
        assert WalkFrom(adj, w, s, v);
      }
      if dist[v].Fin? {
        var w :| WalkFrom(adj, w, s, v) && Sum(w.ws) == dist[v].n;
        WalkIsPath(adj, w);
      }
    }
  }

  /** Shortest-distance tables over the same vertices agree. */
  lemma ShortestUnique(adj: AdjMap, s: int, d1: map<int, Dist>, d2: map<int, Dist>)
    requires IsShortestFrom(adj, s, d1) && IsShortestFrom(adj, s, d2)
    requires d1.Keys == d2.Keys
    ensures d1 == d2
  {
    forall v | v in d1 ensures d1[v] == d2[v] {
      if d1[v].Fin? {
        var w1 :| WalkFrom(adj, w1, s, v) && Sum(w1.ws) == d1[v].n;
        var w2 :| WalkFrom(adj, w2, s, v) && Sum(w2.ws) == d2[v].n;
        assert d1[v].n <= Sum(w2.ws) && d2[v].n <= Sum(w1.ws);
      }
    }
  }

  // ---------------------------------------------------------------------
  // Bellman-Ford: walks with a bounded number of arcs
  // ---------------------------------------------------------------------

  /** Every walk from `s` of at most `k` arcs ends at a finite vertex no farther than the walk's length. */
  ghost predicate BoundedBy(adj: AdjMap, s: int, dist: map<int, Dist>, k: int)
  {
    forall w :: IsWalk(adj, w) && w.vs[0] == s && |w.ws| <= k ==>
      w.vs[|w.vs| - 1] in dist && dist[w.vs[|w.vs| - 1]].Fin? &&
      dist[w.vs[|w.vs| - 1]].n <= Sum(w.ws)
  }

  /** The arcs i..j of a walk form a walk. */
  lemma Segment(adj: AdjMap, w: Walk, i: int, j: int)
    requires IsWalk(adj, w) && 0 <= i <= j < |w.vs|
    ensures IsWalk(adj, Walk(w.vs[i..j + 1], w.ws[i..j]))
  {
    var seg := Walk(w.vs[i..j + 1], w.ws[i..j]);
    forall k | 0 <= k < |seg.ws| ensures Arc(seg.vs[k + 1], seg.ws[k]) in Nbrs(adj, seg.vs[k]) {
      assert seg.vs[k + 1] == w.vs[i + k + 1] && seg.ws[k] == w.ws[i + k] && seg.vs[k] == w.vs[i + k];
    }
  }

  /** Cutting the closed sub-walk between two visits of one vertex leaves a walk with the same ends. */
  lemma Cut(adj: AdjMap, w: Walk, i: int, j: int)
    requires IsWalk(adj, w) && 0 <= i < j < |w.vs| && w.vs[i] == w.vs[j]
    ensures var cut := Walk(w.vs[..i] + w.vs[j..], w.ws[..i] + w.ws[j..]);
      IsWalk(adj, cut) && cut.vs[0] == w.vs[0] && cut.vs[|cut.vs| - 1] == w.vs[|w.vs| - 1] &&
      |cut.vs| < |w.vs| && Sum(cut.ws) + Sum(w.ws[i..j]) == Sum(w.ws) &&
      (forall x :: x in cut.vs ==> x in w.vs)
  {
    CutIsWalk(adj, w, i, j);
    CutSum(w.ws, i, j);
    CutKeeps(w.vs, i, j);
  }

  lemma CutKeeps(vs: seq<int>, i: int, j: int)
    requires 0 <= i < j < |vs|
    ensures forall x :: x in vs[..i] + vs[j..] ==> x in vs
  {
    var cut := vs[..i] + vs[j..];
    forall x | x in cut ensures x in vs {
      var k :| 0 <= k < |cut| && cut[k] == x;
      if k < i { assert cut[k] == vs[k]; } else { assert cut[k] == vs[k - i + j]; }
    }
  }

  lemma CutIsWalk(adj: AdjMap, w: Walk, i: int, j: int)
    requires IsWalk(adj, w) && 0 <= i < j < |w.vs| && w.vs[i] == w.vs[j]
    ensures IsWalk(adj, Walk(w.vs[..i] + w.vs[j..], w.ws[..i] + w.ws[j..]))
  {
    var cut := Walk(w.vs[..i] + w.vs[j..], w.ws[..i] + w.ws[j..]);
    forall k | 0 <= k < |cut.ws| ensures Arc(cut.vs[k + 1], cut.ws[k]) in Nbrs(adj, cut.vs[k]) {
      if k < i {
        assert cut.ws[k] == w.ws[k] && cut.vs[k] == w.vs[k];
        assert cut.vs[k + 1] == w.vs[k + 1];
      } else {
        assert cut.ws[k] == w.ws[k - i + j] && cut.vs[k] == w.vs[k - i + j];
        assert cut.vs[k + 1] == w.vs[k + 1 - i + j];
      }
    }
  }

  lemma CutSum(ws: seq<int>, i: int, j: int)
    requires 0 <= i <= j <= |ws|
    ensures Sum(ws[..i] + ws[j..]) + Sum(ws[i..j]) == Sum(ws)
  {
    var a, b, c := ws[..i], ws[i..j], ws[j..];
    assert ws[..j] == a + b;
    assert ws == ws[..j] + c;
    SumThree(a, b, c);
  }

  lemma SumThree(a: seq<int>, b: seq<int>, c: seq<int>)
    ensures Sum(a + c) + Sum(b) == Sum(a + b + c)
  {
    SumAppend(a + b, c);
    SumAppend(a, b);
    SumAppend(a, c);
  }

  /** Without a reachable negative cycle, a closed sub-walk of a walk from `s` has a non-negative sum. */
  lemma LoopNonNegative(adj: AdjMap, s: int, w: Walk, i: int, j: int)
    requires !NegativeCycleFrom(adj, s)
    requires IsWalk(adj, w) && w.vs[0] == s && 0 <= i < j < |w.vs| && w.vs[i] == w.vs[j]
    ensures Sum(w.ws[i..j]) >= 0
  {
    Segment(adj, w, 0, i);
    Segment(adj, w, i, j);
    var pre := Walk(w.vs[..i + 1], w.ws[..i]);
    var cyc := Walk(w.vs[i..j + 1], w.ws[i..j]);
    assert IsWalk(adj, cyc) && WalkFrom(adj, pre, s, cyc.vs[0]) && cyc.vs[|cyc.vs| - 1] == cyc.vs[0];
    assert !NegativeCycleVia(adj, s, pre, cyc);
  }

  /** `w'` is a walk from `s` to where `w` ends, of at most `n` vertices and no longer than `w`. */
  ghost predicate ShortenedTo(adj: AdjMap, s: int, w: Walk, w': Walk, n: int)
  {
    IsWalk(adj, w') && |w.vs| > 0 && w'.vs[0] == s && w'.vs[|w'.vs| - 1] == w.vs[|w.vs| - 1] &&
    |w'.vs| <= n && Sum(w'.ws) <= Sum(w.ws)
  }

  /**
   * Without a reachable negative cycle, a walk whose vertices lie in `K` can
   * be shortened, by cutting out closed sub-walks, to one with at most |K|
   * vertices that is no longer and still ends where it did.
   */
  lemma {:induction false} ShortenWalk(adj: AdjMap, s: int, w: Walk, K: set<int>)
    requires !NegativeCycleFrom(adj, s)
    requires IsWalk(adj, w) && w.vs[0] == s
    requires forall x :: x in w.vs ==> x in K
    ensures exists w' :: ShortenedTo(adj, s, w, w', |K|)
    decreases |w.vs|
  {
    if Distinct(w.vs) {
      DistinctBound(w.vs, K);
      assert ShortenedTo(adj, s, w, w, |K|);
    } else {
      var i, j :| 0 <= i < j < |w.vs| && w.vs[i] == w.vs[j];
      LoopNonNegative(adj, s, w, i, j);
      Cut(adj, w, i, j);
      var cut := Walk(w.vs[..i] + w.vs[j..], w.ws[..i] + w.ws[j..]);
      ShortenWalk(adj, s, cut, K);
      var w' :| ShortenedTo(adj, s, cut, w', |K|);
      assert ShortenedTo(adj, s, w, w', |K|);
    }
  }

  /**
   * If every walk of at most |keys| - 1 arcs is bounded and no negative cycle
   * is reachable, every walk from `s` is bounded.
   */
  lemma AllWalksBounded(adj: AdjMap, s: int, dist: map<int, Dist>, k: int)
    requires Closed(adj)
    requires BoundedBy(adj, s, dist, k)
    requires k >= |adj.Keys| - 1 && k >= 0
    ensures !NegativeCycleFrom(adj, s) ==>
      forall w :: IsWalk(adj, w) && w.vs[0] == s ==>
        w.vs[|w.vs| - 1] in dist && dist[w.vs[|w.vs| - 1]].Fin? &&
        dist[w.vs[|w.vs| - 1]].n <= Sum(w.ws)
  {
    if !NegativeCycleFrom(adj, s) {
      forall w | IsWalk(adj, w) && w.vs[0] == s
        ensures w.vs[|w.vs| - 1] in dist && dist[w.vs[|w.vs| - 1]].Fin? &&
          dist[w.vs[|w.vs| - 1]].n <= Sum(w.ws)
      {
        if s in adj {
          forall i | 0 <= i < |w.vs| ensures w.vs[i] in adj.Keys {
            if i > 0 {
              assert Arc(w.vs[i], w.ws[i - 1]) in Nbrs(adj, w.vs[i - 1]);
            }
          }
          assert forall x :: x in w.vs ==> x in adj.Keys;
          ShortenWalk(adj, s, w, adj.Keys);
          var w' :| ShortenedTo(adj, s, w, w', |adj.Keys|);
          assert |w'.ws| <= k;
        } else {
          assert |w.ws| > 0 ==> Arc(w.vs[1], w.ws[0]) in Nbrs(adj, w.vs[0]);
        }
      }
    }
  }

  // ---------------------------------------------------------------------
  // Extending a distance table along an arc; lower bounds on walk lengths
  // ---------------------------------------------------------------------

  /** Setting `a.dst` to dist[v] + a.w, for an arc `a` out of `v`, keeps every finite entry witnessed. */
  lemma WitnessStep(adj: AdjMap, s: int, dist: map<int, Dist>, v: int, a: Arc)
    requires Witnessed(adj, s, dist) && v in dist && dist[v].Fin? && a in Nbrs(adj, v)
    ensures exists w :: WalkFrom(adj, w, s, a.dst) && Sum(w.ws) == dist[v].n + a.w
    ensures Witnessed(adj, s, dist[a.dst := Fin(dist[v].n + a.w)])
  {
    var w :| WalkFrom(adj, w, s, v) && Sum(w.ws) == dist[v].n;
    ExtendWalk(adj, w, s, v, a);
    var d' := dist[a.dst := Fin(dist[v].n + a.w)];
    forall x | x in d' && d'[x].Fin? ensures exists w :: WalkFrom(adj, w, s, x) && Sum(w.ws) == d'[x].n {
      if x == a.dst {
        assert WalkFrom(adj, Extend(w, a), s, x) && Sum(Extend(w, a).ws) == d'[x].n;
      }
    }
  }

  /** Without a reachable negative cycle, a closed walk through `s` is not negative. */
  lemma ClosedWalkNonNegative(adj: AdjMap, s: int, c: Walk)
    requires !NegativeCycleFrom(adj, s) && WalkFrom(adj, c, s, s)
    ensures Sum(c.ws) >= 0
  {
    var p := Walk([s], []);
    assert WalkFrom(adj, p, s, c.vs[0]);
    assert !NegativeCycleVia(adj, s, p, c);
  }

  /** Without a reachable negative cycle, a self-loop at a vertex reachable by `w` is not negative. */
  lemma SelfLoopNonNegative(adj: AdjMap, s: int, w: Walk, v: int, a: Arc)
    requires !NegativeCycleFrom(adj, s) && WalkFrom(adj, w, s, v) && a in Nbrs(adj, v) && a.dst == v
    ensures a.w >= 0
  {
    var c := Walk([v, v], [a.w]);
    assert a == Arc(v, a.w);
    assert IsWalk(adj, c);
    assert Sum(c.ws) == Sum([]) + a.w;
    assert !NegativeCycleVia(adj, s, w, c);
  }

  /** Every arc weight is at least -m. */
  ghost predicate FloorOf(adj: AdjMap, m: int)
  {
    forall u, a :: u in adj && a in adj[u] ==> a.w + m >= 0
  }

  /** A bound below which no weight of `arcs` lies. */
  function ListFloor(arcs: seq<Arc>): (m: nat)
    ensures forall a :: a in arcs ==> a.w + m >= 0
  {
    if arcs == [] then 0
    else
      var m := ListFloor(arcs[..|arcs| - 1]);
      var w := arcs[|arcs| - 1].w;
      assert forall a :: a in arcs ==> a in arcs[..|arcs| - 1] || a == arcs[|arcs| - 1];
      if w + m >= 0 then m else -w
  }

  /** A bound below which no weight of the lists of the keys `ks` lies. */
  function MapFloor(adj: AdjMap, ks: seq<int>): (m: nat)
    ensures forall i, a :: 0 <= i < |ks| && a in Nbrs(adj, ks[i]) ==> a.w + m >= 0
  {
    if ks == [] then 0
    else
      var m := MapFloor(adj, ks[..|ks| - 1]);
      var m' := ListFloor(Nbrs(adj, ks[|ks| - 1]));
      assert forall i :: 0 <= i < |ks| - 1 ==> ks[i] == ks[..|ks| - 1][i];
      if m' <= m then m else m'
  }

  lemma MapFloorIsFloor(adj: AdjMap, order: seq<int>)
    requires KeyOrder(order, adj)
    ensures FloorOf(adj, MapFloor(adj, order))
  {
    forall u, a | u in adj && a in adj[u] ensures a.w + MapFloor(adj, order) >= 0 {
      var i := IndexOf(order, u);
      assert a in Nbrs(adj, order[i]);
    }
  }

  /** A walk of k arcs over weights no lower than -m is no shorter than -m * k. */
  lemma {:induction false} WalkFloor(adj: AdjMap, w: Walk, m: nat)
    requires IsWalk(adj, w) && FloorOf(adj, m)
    ensures Sum(w.ws) + m * |w.ws| >= 0
    decreases |w.ws|
  {
    if w.ws != [] {
      var k := |w.ws| - 1;
      var pre := Walk(w.vs[..k + 1], w.ws[..k]);
      Segment(adj, w, 0, k);
      assert pre.ws == w.ws[0..k];
      WalkFloor(adj, pre, m);
      assert Arc(w.vs[k + 1], w.ws[k]) in Nbrs(adj, w.vs[k]);
      assert m * |w.ws| == m * k + m;
    }
  }

  /** On a closed map, every vertex of a walk from `s` is a key or `s` itself. */
  lemma WalkInKeys(adj: AdjMap, s: int, w: Walk)
    requires Closed(adj) && IsWalk(adj, w) && w.vs[0] == s
    ensures forall x :: x in w.vs ==> x in adj.Keys + {s}
  {
    forall i | 0 <= i < |w.vs| ensures w.vs[i] in adj.Keys + {s} {
      if i > 0 {
        assert Arc(w.vs[i], w.ws[i - 1]) in Nbrs(adj, w.vs[i - 1]);
      }
    }
  }

  /**
   * Without a reachable negative cycle, no walk from `s` is shorter than
   * -m * |keys + {s}|, where -m bounds the weights from below.
   */
  lemma WalkLowerBound(adj: AdjMap, s: int, w: Walk, m: nat)
    requires Closed(adj) && FloorOf(adj, m) && !NegativeCycleFrom(adj, s)
    requires IsWalk(adj, w) && w.vs[0] == s
    ensures Sum(w.ws) + m * |adj.Keys + {s}| >= 0
  {
    var K := adj.Keys + {s};
    WalkInKeys(adj, s, w);
    ShortenWalk(adj, s, w, K);
    var w' :| ShortenedTo(adj, s, w, w', |K|);
    WalkFloor(adj, w', m);
    MulMonotone(m, |w'.ws|, |K|);
  }

  lemma MulMonotone(m: nat, a: nat, b: nat)
    requires a <= b
    ensures m * a <= m * b
  {
  }

  /** With no negative weight, no walk is negative, so no negative cycle exists. */
  lemma NonNegativeNoNegativeCycle(adj: AdjMap, s: int)
    requires NonNegative(adj)
    ensures !NegativeCycleFrom(adj, s)
  {
    assert FloorOf(adj, 0);
    forall p: Walk, c: Walk | IsWalk(adj, c) ensures !NegativeCycleVia(adj, s, p, c) {
      WalkFloor(adj, c, 0);
    }
  }
}
