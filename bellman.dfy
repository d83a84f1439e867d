/**
 * The passes of `Graph.bellman_ford`. A pass walks the keys in dictionary
 * order and, for each arc u -> v, lowers dist[v] to dist[u] + w when dist[u]
 * is finite and that is smaller. After k passes every walk from the source
 * of at most k arcs is bounded by the table (`BoundedBy`); after |keys| - 1
 * passes a still-improvable arc exists exactly when a negative cycle is
 * reachable.
 */
module BellmanFord {
  import opened Adjacency
  import opened Walks

  /** Python's test `dist[u] != inf and dist[u] + w < dist[v]` on the arc u -> (v, w). */
  predicate Improves(dist: map<int, Dist>, u: int, a: Arc)
    requires u in dist && a.dst in dist
  {
    dist[u].Fin? && Below(dist[u].n + a.w, dist[a.dst])
  }

  /** The arc `a` out of `u` is relaxed against the distance u had when the pass began. */
  ghost predicate RelaxedFrom(d0: map<int, Dist>, dist: map<int, Dist>, u: int, a: Arc)
  {
    u in d0 && (d0[u].Fin? ==> a.dst in dist && dist[a.dst].Fin? && dist[a.dst].n <= d0[u].n + a.w)
  }

  /**
   * The table in a pass that began at d0, once the arcs of the keys
   * order[..i] and the first j arcs of order[i] are handled: it is below
   * d0, witnessed, and finite at `s` with no positive value there.
   */
  ghost predicate Pass(adj: AdjMap, s: int, d0: map<int, Dist>, dist: map<int, Dist>, order: seq<int>, i: int, j: int)
  {
    0 <= i <= |order| && dist.Keys == d0.Keys && Lower(d0, dist) &&
    Witnessed(adj, s, dist) && s in dist && dist[s].Fin? && dist[s].n <= 0 &&
    (forall k, a :: 0 <= k < i && a in Nbrs(adj, order[k]) ==> RelaxedFrom(d0, dist, order[k], a)) &&
    (i < |order| ==>
      forall k :: 0 <= k < j && k < |Nbrs(adj, order[i])| ==>
        RelaxedFrom(d0, dist, order[i], Nbrs(adj, order[i])[k]))
  }

  lemma RelaxedFromLower(d0: map<int, Dist>, dist: map<int, Dist>, d': map<int, Dist>, u: int, a: Arc)
    requires RelaxedFrom(d0, dist, u, a) && Lower(dist, d')
    ensures RelaxedFrom(d0, d', u, a)
  {
  }

  /** The table before the first pass: infinity everywhere but 0 at `s`. */
  lemma Initial(adj: AdjMap, s: int, dist: map<int, Dist>)
    requires dist == (map x | x in adj :: Inf)[s := Fin(0)]
    ensures Witnessed(adj, s, dist)
    ensures BoundedBy(adj, s, dist, 0)
  {
    assert WalkFrom(adj, Walk([s], []), s, s);
    forall w | IsWalk(adj, w) && w.vs[0] == s && |w.ws| <= 0
      ensures w.vs[|w.vs| - 1] in dist && dist[w.vs[|w.vs| - 1]].Fin? && dist[w.vs[|w.vs| - 1]].n <= Sum(w.ws)
    {
      assert |w.vs| == 1;
    }
  }

  lemma PassStart(adj: AdjMap, s: int, dist: map<int, Dist>, order: seq<int>)
    requires Witnessed(adj, s, dist) && s in dist && dist[s].Fin? && dist[s].n <= 0
    ensures Pass(adj, s, dist, dist, order, 0, 0)
  {
  }

  /** Handling arc j of order[i] (lowering its target when the arc improves it) extends the pass by one arc. */
  lemma PassStep(adj: AdjMap, s: int, d0: map<int, Dist>, dist: map<int, Dist>, order: seq<int>, i: int, j: int,
                  u: int, a: Arc)
    requires Closed(adj) && forall x :: x in adj ==> x in dist
    requires Pass(adj, s, d0, dist, order, i, j)
    requires i < |order| && order[i] in adj && 0 <= j < |Nbrs(adj, order[i])|
    requires u == order[i] && a == Nbrs(adj, u)[j]
    ensures u in dist && a.dst in dist
    ensures Improves(dist, u, a) ==> Pass(adj, s, d0, dist[a.dst := Fin(dist[u].n + a.w)], order, i, j + 1)
    ensures !Improves(dist, u, a) ==> Pass(adj, s, d0, dist, order, i, j + 1)
  {
    assert a in adj[u];
    if Improves(dist, u, a) {
      var d' := dist[a.dst := Fin(dist[u].n + a.w)];
      assert Lower(dist, d');
      WitnessStep(adj, s, dist, u, a);
      forall k, b | 0 <= k < i && b in Nbrs(adj, order[k]) ensures RelaxedFrom(d0, d', order[k], b) {
        RelaxedFromLower(d0, dist, d', order[k], b);
      }
      forall k | 0 <= k < j + 1 && k < |Nbrs(adj, u)| ensures RelaxedFrom(d0, d', u, Nbrs(adj, u)[k]) {
        if k < j {
          RelaxedFromLower(d0, dist, d', u, Nbrs(adj, u)[k]);
        }
      }
      assert Pass(adj, s, d0, d', order, i, j + 1);
    } else {
      assert RelaxedFrom(d0, dist, u, a);
    }
  }

  /** With every arc of order[i] handled, the pass moves on to the next key. */
  lemma PassNext(adj: AdjMap, s: int, d0: map<int, Dist>, dist: map<int, Dist>, order: seq<int>, i: int)
    requires 0 <= i < |order| && Pass(adj, s, d0, dist, order, i, |Nbrs(adj, order[i])|)
    ensures Pass(adj, s, d0, dist, order, i + 1, 0)
  {
    forall k, a | 0 <= k < i + 1 && a in Nbrs(adj, order[k]) ensures RelaxedFrom(d0, dist, order[k], a) {
      if k == i {
        var j :| 0 <= j < |Nbrs(adj, order[i])| && Nbrs(adj, order[i])[j] == a;
      }
    }
  }

  /** A full pass over a table bounding the walks of at most k arcs bounds those of k + 1. */
  lemma PassDone(adj: AdjMap, s: int, d0: map<int, Dist>, dist: map<int, Dist>, order: seq<int>, k: nat)
    requires KeyOrder(order, adj)
    requires Pass(adj, s, d0, dist, order, |order|, 0)
    requires BoundedBy(adj, s, d0, k)
    ensures BoundedBy(adj, s, dist, k + 1)
  {
    forall w | IsWalk(adj, w) && w.vs[0] == s && |w.ws| <= k + 1
      ensures w.vs[|w.vs| - 1] in dist && dist[w.vs[|w.vs| - 1]].Fin? && dist[w.vs[|w.vs| - 1]].n <= Sum(w.ws)
    {
      if |w.ws| <= k {
        assert w.vs[|w.vs| - 1] in d0;
      } else {
        var pre := Walk(w.vs[..k + 1], w.ws[..k]);
        Segment(adj, w, 0, k);
        assert pre.ws == w.ws[0..k];
        assert pre.vs[|pre.vs| - 1] == w.vs[k];
        var u, a := w.vs[k], Arc(w.vs[k + 1], w.ws[k]);
        assert a in Nbrs(adj, u);
        var i := IndexOf(order, u);
        assert RelaxedFrom(d0, dist, order[i], a);
        assert w.ws[..k] == w.ws[..|w.ws| - 1];
      }
    }
  }

  /** The arc `a` out of `u` cannot improve the table. */
  ghost predicate Stable(dist: map<int, Dist>, u: int, a: Arc)
  {
    u in dist && a.dst in dist && !Improves(dist, u, a)
  }

  /** The arcs of the keys order[..i], and the first j arcs of order[i], cannot improve the table. */
  ghost predicate Checked(adj: AdjMap, dist: map<int, Dist>, order: seq<int>, i: int, j: int)
  {
    0 <= i <= |order| &&
    (forall k, a :: 0 <= k < i && a in Nbrs(adj, order[k]) ==> Stable(dist, order[k], a)) &&
    (i < |order| ==>
      forall k :: 0 <= k < j && k < |Nbrs(adj, order[i])| ==> Stable(dist, order[i], Nbrs(adj, order[i])[k]))
  }

  lemma CheckNext(adj: AdjMap, dist: map<int, Dist>, order: seq<int>, i: int)
    requires 0 <= i < |order| && Checked(adj, dist, order, i, |Nbrs(adj, order[i])|)
    ensures Checked(adj, dist, order, i + 1, 0)
  {
    forall k, a | 0 <= k < i + 1 && a in Nbrs(adj, order[k]) ensures Stable(dist, order[k], a) {
      if k == i {
        var j :| 0 <= j < |Nbrs(adj, order[i])| && Nbrs(adj, order[i])[j] == a;
      }
    }
  }

  /**
   * An arc that still improves the table after |keys| - 1 passes shows a
   * negative cycle: otherwise every walk from `s` would be bounded, the
   * walk to u extended by the arc among them.
   */
  lemma CheckFails(adj: AdjMap, s: int, dist: map<int, Dist>, k: int, u: int, a: Arc)
    requires Closed(adj) && BoundedBy(adj, s, dist, k) && k >= |adj.Keys| - 1 && k >= 0
    requires Witnessed(adj, s, dist)
    requires u in dist && a in Nbrs(adj, u) && a.dst in dist && Improves(dist, u, a)
    ensures NegativeCycleFrom(adj, s)
  {
    AllWalksBounded(adj, s, dist, k);
    if !NegativeCycleFrom(adj, s) {
      var w :| WalkFrom(adj, w, s, u) && Sum(w.ws) == dist[u].n;
      ExtendWalk(adj, w, s, u, a);
    }
  }

  /** If no arc improves the table, it holds the shortest distances and no negative cycle is reachable. */
  lemma CheckDone(adj: AdjMap, s: int, dist: map<int, Dist>, order: seq<int>)
    requires KeyOrder(order, adj) && Checked(adj, dist, order, |order|, 0)
    requires dist.Keys == adj.Keys + {s}
    requires Witnessed(adj, s, dist) && s in dist && dist[s].Fin? && dist[s].n <= 0
    ensures Relaxed(adj, dist)
    ensures !NegativeCycleFrom(adj, s)
    ensures IsShortestFrom(adj, s, dist)
  {
    forall u, a | u in dist && dist[u].Fin? && a in Nbrs(adj, u)
      ensures a.dst in dist && dist[a.dst].Fin? && dist[a.dst].n <= dist[u].n + a.w
    {
      var i := IndexOf(order, u);
      assert Stable(dist, order[i], a);
    }
    RelaxedNoNegativeCycle(adj, s, dist);
    var c :| WalkFrom(adj, c, s, s) && Sum(c.ws) == dist[s].n;
    ClosedWalkNonNegative(adj, s, c);
    CertificateIsShortest(adj, s, dist);
  }
}
