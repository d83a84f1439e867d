/**
 * The state of `Graph.dijkstra` and the steps of its loop. The algorithm
 * pops a least (distance, vertex) entry, skips it when it is stale (larger
 * than the recorded distance), and otherwise relaxes every arc out of the
 * vertex, pushing each improved distance.
 *
 * The correctness argument does not depend on the pop order: a finite
 * vertex is either still queued with its current distance or has all its
 * arcs relaxed against it, so an empty queue leaves a relaxed table. The
 * loop ends because each pass either turns a vertex finite, or lowers the
 * finite distances (bounded below when no negative cycle is reachable) at
 * least as much as it grows the queue.
 */
module Dijkstra {
  import opened Adjacency
  import opened Walks
  import opened Heaps

  /** The floor m * n: n arcs of weight at least -m total at least -(m * n). */
  ghost function Depth(m: nat, n: nat): nat
  {
    m * n
  }

  /** No walk from `s` totals less than -B. */
  ghost predicate WalksAbove(adj: AdjMap, s: int, B: int)
  {
    forall w :: IsWalk(adj, w) && w.vs[0] == s ==> Sum(w.ws) + B >= 0
  }

  /**
   * Without a reachable negative cycle, -m * |keys + {s}| bounds every walk
   * from `s` when -m bounds the weights.
   */
  lemma Bottom(adj: AdjMap, s: int, m: nat)
    requires Closed(adj) && FloorOf(adj, m) && !NegativeCycleFrom(adj, s)
    ensures WalksAbove(adj, s, Depth(m, |adj.Keys + {s}|))
  {
    forall w | IsWalk(adj, w) && w.vs[0] == s ensures Sum(w.ws) + Depth(m, |adj.Keys + {s}|) >= 0 {
      WalkLowerBound(adj, s, w, m);
    }
  }

  /** The vertices still at infinity. */
  ghost function Unreached(dist: map<int, Dist>): set<int>
  {
    set x | x in dist && dist[x].Inf?
  }

  /** No finite distance lies below -B. */
  ghost predicate Floored(dist: map<int, Dist>, B: int)
  {
    forall x :: x in dist && dist[x].Fin? ==> dist[x].n + B >= 0
  }

  /** The finite distances of the keys `ks`, each shifted up by B. */
  ghost function Pot(dist: map<int, Dist>, ks: seq<int>, B: int): nat
    requires forall i :: 0 <= i < |ks| ==> ks[i] in dist
    requires Floored(dist, B)
  {
    if ks == [] then 0
    else
      var x := ks[|ks| - 1];
      Pot(dist, ks[..|ks| - 1], B) + (if dist[x].Fin? then dist[x].n + B else 0)
  }

  lemma {:induction false} PotUpdate(dist: map<int, Dist>, ks: seq<int>, B: int, x: int, y: int)
    requires forall i :: 0 <= i < |ks| ==> ks[i] in dist
    requires Distinct(ks) && x in ks && x in dist && dist[x].Fin?
    requires Floored(dist, B) && y + B >= 0
    ensures Floored(dist[x := Fin(y)], B)
    ensures Pot(dist[x := Fin(y)], ks, B) == Pot(dist, ks, B) - dist[x].n + y
    decreases |ks|
  {
    var d' := dist[x := Fin(y)];
    var init := ks[..|ks| - 1];
    var last := ks[|ks| - 1];
    if last == x {
      assert x !in init;
      PotFrame(dist, d', init, B);
    } else {
      assert x in init;
      PotUpdate(dist, init, B, x, y);
    }
  }

  lemma {:induction false} PotFrame(dist: map<int, Dist>, d': map<int, Dist>, ks: seq<int>, B: int)
    requires forall i :: 0 <= i < |ks| ==> ks[i] in dist && ks[i] in d' && d'[ks[i]] == dist[ks[i]]
    requires Floored(dist, B) && Floored(d', B)
    ensures Pot(d', ks, B) == Pot(dist, ks, B)
    decreases |ks|
  {
    if ks != [] {
      PotFrame(dist, d', ks[..|ks| - 1], B);
    }
  }

  /** Every queued entry is no smaller than the recorded, finite, distance of its vertex. */
  ghost predicate Queued(dist: map<int, Dist>, pq: seq<Pair>)
  {
    forall e :: e in pq ==> e.1 in dist && dist[e.1].Fin? && dist[e.1].n <= e.0
  }

  /** The first k arcs of the finite vertex `u` are relaxed against dist[u]. */
  ghost predicate SettledAt(adj: AdjMap, dist: map<int, Dist>, u: int, k: int)
  {
    u in dist && dist[u].Fin? &&
    forall j :: 0 <= j < k && j < |Nbrs(adj, u)| ==>
      Nbrs(adj, u)[j].dst in dist && dist[Nbrs(adj, u)[j].dst].Fin? &&
      dist[Nbrs(adj, u)[j].dst].n <= dist[u].n + Nbrs(adj, u)[j].w
  }

  /** Every finite vertex outside X is queued at its distance or has all its arcs relaxed. */
  ghost predicate Pending(adj: AdjMap, dist: map<int, Dist>, pq: seq<Pair>, X: set<int>)
  {
    forall u :: u in dist && dist[u].Fin? && u !in X ==>
      (dist[u].n, u) in pq || SettledAt(adj, dist, u, |Nbrs(adj, u)|)
  }

  /**
   * The table: `ks` lists its keys once, finite distances are no lower than
   * -B and are lengths of walks from `s`, and `s` is at 0.
   */
  ghost predicate Table(adj: AdjMap, s: int, dist: map<int, Dist>, ks: seq<int>, B: int)
  {
    (forall x :: x in ks <==> x in dist) && Distinct(ks) && Floored(dist, B) &&
    Witnessed(adj, s, dist) && s in dist && dist[s] == Fin(0)
  }

  /** What relaxing arcs against a vertex establishes survives lowering other vertices. */
  lemma SettledLower(adj: AdjMap, dist: map<int, Dist>, d': map<int, Dist>, u: int, k: int)
    requires SettledAt(adj, dist, u, k) && Lower(dist, d') && u in d' && d'[u] == dist[u]
    ensures SettledAt(adj, d', u, k)
  {
  }

  /** The initial table {key: inf, ..., s: 0} with the queue [(0, s)]. */
  lemma Start(adj: AdjMap, s: int, order: seq<int>, dist: map<int, Dist>, ks: seq<int>, B: nat)
    requires KeyOrder(order, adj)
    requires dist == (map x | x in adj :: Inf)[s := Fin(0)]
    requires ks == if s in adj then order else order + [s]
    ensures Table(adj, s, dist, ks, B) && Queued(dist, [(0, s)]) && Pending(adj, dist, [(0, s)], {})
    ensures forall i :: 0 <= i < |ks| ==> ks[i] in dist
  {
    assert WalkFrom(adj, Walk([s], []), s, s);
    assert Witnessed(adj, s, dist);
    assert Distinct(ks);
  }

  /**
   * Popping entry k keeps the queue invariant; the popped vertex may lose
   * its pending entry, unless the entry was stale.
   */
  lemma Pop(adj: AdjMap, dist: map<int, Dist>, pq: seq<Pair>, k: nat)
    requires k < |pq| && Queued(dist, pq) && Pending(adj, dist, pq, {})
    ensures pq[k].1 in dist && dist[pq[k].1].Fin? && dist[pq[k].1].n <= pq[k].0
    ensures Queued(dist, Without(pq, k))
    ensures Pending(adj, dist, Without(pq, k), {pq[k].1})
    ensures pq[k].0 != dist[pq[k].1].n ==> Pending(adj, dist, Without(pq, k), {})
  {
    assert pq[k] in pq;
  }

  /** The state of the loop over the arcs of `v`, popped at its distance d. */
  ghost predicate Relaxing(adj: AdjMap, s: int, dist: map<int, Dist>, pq: seq<Pair>, ks: seq<int>, B: int,
                           v: int, d: int, i: int)
  {
    Table(adj, s, dist, ks, B) && Queued(dist, pq) && Pending(adj, dist, pq, {v}) &&
    v in dist && dist[v] == Fin(d) && SettledAt(adj, dist, v, i)
  }

  /**
   * Without a reachable negative cycle, an improving arc out of `v` (at its
   * distance d) leads neither back to `v` nor to `s`, and the improved
   * distance is a walk length no lower than -B.
   */
  lemma ImproveTarget(adj: AdjMap, s: int, dist: map<int, Dist>, ks: seq<int>, B: int, v: int, d: int, a: Arc)
    requires !NegativeCycleFrom(adj, s) && WalksAbove(adj, s, B)
    requires Table(adj, s, dist, ks, B) && v in dist && dist[v] == Fin(d)
    requires a in Nbrs(adj, v) && a.dst in dist && Below(d + a.w, dist[a.dst])
    ensures a.dst != v && a.dst != s
    ensures d + a.w + B >= 0
    ensures Table(adj, s, dist[a.dst := Fin(d + a.w)], ks, B)
  {
    var x, y := a.dst, d + a.w;
    WitnessStep(adj, s, dist, v, a);
    var w :| WalkFrom(adj, w, s, x) && Sum(w.ws) == y;
    if x == v {
      var wv :| WalkFrom(adj, wv, s, v) && Sum(wv.ws) == d;
      SelfLoopNonNegative(adj, s, wv, v, a);
    }
    if x == s {
      ClosedWalkNonNegative(adj, s, w);
    }
  }

  /** Lowering the distance of x != v to y and pushing (y, x) keeps the queue and the pending vertices. */
  lemma ImproveQueue(adj: AdjMap, dist: map<int, Dist>, pq: seq<Pair>, v: int, x: int, y: int)
    requires Queued(dist, pq) && Pending(adj, dist, pq, {v})
    requires x in dist && x != v && Below(y, dist[x])
    ensures Lower(dist, dist[x := Fin(y)])
    ensures Queued(dist[x := Fin(y)], pq + [(y, x)])
    ensures Pending(adj, dist[x := Fin(y)], pq + [(y, x)], {v})
  {
    var d', pq' := dist[x := Fin(y)], pq + [(y, x)];
    assert Lower(dist, d');
    forall u | u in d' && d'[u].Fin? && u !in {v}
      ensures (d'[u].n, u) in pq' || SettledAt(adj, d', u, |Nbrs(adj, u)|)
    {
      if u != x && (d'[u].n, u) !in pq' {
        SettledLower(adj, dist, d', u, |Nbrs(adj, u)|);
      }
    }
  }

  /** Turning a vertex finite shrinks the unreached set; lowering a finite one lowers Pot by at least one. */
  lemma ImproveMeasure(dist: map<int, Dist>, ks: seq<int>, B: int, x: int, y: int)
    requires forall i :: 0 <= i < |ks| ==> ks[i] in dist
    requires Distinct(ks) && (forall z :: z in dist ==> z in ks) && Floored(dist, B)
    requires x in dist && Below(y, dist[x]) && y + B >= 0
    ensures Floored(dist[x := Fin(y)], B)
    ensures Unreached(dist[x := Fin(y)]) <= Unreached(dist)
    ensures Unreached(dist[x := Fin(y)]) == Unreached(dist) ==>
      Pot(dist[x := Fin(y)], ks, B) + 1 <= Pot(dist, ks, B)
  {
    var d' := dist[x := Fin(y)];
    if dist[x].Inf? {
      assert x in Unreached(dist) && x !in Unreached(d');
    } else {
      assert Unreached(d') == Unreached(dist);
      PotUpdate(dist, ks, B, x, y);
    }
  }

  /** The arc i of `v`, a, improves its target x: x's distance becomes y = d + w and (y, x) is pushed. */
  lemma RelaxImproves(adj: AdjMap, s: int, dist: map<int, Dist>, pq: seq<Pair>, ks: seq<int>, B: int,
                      v: int, d: int, i: int, a: Arc, x: int, y: int)
    requires !NegativeCycleFrom(adj, s) && WalksAbove(adj, s, B)
    requires Relaxing(adj, s, dist, pq, ks, B, v, d, i)
    requires 0 <= i < |Nbrs(adj, v)| && a == Nbrs(adj, v)[i] && x == a.dst && y == d + a.w
    requires x in dist && Below(y, dist[x])
    ensures Relaxing(adj, s, dist[x := Fin(y)], pq + [(y, x)], ks, B, v, d, i + 1)
  {
    ImproveTarget(adj, s, dist, ks, B, v, d, a);
    ImproveQueue(adj, dist, pq, v, x, y);
    ImproveSettled(adj, dist, v, d, i, a, x, y);
  }

  /** After lowering x to y = d + w along arc i of `v`, the first i + 1 arcs of `v` are relaxed. */
  lemma ImproveSettled(adj: AdjMap, dist: map<int, Dist>, v: int, d: int, i: int, a: Arc, x: int, y: int)
    requires SettledAt(adj, dist, v, i) && v in dist && dist[v] == Fin(d)
    requires 0 <= i < |Nbrs(adj, v)| && a == Nbrs(adj, v)[i] && x == a.dst && y == d + a.w
    requires x in dist && x != v && Below(y, dist[x])
    ensures SettledAt(adj, dist[x := Fin(y)], v, i + 1)
  {
    var d' := dist[x := Fin(y)];
    assert Lower(dist, d');
    SettledLower(adj, dist, d', v, i);
  }

  /** The same improvement shrinks the unreached set, or keeps it and lowers Pot by at least one. */
  lemma RelaxImprovesMeasure(adj: AdjMap, s: int, dist: map<int, Dist>, pq: seq<Pair>, ks: seq<int>,
                             B: int, v: int, d: int, i: int, a: Arc, x: int, y: int)
    requires !NegativeCycleFrom(adj, s) && WalksAbove(adj, s, B)
    requires Relaxing(adj, s, dist, pq, ks, B, v, d, i)
    requires forall i :: 0 <= i < |ks| ==> ks[i] in dist
    requires 0 <= i < |Nbrs(adj, v)| && a == Nbrs(adj, v)[i] && x == a.dst && y == d + a.w
    requires x in dist && Below(y, dist[x])
    ensures forall i :: 0 <= i < |ks| ==> ks[i] in dist[x := Fin(y)]
    ensures Floored(dist[x := Fin(y)], B)
    ensures Unreached(dist[x := Fin(y)]) <= Unreached(dist)
    ensures Unreached(dist[x := Fin(y)]) == Unreached(dist) ==> Pot(dist[x := Fin(y)], ks, B) + 1 <= Pot(dist, ks, B)
  {
    ImproveTarget(adj, s, dist, ks, B, v, d, a);
    ImproveMeasure(dist, ks, B, x, y);
  }

  /** The arc i of `v`, a, does not improve its target, which therefore is already relaxed against `v`. */
  lemma RelaxKeeps(adj: AdjMap, s: int, dist: map<int, Dist>, pq: seq<Pair>, ks: seq<int>, B: int,
                   v: int, d: int, i: int, a: Arc)
    requires Relaxing(adj, s, dist, pq, ks, B, v, d, i)
    requires 0 <= i < |Nbrs(adj, v)| && a == Nbrs(adj, v)[i]
    requires a.dst in dist && !Below(d + a.w, dist[a.dst])
    ensures Relaxing(adj, s, dist, pq, ks, B, v, d, i + 1)
  {
  }

  /** Once every arc of `v` is relaxed, `v` is settled and no vertex is exempt. */
  lemma Settle(adj: AdjMap, s: int, dist: map<int, Dist>, pq: seq<Pair>, ks: seq<int>, B: int, v: int, d: int)
    requires Relaxing(adj, s, dist, pq, ks, B, v, d, |Nbrs(adj, v)|)
    ensures Pending(adj, dist, pq, {})
  {
  }

  /** An empty queue leaves the shortest distances from `s`. */
  lemma Finish(adj: AdjMap, s: int, dist: map<int, Dist>, ks: seq<int>, B: int)
    requires Table(adj, s, dist, ks, B) && Pending(adj, dist, [], {})
    ensures IsShortestFrom(adj, s, dist)
  {
    forall u, a | u in dist && dist[u].Fin? && a in Nbrs(adj, u)
      ensures a.dst in dist && dist[a.dst].Fin? && dist[a.dst].n <= dist[u].n + a.w
    {
      assert SettledAt(adj, dist, u, |Nbrs(adj, u)|);
      var j :| 0 <= j < |Nbrs(adj, u)| && Nbrs(adj, u)[j] == a;
    }
    CertificateIsShortest(adj, s, dist);
  }
}
