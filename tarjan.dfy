/**
 * What the tables of `find_bridges` pin down. Two runs whose tables both
 * meet `Bridges.Forest` over every key agree on the discovery times, the
 * parents and the low values, and so they report the same bridges, up to
 * the order of the list. A depth-first search over ordered adjacency lists
 * from keys taken in a fixed order can go only one way, and the low value
 * of each vertex is the least of its candidates.
 */
module Tarjan {
  import opened Adjacency
  import opened Bridges

  // ---------------------------------------------------------------------
  // Counting
  // ---------------------------------------------------------------------

  /** The times 0 .. n - 1. */
  function Times(n: nat): (r: set<int>)
    ensures forall k :: k in r <==> 0 <= k < n
    ensures |r| == n
  {
    if n == 0 then {} else Times(n - 1) + {n - 1}
  }

  /** The discovery times of the vertices of `order`, in that order. */
  function Stamps(order: seq<int>, disc: map<int, int>): (r: seq<int>)
    requires forall i :: 0 <= i < |order| ==> order[i] in disc
    ensures |r| == |order| && forall i :: 0 <= i < |order| ==> r[i] == disc[order[i]]
  {
    if order == [] then [] else [disc[order[0]]] + Stamps(order[1..], disc)
  }

  /** Stamped tables over every key use every time below their size. */
  lemma Onto(adj: AdjMap, order: seq<int>, disc: map<int, int>, time: int, t: int)
    requires KeyOrder(order, adj) && disc.Keys == adj.Keys
    requires Stamped(disc, time) && 0 <= t < time
    ensures exists x :: x in disc && disc[x] == t
  {
    if forall x :: x in disc ==> disc[x] != t {
      forall i | 0 <= i < |order| ensures order[i] in disc {
        assert order[i] in order;
        assert order[i] in adj;
      }
      var vals := Stamps(order, disc);
      forall i, j | 0 <= i < j < |vals| ensures vals[i] != vals[j] {
        assert order[i] != order[j];
      }
      assert Distinct(vals);
      forall i | 0 <= i < |vals| ensures vals[i] in Times(time) - {t} {
        var x := order[i];
        assert vals[i] == disc[x] && x in disc;
        assert 0 <= disc[x] < time && disc[x] != t;
      }
      DistinctBound(vals, Times(time) - {t});
      KeyOrderCard(order, adj);
      assert false;
    }
  }

  // ---------------------------------------------------------------------
  // The discovery order is determined
  // ---------------------------------------------------------------------

  /** The order-related part of a forest over every key. */
  ghost predicate DfsTables(adj: AdjMap, order: seq<int>, disc: map<int, int>, par: map<int, Option<int>>, n: int)
  {
    Stamped(disc, n) && par.Keys == disc.Keys && disc.Keys == adj.Keys &&
    forall x :: x in disc ==>
      Shaped(adj, disc, par, x) && KeyFirst(order, disc, par, x) &&
      (par[x].Some? ==> par[x].value in disc && disc[par[x].value] < disc[x])
  }

  lemma ForestDfs(adj: AdjMap, order: seq<int>, disc: map<int, int>, low: map<int, int>,
                  par: map<int, Option<int>>, bridges: seq<(int, int)>, n: int)
    requires Forest(adj, order, disc, low, par, bridges, n) && disc.Keys == adj.Keys
    ensures DfsTables(adj, order, disc, par, n)
  {
    forall x | x in disc
      ensures Shaped(adj, disc, par, x) && KeyFirst(order, disc, par, x) &&
              (par[x].Some? ==> par[x].value in disc && disc[par[x].value] < disc[x])
    {
      assert Seen(disc, x);
      if par[x].Some? {
        assert TreeEdge(disc, low, par, x);
      }
    }
  }

  /** Both tables stamp the same vertices below `t`, with the same times and parents. */
  ghost predicate SameUpTo(d1: map<int, int>, p1: map<int, Option<int>>, d2: map<int, int>, p2: map<int, Option<int>>,
                           t: int)
  {
    (forall y :: y in d1 && d1[y] < t <==> y in d2 && d2[y] < t) &&
    (forall y :: y in d1 && d1[y] < t ==> y in p1 && y in p2 && d2[y] == d1[y] && p2[y] == p1[y])
  }

  /** When one table discovers a root at t, the other discovers a root at t too. */
  lemma RootBoth(adj: AdjMap, order: seq<int>, n: int, t: int,
                 d1: map<int, int>, p1: map<int, Option<int>>, d2: map<int, int>, p2: map<int, Option<int>>,
                 a: int, b: int)
    requires DfsTables(adj, order, d1, p1, n) && DfsTables(adj, order, d2, p2, n)
    requires SameUpTo(d1, p1, d2, p2, t) || SameUpTo(d2, p2, d1, p1, t)
    requires a in d1 && d1[a] == t && p1[a].None?
    requires b in d2 && d2[b] == t
    ensures p2[b].None?
  {
  }

  /** Two roots discovered at t are the same key: the first one in `order` not yet discovered. */
  lemma RootsAgree(adj: AdjMap, order: seq<int>, n: int, t: int,
                   d1: map<int, int>, p1: map<int, Option<int>>, d2: map<int, int>, p2: map<int, Option<int>>,
                   a: int, b: int)
    requires KeyOrder(order, adj)
    requires DfsTables(adj, order, d1, p1, n) && DfsTables(adj, order, d2, p2, n)
    requires SameUpTo(d1, p1, d2, p2, t)
    requires a in d1 && d1[a] == t && p1[a].None?
    requires b in d2 && d2[b] == t && p2[b].None?
    ensures a == b
  {
    assert KeyFirst(order, d1, p1, a) && KeyFirst(order, d2, p2, b);
    var ka, kb := IndexOf(order, a), IndexOf(order, b);
    assert ka == kb;
  }

  /**
   * Two children discovered at t hang below the same parent (the latest
   * discovered vertex with an arc to an undiscovered one) through the same
   * arc (its first such arc), so they are the same vertex.
   */
  lemma ChildrenAgree(adj: AdjMap, order: seq<int>, n: int, t: int,
                      d1: map<int, int>, p1: map<int, Option<int>>, d2: map<int, int>, p2: map<int, Option<int>>,
                      a: int, b: int)
    requires DfsTables(adj, order, d1, p1, n) && DfsTables(adj, order, d2, p2, n)
    requires SameUpTo(d1, p1, d2, p2, t)
    requires a in d1 && d1[a] == t && p1[a].Some?
    requires b in d2 && d2[b] == t && p2[b].Some?
    ensures a == b && p1[a] == p2[b]
  {
    var x1, x2 := p1[a].value, p2[b].value;
    assert Shaped(adj, d1, p1, a) && Shaped(adj, d2, p2, b);
    assert x1 in d1 && d1[x1] < t && x2 in d2 && d2[x2] < t;
    assert x1 in d2 && d2[x1] == d1[x1] && x2 in d1 && d1[x2] == d2[x2];
    var j1 :| 0 <= j1 < |Nbrs(adj, x1)| && Nbrs(adj, x1)[j1].dst == a && Before(adj, d1, x1, j1, t);
    var j2 :| 0 <= j2 < |Nbrs(adj, x2)| && Nbrs(adj, x2)[j2].dst == b && Before(adj, d2, x2, j2, t);
    assert !(b in d1 && d1[b] < t) && !(a in d2 && d2[a] < t);
    assert Opened(adj, d1, d1[x1], a) && Opened(adj, d2, d2[x2], b);
    assert d1[x1] < d1[x2] ==> Before(adj, d1, x2, |Nbrs(adj, x2)|, t);
    assert d2[x2] < d2[x1] ==> Before(adj, d2, x1, |Nbrs(adj, x1)|, t);
    assert d1[x1] == d1[x2];
    assert x1 == x2;
    assert j1 == j2;
  }

  /** The vertex stamped t is the same in both tables, with the same parent. */
  lemma SameStep(adj: AdjMap, order: seq<int>, n: int, t: int,
                 d1: map<int, int>, p1: map<int, Option<int>>, d2: map<int, int>, p2: map<int, Option<int>>)
    requires KeyOrder(order, adj)
    requires DfsTables(adj, order, d1, p1, n) && DfsTables(adj, order, d2, p2, n)
    requires SameUpTo(d1, p1, d2, p2, t) && 0 <= t < n
    ensures SameUpTo(d1, p1, d2, p2, t + 1)
  {
    Onto(adj, order, d1, n, t);
    Onto(adj, order, d2, n, t);
    var a :| a in d1 && d1[a] == t;
    var b :| b in d2 && d2[b] == t;
    if p1[a].None? && p2[b].None? {
      RootsAgree(adj, order, n, t, d1, p1, d2, p2, a, b);
    } else if p1[a].None? {
      RootBoth(adj, order, n, t, d1, p1, d2, p2, a, b);
    } else if p2[b].None? {
      RootBoth(adj, order, n, t, d2, p2, d1, p1, b, a);
    } else {
      ChildrenAgree(adj, order, n, t, d1, p1, d2, p2, a, b);
    }
    assert a == b && p1[a] == p2[b];
    forall y | y in d1 && d1[y] < t + 1 ensures y in d2 && d2[y] < t + 1 {
      if d1[y] == t {
        assert y == a;
      }
    }
    forall y | y in d2 && d2[y] < t + 1 ensures y in d1 && d1[y] < t + 1 {
      if d2[y] == t {
        assert y == b;
      }
    }
  }

  lemma {:induction false} SameBelow(adj: AdjMap, order: seq<int>, n: int, t: int,
                                     d1: map<int, int>, p1: map<int, Option<int>>,
                                     d2: map<int, int>, p2: map<int, Option<int>>)
    requires KeyOrder(order, adj)
    requires DfsTables(adj, order, d1, p1, n) && DfsTables(adj, order, d2, p2, n)
    requires 0 <= t <= n
    ensures SameUpTo(d1, p1, d2, p2, t)
    decreases t
  {
    if t > 0 {
      SameBelow(adj, order, n, t - 1, d1, p1, d2, p2);
      SameStep(adj, order, n, t - 1, d1, p1, d2, p2);
    }
  }

  /** Depth-first tables over every key are unique. */
  lemma DfsUnique(adj: AdjMap, order: seq<int>, n: int,
                  d1: map<int, int>, p1: map<int, Option<int>>, d2: map<int, int>, p2: map<int, Option<int>>)
    requires KeyOrder(order, adj)
    requires DfsTables(adj, order, d1, p1, n) && DfsTables(adj, order, d2, p2, n)
    ensures d1 == d2 && p1 == p2
  {
    SameBelow(adj, order, n, n, d1, p1, d2, p2);
    assert d1.Keys == d2.Keys;
    forall y | y in d1 ensures d2[y] == d1[y] && p2[y] == p1[y] {
      assert d1[y] < n;
    }
  }

  // ---------------------------------------------------------------------
  // The low values are determined
  // ---------------------------------------------------------------------

  /** The low-value part of a forest. */
  ghost predicate LowTables(adj: AdjMap, disc: map<int, int>, low: map<int, int>, par: map<int, Option<int>>)
  {
    LowBelow(disc, low) && par.Keys == disc.Keys &&
    forall x :: x in disc ==>
      ArcsBound(adj, disc, low, x, par[x], |Nbrs(adj, x)|) &&
      LowAttained(adj, disc, low, par, x, par[x], |Nbrs(adj, x)|) &&
      (par[x].Some? ==> TreeEdge(disc, low, par, x))
  }

  lemma ForestLow(adj: AdjMap, order: seq<int>, disc: map<int, int>, low: map<int, int>,
                  par: map<int, Option<int>>, bridges: seq<(int, int)>, n: int)
    requires Forest(adj, order, disc, low, par, bridges, n)
    ensures LowTables(adj, disc, low, par)
  {
    forall x | x in disc
      ensures ArcsBound(adj, disc, low, x, par[x], |Nbrs(adj, x)|) &&
              LowAttained(adj, disc, low, par, x, par[x], |Nbrs(adj, x)|) &&
              (par[x].Some? ==> TreeEdge(disc, low, par, x))
    {
      assert Seen(disc, x);
    }
  }

  /**
   * Once the low values below x agree, the candidate that supplies low[x]
   * in one table bounds low[x] in the other.
   */
  lemma LowUpper(adj: AdjMap, disc: map<int, int>, par: map<int, Option<int>>,
                 la: map<int, int>, lb: map<int, int>, x: int)
    requires LowTables(adj, disc, la, par) && LowTables(adj, disc, lb, par) && x in disc
    requires forall c :: c in disc && disc[c] > disc[x] ==> la[c] == lb[c]
    ensures lb[x] <= la[x]
  {
    assert LowAttained(adj, disc, la, par, x, par[x], |Nbrs(adj, x)|);
    if la[x] != disc[x] {
      var j :| 0 <= j < |Nbrs(adj, x)| && LowFrom(disc, la, par, x, par[x], Nbrs(adj, x)[j].dst);
      var m := Nbrs(adj, x)[j].dst;
      if par[m] == Some(x) && la[x] == la[m] {
        assert TreeEdge(disc, lb, par, m);
      } else {
        assert ArcsBound(adj, disc, lb, x, par[x], |Nbrs(adj, x)|);
      }
    }
  }

  lemma {:induction false} LowsFrom(adj: AdjMap, disc: map<int, int>, par: map<int, Option<int>>,
                                    la: map<int, int>, lb: map<int, int>, n: int, t: int)
    requires LowTables(adj, disc, la, par) && LowTables(adj, disc, lb, par) && Stamped(disc, n)
    requires 0 <= t <= n
    ensures forall x :: x in disc && disc[x] >= t ==> la[x] == lb[x]
    decreases n - t
  {
    if t < n {
      LowsFrom(adj, disc, par, la, lb, n, t + 1);
      forall x | x in disc && disc[x] == t ensures la[x] == lb[x] {
        LowUpper(adj, disc, par, la, lb, x);
        LowUpper(adj, disc, par, lb, la, x);
      }
    }
  }

  // ---------------------------------------------------------------------
  // The bridges are determined
  // ---------------------------------------------------------------------

  /** A list without repeats holds each of its bridges once. */
  lemma {:induction false} UnrepeatedCount(bs: seq<(int, int)>, e: (int, int))
    requires Unrepeated(bs)
    ensures multiset(bs)[e] == if e in bs then 1 else 0
  {
    if bs != [] {
      assert bs == [bs[0]] + bs[1..];
      assert Unrepeated(bs[1..]) by {
        forall i, j | 0 <= i < j < |bs[1..]| ensures bs[1..][i] != bs[1..][j] {
          assert bs[1..][i] == bs[i + 1] && bs[1..][j] == bs[j + 1];
        }
      }
      assert bs[0] !in bs[1..] by {
        forall k | 0 <= k < |bs[1..]| ensures bs[1..][k] != bs[0] {
          assert bs[1..][k] == bs[k + 1];
        }
      }
      UnrepeatedCount(bs[1..], e);
      assert multiset(bs) == multiset{bs[0]} + multiset(bs[1..]);
    }
  }

  /**
   * Two forests over every key in the same key order are the same tables,
   * and their bridge lists are permutations of each other.
   */
  lemma ForestUnique(adj: AdjMap, order: seq<int>, n: int,
                     d1: map<int, int>, l1: map<int, int>, p1: map<int, Option<int>>, b1: seq<(int, int)>,
                     d2: map<int, int>, l2: map<int, int>, p2: map<int, Option<int>>, b2: seq<(int, int)>)
    requires KeyOrder(order, adj)
    requires Forest(adj, order, d1, l1, p1, b1, n) && d1.Keys == adj.Keys
    requires Forest(adj, order, d2, l2, p2, b2, n) && d2.Keys == adj.Keys
    ensures d1 == d2 && p1 == p2 && l1 == l2
    ensures multiset(b1) == multiset(b2)
  {
    ForestDfs(adj, order, d1, l1, p1, b1, n);
    ForestDfs(adj, order, d2, l2, p2, b2, n);
    DfsUnique(adj, order, n, d1, p1, d2, p2);
    ForestLow(adj, order, d1, l1, p1, b1, n);
    ForestLow(adj, order, d2, l2, p2, b2, n);
    LowsFrom(adj, d1, p1, l1, l2, n, 0);
    forall x | x in l1 ensures x in l2 && l2[x] == l1[x] {
      assert x in d1 && d1[x] >= 0;
    }
    assert l1.Keys == l2.Keys;
    assert l1 == l2;
    forall e ensures multiset(b1)[e] == multiset(b2)[e] {
      UnrepeatedCount(b1, e);
      UnrepeatedCount(b2, e);
      assert e in b1 <==> IsBridge(e, d1.Keys, d1, l1, p1);
      assert e in b2 <==> IsBridge(e, d2.Keys, d2, l2, p2);
    }
  }
}
