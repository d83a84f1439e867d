/**
 * The recursive helper of `Graph.find_bridges` (graph.py's nested
 * `dfs(vertex, parent)`): Tarjan's discovery/low tables over the adjacency
 * map, a shared time counter, and the list of reported bridges.
 *
 * The ghost map `par` records, for every discovered vertex, the `parent`
 * argument its call received; the DFS tree edges are the pairs
 * (par[c].value, c).
 */
module Bridges {
  import opened Adjacency

  datatype Option<T> = None | Some(value: T)

  /** The discovered vertices carry the distinct times 0 .. time - 1. */
  ghost predicate Stamped(disc: map<int, int>, time: int)
  {
    |disc| == time &&
    (forall x :: x in disc ==> 0 <= disc[x] < time) &&
    (forall x, y :: x in disc && y in disc && x != y ==> disc[x] != disc[y])
  }

  /** Every discovered vertex has a low value, never above its discovery time. */
  ghost predicate LowBelow(disc: map<int, int>, low: map<int, int>)
  {
    low.Keys == disc.Keys && forall x :: x in low ==> low[x] <= disc[x]
  }

  /** `m'` keeps every entry of `m`. */
  ghost predicate Agree(m: map<int, int>, m': map<int, int>)
  {
    forall x :: x in m ==> x in m' && m'[x] == m[x]
  }

  ghost predicate AgreePar(m: map<int, Option<int>>, m': map<int, Option<int>>)
  {
    forall x :: x in m ==> x in m' && m'[x] == m[x]
  }

  /**
   * The first k arcs of `x` lead to discovered vertices, and each of them
   * that does not lead back to the parent `x` was called with bounds low[x]
   * by the neighbour's discovery time.
   */
  ghost predicate ArcsBound(adj: AdjMap, disc: map<int, int>, low: map<int, int>, x: int,
                            parent: Option<int>, k: int)
  {
    x in low &&
    forall j :: 0 <= j < k && j < |Nbrs(adj, x)| ==>
      Nbrs(adj, x)[j].dst in disc && (parent == Some(Nbrs(adj, x)[j].dst) || low[x] <= disc[Nbrs(adj, x)[j].dst])
  }

  /** `c` hangs below its tree parent: discovered later, with a low value no smaller than the parent's. */
  ghost predicate TreeEdge(disc: map<int, int>, low: map<int, int>, par: map<int, Option<int>>, c: int)
  {
    c in par && c in disc && c in low && par[c].Some? && par[c].value in disc && par[c].value in low &&
    disc[par[c].value] < disc[c] && low[par[c].value] <= low[c]
  }

  /** `b` is the tree edge into some `c` of `C` whose subtree reaches no higher than `c`'s parent's time. */
  ghost predicate IsBridge(b: (int, int), C: set<int>, disc: map<int, int>, low: map<int, int>,
                           par: map<int, Option<int>>)
  {
    b.1 in C && b.1 in par && par[b.1] == Some(b.0) && b.0 in disc && b.1 in low && low[b.1] > disc[b.0]
  }

  /** `bs` lists exactly the bridges into the vertices of `C`. */
  ghost predicate BridgesOf(bs: seq<(int, int)>, C: set<int>, disc: map<int, int>, low: map<int, int>,
                            par: map<int, Option<int>>)
  {
    forall b :: b in bs <==> IsBridge(b, C, disc, low, par)
  }

  /** No bridge is listed twice. */
  ghost predicate Unrepeated(bs: seq<(int, int)>)
  {
    forall i, j :: 0 <= i < j < |bs| ==> bs[i] != bs[j]
  }

  // ---------------------------------------------------------------------
  // low from below: the value is attained by one of its candidates
  // ---------------------------------------------------------------------

  /**
   * The neighbour `n` supplies low[x]: either `n` is a tree child of `x`
   * with the same low value, or `n` is not the parent and low[x] is its
   * discovery time.
   */
  ghost predicate LowFrom(disc: map<int, int>, low: map<int, int>, par: map<int, Option<int>>,
                          x: int, parent: Option<int>, n: int)
  {
    n in disc && n in low && n in par && x in low &&
    ((par[n] == Some(x) && low[x] == low[n]) || (Some(n) != parent && low[x] == disc[n]))
  }

  /**
   * low[x] is x's own discovery time or is supplied by one of its first k
   * arcs. With the upper bounds of LowBelow, ArcsBound and TreeEdge this
   * makes low[x] the least of disc[x], the low values of x's tree children
   * and the discovery times of its other neighbours than the parent.
   */
  ghost predicate LowAttained(adj: AdjMap, disc: map<int, int>, low: map<int, int>, par: map<int, Option<int>>,
                              x: int, parent: Option<int>, k: int)
  {
    x in disc && x in low &&
    (low[x] == disc[x] ||
     exists j :: 0 <= j < k && j < |Nbrs(adj, x)| && LowFrom(disc, low, par, x, parent, Nbrs(adj, x)[j].dst))
  }

  // ---------------------------------------------------------------------
  // The depth-first order: which vertex is discovered next
  // ---------------------------------------------------------------------

  /** The first k arcs of `x` lead to vertices discovered before time `t`. */
  ghost predicate Before(adj: AdjMap, disc: map<int, int>, x: int, k: int, t: int)
  {
    forall a :: 0 <= a < k && a < |Nbrs(adj, x)| ==>
      Nbrs(adj, x)[a].dst in disc && disc[Nbrs(adj, x)[a].dst] < t
  }

  /** Every vertex stamped after `lo` and before `c` had handled all its arcs when `c` was discovered. */
  ghost predicate Opened(adj: AdjMap, disc: map<int, int>, lo: int, c: int)
  {
    c in disc &&
    forall y :: y in disc && lo < disc[y] < disc[c] ==> Before(adj, disc, y, |Nbrs(adj, y)|, disc[c])
  }

  /** Some arc of `x` leads to `c`, and every earlier arc of `x` to a vertex discovered before `c`. */
  ghost predicate FirstOpen(adj: AdjMap, disc: map<int, int>, x: int, c: int)
  {
    c in disc &&
    exists j :: 0 <= j < |Nbrs(adj, x)| && Nbrs(adj, x)[j].dst == c && Before(adj, disc, x, j, disc[c])
  }

  /**
   * `c` was discovered where a depth-first search discovers it: a root once
   * every vertex discovered before it was done; a child through the first
   * arc of its parent to an undiscovered vertex, once every vertex
   * discovered after the parent was done.
   */
  ghost predicate Shaped(adj: AdjMap, disc: map<int, int>, par: map<int, Option<int>>, c: int)
  {
    c in par && c in disc &&
    (par[c].None? ==> Opened(adj, disc, -1, c)) &&
    (par[c].Some? ==> par[c].value in disc && FirstOpen(adj, disc, par[c].value, c) &&
                      Opened(adj, disc, disc[par[c].value], c))
  }

  // ---------------------------------------------------------------------
  // The state of one call of dfs(v, parent)
  // ---------------------------------------------------------------------

  /**
   * The tables of a call that started from `disc`, `low`, `par` at `time`:
   * `v` is stamped `time` with its `parent`, old entries are kept, and every
   * vertex discovered since is stamped from `time` on.
   */
  ghost predicate Tables(v: int, parent: Option<int>, time: int,
                         disc: map<int, int>, low: map<int, int>, par: map<int, Option<int>>,
                         disc': map<int, int>, low': map<int, int>, par': map<int, Option<int>>)
  {
    LowBelow(disc', low') && par'.Keys == disc'.Keys && low.Keys == disc.Keys &&
    v !in disc && v in disc' && disc'[v] == time && par'[v] == parent &&
    Agree(disc, disc') && Agree(low, low') && AgreePar(par, par') &&
    (parent.Some? ==> parent.value in disc) &&
    (forall x :: x in disc ==> disc[x] < time) &&
    (forall x :: x in disc' && x !in disc ==> disc'[x] >= time)
  }

  /**
   * The first `i` arcs of `v`, and every arc of every vertex discovered
   * below it, are handled, and each low value is attained by the arcs
   * handled.
   */
  ghost predicate ArcsDone(adj: AdjMap, v: int, parent: Option<int>, i: int, disc: map<int, int>,
                           disc': map<int, int>, low': map<int, int>, par': map<int, Option<int>>)
  {
    (forall x :: x in disc' && x !in disc && x != v && x in par' ==>
      ArcsBound(adj, disc', low', x, par'[x], |Nbrs(adj, x)|) &&
      LowAttained(adj, disc', low', par', x, par'[x], |Nbrs(adj, x)|)) &&
    ArcsBound(adj, disc', low', v, parent, i) && LowAttained(adj, disc', low', par', v, parent, i)
  }

  /** Every vertex discovered below `v` hangs below a parent that was also discovered in this call. */
  ghost predicate TreeDone(v: int, disc: map<int, int>,
                           disc': map<int, int>, low': map<int, int>, par': map<int, Option<int>>)
  {
    forall c :: c in disc' && c !in disc && c != v ==>
      TreeEdge(disc', low', par', c) && par'[c].value in disc' && par'[c].value !in disc
  }

  /** Every vertex discovered below `v` was called from a record of its parent. */
  ghost predicate TreeArcs(adj: AdjMap, v: int, disc: map<int, int>, par': map<int, Option<int>>)
  {
    forall c :: c in par' && c !in disc && c != v ==> par'[c].Some? && IsEdge(adj, par'[c].value, c)
  }

  /** Every vertex discovered below `v` was discovered in depth-first order. */
  ghost predicate Shapes(adj: AdjMap, v: int, disc: map<int, int>, disc': map<int, int>, par': map<int, Option<int>>)
  {
    forall c :: c in disc' && c !in disc && c != v ==> Shaped(adj, disc', par', c)
  }

  /**
   * The bridges reported since the call started are listed once each and
   * are exactly those into the vertices discovered below `v`.
   */
  ghost predicate Reported(v: int, disc: map<int, int>, bridges: seq<(int, int)>,
                           disc': map<int, int>, low': map<int, int>, par': map<int, Option<int>>,
                           bridges': seq<(int, int)>)
  {
    |bridges'| >= |bridges| && bridges'[..|bridges|] == bridges && Unrepeated(bridges'[|bridges|..]) &&
    BridgesOf(bridges'[|bridges|..], disc'.Keys - disc.Keys - {v}, disc', low', par')
  }

  ghost predicate LoopState(adj: AdjMap, v: int, parent: Option<int>, i: int, time: int,
                            disc: map<int, int>, low: map<int, int>, par: map<int, Option<int>>, bridges: seq<(int, int)>,
                            disc': map<int, int>, low': map<int, int>, par': map<int, Option<int>>,
                            bridges': seq<(int, int)>)
  {
    Tables(v, parent, time, disc, low, par, disc', low', par') &&
    ArcsDone(adj, v, parent, i, disc, disc', low', par') &&
    TreeDone(v, disc, disc', low', par') && TreeArcs(adj, v, disc, par') && Shapes(adj, v, disc, disc', par') &&
    Reported(v, disc, bridges, disc', low', par', bridges')
  }

  /**
   * Python's `dfs(vertex, parent)`. Stamps `v` with the current time and
   * walks its arcs in order (each one handled by `BridgeArc`).
   */
  method BridgeDfs(adj: AdjMap, v: int, parent: Option<int>,
                   disc: map<int, int>, low: map<int, int>, time: int, bridges: seq<(int, int)>,
                   ghost par: map<int, Option<int>>)
    returns (disc': map<int, int>, low': map<int, int>, time': int, bridges': seq<(int, int)>,
             ghost par': map<int, Option<int>>)
    requires v !in disc && (parent.Some? ==> parent.value in disc)
    requires Stamped(disc, time) && LowBelow(disc, low) && par.Keys == disc.Keys
    ensures Stamped(disc', time')
    ensures disc'.Keys <= disc.Keys + {v} + Vertices(adj)
    ensures LoopState(adj, v, parent, |Nbrs(adj, v)|, time, disc, low, par, bridges, disc', low', par', bridges')
    decreases Vertices(adj) + {v} - disc.Keys, 1
  {
    disc' := disc[v := time];
    low' := low[v := time];
    par' := par[v := parent];
    time' := time + 1;
    bridges' := bridges;
    LoopStart(adj, v, parent, time, disc, low, par, bridges);
    var i := 0;
    while i < |Nbrs(adj, v)|
      invariant 0 <= i <= |Nbrs(adj, v)|
      invariant Stamped(disc', time')
      invariant disc'.Keys <= disc.Keys + {v} + Vertices(adj)
      invariant LoopState(adj, v, parent, i, time, disc, low, par, bridges, disc', low', par', bridges')
    {
      disc', low', time', bridges', par' :=
        BridgeArc(adj, v, parent, i, time, disc, low, par, bridges, disc', low', time', bridges', par');
      i := i + 1;
    }
  }

  /**
   * One pass of the `for neighbor` loop of `dfs(v, parent)`, on arc i of
   * `v`: an undiscovered neighbour is explored, low[v] takes its low value,
   * and the tree edge v -> n is reported once n's subtree cannot reach above
   * v; any other neighbour than `parent` lowers low[v] to its discovery time.
   */
  method BridgeArc(adj: AdjMap, v: int, parent: Option<int>, i: int, ghost time: int,
                   ghost disc: map<int, int>, ghost low: map<int, int>, ghost par: map<int, Option<int>>,
                   ghost bridges: seq<(int, int)>,
                   d: map<int, int>, l: map<int, int>, t: int, b: seq<(int, int)>, ghost p: map<int, Option<int>>)
    returns (disc': map<int, int>, low': map<int, int>, time': int, bridges': seq<(int, int)>,
             ghost par': map<int, Option<int>>)
    requires 0 <= i < |Nbrs(adj, v)|
    requires Stamped(d, t) && d.Keys <= disc.Keys + {v} + Vertices(adj)
    requires LoopState(adj, v, parent, i, time, disc, low, par, bridges, d, l, p, b)
    ensures Stamped(disc', time') && disc'.Keys <= disc.Keys + {v} + Vertices(adj)
    ensures LoopState(adj, v, parent, i + 1, time, disc, low, par, bridges, disc', low', par', bridges')
    decreases Vertices(adj) + {v} - disc.Keys, 0
  {
    var n := Nbrs(adj, v)[i].dst;
    if n !in d {
      ChildShrinks(adj, v, parent, time, disc, low, par, d, l, p, i);
      var l2, b2;
      disc', l2, time', b2, par' := BridgeDfs(adj, n, Some(v), d, l, t, b, p);
      low' := l2[v := if l2[v] <= l2[n] then l2[v] else l2[n]];
      bridges' := b2;
      if low'[n] > disc'[v] {
        bridges' := bridges' + [(v, n)];
      }
      ChildStep(adj, v, parent, i, time, disc, low, par, bridges, t, d, l, p, b, n, disc', l2, par', b2,
                low', bridges');
    } else {
      disc', low', time', bridges', par' := d, l, t, b, p;
      if Some(n) != parent {
        low' := low'[v := if low'[v] <= disc'[n] then low'[v] else disc'[n]];
      }
      OtherArc(adj, v, parent, i, time, disc, low, par, bridges, d, l, p, b, low');
    }
  }

  // ---------------------------------------------------------------------
  // The steps of the loop in BridgeDfs
  // ---------------------------------------------------------------------

  /** A neighbour not yet discovered lies inside the measure, which shrinks for its call. */
  lemma ChildShrinks(adj: AdjMap, v: int, parent: Option<int>, time: int,
                     disc: map<int, int>, low: map<int, int>, par: map<int, Option<int>>,
                     d: map<int, int>, l: map<int, int>, p: map<int, Option<int>>, i: int)
    requires Tables(v, parent, time, disc, low, par, d, l, p)
    requires 0 <= i < |Nbrs(adj, v)| && Nbrs(adj, v)[i].dst !in d
    ensures var n := Nbrs(adj, v)[i].dst;
      n in Vertices(adj) && Vertices(adj) + {n} - d.Keys < Vertices(adj) + {v} - disc.Keys
  {
    ArcInVertices(adj, v, i);
    forall x | x in disc.Keys + {v} ensures x in d.Keys {
      if x != v {
        assert x in disc;
      }
    }
    MeasureShrinks(adj, v, disc.Keys, Nbrs(adj, v)[i].dst, d.Keys);
  }

  /**
   * Arc i of `v` leads to a discovered vertex: unless it is the parent,
   * low[v] drops to that vertex's discovery time, and the loop state covers
   * i + 1 arcs.
   */
  lemma OtherArc(adj: AdjMap, v: int, parent: Option<int>, i: int, time: int,
                 disc: map<int, int>, low: map<int, int>, par: map<int, Option<int>>, bridges: seq<(int, int)>,
                 d: map<int, int>, l: map<int, int>, p: map<int, Option<int>>, b: seq<(int, int)>,
                 l': map<int, int>)
    requires LoopState(adj, v, parent, i, time, disc, low, par, bridges, d, l, p, b)
    requires 0 <= i < |Nbrs(adj, v)| && Nbrs(adj, v)[i].dst in d
    requires var n := Nbrs(adj, v)[i].dst;
      l' == if Some(n) != parent then l[v := if l[v] <= d[n] then l[v] else d[n]] else l
    ensures LoopState(adj, v, parent, i + 1, time, disc, low, par, bridges, d, l', p, b)
  {
    var n := Nbrs(adj, v)[i].dst;
    assert v in l && n in l && n in p;
    if Some(n) != parent {
      ArcStep(adj, v, parent, i, time, disc, low, par, bridges, d, l, p, b, l'[v]);
    } else {
      ArcStep(adj, v, parent, i, time, disc, low, par, bridges, d, l, p, b, l[v]);
      assert l[v := l[v]] == l;
    }
  }

  /** Stamping `v` starts the loop state with no arc handled. */
  lemma LoopStart(adj: AdjMap, v: int, parent: Option<int>, time: int,
                  disc: map<int, int>, low: map<int, int>, par: map<int, Option<int>>, bridges: seq<(int, int)>)
    requires v !in disc && (parent.Some? ==> parent.value in disc)
    requires Stamped(disc, time) && LowBelow(disc, low) && par.Keys == disc.Keys
    ensures Stamped(disc[v := time], time + 1)
    ensures LoopState(adj, v, parent, 0, time, disc, low, par, bridges,
                      disc[v := time], low[v := time], par[v := parent], bridges)
  {
    StampNew(disc, time, v);
    StartTables(adj, v, parent, time, disc, low, par);
    StartReported(adj, v, parent, time, disc, low, par, bridges);
  }

  lemma StartTables(adj: AdjMap, v: int, parent: Option<int>, time: int,
                    disc: map<int, int>, low: map<int, int>, par: map<int, Option<int>>)
    requires v !in disc && (parent.Some? ==> parent.value in disc)
    requires Stamped(disc, time) && LowBelow(disc, low) && par.Keys == disc.Keys
    ensures Tables(v, parent, time, disc, low, par, disc[v := time], low[v := time], par[v := parent])
    ensures ArcsDone(adj, v, parent, 0, disc, disc[v := time], low[v := time], par[v := parent])
  {
  }

  lemma StartReported(adj: AdjMap, v: int, parent: Option<int>, time: int,
                      disc: map<int, int>, low: map<int, int>, par: map<int, Option<int>>, bridges: seq<(int, int)>)
    requires v !in disc
    requires par.Keys == disc.Keys
    ensures TreeDone(v, disc, disc[v := time], low[v := time], par[v := parent])
    ensures TreeArcs(adj, v, disc, par[v := parent])
    ensures Shapes(adj, v, disc, disc[v := time], par[v := parent])
    ensures Reported(v, disc, bridges, disc[v := time], low[v := time], par[v := parent], bridges)
  {
    var d, l, p := disc[v := time], low[v := time], par[v := parent];
    assert TreeDone(v, disc, d, l, p);
    assert TreeArcs(adj, v, disc, p);
    assert Shapes(adj, v, disc, d, p);
    assert d.Keys - disc.Keys - {v} == {};
    assert bridges[|bridges|..] == [];
  }

  lemma StampNew(disc: map<int, int>, time: int, v: int)
    requires Stamped(disc, time) && v !in disc
    ensures Stamped(disc[v := time], time + 1)
  {
    var d := disc[v := time];
    assert d.Keys == disc.Keys + {v};
    forall x, y | x in d && y in d && x != y ensures d[x] != d[y] {
      if x != v && y != v {
        assert disc[x] != disc[y];
      }
    }
  }

  lemma ArcsFrame(adj: AdjMap, d: map<int, int>, l: map<int, int>, d': map<int, int>, l': map<int, int>,
                  x: int, parent: Option<int>, k: int)
    requires ArcsBound(adj, d, l, x, parent, k)
    requires Agree(d, d') && x in l' && l'[x] <= l[x]
    ensures ArcsBound(adj, d', l', x, parent, k)
  {
  }

  /** Tables that keep every entry keep every entry but one, and so does a copy updated at that one. */
  lemma AgreeBut(l: map<int, int>, l': map<int, int>, v: int, m: int)
    requires Agree(l, l')
    ensures Agree(l - {v}, l') && l.Keys <= l'.Keys
    ensures Agree(l - {v}, l'[v := m]) && l.Keys <= l'[v := m].Keys
  {
    forall x | x in l - {v} ensures x in l'[v := m] && l'[v := m][x] == l[x] {
      assert x != v && x in l;
    }
  }

  /**
   * low[x] stays attained when the tables grow, x keeps its low value, and
   * so does every vertex but `v`, which is no tree child of `x`.
   */
  lemma LowFrame(adj: AdjMap, d: map<int, int>, l: map<int, int>, p: map<int, Option<int>>,
                 d': map<int, int>, l': map<int, int>, p': map<int, Option<int>>,
                 x: int, parent: Option<int>, k: int, k': int, v: int)
    requires LowAttained(adj, d, l, p, x, parent, k) && k <= k'
    requires Agree(d, d') && AgreePar(p, p') && l.Keys <= l'.Keys && Agree(l - {v}, l')
    requires x in l' && l'[x] == l[x]
    requires v in p ==> p[v] != Some(x)
    ensures LowAttained(adj, d', l', p', x, parent, k')
  {
    if l[x] != d[x] {
      var j :| 0 <= j < k && j < |Nbrs(adj, x)| && LowFrom(d, l, p, x, parent, Nbrs(adj, x)[j].dst);
      var n := Nbrs(adj, x)[j].dst;
      if n != v {
        assert n in l - {v};
      }
      assert LowFrom(d', l', p', x, parent, n);
    }
  }

  /**
   * Arc i of `v` leads to a discovered vertex and `m` is low[v] after the
   * arc: no larger than before, bounded by the neighbour unless it is the
   * parent, and either the old value or supplied by the neighbour. The loop
   * state then covers i + 1 arcs.
   */
  lemma ArcStep(adj: AdjMap, v: int, parent: Option<int>, i: int, time: int,
                disc: map<int, int>, low: map<int, int>, par: map<int, Option<int>>, bridges: seq<(int, int)>,
                d: map<int, int>, l: map<int, int>, p: map<int, Option<int>>, b: seq<(int, int)>, m: int)
    requires LoopState(adj, v, parent, i, time, disc, low, par, bridges, d, l, p, b)
    requires 0 <= i < |Nbrs(adj, v)| && Nbrs(adj, v)[i].dst in d
    requires v in l && m <= l[v]
    requires parent == Some(Nbrs(adj, v)[i].dst) || m <= d[Nbrs(adj, v)[i].dst]
    requires m == l[v] || LowFrom(d, l[v := m], p, v, parent, Nbrs(adj, v)[i].dst)
    ensures LoopState(adj, v, parent, i + 1, time, disc, low, par, bridges, d, l[v := m], p, b)
  {
    var l' := l[v := m];
    assert Tables(v, parent, time, disc, low, par, d, l', p);
    assert Agree(l - {v}, l');
    forall x | x in d && x !in disc && x != v && x in p
      ensures ArcsBound(adj, d, l', x, p[x], |Nbrs(adj, x)|) && LowAttained(adj, d, l', p, x, p[x], |Nbrs(adj, x)|)
    {
      ArcsFrame(adj, d, l, d, l', x, p[x], |Nbrs(adj, x)|);
      LowFrame(adj, d, l, p, d, l', p, x, p[x], |Nbrs(adj, x)|, |Nbrs(adj, x)|, v);
    }
    ArcsFrame(adj, d, l, d, l', v, parent, i);
    assert ArcsBound(adj, d, l', v, parent, i + 1);
    if m == l[v] {
      LowFrame(adj, d, l, p, d, l', p, v, parent, i, i + 1, v);
    } else {
      assert LowFrom(d, l', p, v, parent, Nbrs(adj, v)[i].dst);
    }
    assert TreeDone(v, disc, d, l', p) by {
      forall c | c in d && c !in disc && c != v
        ensures TreeEdge(d, l', p, c) && p[c].value in d && p[c].value !in disc
      {
        assert TreeEdge(d, l, p, c);
      }
    }
    var C := d.Keys - disc.Keys - {v};
    forall e | e in b[|bridges|..] ensures IsBridge(e, C, d, l', p) {
      assert IsBridge(e, C, d, l, p);
    }
    forall e | IsBridge(e, C, d, l', p) ensures e in b[|bridges|..] {
      assert IsBridge(e, C, d, l, p);
    }
  }

  /**
   * After the recursive call into the undiscovered neighbour `n` (arc i of
   * `v`), taking low[n] into low[v] and reporting (v, n) when low[n] >
   * disc[v] extends the loop state by one arc.
   */
  lemma ChildStep(adj: AdjMap, v: int, parent: Option<int>, i: int, time: int,
                  disc: map<int, int>, low: map<int, int>, par: map<int, Option<int>>, bridges: seq<(int, int)>,
                  t1: int, d1: map<int, int>, l1: map<int, int>, p1: map<int, Option<int>>, b1: seq<(int, int)>,
                  n: int, d2: map<int, int>, l2: map<int, int>, p2: map<int, Option<int>>, b2: seq<(int, int)>,
                  l3: map<int, int>, b3: seq<(int, int)>)
    requires LoopState(adj, v, parent, i, time, disc, low, par, bridges, d1, l1, p1, b1)
    requires Stamped(d1, t1)
    requires 0 <= i < |Nbrs(adj, v)| && Nbrs(adj, v)[i].dst == n && n !in d1
    requires LoopState(adj, n, Some(v), |Nbrs(adj, n)|, t1, d1, l1, p1, b1, d2, l2, p2, b2)
    requires v in l2 && n in l2 && l3 == l2[v := if l2[v] <= l2[n] then l2[v] else l2[n]]
    requires b3 == if l3[n] > d2[v] then b2 + [(v, n)] else b2
    ensures LoopState(adj, v, parent, i + 1, time, disc, low, par, bridges, d2, l3, p2, b3)
  {
    ChildTables(v, parent, time, disc, low, par, t1, d1, l1, p1, n, d2, l2, p2, l3);
    ChildArcs(adj, v, parent, i, time, disc, low, par, bridges, t1, d1, l1, p1, b1, n, d2, l2, p2, b2, l3);
    ChildTree(adj, v, parent, i, time, disc, low, par, bridges, t1, d1, l1, p1, b1, n, d2, l2, p2, b2, l3);
    ChildLinks(adj, v, parent, i, time, disc, low, par, bridges, t1, d1, l1, p1, b1, n, d2, l2, p2, b2);
    ChildShapes(adj, v, parent, i, time, disc, low, par, bridges, t1, d1, l1, p1, b1, n, d2, l2, p2, b2);
    ChildBridges(adj, v, parent, i, time, disc, low, par, bridges, t1, d1, l1, p1, b1, n, d2, l2, p2, b2, l3, b3);
  }

  lemma ChildTables(v: int, parent: Option<int>, time: int,
                    disc: map<int, int>, low: map<int, int>, par: map<int, Option<int>>,
                    t1: int, d1: map<int, int>, l1: map<int, int>, p1: map<int, Option<int>>,
                    n: int, d2: map<int, int>, l2: map<int, int>, p2: map<int, Option<int>>,
                    l3: map<int, int>)
    requires Tables(v, parent, time, disc, low, par, d1, l1, p1)
    requires Stamped(d1, t1)
    requires n !in d1
    requires Tables(n, Some(v), t1, d1, l1, p1, d2, l2, p2)
    requires v in l2 && n in l2 && l3 == l2[v := if l2[v] <= l2[n] then l2[v] else l2[n]]
    ensures Tables(v, parent, time, disc, low, par, d2, l3, p2)
    ensures time < t1
  {
    assert d1[v] < t1;
  }

  lemma ChildArcs(adj: AdjMap, v: int, parent: Option<int>, i: int, time: int,
                  disc: map<int, int>, low: map<int, int>, par: map<int, Option<int>>, bridges: seq<(int, int)>,
                  t1: int, d1: map<int, int>, l1: map<int, int>, p1: map<int, Option<int>>, b1: seq<(int, int)>,
                  n: int, d2: map<int, int>, l2: map<int, int>, p2: map<int, Option<int>>, b2: seq<(int, int)>,
                  l3: map<int, int>)
    requires LoopState(adj, v, parent, i, time, disc, low, par, bridges, d1, l1, p1, b1)
    requires 0 <= i < |Nbrs(adj, v)| && Nbrs(adj, v)[i].dst == n && n !in d1
    requires LoopState(adj, n, Some(v), |Nbrs(adj, n)|, t1, d1, l1, p1, b1, d2, l2, p2, b2)
    requires v in l2 && n in l2 && l3 == l2[v := if l2[v] <= l2[n] then l2[v] else l2[n]]
    ensures ArcsDone(adj, v, parent, i + 1, disc, d2, l3, p2)
  {
    ChildBelow(adj, v, parent, i, time, disc, low, par, bridges, t1, d1, l1, p1, b1, n, d2, l2, p2, b2, l3);
    assert ArcsDone(adj, v, parent, i, disc, d1, l1, p1);
    ChildOwn(adj, v, parent, i, time, disc, low, par, t1, d1, l1, p1, n, d2, l2, p2, l3);
  }

  /** Taking low[n] into low[v] bounds low[v] by arc i and keeps it attained. */
  lemma ChildOwn(adj: AdjMap, v: int, parent: Option<int>, i: int, time: int,
                 disc: map<int, int>, low: map<int, int>, par: map<int, Option<int>>,
                 t1: int, d1: map<int, int>, l1: map<int, int>, p1: map<int, Option<int>>,
                 n: int, d2: map<int, int>, l2: map<int, int>, p2: map<int, Option<int>>, l3: map<int, int>)
    requires Tables(v, parent, time, disc, low, par, d1, l1, p1)
    requires ArcsBound(adj, d1, l1, v, parent, i) && LowAttained(adj, d1, l1, p1, v, parent, i)
    requires 0 <= i < |Nbrs(adj, v)| && Nbrs(adj, v)[i].dst == n && n !in d1
    requires Tables(n, Some(v), t1, d1, l1, p1, d2, l2, p2)
    requires v in l2 && n in l2 && l3 == l2[v := if l2[v] <= l2[n] then l2[v] else l2[n]]
    ensures ArcsBound(adj, d2, l3, v, parent, i + 1) && LowAttained(adj, d2, l3, p2, v, parent, i + 1)
  {
    AgreeBut(l1, l2, v, l3[v]);
    assert p1[v] == parent;
    ArcsFrame(adj, d1, l1, d2, l3, v, parent, i);
    assert ArcsBound(adj, d2, l3, v, parent, i + 1);
    if l2[n] < l2[v] {
      assert LowFrom(d2, l3, p2, v, parent, n);
    } else {
      LowFrame(adj, d1, l1, p1, d2, l3, p2, v, parent, i, i + 1, v);
    }
  }

  /** The vertices discovered below `v` keep their arcs handled and their low values attained. */
  lemma ChildBelow(adj: AdjMap, v: int, parent: Option<int>, i: int, time: int,
                   disc: map<int, int>, low: map<int, int>, par: map<int, Option<int>>, bridges: seq<(int, int)>,
                   t1: int, d1: map<int, int>, l1: map<int, int>, p1: map<int, Option<int>>, b1: seq<(int, int)>,
                   n: int, d2: map<int, int>, l2: map<int, int>, p2: map<int, Option<int>>, b2: seq<(int, int)>,
                   l3: map<int, int>)
    requires LoopState(adj, v, parent, i, time, disc, low, par, bridges, d1, l1, p1, b1)
    requires n !in d1
    requires LoopState(adj, n, Some(v), |Nbrs(adj, n)|, t1, d1, l1, p1, b1, d2, l2, p2, b2)
    requires v in l2 && n in l2 && l3 == l2[v := if l2[v] <= l2[n] then l2[v] else l2[n]]
    ensures forall x :: x in d2 && x !in disc && x != v && x in p2 ==>
      ArcsBound(adj, d2, l3, x, p2[x], |Nbrs(adj, x)|) && LowAttained(adj, d2, l3, p2, x, p2[x], |Nbrs(adj, x)|)
  {
    assert Tables(n, Some(v), t1, d1, l1, p1, d2, l2, p2);
    AgreeBut(l1, l2, v, l3[v]);
    AgreeBut(l2, l2, v, l3[v]);
    assert p1[v] == parent && p2[v] == parent;
    forall x | x in d2 && x !in disc && x != v && x in p2
      ensures ArcsBound(adj, d2, l3, x, p2[x], |Nbrs(adj, x)|) && LowAttained(adj, d2, l3, p2, x, p2[x], |Nbrs(adj, x)|)
    {
      if x in d1 {
        ArcsFrame(adj, d1, l1, d2, l3, x, p1[x], |Nbrs(adj, x)|);
        LowFrame(adj, d1, l1, p1, d2, l3, p2, x, p1[x], |Nbrs(adj, x)|, |Nbrs(adj, x)|, v);
      } else {
        ArcsFrame(adj, d2, l2, d2, l3, x, p2[x], |Nbrs(adj, x)|);
        LowFrame(adj, d2, l2, p2, d2, l3, p2, x, p2[x], |Nbrs(adj, x)|, |Nbrs(adj, x)|, v);
      }
    }
  }

  lemma ChildTree(adj: AdjMap, v: int, parent: Option<int>, i: int, time: int,
                  disc: map<int, int>, low: map<int, int>, par: map<int, Option<int>>, bridges: seq<(int, int)>,
                  t1: int, d1: map<int, int>, l1: map<int, int>, p1: map<int, Option<int>>, b1: seq<(int, int)>,
                  n: int, d2: map<int, int>, l2: map<int, int>, p2: map<int, Option<int>>, b2: seq<(int, int)>,
                  l3: map<int, int>)
    requires LoopState(adj, v, parent, i, time, disc, low, par, bridges, d1, l1, p1, b1)
    requires Stamped(d1, t1)
    requires n !in d1
    requires LoopState(adj, n, Some(v), |Nbrs(adj, n)|, t1, d1, l1, p1, b1, d2, l2, p2, b2)
    requires v in l2 && n in l2 && l3 == l2[v := if l2[v] <= l2[n] then l2[v] else l2[n]]
    ensures TreeDone(v, disc, d2, l3, p2)
  {
    assert d1[v] < t1;
    forall c | c in d2 && c !in disc && c != v
      ensures TreeEdge(d2, l3, p2, c) && p2[c].value in d2 && p2[c].value !in disc
    {
      if c in d1 {
        assert TreeEdge(d1, l1, p1, c) && p1[c].value in d1 && p1[c].value !in disc;
        var q := p1[c].value;
        assert p2[c] == p1[c] && d2[c] == d1[c] && d2[q] == d1[q];
        assert l3[c] == l1[c] && l3[q] <= l1[q];
      } else if c != n {
        assert TreeEdge(d2, l2, p2, c) && p2[c].value in d2 && p2[c].value !in d1;
        var q := p2[c].value;
        assert q != v && l3[c] == l2[c] && l3[q] == l2[q];
      }
    }
  }

  lemma ChildLinks(adj: AdjMap, v: int, parent: Option<int>, i: int, time: int,
                   disc: map<int, int>, low: map<int, int>, par: map<int, Option<int>>, bridges: seq<(int, int)>,
                   t1: int, d1: map<int, int>, l1: map<int, int>, p1: map<int, Option<int>>, b1: seq<(int, int)>,
                   n: int, d2: map<int, int>, l2: map<int, int>, p2: map<int, Option<int>>, b2: seq<(int, int)>)
    requires LoopState(adj, v, parent, i, time, disc, low, par, bridges, d1, l1, p1, b1)
    requires 0 <= i < |Nbrs(adj, v)| && Nbrs(adj, v)[i].dst == n && n !in d1
    requires LoopState(adj, n, Some(v), |Nbrs(adj, n)|, t1, d1, l1, p1, b1, d2, l2, p2, b2)
    ensures TreeArcs(adj, v, disc, p2)
  {
    assert Nbrs(adj, v)[i] in Nbrs(adj, v);
    forall c | c in p2 && c !in disc && c != v ensures p2[c].Some? && IsEdge(adj, p2[c].value, c) {
      if c in p1 {
        assert p2[c] == p1[c];
      }
    }
  }

  /** Discovery tables that only grow by later stamps keep the depth-first facts of the old entries. */
  lemma BeforeFrame(adj: AdjMap, d: map<int, int>, d': map<int, int>, x: int, k: int, t: int)
    requires Before(adj, d, x, k, t) && Agree(d, d')
    ensures Before(adj, d', x, k, t)
  {
  }

  lemma ShapeFrame(adj: AdjMap, d: map<int, int>, p: map<int, Option<int>>,
                   d': map<int, int>, p': map<int, Option<int>>, c: int, t: int)
    requires Shaped(adj, d, p, c) && Agree(d, d') && AgreePar(p, p')
    requires forall x :: x in d ==> d[x] < t
    requires forall x :: x in d' && x !in d ==> d'[x] >= t
    ensures Shaped(adj, d', p', c)
  {
    var lo := if p[c].Some? then d[p[c].value] else -1;
    assert Opened(adj, d, lo, c);
    forall y | y in d' && lo < d'[y] < d'[c] ensures Before(adj, d', y, |Nbrs(adj, y)|, d'[c]) {
      assert y in d;
      BeforeFrame(adj, d, d', y, |Nbrs(adj, y)|, d[c]);
    }
    if p[c].Some? {
      var x := p[c].value;
      var j :| 0 <= j < |Nbrs(adj, x)| && Nbrs(adj, x)[j].dst == c && Before(adj, d, x, j, d[c]);
      BeforeFrame(adj, d, d', x, j, d[c]);
      assert FirstOpen(adj, d', x, c);
    }
  }

  /** The neighbour `n` found undiscovered on arc i of `v` is discovered in depth-first order. */
  lemma NewChild(adj: AdjMap, v: int, parent: Option<int>, i: int, time: int,
                 disc: map<int, int>, low: map<int, int>, par: map<int, Option<int>>, bridges: seq<(int, int)>,
                 t1: int, d1: map<int, int>, l1: map<int, int>, p1: map<int, Option<int>>, b1: seq<(int, int)>,
                 n: int, d2: map<int, int>, l2: map<int, int>, p2: map<int, Option<int>>)
    requires LoopState(adj, v, parent, i, time, disc, low, par, bridges, d1, l1, p1, b1)
    requires Stamped(d1, t1)
    requires 0 <= i < |Nbrs(adj, v)| && Nbrs(adj, v)[i].dst == n && n !in d1
    requires Tables(n, Some(v), t1, d1, l1, p1, d2, l2, p2)
    ensures Shaped(adj, d2, p2, n)
  {
    assert ArcsBound(adj, d1, l1, v, parent, i);
    assert Before(adj, d1, v, i, t1);
    BeforeFrame(adj, d1, d2, v, i, t1);
    assert FirstOpen(adj, d2, v, n);
    forall y | y in d2 && d2[v] < d2[y] < d2[n] ensures Before(adj, d2, y, |Nbrs(adj, y)|, d2[n]) {
      assert y in d1 && y !in disc && y != v && y in p1;
      assert ArcsBound(adj, d1, l1, y, p1[y], |Nbrs(adj, y)|);
      assert Before(adj, d1, y, |Nbrs(adj, y)|, t1);
      BeforeFrame(adj, d1, d2, y, |Nbrs(adj, y)|, t1);
    }
  }

  lemma ChildShapes(adj: AdjMap, v: int, parent: Option<int>, i: int, time: int,
                    disc: map<int, int>, low: map<int, int>, par: map<int, Option<int>>, bridges: seq<(int, int)>,
                    t1: int, d1: map<int, int>, l1: map<int, int>, p1: map<int, Option<int>>, b1: seq<(int, int)>,
                    n: int, d2: map<int, int>, l2: map<int, int>, p2: map<int, Option<int>>, b2: seq<(int, int)>)
    requires LoopState(adj, v, parent, i, time, disc, low, par, bridges, d1, l1, p1, b1)
    requires Stamped(d1, t1)
    requires 0 <= i < |Nbrs(adj, v)| && Nbrs(adj, v)[i].dst == n && n !in d1
    requires LoopState(adj, n, Some(v), |Nbrs(adj, n)|, t1, d1, l1, p1, b1, d2, l2, p2, b2)
    ensures Shapes(adj, v, disc, d2, p2)
  {
    forall c | c in d2 && c !in disc && c != v ensures Shaped(adj, d2, p2, c) {
      if c in d1 {
        ShapeFrame(adj, d1, p1, d2, p2, c, t1);
      } else if c == n {
        NewChild(adj, v, parent, i, time, disc, low, par, bridges, t1, d1, l1, p1, b1, n, d2, l2, p2);
      }
    }
  }

  /** Two lists of bridges, each without repeats and with no bridge in common, join without repeats. */
  lemma UnrepeatedJoin(a: seq<(int, int)>, b: seq<(int, int)>)
    requires Unrepeated(a) && Unrepeated(b)
    requires forall e :: e in a ==> e !in b
    ensures Unrepeated(a + b)
  {
    forall i, j | 0 <= i < j < |a + b| ensures (a + b)[i] != (a + b)[j] {
      if j < |a| {
        assert (a + b)[i] == a[i] && (a + b)[j] == a[j];
      } else if i >= |a| {
        assert (a + b)[i] == b[i - |a|] && (a + b)[j] == b[j - |a|];
      } else {
        assert (a + b)[i] == a[i] && (a + b)[j] == b[j - |a|];
        assert a[i] in a && b[j - |a|] in b;
      }
    }
  }

  /** Three lists of bridges into pairwise disjoint sets of vertices join without repeats. */
  lemma ThreeApart(seg1: seq<(int, int)>, seg2: seq<(int, int)>, tail: seq<(int, int)>,
                   A: set<int>, B: set<int>, n: int)
    requires Unrepeated(seg1) && Unrepeated(seg2) && |tail| <= 1
    requires forall e :: e in seg1 ==> e.1 in A
    requires forall e :: e in seg2 ==> e.1 in B
    requires forall e :: e in tail ==> e.1 == n
    requires A !! B && n !in A && n !in B
    ensures Unrepeated(seg1 + seg2 + tail)
  {
    UnrepeatedJoin(seg1, seg2);
    UnrepeatedJoin(seg1 + seg2, tail);
  }

  /** The bridges reported by the call into `n`, then possibly (v, n), add no repeat. */
  lemma ChildUnrepeated(v: int, disc: map<int, int>, bridges: seq<(int, int)>,
                        d1: map<int, int>, l1: map<int, int>, p1: map<int, Option<int>>, b1: seq<(int, int)>,
                        n: int, d2: map<int, int>, l2: map<int, int>, p2: map<int, Option<int>>, b2: seq<(int, int)>,
                        seg1: seq<(int, int)>, seg2: seq<(int, int)>, tail: seq<(int, int)>)
    requires Reported(v, disc, bridges, d1, l1, p1, b1) && seg1 == b1[|bridges|..]
    requires Reported(n, d1, b1, d2, l2, p2, b2) && seg2 == b2[|b1|..]
    requires n !in d1 && (tail == [] || tail == [(v, n)])
    ensures Unrepeated(seg1 + seg2 + tail)
  {
    var A, B := d1.Keys - disc.Keys - {v}, d2.Keys - d1.Keys - {n};
    forall e | e in seg1 ensures e.1 in A {
      assert IsBridge(e, A, d1, l1, p1);
    }
    forall e | e in seg2 ensures e.1 in B {
      assert IsBridge(e, B, d2, l2, p2);
    }
    ThreeApart(seg1, seg2, tail, A, B, n);
  }

  lemma ChildBridges(adj: AdjMap, v: int, parent: Option<int>, i: int, time: int,
                     disc: map<int, int>, low: map<int, int>, par: map<int, Option<int>>, bridges: seq<(int, int)>,
                     t1: int, d1: map<int, int>, l1: map<int, int>, p1: map<int, Option<int>>, b1: seq<(int, int)>,
                     n: int, d2: map<int, int>, l2: map<int, int>, p2: map<int, Option<int>>, b2: seq<(int, int)>,
                     l3: map<int, int>, b3: seq<(int, int)>)
    requires Tables(v, parent, time, disc, low, par, d1, l1, p1) && TreeDone(v, disc, d1, l1, p1)
    requires Reported(v, disc, bridges, d1, l1, p1, b1)
    requires n !in d1
    requires Tables(n, Some(v), t1, d1, l1, p1, d2, l2, p2) && Reported(n, d1, b1, d2, l2, p2, b2)
    requires v in l2 && n in l2 && l3 == l2[v := if l2[v] <= l2[n] then l2[v] else l2[n]]
    requires b3 == if l3[n] > d2[v] then b2 + [(v, n)] else b2
    ensures Reported(v, disc, bridges, d2, l3, p2, b3)
  {
    var C2 := d2.Keys - d1.Keys - {n};
    var C := d2.Keys - disc.Keys - {v};
    var seg1, seg2 := b1[|bridges|..], b2[|b1|..];
    var tail := if l3[n] > d2[v] then [(v, n)] else [];
    assert b2 == b1 + seg2 by {
      assert b2 == b2[..|b1|] + b2[|b1|..];
    }
    assert b1 == bridges + seg1 by {
      assert b1 == b1[..|bridges|] + b1[|bridges|..];
    }
    assert b3 == bridges + (seg1 + seg2 + tail);
    assert b3[|bridges|..] == seg1 + seg2 + tail;
    assert b3[..|bridges|] == bridges;
    assert Agree(l2 - {v}, l3);
    forall e | e in seg1 ensures IsBridge(e, C, d2, l3, p2) {
      OldBridge(v, disc, d1, l1, p1, d2, l2, p2, l3, e);
    }
    forall e | e in seg2 ensures IsBridge(e, C, d2, l3, p2) {
      assert IsBridge(e, C2, d2, l2, p2);
      assert e.1 != v && e.1 !in disc && l3[e.1] == l2[e.1];
    }
    forall e | e in tail ensures IsBridge(e, C, d2, l3, p2) {
      assert e == (v, n);
      assert n !in disc && n != v && p2[n] == Some(v);
    }
    ChildUnrepeated(v, disc, bridges, d1, l1, p1, b1, n, d2, l2, p2, b2, seg1, seg2, tail);
    forall e | IsBridge(e, C, d2, l3, p2) ensures e in seg1 + seg2 + tail {
      if e.1 in d1 {
        OldBridge(v, disc, d1, l1, p1, d2, l2, p2, l3, e);
      } else if e.1 != n {
        assert e.1 in C2 && l3[e.1] == l2[e.1];
        assert IsBridge(e, C2, d2, l2, p2);
      } else {
        assert p2[n] == Some(v);
        assert e == (v, n);
      }
    }
  }

  /** A bridge into a vertex finished before the recursive call is still one after it, and conversely. */
  lemma OldBridge(v: int, disc: map<int, int>,
                  d1: map<int, int>, l1: map<int, int>, p1: map<int, Option<int>>,
                  d2: map<int, int>, l2: map<int, int>, p2: map<int, Option<int>>,
                  l3: map<int, int>, e: (int, int))
    requires TreeDone(v, disc, d1, l1, p1)
    requires Agree(d1, d2) && Agree(l1, l2) && AgreePar(p1, p2) && Agree(l2 - {v}, l3)
    requires e.1 in d1 && e.1 !in disc && e.1 != v
    ensures IsBridge(e, d1.Keys - disc.Keys - {v}, d1, l1, p1) <==> IsBridge(e, d2.Keys - disc.Keys - {v}, d2, l3, p2)
  {
    var u, c := e.0, e.1;
    assert TreeEdge(d1, l1, p1, c);
    assert c in l2 - {v};
    assert p2[c] == p1[c] && l3[c] == l1[c];
    if p1[c] == Some(u) {
      assert u in d1;
      assert d2[u] == d1[u];
    }
  }

  // ---------------------------------------------------------------------
  // The loop of find_bridges over the keys
  // ---------------------------------------------------------------------

  /**
   * The tables between two top-level calls: the discovered vertices are
   * stamped, each has every arc handled and its low value attained, each
   * was discovered in depth-first order (a root only once the keys before
   * it in `order` were), each non-root hangs below a tree parent it was
   * called from, and `bridges` lists exactly the bridges into them, once
   * each.
   */
  ghost predicate Forest(adj: AdjMap, order: seq<int>, disc: map<int, int>, low: map<int, int>,
                         par: map<int, Option<int>>, bridges: seq<(int, int)>, time: int)
  {
    Stamped(disc, time) && LowBelow(disc, low) && par.Keys == disc.Keys &&
    (forall x {:trigger Seen(disc, x)} :: Seen(disc, x) ==>
      Finished(adj, disc, low, par, x) && KeyFirst(order, disc, par, x)) &&
    BridgesOf(bridges, disc.Keys, disc, low, par) && Unrepeated(bridges)
  }

  /** `x` is discovered. */
  ghost predicate Seen(disc: map<int, int>, x: int)
  {
    x in disc
  }

  /**
   * The discovered `x` has every arc handled, its low value attained and
   * its place in depth-first order and, unless a root, hangs below the
   * parent it was called from.
   */
  ghost predicate Finished(adj: AdjMap, disc: map<int, int>, low: map<int, int>, par: map<int, Option<int>>, x: int)
  {
    x in par && ArcsBound(adj, disc, low, x, par[x], |Nbrs(adj, x)|) &&
    LowAttained(adj, disc, low, par, x, par[x], |Nbrs(adj, x)|) && Shaped(adj, disc, par, x) &&
    (par[x].Some? ==> TreeEdge(disc, low, par, x) && IsEdge(adj, par[x].value, x))
  }

  /** A root `x` was discovered after every key before it in `order`. */
  ghost predicate KeyFirst(order: seq<int>, disc: map<int, int>, par: map<int, Option<int>>, x: int)
  {
    x in par && x in disc &&
    (par[x].None? ==>
      forall j, k :: 0 <= j < k < |order| && order[k] == x ==> order[j] in disc && disc[order[j]] < disc[x])
  }

  lemma ForestStart(adj: AdjMap, order: seq<int>)
    ensures Forest(adj, order, map[], map[], map[], [], 0)
  {
  }

  /** A finished top-level call `dfs(v, None)` extends the forest by the tree rooted at `v`. */
  lemma ForestRoot(adj: AdjMap, order: seq<int>, v: int, time: int,
                   disc: map<int, int>, low: map<int, int>, par: map<int, Option<int>>, bridges: seq<(int, int)>,
                   time': int, disc': map<int, int>, low': map<int, int>, par': map<int, Option<int>>,
                   bridges': seq<(int, int)>)
    requires Forest(adj, order, disc, low, par, bridges, time)
    requires forall j, k :: 0 <= j < k < |order| && order[k] == v ==> order[j] in disc
    requires Stamped(disc', time')
    requires LoopState(adj, v, None, |Nbrs(adj, v)|, time, disc, low, par, bridges, disc', low', par', bridges')
    ensures Forest(adj, order, disc', low', par', bridges', time')
  {
    forall x | Seen(disc', x) ensures Finished(adj, disc', low', par', x) && KeyFirst(order, disc', par', x) {
      if x in disc {
        OldFinished(adj, order, v, time, disc, low, par, bridges, time', disc', low', par', bridges', x);
      } else if x == v {
        RootFinished(adj, order, v, time, disc, low, par, bridges, time', disc', low', par', bridges');
      } else {
        assert ArcsDone(adj, v, None, |Nbrs(adj, v)|, disc, disc', low', par');
        assert TreeDone(v, disc, disc', low', par') && TreeArcs(adj, v, disc, par');
        assert Shapes(adj, v, disc, disc', par');
      }
    }
    RootBridges(adj, order, v, time, disc, low, par, bridges, time', disc', low', par', bridges');
  }

  /** A vertex of an earlier tree stays finished. */
  lemma OldFinished(adj: AdjMap, order: seq<int>, v: int, time: int,
                    disc: map<int, int>, low: map<int, int>, par: map<int, Option<int>>, bridges: seq<(int, int)>,
                    time': int, disc': map<int, int>, low': map<int, int>, par': map<int, Option<int>>,
                    bridges': seq<(int, int)>, x: int)
    requires Forest(adj, order, disc, low, par, bridges, time)
    requires LoopState(adj, v, None, |Nbrs(adj, v)|, time, disc, low, par, bridges, disc', low', par', bridges')
    requires x in disc
    ensures Finished(adj, disc', low', par', x) && KeyFirst(order, disc', par', x)
  {
    assert Tables(v, None, time, disc, low, par, disc', low', par');
    assert Seen(disc, x) && Finished(adj, disc, low, par, x) && KeyFirst(order, disc, par, x);
    ArcsFrame(adj, disc, low, disc', low', x, par[x], |Nbrs(adj, x)|);
    AgreeBut(low, low', v, 0);
    LowFrame(adj, disc, low, par, disc', low', par', x, par[x], |Nbrs(adj, x)|, |Nbrs(adj, x)|, v);
    ShapeFrame(adj, disc, par, disc', par', x, time);
    if par[x].Some? {
      assert TreeEdge(disc, low, par, x);
    }
  }

  /** The root `v` of the new tree is finished, and was discovered after the keys before it. */
  lemma RootFinished(adj: AdjMap, order: seq<int>, v: int, time: int,
                     disc: map<int, int>, low: map<int, int>, par: map<int, Option<int>>, bridges: seq<(int, int)>,
                     time': int, disc': map<int, int>, low': map<int, int>, par': map<int, Option<int>>,
                     bridges': seq<(int, int)>)
    requires Forest(adj, order, disc, low, par, bridges, time)
    requires forall j, k :: 0 <= j < k < |order| && order[k] == v ==> order[j] in disc
    requires LoopState(adj, v, None, |Nbrs(adj, v)|, time, disc, low, par, bridges, disc', low', par', bridges')
    ensures Finished(adj, disc', low', par', v) && KeyFirst(order, disc', par', v)
  {
    assert Tables(v, None, time, disc, low, par, disc', low', par');
    assert ArcsDone(adj, v, None, |Nbrs(adj, v)|, disc, disc', low', par');
    forall y | y in disc' && -1 < disc'[y] < disc'[v] ensures Before(adj, disc', y, |Nbrs(adj, y)|, disc'[v]) {
      assert y in disc && Seen(disc, y) && Finished(adj, disc, low, par, y);
      assert Before(adj, disc, y, |Nbrs(adj, y)|, time);
      BeforeFrame(adj, disc, disc', y, |Nbrs(adj, y)|, time);
    }
    assert Shaped(adj, disc', par', v);
  }

  /** The bridges of the new tree follow the old ones, and none is repeated. */
  lemma RootBridges(adj: AdjMap, order: seq<int>, v: int, time: int,
                    disc: map<int, int>, low: map<int, int>, par: map<int, Option<int>>, bridges: seq<(int, int)>,
                    time': int, disc': map<int, int>, low': map<int, int>, par': map<int, Option<int>>,
                    bridges': seq<(int, int)>)
    requires Forest(adj, order, disc, low, par, bridges, time)
    requires LoopState(adj, v, None, |Nbrs(adj, v)|, time, disc, low, par, bridges, disc', low', par', bridges')
    ensures BridgesOf(bridges', disc'.Keys, disc', low', par') && Unrepeated(bridges')
  {
    assert Tables(v, None, time, disc, low, par, disc', low', par');
    assert Agree(disc, disc') && Agree(low, low') && AgreePar(par, par');
    var seg := bridges'[|bridges|..];
    assert bridges' == bridges + seg by {
      assert bridges' == bridges'[..|bridges|] + bridges'[|bridges|..];
    }
    forall e | e in bridges ensures IsBridge(e, disc'.Keys, disc', low', par') && e !in seg {
      assert IsBridge(e, disc.Keys, disc, low, par);
      assert e.1 in low && e.1 in par && e.0 in disc;
      var u, c := e.0, e.1;
      assert u in disc && c in disc && c in low && c in par;
      assert u in disc' && disc'[u] == disc[u];
      assert c in disc' && c in low' && low'[c] == low[c];
      assert c in par' && par'[c] == par[c];
      assert !IsBridge(e, disc'.Keys - disc.Keys - {v}, disc', low', par');
    }
    UnrepeatedJoin(bridges, seg);
    forall e | IsBridge(e, disc'.Keys, disc', low', par') ensures e in bridges' {
      if e.1 in disc {
        assert IsBridge(e, disc.Keys, disc, low, par);
      } else {
        assert e.1 != v;
        assert IsBridge(e, disc'.Keys - disc.Keys - {v}, disc', low', par');
      }
    }
  }

  /** Every bridge the forest lists is a record of the map. */
  lemma ForestBridgesAreEdges(adj: AdjMap, order: seq<int>, disc: map<int, int>, low: map<int, int>,
                              par: map<int, Option<int>>, bridges: seq<(int, int)>, time: int)
    requires Forest(adj, order, disc, low, par, bridges, time)
    ensures forall b :: b in bridges ==> IsEdge(adj, b.0, b.1)
  {
    forall b | b in bridges ensures IsEdge(adj, b.0, b.1) {
      assert IsBridge(b, disc.Keys, disc, low, par);
      assert Seen(disc, b.1) && Finished(adj, disc, low, par, b.1);
    }
  }
}
