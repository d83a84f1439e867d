/**
 * The recursive depth-first helpers of `Graph.dfs`, `Graph.detect_cycle`
 * and `Graph.topological_sort` (graph.py's nested `dfs_util` and
 * `has_cycle`). Each takes the adjacency map by value and threads the sets
 * and lists the Python closures mutate as parameters and results.
 *
 * A finish order (the order in which vertices complete their exploration)
 * is the certificate behind both cycle detection and topological sorting:
 * when every neighbour of a finished vertex finished before it, no cycle
 * can pass through finished vertices.
 */
module Traversal {
  import opened Adjacency

  /** Every neighbour of a vertex at position j sits at a position before j. */
  ghost predicate FinishOrdered(adj: AdjMap, fin: seq<int>)
  {
    forall j, a :: 0 <= j < |fin| && a in Nbrs(adj, fin[j]) ==> a.dst in fin[..j]
  }

  /** Each vertex comes before every one of its neighbours. */
  ghost predicate Topological(adj: AdjMap, r: seq<int>)
  {
    forall i, j :: 0 <= i < |r| && 0 <= j < |r| && IsEdge(adj, r[i], r[j]) ==> i < j
  }

  lemma {:induction false} OrderedPathDescends(adj: AdjMap, fin: seq<int>, p: seq<int>)
    requires FinishOrdered(adj, fin) && IsPath(adj, p) && |p| >= 2 && p[0] in fin
    ensures p[|p| - 1] in fin && IndexOf(fin, p[|p| - 1]) < IndexOf(fin, p[0])
    decreases |p|
  {
    assert IsEdge(adj, p[0], p[1]);
    var a :| a in Nbrs(adj, p[0]) && a.dst == p[1];
    var j := IndexOf(fin, p[0]);
    assert a in Nbrs(adj, fin[j]);
    IndexInPrefix(fin, p[1], j);
    if |p| > 2 {
      var q := p[1..];
      assert IsPath(adj, q) by {
        forall i | 0 <= i < |q| - 1 ensures IsEdge(adj, q[i], q[i + 1]) {
          assert q[i] == p[i + 1] && q[i + 1] == p[i + 2];
        }
      }
      OrderedPathDescends(adj, fin, q);
    }
  }

  /** A finish order that holds every key rules out every cycle. */
  lemma OrderedNoCycle(adj: AdjMap, fin: seq<int>)
    requires FinishOrdered(adj, fin)
    requires forall x :: x in adj ==> x in fin
    ensures !HasCycle(adj)
  {
    forall p | IsPath(adj, p) && |p| >= 2 ensures !IsCycle(adj, p) {
      assert IsEdge(adj, p[0], p[1]);
      var a :| a in Nbrs(adj, p[0]) && a.dst == p[1];
      assert p[0] in adj;
      OrderedPathDescends(adj, fin, p);
    }
  }

  /** An edge from the end of a path back onto the path closes a cycle. */
  lemma BackEdgeIsCycle(adj: AdjMap, path: seq<int>, n: int)
    requires IsPath(adj, path) && IsEdge(adj, path[|path| - 1], n)
    ensures n in path ==> HasCycle(adj)
  {
    if n in path {
      var i :| 0 <= i < |path| && path[i] == n;
      var q := path[i..];
      assert IsPath(adj, q) by {
        forall k | 0 <= k < |q| - 1 ensures IsEdge(adj, q[k], q[k + 1]) {
          assert q[k] == path[i + k] && q[k + 1] == path[i + k + 1];
        }
      }
      PathAppend(adj, q, n);
      var c := q + [n];
      assert IsCycle(adj, c);
    }
  }

  /** Reversing a duplicate-free finish order gives a topological order. */
  lemma ReversedFinishIsTopological(adj: AdjMap, stack: seq<int>)
    requires FinishOrdered(adj, stack) && Distinct(stack)
    ensures Distinct(Reverse(stack)) && Topological(adj, Reverse(stack))
  {
    var r := Reverse(stack);
    var n := |stack|;
    forall i, j | 0 <= i < j < |r| ensures r[i] != r[j] {
      assert r[i] == stack[n - 1 - i] && r[j] == stack[n - 1 - j];
    }
    forall i, j | 0 <= i < |r| && 0 <= j < |r| && IsEdge(adj, r[i], r[j]) ensures i < j {
      var p, q := n - 1 - i, n - 1 - j;
      assert r[i] == stack[p] && r[j] == stack[q];
      var a :| a in Nbrs(adj, stack[p]) && a.dst == stack[q];
      assert stack[q] in stack[..p];
      var q' :| 0 <= q' < p && stack[..p][q'] == stack[q];
      assert stack[q'] == stack[q];
    }
  }

  /** A topological order of every key rules out every cycle. */
  lemma TopologicalNoCycle(adj: AdjMap, r: seq<int>)
    requires Topological(adj, r)
    requires forall x :: x in adj ==> x in r
    ensures !HasCycle(adj)
  {
    forall p | IsPath(adj, p) && |p| >= 2 ensures !IsCycle(adj, p) {
      assert IsEdge(adj, p[0], p[1]);
      var a :| a in Nbrs(adj, p[0]) && a.dst == p[1];
      assert p[0] in adj;
      var k := 0;
      while k < |p| - 2
        invariant 0 <= k <= |p| - 2
        invariant p[k] in r
        invariant IndexOf(r, p[0]) <= IndexOf(r, p[k])
      {
        TopologicalStep(adj, r, p[k], p[k + 1]);
        assert IsEdge(adj, p[k + 1], p[k + 2]);
        var b :| b in Nbrs(adj, p[k + 1]) && b.dst == p[k + 2];
        assert p[k + 1] in adj;
        k := k + 1;
      }
      TopologicalStep(adj, r, p[k], p[k + 1]);
    }
  }

  lemma TopologicalStep(adj: AdjMap, r: seq<int>, x: int, y: int)
    requires Topological(adj, r) && x in r && IsEdge(adj, x, y)
    ensures y in r ==> IndexOf(r, x) < IndexOf(r, y)
  {
    if y in r {
      assert IsEdge(adj, r[IndexOf(r, x)], r[IndexOf(r, y)]);
    }
  }

  /** Appending a vertex whose neighbours are all listed keeps a finish order. */
  lemma FinishAppend(adj: AdjMap, fin: seq<int>, v: int)
    requires FinishOrdered(adj, fin)
    requires forall a :: a in Nbrs(adj, v) ==> a.dst in fin
    ensures FinishOrdered(adj, fin + [v])
  {
    var f := fin + [v];
    forall j, a | 0 <= j < |f| && a in Nbrs(adj, f[j]) ensures a.dst in f[..j] {
      if j < |fin| {
        assert f[..j] == fin[..j];
        assert f[j] == fin[j];
      } else {
        assert f[..j] == fin;
      }
    }
  }

  /** Extension of a sequence by appending is transitive and keeps every element. */
  lemma ExtendsTrans(a: seq<int>, b: seq<int>, c: seq<int>)
    requires |a| <= |b| && b[..|a|] == a
    requires |b| <= |c| && c[..|b|] == b
    ensures c[..|a|] == a
    ensures forall x :: x in b ==> x in c
    ensures forall k :: |a| <= k < |b| ==> c[k] == b[k]
  {
    assert c[..|a|] == c[..|b|][..|a|];
    forall x | x in b ensures x in c {
      var k :| 0 <= k < |b| && b[k] == x;
      assert c[..|b|][k] == c[k];
    }
    forall k | |a| <= k < |b| ensures c[k] == b[k] {
      assert c[..|b|][k] == c[k];
    }
  }

  // ---------------------------------------------------------------------
  // dfs: dfs_util
  // ---------------------------------------------------------------------

  /**
   * Visits `v` and, in neighbour order, every unvisited neighbour
   * recursively, appending each vertex on entry (pre-order). The vertices it
   * appends start with `v`, are reachable from `v`, and have every neighbour
   * visited when it returns.
   */
  method DfsUtil(adj: AdjMap, v: int, visited: set<int>, result: seq<int>)
    returns (visited': set<int>, result': seq<int>)
    requires v !in visited
    requires forall x :: x in visited <==> x in result
    requires Distinct(result)
    ensures forall x :: x in visited' <==> x in result'
    ensures Distinct(result')
    ensures |result'| > |result| && result'[..|result|] == result && result'[|result|] == v
    ensures forall k :: |result| <= k < |result'| ==> Reachable(adj, v, result'[k])
    ensures forall k, a :: |result| <= k < |result'| && a in Nbrs(adj, result'[k]) ==> a.dst in visited'
    decreases Vertices(adj) + {v} - visited, 1
  {
    visited' := visited + {v};
    result' := result + [v];
    ReachableRefl(adj, v);
    var nbrs := Nbrs(adj, v);
    var i := 0;
    while i < |nbrs|
      invariant 0 <= i <= |nbrs|
      invariant Listed(adj, v, visited, result, visited', result')
      invariant forall k, a :: |result| < k < |result'| && a in Nbrs(adj, result'[k]) ==> a.dst in visited'
      invariant forall j :: 0 <= j < i ==> nbrs[j].dst in visited'
    {
      assert v in adj && nbrs[i] in adj[v];
      visited', result' := DfsChild(adj, v, visited, result, nbrs[i].dst, visited', result');
      i := i + 1;
    }
  }

  /** One round of the loop of `dfs_util(v)`: the neighbour n is visited, recursively when it was not yet. */
  method DfsChild(adj: AdjMap, v: int, ghost visited: set<int>, ghost result: seq<int>, n: int,
                  vis: set<int>, res: seq<int>)
    returns (vis': set<int>, res': seq<int>)
    requires v !in visited && IsEdge(adj, v, n)
    requires Listed(adj, v, visited, result, vis, res)
    requires forall k, a :: |result| < k < |res| && a in Nbrs(adj, res[k]) ==> a.dst in vis
    ensures Listed(adj, v, visited, result, vis', res') && vis <= vis' && n in vis'
    ensures forall k, a :: |result| < k < |res'| && a in Nbrs(adj, res'[k]) ==> a.dst in vis'
    decreases Vertices(adj) + {v} - visited, 0
  {
    vis', res' := vis, res;
    if n !in vis {
      assert n in Vertices(adj);
      MeasureShrinks(adj, v, visited, n, vis);
      vis', res' := DfsUtil(adj, n, vis, res);
      ChildGrown(adj, v, n, visited, result, vis, res, vis', res');
    }
  }

  /**
   * What the loop of `dfs_util(v)` keeps: `v` and the vertices before it are
   * visited, the visited set is what was listed, nothing is listed twice, the
   * old list is a prefix and everything appended from `v` on is reachable from v.
   */
  ghost predicate Listed(adj: AdjMap, v: int, visited: set<int>, result: seq<int>, visited': set<int>, result': seq<int>)
  {
    visited + {v} <= visited' && (forall x :: x in visited' <==> x in result') && Distinct(result') &&
    |result'| > |result| && result'[..|result|] == result && result'[|result|] == v &&
    (forall k :: |result| <= k < |result'| ==> Reachable(adj, v, result'[k]))
  }

  /** A recursive visit of the unvisited neighbour n keeps what the loop of `dfs_util(v)` keeps. */
  lemma ChildGrown(adj: AdjMap, v: int, n: int, visited: set<int>, result: seq<int>, vis: set<int>, res: seq<int>,
                   vis': set<int>, res': seq<int>)
    requires Listed(adj, v, visited, result, vis, res) && IsEdge(adj, v, n)
    requires forall k, a :: |result| < k < |res| && a in Nbrs(adj, res[k]) ==> a.dst in vis
    requires forall x :: x in vis' <==> x in res'
    requires Distinct(res')
    requires |res'| > |res| && res'[..|res|] == res && res'[|res|] == n
    requires forall k :: |res| <= k < |res'| ==> Reachable(adj, n, res'[k])
    requires forall k, a :: |res| <= k < |res'| && a in Nbrs(adj, res'[k]) ==> a.dst in vis'
    ensures Listed(adj, v, visited, result, vis', res') && vis <= vis'
    ensures forall k, a :: |result| < k < |res'| && a in Nbrs(adj, res'[k]) ==> a.dst in vis'
  {
    ExtendsTrans(result, res, res');
    forall x | x in vis ensures x in vis' {
      assert x in res;
    }
    forall k | |res| <= k < |res'| ensures Reachable(adj, v, res'[k]) {
      ReachablePrepend(adj, v, n, res'[k]);
    }
    forall k, a | |result| < k < |res'| && a in Nbrs(adj, res'[k]) ensures a.dst in vis' {
      if k < |res| {
        assert res'[k] == res[k];
      }
    }
  }

  // ---------------------------------------------------------------------
  // detect_cycle: has_cycle
  // ---------------------------------------------------------------------

  /**
   * Python's `has_cycle(v)`. `gray` is the ghost recursion path whose vertex
   * set is `recStack`; `fin` is the ghost finish order of the vertices that
   * have been visited and left the recursion stack. A true result comes with
   * a cycle; a false one leaves `v` finished after all its neighbours.
   */
  method HasCycleFrom(adj: AdjMap, v: int, ghost gray: seq<int>, visited: set<int>, recStack: set<int>,
                      ghost fin: seq<int>)
    returns (found: bool, visited': set<int>, recStack': set<int>, ghost fin': seq<int>)
    requires v !in visited
    requires IsPath(adj, gray + [v])
    requires forall x :: x in recStack <==> x in gray
    requires forall x :: x in visited <==> x in fin || x in gray
    requires FinishOrdered(adj, fin)
    ensures found ==> HasCycle(adj)
    ensures !found ==> (recStack' == recStack && (forall x :: x in visited' <==> x in fin' || x in gray) && v in fin' &&
      FinishOrdered(adj, fin') && visited <= visited' && |fin'| >= |fin| && fin'[..|fin|] == fin)
    decreases Vertices(adj) + {v} - visited
  {
    visited' := visited + {v};
    recStack' := recStack + {v};
    fin' := fin;
    var path := gray + [v];
    assert forall x :: x in recStack' <==> x in path;
    var nbrs := Nbrs(adj, v);
    var i := 0;
    while i < |nbrs|
      invariant 0 <= i <= |nbrs|
      invariant recStack' == recStack + {v}
      invariant forall x :: x in visited' <==> x in fin' || x in path
      invariant visited + {v} <= visited'
      invariant FinishOrdered(adj, fin')
      invariant |fin'| >= |fin| && fin'[..|fin|] == fin
      invariant forall j :: 0 <= j < i ==> nbrs[j].dst in fin'
    {
      var n := nbrs[i].dst;
      assert v in adj && nbrs[i] in adj[v];
      assert IsEdge(adj, v, n);
      if n !in visited' {
        assert n in Vertices(adj);
        MeasureShrinks(adj, v, visited, n, visited');
        PathAppend(adj, path, n);
        ghost var before := fin';
        var f;
        f, visited', recStack', fin' := HasCycleFrom(adj, n, path, visited', recStack', fin');
        if f {
          found := true;
          return;
        }
        ExtendsTrans(fin, before, fin');
      } else if n in recStack' {
        BackEdgeIsCycle(adj, path, n);
        found := true;
        return;
      }
      i := i + 1;
    }
    recStack' := recStack' - {v};
    FinishAppend(adj, fin', v);
    ExtendsTrans(fin, fin', fin' + [v]);
    fin' := fin' + [v];
    found := false;
  }

  // ---------------------------------------------------------------------
  // topological_sort: dfs_util
  // ---------------------------------------------------------------------

  /**
   * Python's `dfs_util` inside `topological_sort`: explores `v`'s unvisited
   * neighbours, then pushes `v`. On an acyclic map every neighbour of `v` has
   * been pushed by then, so the stack stays a finish order. `gray` is the
   * ghost recursion path.
   */
  method TopoDfs(adj: AdjMap, v: int, ghost gray: seq<int>, visited: set<int>, stack: seq<int>)
    returns (visited': set<int>, stack': seq<int>)
    requires !HasCycle(adj)
    requires v !in visited
    requires IsPath(adj, gray + [v])
    requires forall x :: x in visited <==> x in stack || x in gray
    requires FinishOrdered(adj, stack) && Distinct(stack)
    ensures forall x :: x in visited' <==> x in stack' || x in gray
    ensures FinishOrdered(adj, stack') && Distinct(stack')
    ensures |stack'| > |stack| && stack'[..|stack|] == stack && v in stack'
    ensures forall k :: |stack| <= k < |stack'| ==> stack'[k] !in visited
    ensures visited' <= visited + {v} + Vertices(adj)
    decreases Vertices(adj) + {v} - visited, 1
  {
    visited' := visited + {v};
    stack' := stack;
    var path := gray + [v];
    assert forall x :: x in path <==> x in gray || x == v;
    var nbrs := Nbrs(adj, v);
    var i := 0;
    while i < |nbrs|
      invariant 0 <= i <= |nbrs|
      invariant Stacked(adj, v, visited, stack, path, visited', stack')
      invariant forall j :: 0 <= j < i ==> nbrs[j].dst in stack'
    {
      assert v in adj && nbrs[i] in adj[v];
      ghost var before := stack';
      visited', stack' := TopoChild(adj, v, path, visited, stack, nbrs[i].dst, visited', stack');
      forall j | 0 <= j < i + 1 ensures nbrs[j].dst in stack' {
        if j < i {
          assert nbrs[j].dst in before;
        }
      }
      i := i + 1;
    }
    assert v !in stack';
    FinishAppend(adj, stack', v);
    ExtendsTrans(stack, stack', stack' + [v]);
    stack' := stack' + [v];
  }

  /**
   * One round of the loop of the topological `dfs_util(v)`: the neighbour n
   * ends up on the stack, pushed by a recursive call when it was unvisited.
   * A visited neighbour off the stack would be on the recursion path, which
   * closes a cycle.
   */
  method TopoChild(adj: AdjMap, v: int, ghost path: seq<int>, ghost visited: set<int>, ghost stack: seq<int>, n: int,
                   vis: set<int>, stk: seq<int>)
    returns (vis': set<int>, stk': seq<int>)
    requires !HasCycle(adj) && v !in visited && IsEdge(adj, v, n)
    requires IsPath(adj, path) && path[|path| - 1] == v
    requires Stacked(adj, v, visited, stack, path, vis, stk)
    ensures Stacked(adj, v, visited, stack, path, vis', stk') && n in stk'
    ensures forall x :: x in stk ==> x in stk'
    decreases Vertices(adj) + {v} - visited, 0
  {
    BackEdgeIsCycle(adj, path, n);
    vis', stk' := vis, stk;
    if n !in vis {
      assert n in Vertices(adj);
      MeasureShrinks(adj, v, visited, n, vis);
      PathAppend(adj, path, n);
      vis', stk' := TopoDfs(adj, n, path, vis, stk);
      ChildStacked(adj, v, n, visited, stack, path, vis, stk, vis', stk');
    } else {
      assert n !in path;
    }
  }

  /**
   * What the loop of the topological `dfs_util(v)` keeps: the visited set is
   * the stack plus the recursion path, it grows from the old one by v and
   * vertices only, the stack stays a distinct finish order, and what it gains
   * was unvisited and is not v.
   */
  ghost predicate Stacked(adj: AdjMap, v: int, visited: set<int>, stack: seq<int>, path: seq<int>,
                          visited': set<int>, stack': seq<int>)
  {
    (forall x :: x in visited' <==> x in stack' || x in path) &&
    visited + {v} <= visited' <= visited + {v} + Vertices(adj) &&
    FinishOrdered(adj, stack') && Distinct(stack') &&
    |stack'| >= |stack| && stack'[..|stack|] == stack &&
    (forall k :: |stack| <= k < |stack'| ==> stack'[k] !in visited && stack'[k] != v)
  }

  /** A recursive visit of the unvisited neighbour n keeps what the loop of `dfs_util(v)` keeps. */
  lemma ChildStacked(adj: AdjMap, v: int, n: int, visited: set<int>, stack: seq<int>, path: seq<int>,
                     vis: set<int>, stk: seq<int>, vis': set<int>, stk': seq<int>)
    requires Stacked(adj, v, visited, stack, path, vis, stk) && n in Vertices(adj)
    requires forall x :: x in vis' <==> x in stk' || x in path
    requires FinishOrdered(adj, stk') && Distinct(stk')
    requires |stk'| > |stk| && stk'[..|stk|] == stk && n in stk'
    requires forall k :: |stk| <= k < |stk'| ==> stk'[k] !in vis
    requires vis' <= vis + {n} + Vertices(adj)
    ensures Stacked(adj, v, visited, stack, path, vis', stk') && n in stk'
    ensures forall x :: x in stk ==> x in stk'
  {
    ExtendsTrans(stack, stk, stk');
    forall x | x in vis ensures x in vis' {
      if x !in path {
        assert x in stk;
      }
    }
    forall k | |stack| <= k < |stk'| ensures stk'[k] !in visited && stk'[k] != v {
      if k < |stk| {
        assert stk'[k] == stk[k];
      }
    }
  }
}
