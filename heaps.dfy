/**
 * The priority queues of `dijkstra` and `prim_mst`. Python's `heapq` keeps
 * a list in heap order; what the algorithms observe is only that
 * `heappop` removes a least entry in tuple order. The model keeps the
 * entries as a plain sequence and pops a lexicographic minimum.
 */
module Heaps {

  /** A Dijkstra entry (distance, vertex). */
  type Pair = (int, int)

  /** A Prim entry (weight, u, v). */
  type Triple = (int, int, int)

  /** Python's tuple order on pairs. */
  predicate PairLe(a: Pair, b: Pair)
  {
    a.0 < b.0 || (a.0 == b.0 && a.1 <= b.1)
  }

  /** Python's tuple order on triples. */
  predicate TripleLe(a: Triple, b: Triple)
  {
    a.0 < b.0 || (a.0 == b.0 && (a.1 < b.1 || (a.1 == b.1 && a.2 <= b.2)))
  }

  /** The position of a least pair: what `heappop` returns. */
  function MinPair(q: seq<Pair>): (k: nat)
    requires |q| > 0
    ensures k < |q|
    ensures forall j :: 0 <= j < |q| ==> PairLe(q[k], q[j])
  {
    if |q| == 1 then 0
    else
      var init := q[..|q| - 1];
      var k := MinPair(init);
      assert forall j :: 0 <= j < |q| - 1 ==> q[j] == init[j];
      if PairLe(q[k], q[|q| - 1]) then k else |q| - 1
  }

  /** The position of a least triple: what `heappop` returns. */
  function MinTriple(q: seq<Triple>): (k: nat)
    requires |q| > 0
    ensures k < |q|
    ensures forall j :: 0 <= j < |q| ==> TripleLe(q[k], q[j])
  {
    if |q| == 1 then 0
    else
      var init := q[..|q| - 1];
      var k := MinTriple(init);
      assert forall j :: 0 <= j < |q| - 1 ==> q[j] == init[j];
      if TripleLe(q[k], q[|q| - 1]) then k else |q| - 1
  }

  /** The queue after the entry at position k is popped: one copy of it goes, every other entry stays. */
  function Without<T>(q: seq<T>, k: nat): (r: seq<T>)
    requires k < |q|
    ensures |r| == |q| - 1
    ensures forall e :: e in q && e != q[k] ==> e in r
    ensures forall e :: e in r ==> e in q
  {
    assert q == q[..k] + [q[k]] + q[k + 1..];
    q[..k] + q[k + 1..]
  }

  /** Popping removes exactly one copy of the popped entry. */
  lemma WithoutCount<T>(q: seq<T>, k: nat)
    requires k < |q|
    ensures multiset(Without(q, k)) + multiset{q[k]} == multiset(q)
  {
    assert q == q[..k] + [q[k]] + q[k + 1..];
  }
}
