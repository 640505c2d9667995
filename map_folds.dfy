/**
 * Sums and maxima over the values of a map, the `sum(...)` and `max(...)` that
 * `size`, `total_chars` and `height` take over a node's children (radix.py:337, 353, 362).
 */
module MapFolds {

  /** The sum of the values of `m`; the order of summation does not matter (`SumOfRemove`). */
  ghost function SumOf(m: map<string, nat>): nat
    decreases |m|
  {
    if m == map[] then 0
    else
      var k :| k in m;
      assert |m - {k}| < |m| by { assert (m - {k}).Keys < m.Keys; }
      m[k] + SumOf(m - {k})
  }

  /** Any entry can be taken out of the sum first. */
  lemma {:induction false} SumOfRemove(m: map<string, nat>, k: string)
    requires k in m
    ensures SumOf(m) == m[k] + SumOf(m - {k})
    decreases |m|
  {
    var j :| j in m && SumOf(m) == m[j] + SumOf(m - {j});
    if j != k {
      assert |m - {j}| < |m| by { assert (m - {j}).Keys < m.Keys; }
      assert |m - {k}| < |m| by { assert (m - {k}).Keys < m.Keys; }
      SumOfRemove(m - {j}, k);
      SumOfRemove(m - {k}, j);
      assert m - {j} - {k} == m - {k} - {j};
    }
  }

  lemma SumOfAdd(m: map<string, nat>, k: string, x: nat)
    requires k !in m
    ensures SumOf(m[k := x]) == SumOf(m) + x
  {
    SumOfRemove(m[k := x], k);
    assert m[k := x] - {k} == m;
  }

  lemma SumOfUpdate(m: map<string, nat>, k: string, x: nat)
    requires k in m
    ensures SumOf(m[k := x]) + m[k] == SumOf(m) + x
  {
    SumOfRemove(m[k := x], k);
    SumOfRemove(m, k);
    assert m[k := x] - {k} == m - {k};
  }

  /** A two-entry map sums to its two values. */
  lemma SumOfPair(a: string, b: string, x: nat, y: nat)
    requires a != b
    ensures SumOf(map[a := x, b := y]) == x + y
  {
    SumOfAdd(map[a := x], b, y);
    SumOfRemove(map[a := x], a);
    assert map[a := x] - {a} == map[];
  }

  /** Replacing the entry under `k` by one under a new key `j`. */
  lemma SumOfSwap(m: map<string, nat>, k: string, j: string, x: nat)
    requires k in m && j !in m
    ensures SumOf(m[j := x] - {k}) + m[k] == SumOf(m) + x
  {
    SumOfRemove(m, k);
    SumOfAdd(m - {k}, j, x);
    assert (m - {k})[j := x] == m[j := x] - {k};
  }

  /** The largest value of `m`, 0 for the empty map. */
  ghost function MaxOf(m: map<string, nat>): (r: nat)
    ensures forall k :: k in m ==> m[k] <= r
    ensures m != map[] ==> exists k :: k in m && m[k] == r
    ensures m == map[] ==> r == 0
    decreases |m|
  {
    if m == map[] then 0
    else
      var k :| k in m;
      assert |m - {k}| < |m| by { assert (m - {k}).Keys < m.Keys; }
      var rest := MaxOf(m - {k});
      assert forall j :: j in m && j != k ==> j in m - {k} && m[j] == (m - {k})[j];
      if m[k] >= rest then m[k] else rest
  }

  /** If every value of `m` is matched by a value of `m'` at least as large, the maximum grows. */
  lemma MaxOfDominated(m: map<string, nat>, m': map<string, nat>)
    requires forall k :: k in m ==> exists k' :: k' in m' && m[k] <= m'[k']
    ensures MaxOf(m) <= MaxOf(m')
  {
    if m != map[] {
      var k :| k in m && m[k] == MaxOf(m);
      var k' :| k' in m' && m[k] <= m'[k'];
    }
  }

  /** If every value of `m'` is at most `bound`, so is its maximum. */
  lemma MaxOfBounded(m': map<string, nat>, bound: nat)
    requires forall k :: k in m' ==> m'[k] <= bound
    ensures MaxOf(m') <= bound
  {
    if m' != map[] {
      var k :| k in m' && m'[k] == MaxOf(m');
    }
  }

  /** Raising one entry by at most one raises the maximum by at most one. */
  lemma MaxOfUpdate(m: map<string, nat>, k: string, x: nat)
    requires k in m && m[k] <= x <= m[k] + 1
    ensures MaxOf(m) <= MaxOf(m[k := x]) <= MaxOf(m) + 1
  {
    var m' := m[k := x];
    forall j | j in m ensures exists j' :: j' in m' && m[j] <= m'[j'] {
      assert m[j] <= m'[j];
    }
    MaxOfDominated(m, m');
    MaxOfBounded(m', MaxOf(m) + 1);
  }

  /** The same, with the raised entry moved to a new key `j`. */
  lemma MaxOfSwap(m: map<string, nat>, k: string, j: string, x: nat)
    requires k in m && j !in m && m[k] <= x <= m[k] + 1
    ensures MaxOf(m) <= MaxOf(m[j := x] - {k}) <= MaxOf(m) + 1
  {
    var m' := m[j := x] - {k};
    forall i | i in m ensures exists i' :: i' in m' && m[i] <= m'[i'] {
      if i == k { assert m[i] <= m'[j]; } else { assert m[i] <= m'[i]; }
    }
    MaxOfDominated(m, m');
    MaxOfBounded(m', MaxOf(m) + 1);
  }
}
