/** Sums of map values over a set of keys, shared by the total-doses
    invariant, the sum of a country's shares and the grouping size lemma. */
module MapSums {

  /** The sum of m[k] over every k in keys. */
  ghost function SumOver<K>(m: map<K, int>, keys: set<K>): int
    requires keys <= m.Keys
    decreases keys
  {
    if keys == {} then 0
    else
      var k :| k in keys;
      m[k] + SumOver(m, keys - {k})
  }

  /** Any key may be taken out of the sum first. */
  lemma {:induction false} SumOverRemove<K>(m: map<K, int>, keys: set<K>, k: K)
    requires keys <= m.Keys && k in keys
    ensures SumOver(m, keys) == m[k] + SumOver(m, keys - {k})
    decreases keys
  {
    var j :| j in keys && SumOver(m, keys) == m[j] + SumOver(m, keys - {j});
    if j != k {
      SumOverRemove(m, keys - {j}, k);
      SumOverRemove(m, keys - {k}, j);
      assert keys - {j} - {k} == keys - {k} - {j};
    }
  }

  /** Two maps that agree on the keys have the same sum over them. */
  lemma {:induction false} SumOverAgree<K>(m: map<K, int>, m': map<K, int>, keys: set<K>)
    requires keys <= m.Keys && keys <= m'.Keys
    requires forall k :: k in keys ==> m[k] == m'[k]
    ensures SumOver(m, keys) == SumOver(m', keys)
    decreases keys
  {
    if keys != {} {
      var k :| k in keys;
      SumOverRemove(m, keys, k);
      SumOverRemove(m', keys, k);
      SumOverAgree(m, m', keys - {k});
    }
  }

  /** The sum of the real values m[k] over every k in keys. */
  ghost function RealSumOver<K>(m: map<K, real>, keys: set<K>): real
    requires keys <= m.Keys
    decreases keys
  {
    if keys == {} then 0.0
    else
      var k :| k in keys;
      m[k] + RealSumOver(m, keys - {k})
  }

  /** Any key may be taken out of the real sum first. */
  lemma {:induction false} RealSumOverRemove<K>(m: map<K, real>, keys: set<K>, k: K)
    requires keys <= m.Keys && k in keys
    ensures RealSumOver(m, keys) == m[k] + RealSumOver(m, keys - {k})
    decreases keys
  {
    var j :| j in keys && RealSumOver(m, keys) == m[j] + RealSumOver(m, keys - {j});
    if j != k {
      RealSumOverRemove(m, keys - {j}, k);
      RealSumOverRemove(m, keys - {k}, j);
      assert keys - {j} - {k} == keys - {k} - {j};
    }
  }
}
