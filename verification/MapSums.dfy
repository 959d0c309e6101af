/** Sums over the values of a map, in any order. */
module MapSums {
  ghost function SumOver<K(!new), V>(m: map<K, V>, keys: set<K>, weight: V -> nat): (total: nat)
    requires keys <= m.Keys
    ensures keys == {} ==> total == 0
  {
    if keys == {} then 0
    else
      var k :| k in keys;
      weight(m[k]) + SumOver(m, keys - {k}, weight)
  }

  /** The sum over all values. */
  ghost function SumOf<K(!new), V>(m: map<K, V>, weight: V -> nat): nat {
    SumOver(m, m.Keys, weight)
  }

  /** Any key may be summed first. */
  lemma {:induction false} SumOverRemove<K(!new), V>(m: map<K, V>, keys: set<K>, k: K, weight: V -> nat)
    requires keys <= m.Keys && k in keys
    ensures SumOver(m, keys, weight) == weight(m[k]) + SumOver(m, keys - {k}, weight)
    decreases keys
  {
    var first :| first in keys && SumOver(m, keys, weight) == weight(m[first]) + SumOver(m, keys - {first}, weight);
    if first != k {
      SumOverRemove(m, keys - {first}, k, weight);
      SumOverRemove(m, keys - {k}, first, weight);
      assert keys - {first} - {k} == keys - {k} - {first};
    }
  }

  lemma {:induction false} SumOverSame<K(!new), V>(a: map<K, V>, b: map<K, V>, keys: set<K>, weight: V -> nat)
    requires keys <= a.Keys && keys <= b.Keys && forall k | k in keys :: a[k] == b[k]
    ensures SumOver(a, keys, weight) == SumOver(b, keys, weight)
    decreases keys
  {
    if keys != {} {
      var k :| k in keys;
      SumOverRemove(a, keys, k, weight);
      SumOverRemove(b, keys, k, weight);
      SumOverSame(a, b, keys - {k}, weight);
    }
  }

  lemma SumAfterInsert<K(!new), V>(m: map<K, V>, k: K, v: V, weight: V -> nat)
    requires k !in m
    ensures SumOf(m[k := v], weight) == SumOf(m, weight) + weight(v)
  {
    var after := m[k := v];
    SumOverRemove(after, after.Keys, k, weight);
    assert after.Keys - {k} == m.Keys;
    SumOverSame(m, after, m.Keys, weight);
  }

  lemma SumAfterRemove<K(!new), V>(m: map<K, V>, k: K, weight: V -> nat)
    requires k in m
    ensures SumOf(m, weight) == SumOf(m - {k}, weight) + weight(m[k])
  {
    var after := m - {k};
    SumOverRemove(m, m.Keys, k, weight);
    assert after.Keys == m.Keys - {k};
    SumOverSame(m, after, after.Keys, weight);
  }

  /** Replacing a value changes the sum by the difference of the weights. */
  lemma SumAfterReplace<K(!new), V>(m: map<K, V>, k: K, v: V, weight: V -> nat)
    requires k in m
    ensures SumOf(m[k := v], weight) + weight(m[k]) == SumOf(m, weight) + weight(v)
  {
    SumAfterRemove(m, k, weight);
    SumAfterInsert(m - {k}, k, v, weight);
    assert (m - {k})[k := v] == m[k := v];
  }
}
