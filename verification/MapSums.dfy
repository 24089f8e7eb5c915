/** Sums over the values of a map. */
module MapSums {

  ghost function MapSum<K, V>(m: map<K, V>, w: V -> int): int {
    if m == map[] then 0
    else
      var k :| k in m;
      w(m[k]) + MapSum(m - {k}, w)
  }

  /** Any key may be taken out first. */
  lemma {:induction false} SumWithout<K, V>(m: map<K, V>, k: K, w: V -> int)
    requires k in m
    ensures MapSum(m, w) == w(m[k]) + MapSum(m - {k}, w)
    decreases |m|
  {
    assert m != map[];
    var d :| d in m && MapSum(m, w) == w(m[d]) + MapSum(m - {d}, w);
    if d != k {
      SumWithout(m - {d}, k, w);
      SumWithout(m - {k}, d, w);
      assert m - {d} - {k} == m - {k} - {d};
    }
  }

  lemma SumWith<K, V>(m: map<K, V>, k: K, v: V, w: V -> int)
    ensures MapSum(m[k := v], w) == w(v) + MapSum(m - {k}, w)
    ensures MapSum(m[k := v], w) == MapSum(m, w) + w(v) - if k in m then w(m[k]) else 0
  {
    SumWithout(m[k := v], k, w);
    assert m[k := v] - {k} == m - {k};
    if k in m {
      SumWithout(m, k, w);
    } else {
      assert m - {k} == m;
    }
  }

  lemma {:induction false} SumNatural<K, V>(m: map<K, V>, w: V -> int)
    requires forall k | k in m :: w(m[k]) >= 0
    ensures MapSum(m, w) >= 0
    ensures forall k | k in m :: w(m[k]) <= MapSum(m, w)
    decreases |m|
  {
    if m != map[] {
      var d :| d in m;
      SumWithout(m, d, w);
      SumNatural(m - {d}, w);
      assert forall k | k in m && k != d :: k in m - {d} && (m - {d})[k] == m[k];
    }
  }
}
