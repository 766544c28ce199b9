/** Sums of a weight over the entries of a finite map, independent of enumeration order. */
module Sums {
  ghost function MapSum<K(!new), V(!new)>(m: map<K, V>, f: (K, V) -> nat): (n: nat)
    decreases |m|
  {
    if m == map[] then 0
    else
      var k :| k in m;
      assert |m - {k}| < |m| by { ShrinkSize(m, k); }
      f(k, m[k]) + MapSum(m - {k}, f)
  }

  lemma ShrinkSize<K, V>(m: map<K, V>, k: K)
    requires k in m
    ensures |m - {k}| == |m| - 1
  {
    assert (m - {k}).Keys == m.Keys - {k};
    assert |m.Keys| == |m| && |(m - {k}).Keys| == |m - {k}|;
  }

  lemma {:induction false} MapSumRemove<K(!new), V(!new)>(m: map<K, V>, f: (K, V) -> nat, k: K)
    requires k in m
    ensures MapSum(m, f) == MapSum(m - {k}, f) + f(k, m[k])
    decreases |m|
  {
    var p :| p in m && MapSum(m, f) == f(p, m[p]) + MapSum(m - {p}, f);
    ShrinkSize(m, p);
    if p != k {
      ShrinkSize(m, k);
      MapSumRemove(m - {p}, f, k);
      MapSumRemove(m - {k}, f, p);
      assert m - {p} - {k} == m - {k} - {p};
    }
  }

  lemma MapSumPut<K(!new), V(!new)>(m: map<K, V>, f: (K, V) -> nat, k: K, v: V)
    ensures MapSum(m[k := v], f) == MapSum(m - {k}, f) + f(k, v)
  {
    MapSumRemove(m[k := v], f, k);
    assert m[k := v] - {k} == m - {k};
  }

  lemma MapSumAbsent<K(!new), V(!new)>(m: map<K, V>, f: (K, V) -> nat, k: K)
    requires k !in m
    ensures MapSum(m - {k}, f) == MapSum(m, f)
  {
    assert m - {k} == m;
  }
}
