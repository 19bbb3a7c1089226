// Sums over finite maps, as the ledger's summing loops compute them: the iteration order of a
// map is not fixed, so every fact here is independent of it.
module MapSums {
  // The sum of f over the values of m.
  ghost function Sum<K(!new), V>(m: map<K, V>, f: V -> int): int
    decreases |m|
  {
    if m == map[] then 0 else var k :| k in m; f(m[k]) + Sum(m - {k}, f)
  }

  // The value m holds for k, or d where k is missing (a Go map's zero value).
  function At<K, V>(m: map<K, V>, k: K, d: V): (v: V) {
    if k in m then m[k] else d
  }

  lemma {:induction false} SumRemove<K(!new), V>(m: map<K, V>, f: V -> int, k: K)
    requires k in m
    ensures Sum(m, f) == f(m[k]) + Sum(m - {k}, f)
    decreases |m|
  {
    var p :| p in m && Sum(m, f) == f(m[p]) + Sum(m - {p}, f);
    if p != k {
      SumRemove(m - {p}, f, k);
      SumRemove(m - {k}, f, p);
      assert m - {p} - {k} == m - {k} - {p};
    }
  }

  // Overwriting one entry changes the sum by the difference at that entry.
  lemma SumUpdate<K(!new), V>(m: map<K, V>, f: V -> int, k: K, v: V, d: V)
    requires f(d) == 0
    ensures Sum(m[k := v], f) == Sum(m, f) - f(At(m, k, d)) + f(v)
  {
    var n := m[k := v];
    SumRemove(n, f, k);
    assert n - {k} == m - {k};
    if k in m {
      SumRemove(m, f, k);
    } else {
      assert m - {k} == m;
    }
  }

  lemma {:induction false} SumBound<K(!new), V>(m: map<K, V>, f: V -> int)
    requires forall k :: k in m ==> f(m[k]) >= 0
    ensures Sum(m, f) >= 0
    ensures forall k :: k in m ==> f(m[k]) <= Sum(m, f)
    decreases |m|
  {
    if m != map[] {
      forall k | k in m
        ensures 0 <= f(m[k]) <= Sum(m, f)
      {
        SumRemove(m, f, k);
        SumBound(m - {k}, f);
      }
      var k :| k in m;
      assert 0 <= f(m[k]) <= Sum(m, f);
    }
  }
}
