/** Sums of the values of a map. */
module MapSums {
  ghost function PickFrom<K(!new)>(m: map<K, nat>): K
    requires m != map[]
    ensures PickFrom(m) in m
  {
    var k :| k in m; k
  }

  ghost function SumValues<K(!new)>(m: map<K, nat>): nat
    decreases |m|
  {
    if m == map[] then 0
    else var k := PickFrom(m); SumValues(m - {k}) + m[k]
  }

  lemma {:induction false} SumWithout<K(!new)>(m: map<K, nat>, k: K)
    requires k in m
    ensures SumValues(m) == SumValues(m - {k}) + m[k]
    decreases |m|
  {
    var j := PickFrom(m);
    if j != k {
      var both := m - {j} - {k};
      assert m - {k} - {j} == both;
      SumWithout(m - {j}, k);
      SumWithout(m - {k}, j);
    }
  }

  lemma SumWrite<K(!new)>(m: map<K, nat>, k: K, n: nat)
    ensures SumValues(m[k := n]) == SumValues(m - {k}) + n
    ensures k !in m ==> SumValues(m[k := n]) == SumValues(m) + n
    ensures k in m ==> SumValues(m[k := n]) == SumValues(m) - m[k] + n
  {
    SumWithout(m[k := n], k);
    assert m[k := n] - {k} == m - {k};
    if k in m { SumWithout(m, k); } else { assert m - {k} == m; }
  }

  function ValueOf<K>(m: map<K, nat>, k: K): nat {
    if k in m then m[k] else 0
  }

  /** Missing keys count as zeros. */
  lemma {:induction false} SumSame<K(!new)>(m: map<K, nat>, n: map<K, nat>)
    requires forall k :: ValueOf(m, k) == ValueOf(n, k)
    ensures SumValues(m) == SumValues(n)
    decreases |m|
  {
    if m == map[] {
      forall k | k in n ensures n[k] == 0 { assert ValueOf(m, k) == ValueOf(n, k); }
      ZeroSum(n);
    } else {
      var k := PickFrom(m);
      forall j ensures ValueOf(m - {k}, j) == ValueOf(n - {k}, j) { assert ValueOf(m, j) == ValueOf(n, j); }
      SumSame(m - {k}, n - {k});
      assert ValueOf(m, k) == ValueOf(n, k);
      if k in n { SumWithout(n, k); } else { assert n - {k} == n; }
    }
  }

  lemma {:induction false} ZeroSum<K(!new)>(m: map<K, nat>)
    requires forall k :: k in m ==> m[k] == 0
    ensures SumValues(m) == 0
    decreases |m|
  {
    if m != map[] { ZeroSum(m - {PickFrom(m)}); }
  }
}
