/** Sums over the values of a finite map: the byte total of a queue. */
module MapSum {
  ghost function Sum<K, T>(m: map<K, T>, weight: T -> nat): nat
    decreases |m.Keys|
  {
    if m.Keys == {} then 0
    else
      var k :| k in m.Keys;
      assert (m - {k}).Keys == m.Keys - {k};
      weight(m[k]) + Sum(m - {k}, weight)
  }

  /** The sum does not depend on the order in which the keys are taken. */
  lemma {:induction false} SumRemove<K, T>(m: map<K, T>, weight: T -> nat, k: K)
    requires k in m
    ensures Sum(m, weight) == weight(m[k]) + Sum(m - {k}, weight)
    decreases |m.Keys|
  {
    var j :| j in m.Keys && Sum(m, weight) == weight(m[j]) + Sum(m - {j}, weight);
    if j != k {
      assert (m - {j}).Keys == m.Keys - {j};
      assert (m - {k}).Keys == m.Keys - {k};
      SumRemove(m - {j}, weight, k);
      SumRemove(m - {k}, weight, j);
      assert m - {j} - {k} == m - {k} - {j};
    }
  }

  lemma SumAdd<K, T>(m: map<K, T>, weight: T -> nat, k: K, v: T)
    requires k !in m
    ensures Sum(m[k := v], weight) == Sum(m, weight) + weight(v)
  {
    SumRemove(m[k := v], weight, k);
    assert m[k := v] - {k} == m;
  }

  lemma {:induction false} SumSubset<K, T>(m: map<K, T>, part: map<K, T>, weight: T -> nat)
    requires part.Keys <= m.Keys && forall k | k in part :: part[k] == m[k]
    ensures Sum(part, weight) <= Sum(m, weight)
    decreases |m.Keys|
  {
    if m.Keys == part.Keys {
      assert m == part;
    } else {
      var k :| k in m.Keys && k !in part.Keys;
      assert (m - {k}).Keys == m.Keys - {k};
      SumRemove(m, weight, k);
      SumSubset(m - {k}, part, weight);
    }
  }
}
