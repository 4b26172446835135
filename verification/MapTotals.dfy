/** Adding up over the values of a map, in whatever order. */
module MapTotals {
  ghost function Total<K, V>(m: map<K, V>, rank: V -> nat): nat
    decreases |m|
  {
    if m == map[] then 0
    else
      var k :| k in m;
      rank(m[k]) + Total(m - {k}, rank)
  }

  lemma {:induction false} TotalSplit<K, V>(m: map<K, V>, k: K, rank: V -> nat)
    requires k in m
    ensures Total(m, rank) == rank(m[k]) + Total(m - {k}, rank)
    decreases |m|
  {
    var j :| j in m && Total(m, rank) == rank(m[j]) + Total(m - {j}, rank);
    if j != k {
      TotalSplit(m - {j}, k, rank);
      TotalSplit(m - {k}, j, rank);
      assert m - {j} - {k} == m - {k} - {j};
    }
  }

  /** Changing one value changes the total by the difference. */
  lemma TotalUpdate<K, V>(m: map<K, V>, k: K, v: V, rank: V -> nat)
    requires k in m
    ensures Total(m[k := v], rank) + rank(m[k]) == Total(m, rank) + rank(v)
  {
    TotalSplit(m, k, rank);
    TotalSplit(m[k := v], k, rank);
    assert m[k := v] - {k} == m - {k};
  }

  ghost function Gather<K, V, T>(m: map<K, V>, pick: V -> multiset<T>): multiset<T>
    decreases |m|
  {
    if m == map[] then multiset{}
    else
      var k :| k in m;
      pick(m[k]) + Gather(m - {k}, pick)
  }

  lemma {:induction false} GatherSplit<K, V, T>(m: map<K, V>, k: K, pick: V -> multiset<T>)
    requires k in m
    ensures Gather(m, pick) == pick(m[k]) + Gather(m - {k}, pick)
    decreases |m|
  {
    var j :| j in m && Gather(m, pick) == pick(m[j]) + Gather(m - {j}, pick);
    if j != k {
      GatherSplit(m - {j}, k, pick);
      GatherSplit(m - {k}, j, pick);
      assert m - {j} - {k} == m - {k} - {j};
    }
  }

  lemma GatherUpdate<K, V, T>(m: map<K, V>, k: K, v: V, pick: V -> multiset<T>)
    ensures Gather(m[k := v], pick) + (if k in m then pick(m[k]) else multiset{}) == Gather(m, pick) + pick(v)
  {
    GatherSplit(m[k := v], k, pick);
    assert m[k := v] - {k} == m - {k};
    if k in m {
      GatherSplit(m, k, pick);
    } else {
      assert m - {k} == m;
    }
  }

  lemma {:induction false} GatherNothing<K, V, T>(m: map<K, V>, pick: V -> multiset<T>)
    requires forall k | k in m :: pick(m[k]) == multiset{}
    ensures Gather(m, pick) == multiset{}
    decreases |m|
  {
    if m != map[] {
      var k :| k in m;
      GatherSplit(m, k, pick);
      GatherNothing(m - {k}, pick);
    }
  }
}
