/** Sums of natural numbers over finite maps, independent of the order of summation. */
module Sums {
  ghost function Sum<K>(m: map<K, nat>): nat {
    if m == map[] then 0 else
      var k :| k in m;
      m[k] + Sum(m - {k})
  }

  lemma {:induction false} SumRemove<K>(m: map<K, nat>, k: K)
    requires k in m
    ensures Sum(m) == m[k] + Sum(m - {k})
    decreases |m|
  {
    var j :| j in m && Sum(m) == m[j] + Sum(m - {j});
    if j != k {
      var rest := m - {j};
      SumRemove(rest, k);
      var other := m - {k};
      SumRemove(other, j);
      assert rest - {k} == other - {j};
    }
  }

  lemma SumUpdate<K>(m: map<K, nat>, k: K, v: nat)
    ensures Sum(m[k := v]) == Sum(m - {k}) + v
    ensures Sum(m) == Sum(m - {k}) + (if k in m then m[k] else 0)
  {
    SumRemove(m[k := v], k);
    assert m[k := v] - {k} == m - {k};
    if k in m {
      SumRemove(m, k);
    } else {
      assert m - {k} == m;
    }
  }

  /** One addend is at most the whole. */
  lemma AddendAtMostSum<K>(m: map<K, nat>, k: K)
    requires k in m
    ensures m[k] <= Sum(m)
  {
    SumRemove(m, k);
  }

  /** A sum splits over any set of keys and its complement. */
  lemma {:induction false} SumSplit<K>(m: map<K, nat>, s: set<K>)
    ensures Sum(m) == Sum(m - s) + Sum(map k | k in m && k in s :: m[k])
    decreases |m|
  {
    var inside := map k | k in m && k in s :: m[k];
    if m == map[] {
      assert m - s == map[] && inside == map[];
    } else {
      var k :| k in m;
      SumRemove(m, k);
      var rest := m - {k};
      SumSplit(rest, s);
      var restInside := map j | j in rest && j in s :: rest[j];
      if k in s {
        SumRemove(inside, k);
        assert inside - {k} == restInside;
        assert m - s == rest - s;
      } else {
        SumRemove(m - s, k);
        assert (m - s) - {k} == rest - s;
        assert inside == restInside;
      }
    }
  }

  /** Addends that are all zero add nothing. */
  lemma {:induction false} SumZero<K>(m: map<K, nat>)
    requires forall k :: k in m ==> m[k] == 0
    ensures Sum(m) == 0
    decreases |m|
  {
    if m != map[] {
      var k :| k in m;
      SumRemove(m, k);
      SumZero(m - {k});
    }
  }
}
