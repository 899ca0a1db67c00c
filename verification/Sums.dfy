/** Sums over the values of finite maps: the tables kept by the contracts are
    maps, and the properties about money and votes are sums over them. */
module Sums {

  /** The sum of all values of `m`, in no particular order. */
  ghost function Total<K>(m: map<K, int>): (t: int)
    decreases |m|
  {
    if m == map[] then 0 else
      var k :| k in m;
      m[k] + Total(m - {k})
  }

  /** Any key may be taken out first. */
  lemma {:induction false} TotalRemove<K>(m: map<K, int>, k: K)
    requires k in m
    ensures Total(m) == m[k] + Total(m - {k})
    decreases |m|
  {
    var j :| j in m && Total(m) == m[j] + Total(m - {j});
    if j != k {
      TotalRemove(m - {j}, k);
      TotalRemove(m - {k}, j);
      assert m - {j} - {k} == m - {k} - {j};
    }
  }

  lemma EmptyTotal<K>()
    ensures Total<K>(map[]) == 0
  {
  }

  lemma TotalInsert<K>(m: map<K, int>, k: K, v: int)
    ensures Total(m[k := v]) == Total(m) + v - (if k in m then m[k] else 0)
  {
    TotalRemove(m[k := v], k);
    if k in m {
      TotalRemove(m, k);
      assert m[k := v] - {k} == m - {k};
    } else {
      assert m[k := v] - {k} == m;
    }
  }

  /** Sums of non-negative values bound each of their terms. */
  lemma {:induction false} TotalNonNegative<K>(m: map<K, int>)
    requires forall k :: k in m ==> m[k] >= 0
    ensures Total(m) >= 0
    ensures forall k :: k in m ==> m[k] <= Total(m)
    decreases |m|
  {
    if m != map[] {
      forall k | k in m
        ensures m[k] <= Total(m) && Total(m) >= 0
      {
        TotalRemove(m, k);
        TotalNonNegative(m - {k});
      }
    }
  }

  /** Two disjoint tables add up. */
  lemma {:induction false} TotalUnion<K>(a: map<K, int>, b: map<K, int>)
    requires a.Keys !! b.Keys
    ensures Total(a + b) == Total(a) + Total(b)
    decreases |b|
  {
    hide Total;
    if b == map[] {
      assert a + b == a;
      assert Total(b) == 0 by { EmptyTotal<K>(); }
    } else {
      var k :| k in b;
      TotalUnionStep(a, b - {k}, b, k);
      TotalRemove(b, k);
      TotalUnion(a, b - {k});
    }
  }

  lemma TotalUnionStep<K>(a: map<K, int>, rest: map<K, int>, b: map<K, int>, k: K)
    requires k in b && k !in a && rest == b - {k}
    ensures Total(a + b) == Total(a + rest) + b[k]
  {
    assert a + b == (a + rest)[k := b[k]];
    TotalInsert(a + rest, k, b[k]);
  }

  /** Part of a table of non-negative values adds up to no more than the table. */
  lemma TotalSubmap<K>(part: map<K, int>, whole: map<K, int>)
    requires forall k :: k in part ==> k in whole && part[k] == whole[k]
    requires forall k :: k in whole ==> whole[k] >= 0
    ensures Total(part) <= Total(whole)
  {
    var rest := whole - part.Keys;
    assert whole == part + rest;
    TotalUnion(part, rest);
    TotalNonNegative(rest);
  }

  /** A sum of positive values is zero only for the empty table. */
  lemma TotalPositive<K>(m: map<K, int>)
    requires forall k :: k in m ==> m[k] > 0
    ensures Total(m) == 0 <==> m == map[]
  {
    TotalNonNegative(m);
    if m != map[] {
      var k :| k in m;
    }
  }
}
