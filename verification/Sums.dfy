/** Adding up a weight over a finite map, in any order. */
module Sums {
  ghost function MapSum<K, V>(m: map<K, V>, w: V -> nat): nat
    decreases |m|
  {
    if m == map[] then 0
    else
      var k :| k in m;
      w(m[k]) + MapSum(m - {k}, w)
  }

  /** The sum does not depend on which entry is taken out first. */
  lemma {:induction false} TakeOut<K, V>(m: map<K, V>, w: V -> nat, k: K)
    requires k in m
    ensures MapSum(m, w) == w(m[k]) + MapSum(m - {k}, w)
    decreases |m|
  {
    var first :| first in m && MapSum(m, w) == w(m[first]) + MapSum(m - {first}, w);
    if first != k {
      TakeOut(m - {first}, w, k);
      TakeOut(m - {k}, w, first);
      assert m - {first} - {k} == m - {k} - {first};
    }
  }

  lemma PutIn<K, V>(m: map<K, V>, w: V -> nat, k: K, v: V)
    ensures MapSum(m[k := v], w) == w(v) + MapSum(m - {k}, w)
  {
    TakeOut(m[k := v], w, k);
    assert m[k := v] - {k} == m - {k};
  }

  lemma {:induction false} WithoutKey<K, V>(m: map<K, V>, w: V -> nat, k: K)
    ensures MapSum(m, w) == MapSum(m - {k}, w) + (if k in m then w(m[k]) else 0)
  {
    if k in m {
      TakeOut(m, w, k);
    } else {
      assert m - {k} == m;
    }
  }

  /** A set of n numbers below n is all of them. */
  lemma {:induction false} FullSet(s: set<nat>, n: nat)
    requires forall x :: x in s ==> x < n
    ensures |s| <= n
    ensures |s| == n ==> forall x: nat :: x < n ==> x in s
    decreases n
  {
    if n > 0 {
      var rest := s - {n - 1};
      assert |rest| == if n - 1 in s then |s| - 1 else |s|;
      FullSet(rest, n - 1);
      if |s| == n {
        forall x: nat | x < n
          ensures x in s
        {
          assert x < n - 1 ==> x in rest;
        }
      }
    } else {
      assert s == {};
    }
  }

  lemma MapSizes<K, V>(m: map<K, V>, k: K, v: V)
    ensures |m[k := v]| == if k in m then |m| else |m| + 1
    ensures |m - {k}| == if k in m then |m| - 1 else |m|
  {
    assert m[k := v].Keys == m.Keys + {k};
    assert (m - {k}).Keys == m.Keys - {k};
  }
}
