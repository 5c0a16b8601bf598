/** Finite sums over maps and over sequences of distinct keys. */
module Sums {
  import opened Words

  /** Sum of all values of a map; `TotalRemove` shows that the order of summation is immaterial. */
  ghost function Total<K>(m: map<K, int>): int
    decreases |m|
  {
    if m == map[] then 0 else
      var k :| k in m;
      m[k] + Total(m - {k})
  }

  lemma {:induction false} TotalRemove<K>(m: map<K, int>, k: K)
    requires k in m
    ensures Total(m) == m[k] + Total(m - {k})
    decreases |m|
  {
    var c :| c in m && Total(m) == m[c] + Total(m - {c});
    if c != k {
      TotalRemove(m - {c}, k);
      TotalRemove(m - {k}, c);
      assert (m - {c}) - {k} == (m - {k}) - {c};
    }
  }

  function Get<K>(m: map<K, int>, k: K): int {
    if k in m then m[k] else 0
  }

  /** Writing one key changes the sum by the difference at that key. */
  lemma TotalPut<K>(m: map<K, int>, k: K, v: int)
    ensures Total(m[k := v]) == Total(m) - Get(m, k) + v
  {
    var m' := m[k := v];
    TotalRemove(m', k);
    if k in m {
      TotalRemove(m, k);
      assert m' - {k} == m - {k};
    } else {
      assert m' - {k} == m;
    }
  }

  lemma TotalDrop<K>(m: map<K, int>, k: K)
    ensures Total(m - {k}) == Total(m) - Get(m, k)
  {
    if k in m {
      TotalRemove(m, k);
    } else {
      assert m - {k} == m;
    }
  }

  lemma {:induction false} TotalNonNegative<K>(m: map<K, int>)
    requires forall k :: k in m ==> 0 <= m[k]
    ensures 0 <= Total(m)
    ensures forall k :: k in m ==> m[k] <= Total(m)
    decreases |m|
  {
    if m != map[] {
      forall k | k in m
        ensures 0 <= m[k] <= Total(m)
      {
        TotalRemove(m, k);
        TotalNonNegative(m - {k});
      }
      var k :| k in m;
    }
  }

  /** New keys with value 0 do not matter. */
  lemma {:induction false} TotalExtend<K>(m: map<K, int>, m': map<K, int>)
    requires m.Keys <= m'.Keys
    requires forall k :: k in m' ==> m'[k] == Get(m, k)
    ensures Total(m) == Total(m')
    decreases |m'|
  {
    if k :| k in m' && k !in m {
      TotalDrop(m', k);
      TotalExtend(m, m' - {k});
    } else {
      assert m == m';
    }
  }

  ghost predicate Distinct<K(!new)>(xs: seq<K>) {
    forall i, j :: 0 <= i < j < |xs| ==> xs[i] != xs[j]
  }

  /** Sum of `m` along a list of keys; absent keys count 0. */
  ghost function ListTotal<K>(m: map<K, int>, xs: seq<K>): int {
    if xs == [] then 0 else ListTotal(m, xs[..|xs| - 1]) + Get(m, xs[|xs| - 1])
  }

  /** Listing the keys of a map once each, in any order, sums the whole map. */
  lemma {:induction false} ListTotalIsTotal<K(!new)>(m: map<K, int>, xs: seq<K>)
    requires Distinct(xs)
    requires forall k :: k in m ==> k in xs
    ensures ListTotal(m, xs) == Total(m)
  {
    if xs == [] {
      assert m == map[];
    } else {
      var front, last := xs[..|xs| - 1], xs[|xs| - 1];
      var m' := m - {last};
      forall k | k in m'
        ensures k in front
      {
        var i :| 0 <= i < |xs| && xs[i] == k;
        assert front[i] == k;
      }
      ListTotalIsTotal(m', front);
      ListTotalAgree(m, m', front);
      TotalDrop(m, last);
    }
  }

  lemma {:induction false} ListTotalAgree<K(!new)>(m: map<K, int>, m': map<K, int>, xs: seq<K>)
    requires forall k :: k in xs ==> Get(m, k) == Get(m', k)
    ensures ListTotal(m, xs) == ListTotal(m', xs)
  {
    if xs != [] {
      var front := xs[..|xs| - 1];
      forall k | k in front
        ensures Get(m, k) == Get(m', k)
      {
        assert k in xs;
      }
      ListTotalAgree(m, m', front);
    }
  }

  lemma {:induction false} TotalCong<K>(m: map<K, int>, m': map<K, int>)
    requires m.Keys == m'.Keys
    requires forall k :: k in m ==> Cong(m[k], m'[k])
    ensures Cong(Total(m), Total(m'))
    decreases |m|
  {
    hide Cong;
    if m == map[] {
      assert m' == map[];
      CongRefl(0);
    } else {
      var k :| k in m;
      TotalRemove(m, k);
      TotalRemove(m', k);
      TotalCong(m - {k}, m' - {k});
      CongAdd(m[k], m'[k], Total(m - {k}), Total(m' - {k}));
    }
  }

  lemma {:induction false} ZeroTotal<K>(m: map<K, int>)
    requires forall k :: k in m ==> m[k] == 0
    ensures Total(m) == 0
    decreases |m|
  {
    if m != map[] {
      var k :| k in m;
      TotalRemove(m, k);
      ZeroTotal(m - {k});
    }
  }
}
