/** Tables of counts in which an entry that reaches zero is dropped. */
module Counts {

  function CountOf<K>(m: map<K, nat>, k: K): nat {
    if k in m then m[k] else 0
  }

  function Bumped<K>(m: map<K, nat>, k: K): map<K, nat> {
    m[k := CountOf(m, k) + 1]
  }

  /** One less, stopping at nothing; the last one takes the entry with it. */
  function Dropped<K>(m: map<K, nat>, k: K): map<K, nat> {
    if k !in m then m
    else if m[k] <= 1 then m - {k}
    else m[k := m[k] - 1]
  }

  ghost predicate NoZeros<K>(m: map<K, nat>) {
    forall k | k in m :: m[k] > 0
  }

  ghost function Sum<K>(m: map<K, nat>): nat
    decreases |m|
  {
    if m == map[] then 0 else
    var k :| k in m;
    assert |(m - {k}).Keys| < |m.Keys| by { assert (m - {k}).Keys == m.Keys - {k}; }
    m[k] + Sum(m - {k})
  }

  /** The order in which the entries are added up does not matter. */
  lemma {:induction false} SumSplit<K>(m: map<K, nat>, k: K)
    requires k in m
    ensures Sum(m) == m[k] + Sum(m - {k})
    decreases |m|
  {
    var j :| j in m && Sum(m) == m[j] + Sum(m - {j});
    if j != k {
      var a, b := m - {j}, m - {k};
      assert |a.Keys| < |m.Keys| && |b.Keys| < |m.Keys| by { assert a.Keys == m.Keys - {j} && b.Keys == m.Keys - {k}; }
      SumSplit(a, k);
      SumSplit(b, j);
      assert a - {k} == b - {j};
    }
  }

  lemma SumUpdate<K>(m: map<K, nat>, k: K, n: nat)
    ensures Sum(m[k := n]) == Sum(m) - CountOf(m, k) + n
  {
    SumSplit(m[k := n], k);
    if k in m {
      SumSplit(m, k);
      assert m[k := n] - {k} == m - {k};
    } else {
      assert m[k := n] - {k} == m;
    }
  }

  lemma SumBumped<K>(m: map<K, nat>, k: K)
    ensures Sum(Bumped(m, k)) == Sum(m) + 1
  {
    SumUpdate(m, k, CountOf(m, k) + 1);
  }

  lemma SumDropped<K>(m: map<K, nat>, k: K)
    requires NoZeros(m)
    ensures Sum(Dropped(m, k)) == Sum(m) - if k in m then 1 else 0
  {
    hide Sum;
    if k in m {
      SumSplit(m, k);
      SumUpdate(m, k, Pred(m[k]));
      DroppedIs(m, k);
    }
  }

  function Pred(n: nat): nat {
    if n > 0 then n - 1 else 0
  }

  lemma DroppedIs<K>(m: map<K, nat>, k: K)
    requires NoZeros(m) && k in m
    ensures Dropped(m, k) == (if m[k] == 1 then m - {k} else m[k := Pred(m[k])])
  {
  }

  lemma SumIsZero<K>(m: map<K, nat>)
    requires NoZeros(m) && Sum(m) == 0
    ensures m == map[]
  {
    hide Sum;
    forall k ensures k !in m {
      if k in m { SumSplit(m, k); }
    }
  }

  /** The table counts exactly the elements of the multiset. */
  ghost predicate CountsOf<K(!new)>(m: map<K, nat>, live: multiset<K>) {
    NoZeros(m) && forall k :: CountOf(m, k) == live[k]
  }

  lemma BumpedCounts<K(!new)>(m: map<K, nat>, live: multiset<K>, k: K)
    requires CountsOf(m, live)
    ensures CountsOf(Bumped(m, k), live + multiset{k})
  {
  }

  lemma DroppedCounts<K(!new)>(m: map<K, nat>, live: multiset<K>, k: K)
    requires CountsOf(m, live)
    ensures CountsOf(Dropped(m, k), live - multiset{k})
  {
    assert CountOf(m, k) == live[k];
    var d := Dropped(m, k);
    forall j ensures CountOf(d, j) == (live - multiset{k})[j] {
      assert CountOf(m, j) == live[j];
    }
  }

  lemma NothingCounted<K(!new)>(m: map<K, nat>)
    requires CountsOf(m, multiset{})
    ensures m == map[]
  {
    forall k ensures k !in m {
      assert CountOf(m, k) == multiset{}[k];
    }
  }
}
