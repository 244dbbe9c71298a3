/** Sums of natural-number weights over finite maps.

    Ledgers, stake weights and per-key counters are all maps into `nat`; every
    conservation statement of this project is an equation between such sums. */
module Sums {
  import opened Sorting

  ghost function Sum<K>(m: map<K, nat>): nat
    decreases |m|
  {
    if m == map[] then 0
    else
      var k :| k in m;
      assert (m - {k}).Keys == m.Keys - {k};
      m[k] + Sum(m - {k})
  }

  /** The sum does not depend on which key is taken out first. */
  lemma {:induction false} SumRemove<K>(m: map<K, nat>, k: K)
    requires k in m
    ensures Sum(m) == m[k] + Sum(m - {k})
    decreases |m|
  {
    var j :| j in m && Sum(m) == m[j] + Sum(m - {j});
    if j != k {
      assert (m - {j}).Keys == m.Keys - {j};
      assert (m - {k}).Keys == m.Keys - {k};
      SumRemove(m - {j}, k);
      SumRemove(m - {k}, j);
      assert m - {j} - {k} == m - {k} - {j};
    }
  }

  /** Writing one key changes the sum by the difference at that key. */
  lemma SumUpdate<K>(m: map<K, nat>, k: K, v: nat)
    ensures Sum(m[k := v]) + (if k in m then m[k] else 0) == Sum(m) + v
  {
    SumRemove(m[k := v], k);
    assert m[k := v] - {k} == m - {k};
    if k in m {
      SumRemove(m, k);
    } else {
      assert m - {k} == m;
    }
  }

  lemma SumAtLeast<K>(m: map<K, nat>, k: K)
    requires k in m
    ensures m[k] <= Sum(m)
  {
    SumRemove(m, k);
  }

  function Restrict<K(==)>(m: map<K, nat>, keys: set<K>): (r: map<K, nat>)
  {
    map k | k in m && k in keys :: m[k]
  }

  /** The weight of a set of keys; keys outside the map weigh nothing. */
  ghost function Weight<K>(m: map<K, nat>, keys: set<K>): nat
  {
    Sum(Restrict(m, keys))
  }

  lemma WeightAll<K>(m: map<K, nat>, keys: set<K>)
    requires m.Keys <= keys
    ensures Weight(m, keys) == Sum(m)
  {
    assert Restrict(m, keys) == m;
  }

  lemma WeightEmpty<K>(m: map<K, nat>)
    ensures Weight(m, {}) == 0
  {
    assert Restrict(m, {}) == map[];
  }

  lemma WeightAdd<K>(m: map<K, nat>, keys: set<K>, k: K)
    requires k !in keys
    ensures Weight(m, keys + {k}) == Weight(m, keys) + (if k in m then m[k] else 0)
  {
    if k in m {
      assert Restrict(m, keys + {k}) == Restrict(m, keys)[k := m[k]];
      SumUpdate(Restrict(m, keys), k, m[k]);
    } else {
      assert Restrict(m, keys + {k}) == Restrict(m, keys);
    }
  }

  /** Inclusion-exclusion for weights. */
  lemma {:induction false} WeightUnion<K>(m: map<K, nat>, a: set<K>, b: set<K>)
    ensures Weight(m, a) + Weight(m, b) == Weight(m, a + b) + Weight(m, a * b)
    decreases a
  {
    if a == {} {
      assert a + b == b && a * b == {};
      WeightEmpty(m);
    } else {
      var k :| k in a;
      var c := a - {k};
      assert a == c + {k};
      WeightUnion(m, c, b);
      WeightAdd(m, c, k);
      if k in b {
        assert a + b == c + b && a * b == (c * b) + {k};
        WeightAdd(m, c * b, k);
      } else {
        assert a + b == (c + b) + {k} && a * b == c * b;
        WeightAdd(m, c + b, k);
      }
    }
  }

  lemma WeightMonotone<K>(m: map<K, nat>, a: set<K>, b: set<K>)
    requires a <= b
    ensures Weight(m, a) <= Weight(m, b)
  {
    assert a + (b - a) == b && a * (b - a) == {};
    WeightUnion(m, a, b - a);
    WeightEmpty(m);
  }

  lemma WeightAtMostSum<K>(m: map<K, nat>, a: set<K>)
    ensures Weight(m, a) <= Sum(m)
  {
    WeightMonotone(m, a, a + m.Keys);
    WeightAll(m, a + m.Keys);
  }

  lemma SubsetSize<T>(a: set<T>, b: set<T>)
    requires a <= b
    ensures |a| <= |b|
  {
    assert b == a + (b - a);
  }

  /** The sum of a measure over a list. */
  ghost function SeqSum<T>(s: seq<T>, f: T -> nat): nat {
    if s == [] then 0 else SeqSum(s[..|s| - 1], f) + f(s[|s| - 1])
  }

  lemma {:induction false} SeqSumAppend<T>(a: seq<T>, b: seq<T>, f: T -> nat)
    ensures SeqSum(a + b, f) == SeqSum(a, f) + SeqSum(b, f)
  {
    if b == [] {
      assert a + b == a;
    } else {
      assert (a + b)[..|a + b| - 1] == a + b[..|b| - 1];
      SeqSumAppend(a, b[..|b| - 1], f);
    }
  }

  lemma {:induction false} SeqSumPermutation<T>(a: seq<T>, b: seq<T>, f: T -> nat)
    requires multiset(a) == multiset(b)
    ensures SeqSum(a, f) == SeqSum(b, f)
  {
    if a == [] {
      assert |b| == |multiset(b)| == 0;
    } else {
      var p, q := TakeOut(a, b);
      SeqSumPermutation(a[1..], p + q, f);
      assert a == [a[0]] + a[1..];
      SeqSumAppend([a[0]], a[1..], f);
      SeqSumAppend(p + [a[0]], q, f);
      SeqSumAppend(p, [a[0]], f);
      SeqSumAppend(p, q, f);
    }
  }

  lemma {:induction false} SeqSumMember<T>(s: seq<T>, f: T -> nat, i: nat)
    requires i < |s|
    ensures f(s[i]) <= SeqSum(s, f)
  {
    if i < |s| - 1 {
      SeqSumMember(s[..|s| - 1], f, i);
    }
  }
}
