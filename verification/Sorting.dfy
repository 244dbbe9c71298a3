/** The stable comparison sort behind every `sort` and `sort_by` call of the node.

    The library's contract is all that matters: the result is sorted, is a
    permutation of the input, and keeps elements that compare equal in order. */
module Sorting {

  ghost predicate TotalPreorder<T(!new)>(le: (T, T) -> bool) {
    && (forall x, y :: le(x, y) || le(y, x))
    && (forall x, y, z :: le(x, y) && le(y, z) ==> le(x, z))
  }

  ghost predicate AntiSymmetric<T(!new)>(le: (T, T) -> bool) {
    forall x, y :: le(x, y) && le(y, x) ==> x == y
  }

  ghost predicate Sorted<T>(s: seq<T>, le: (T, T) -> bool) {
    forall i, j :: 0 <= i < j < |s| ==> le(s[i], s[j])
  }

  function Insert<T>(x: T, s: seq<T>, le: (T, T) -> bool): seq<T> {
    if s == [] || le(x, s[0]) then [x] + s
    else [s[0]] + Insert(x, s[1..], le)
  }

  function Sort<T>(s: seq<T>, le: (T, T) -> bool): seq<T> {
    if s == [] then []
    else Insert(s[0], Sort(s[1..], le), le)
  }

  lemma {:induction false} InsertPermutes<T>(x: T, s: seq<T>, le: (T, T) -> bool)
    ensures multiset(Insert(x, s, le)) == multiset(s) + multiset{x}
  {
    if s == [] || le(x, s[0]) {
    } else {
      InsertPermutes(x, s[1..], le);
      assert s == [s[0]] + s[1..];
    }
  }

  lemma {:induction false} InsertSorts<T(!new)>(x: T, s: seq<T>, le: (T, T) -> bool)
    requires TotalPreorder(le) && Sorted(s, le)
    ensures Sorted(Insert(x, s, le), le)
  {
    if s == [] {
    } else if le(x, s[0]) {
      forall j | 0 <= j < |s| ensures le(x, s[j]) {
        assert j > 0 ==> le(s[0], s[j]);
      }
    } else {
      var t := Insert(x, s[1..], le);
      InsertSorts(x, s[1..], le);
      InsertPermutes(x, s[1..], le);
      forall j | 0 <= j < |t| ensures le(s[0], t[j]) {
        assert t[j] in multiset(t);
        if t[j] != x {
          assert t[j] in s[1..];
          var k :| 0 <= k < |s[1..]| && s[1..][k] == t[j];
          assert le(s[0], s[k + 1]);
        }
      }
    }
  }

  lemma {:induction false} SortPermutes<T>(s: seq<T>, le: (T, T) -> bool)
    ensures multiset(Sort(s, le)) == multiset(s)
    ensures |Sort(s, le)| == |s|
  {
    if s != [] {
      SortPermutes(s[1..], le);
      InsertPermutes(s[0], Sort(s[1..], le), le);
      assert s == [s[0]] + s[1..];
      assert |multiset(Sort(s, le))| == |Sort(s, le)|;
      assert |multiset(s)| == |s|;
    }
  }

  lemma {:induction false} SortSorts<T(!new)>(s: seq<T>, le: (T, T) -> bool)
    requires TotalPreorder(le)
    ensures Sorted(Sort(s, le), le)
  {
    if s != [] {
      SortSorts(s[1..], le);
      InsertSorts(s[0], Sort(s[1..], le), le);
    }
  }

  /** Membership is unchanged by any permutation. */
  lemma SameMembers<T>(a: seq<T>, b: seq<T>)
    requires multiset(a) == multiset(b)
    ensures forall x :: x in a <==> x in b
  {
    forall x ensures x in a <==> x in b {
      assert x in a <==> x in multiset(a);
      assert x in b <==> x in multiset(b);
    }
  }

  /** The first element of a list, found in a permutation of it. */
  lemma TakeOut<T>(a: seq<T>, b: seq<T>) returns (p: seq<T>, q: seq<T>)
    requires a != [] && multiset(a) == multiset(b)
    ensures b == p + [a[0]] + q
    ensures multiset(a[1..]) == multiset(p + q)
  {
    SameMembers(a, b);
    assert a[0] in b;
    var i :| 0 <= i < |b| && b[i] == a[0];
    p, q := b[..i], b[i + 1..];
    assert a == [a[0]] + a[1..];
    assert b == p + [a[0]] + q;
    assert multiset(p + q) == multiset(b) - multiset{a[0]};
    assert multiset(a[1..]) == multiset(a) - multiset{a[0]};
  }

  /** Under a total order a multiset has exactly one sorted arrangement. */
  lemma {:induction false} SortedUnique<T(!new)>(a: seq<T>, b: seq<T>, le: (T, T) -> bool)
    requires AntiSymmetric(le) && TotalPreorder(le)
    requires Sorted(a, le) && Sorted(b, le)
    requires multiset(a) == multiset(b)
    ensures a == b
  {
    assert |a| == |multiset(a)| == |multiset(b)| == |b|;
    if a != [] {
      SameMembers(a, b);
      FirstAtMost(a, b[0], le);
      FirstAtMost(b, a[0], le);
      assert a == [a[0]] + a[1..] && b == [b[0]] + b[1..];
      assert multiset(a[1..]) == multiset(a) - multiset{a[0]};
      assert multiset(b[1..]) == multiset(b) - multiset{b[0]};
      SortedUnique(a[1..], b[1..], le);
    }
  }

  lemma FirstAtMost<T(!new)>(s: seq<T>, x: T, le: (T, T) -> bool)
    requires TotalPreorder(le) && Sorted(s, le) && x in s
    ensures le(s[0], x)
  {
    var i :| 0 <= i < |s| && s[i] == x;
  }

  /** Sorting by a total order forgets the order of the input. */
  lemma SortOrderIndependent<T(!new)>(a: seq<T>, b: seq<T>, le: (T, T) -> bool)
    requires AntiSymmetric(le) && TotalPreorder(le)
    requires multiset(a) == multiset(b)
    ensures Sort(a, le) == Sort(b, le)
  {
    SortPermutes(a, le);
    SortPermutes(b, le);
    SortSorts(a, le);
    SortSorts(b, le);
    SortedUnique(Sort(a, le), Sort(b, le), le);
  }

  /** Everything before a cut of a sorted list is ordered before everything after it. */
  lemma SortedCut<T(!new)>(s: seq<T>, k: nat, le: (T, T) -> bool)
    requires Sorted(s, le) && k <= |s|
    ensures forall x, y :: x in s[..k] && y in s[k..] ==> le(x, y)
  {
    forall x, y | x in s[..k] && y in s[k..] ensures le(x, y) {
      var i :| 0 <= i < k && s[..k][i] == x;
      var j :| 0 <= j < |s| - k && s[k..][j] == y;
      assert le(s[i], s[k + j]);
    }
  }

  function Filter<T>(s: seq<T>, p: T -> bool): seq<T> {
    if s == [] then []
    else if p(s[0]) then [s[0]] + Filter(s[1..], p)
    else Filter(s[1..], p)
  }

  lemma {:induction false} FilterMembers<T>(s: seq<T>, p: T -> bool)
    ensures forall x :: x in Filter(s, p) <==> x in s && p(x)
  {
    if s != [] {
      FilterMembers(s[1..], p);
      assert s == [s[0]] + s[1..];
    }
  }

  lemma {:induction false} FilterAppend<T>(a: seq<T>, b: seq<T>, p: T -> bool)
    ensures Filter(a + b, p) == Filter(a, p) + Filter(b, p)
  {
    if a == [] {
      assert a + b == b;
    } else {
      assert (a + b)[1..] == a[1..] + b;
      FilterAppend(a[1..], b, p);
    }
  }

  lemma {:induction false} FilterSorted<T(!new)>(s: seq<T>, p: T -> bool, le: (T, T) -> bool)
    requires Sorted(s, le)
    ensures Sorted(Filter(s, p), le)
  {
    if s != [] {
      FilterSorted(s[1..], p, le);
      FilterMembers(s[1..], p);
      var t := Filter(s[1..], p);
      forall j | 0 <= j < |t| ensures le(s[0], t[j]) {
        assert t[j] in s[1..];
        var k :| 0 <= k < |s[1..]| && s[1..][k] == t[j];
        assert le(s[0], s[k + 1]);
      }
    }
  }

  lemma {:induction false} FilterPermutation<T>(a: seq<T>, b: seq<T>, f: T -> bool)
    requires multiset(a) == multiset(b)
    ensures multiset(Filter(a, f)) == multiset(Filter(b, f))
    ensures |Filter(a, f)| == |Filter(b, f)|
  {
    if a == [] {
      assert |b| == |multiset(b)| == 0;
    } else {
      var p, q := TakeOut(a, b);
      FilterPermutation(a[1..], p + q, f);
      FilterAppend(p + [a[0]], q, f);
      FilterAppend(p, [a[0]], f);
      FilterAppend(p, q, f);
    }
  }

  lemma {:induction false} InsertStable<T(!new)>(x: T, s: seq<T>, le: (T, T) -> bool, c: T)
    requires TotalPreorder(le) && Sorted(s, le)
    ensures Filter(Insert(x, s, le), (y: T) => le(y, c) && le(c, y)) == Filter([x] + s, (y: T) => le(y, c) && le(c, y))
  {
    var tied := (y: T) => le(y, c) && le(c, y);
    if s == [] || le(x, s[0]) {
    } else {
      InsertStable(x, s[1..], le, c);
      var t := Insert(x, s[1..], le);
      FilterAppend([s[0]], t, tied);
      FilterAppend([x], s[1..], tied);
      FilterAppend([x], s, tied);
      FilterAppend([s[0]], s[1..], tied);
      assert s == [s[0]] + s[1..];
      assert !(tied(x) && tied(s[0]));
      assert Filter([x], tied) + Filter([s[0]], tied) == Filter([s[0]], tied) + Filter([x], tied);
      assert Filter([x], tied) + Filter([s[0]], tied) + Filter(s[1..], tied)
          == Filter([x], tied) + (Filter([s[0]], tied) + Filter(s[1..], tied));
      assert Filter([s[0]], tied) + Filter([x], tied) + Filter(s[1..], tied)
          == Filter([s[0]], tied) + (Filter([x], tied) + Filter(s[1..], tied));
    }
  }

  /** Elements that compare equal keep their input order. */
  lemma {:induction false} SortStable<T(!new)>(s: seq<T>, le: (T, T) -> bool, c: T)
    requires TotalPreorder(le)
    ensures Filter(Sort(s, le), (y: T) => le(y, c) && le(c, y)) == Filter(s, (y: T) => le(y, c) && le(c, y))
  {
    var tied := (y: T) => le(y, c) && le(c, y);
    if s != [] {
      SortStable(s[1..], le, c);
      SortSorts(s[1..], le);
      InsertStable(s[0], Sort(s[1..], le), le, c);
      FilterAppend([s[0]], Sort(s[1..], le), tied);
      FilterAppend([s[0]], s[1..], tied);
      assert s == [s[0]] + s[1..];
    }
  }

  /** `x` stands before `y` in the list. */
  ghost predicate Before<T>(s: seq<T>, x: T, y: T) {
    exists i, j :: 0 <= i < j < |s| && s[i] == x && s[j] == y
  }

  lemma BeforeInTail<T>(s: seq<T>, x: T, y: T)
    requires s != []
    ensures Before(s, x, y) <==> Before(s[1..], x, y) || (s[0] == x && y in s[1..])
  {
    if i, j :| 0 <= i < j < |s| && s[i] == x && s[j] == y {
      assert s[1..][j - 1] == y;
      if i > 0 {
        assert s[1..][i - 1] == x;
      }
    }
    if i, j :| 0 <= i < j < |s[1..]| && s[1..][i] == x && s[1..][j] == y {
      assert s[i + 1] == x && s[j + 1] == y;
    }
    if s[0] == x && y in s[1..] {
      var j :| 0 <= j < |s[1..]| && s[1..][j] == y;
      assert s[j + 1] == y;
    }
  }

  /** Leaving elements out keeps the order of the others. */
  lemma {:induction false} FilterKeepsOrder<T>(s: seq<T>, p: T -> bool, x: T, y: T)
    requires p(x) && p(y)
    ensures Before(Filter(s, p), x, y) <==> Before(s, x, y)
  {
    if s != [] {
      FilterKeepsOrder(s[1..], p, x, y);
      BeforeInTail(s, x, y);
      FilterMembers(s[1..], p);
      if p(s[0]) {
        var t := Filter(s, p);
        assert t[1..] == Filter(s[1..], p);
        BeforeInTail(t, x, y);
      }
    }
  }

  /** Elements that compare equal are in the order of the input. */
  lemma TiesKeepOrder<T(!new)>(s: seq<T>, le: (T, T) -> bool, x: T, y: T)
    requires TotalPreorder(le) && le(x, y) && le(y, x)
    ensures Before(Sort(s, le), x, y) <==> Before(s, x, y)
  {
    var tied := (z: T) => le(z, x) && le(x, z);
    SortStable(s, le, x);
    FilterKeepsOrder(s, tied, x, y);
    FilterKeepsOrder(Sort(s, le), tied, x, y);
  }

  ghost predicate Distinct<T>(s: seq<T>) {
    forall i, j :: 0 <= i < j < |s| ==> s[i] != s[j]
  }

  lemma {:induction false} DistinctMultiplicity<T>(s: seq<T>, x: T)
    requires Distinct(s)
    ensures multiset(s)[x] <= 1
  {
    if s != [] {
      assert s == s[..|s| - 1] + [s[|s| - 1]];
      DistinctMultiplicity(s[..|s| - 1], x);
      if x == s[|s| - 1] {
        assert x !in s[..|s| - 1];
        assert x !in multiset(s[..|s| - 1]);
      }
    }
  }

  lemma DistinctPermutation<T>(a: seq<T>, b: seq<T>)
    requires Distinct(a) && multiset(a) == multiset(b)
    ensures Distinct(b)
  {
    forall i, j | 0 <= i < j < |b| ensures b[i] != b[j] {
      DistinctMultiplicity(a, b[i]);
      assert b == b[..j] + ([b[j]] + b[j + 1..]);
      assert multiset(b) == multiset(b[..j]) + multiset{b[j]} + multiset(b[j + 1..]);
      assert b[i] in b[..j];
      assert b[i] in multiset(b[..j]);
    }
  }
}
