/** The meaning of Rust's stable `sort_by`/`sort_by_key`, for any total preorder. */
module StableSort {
  ghost predicate TotalPreorder<T(!new)>(le: (T, T) -> bool) {
    && (forall a, b :: le(a, b) || le(b, a))
    && (forall a, b, c :: le(a, b) && le(b, c) ==> le(a, c))
  }

  ghost predicate Sorted<T>(s: seq<T>, le: (T, T) -> bool) {
    forall i, j :: 0 <= i < j < |s| ==> le(s[i], s[j])
  }

  function Insert<T>(x: T, s: seq<T>, le: (T, T) -> bool): (r: seq<T>)
    ensures |r| == |s| + 1
  {
    if s == [] || le(x, s[0]) then [x] + s else [s[0]] + Insert(x, s[1..], le)
  }

  function SortBy<T>(s: seq<T>, le: (T, T) -> bool): (r: seq<T>)
    ensures |r| == |s|
  {
    if s == [] then [] else Insert(s[0], SortBy(s[1..], le), le)
  }

  lemma {:induction false} InsertPermutes<T>(x: T, s: seq<T>, le: (T, T) -> bool)
    ensures multiset(Insert(x, s, le)) == multiset{x} + multiset(s)
  {
    if s != [] && !le(x, s[0]) {
      InsertPermutes(x, s[1..], le);
      assert s == [s[0]] + s[1..];
    }
  }

  lemma {:induction false} SortPermutes<T>(s: seq<T>, le: (T, T) -> bool)
    ensures multiset(SortBy(s, le)) == multiset(s)
    ensures forall x :: x in SortBy(s, le) <==> x in s
  {
    if s != [] {
      SortPermutes(s[1..], le);
      InsertPermutes(s[0], SortBy(s[1..], le), le);
      assert s == [s[0]] + s[1..];
    }
    forall x
      ensures x in SortBy(s, le) <==> x in s
    {
      assert x in multiset(SortBy(s, le)) <==> x in multiset(s);
    }
  }

  lemma {:induction false} InsertSorted<T(!new)>(x: T, s: seq<T>, le: (T, T) -> bool)
    requires TotalPreorder(le) && Sorted(s, le)
    ensures Sorted(Insert(x, s, le), le)
  {
    if s != [] && !le(x, s[0]) {
      InsertSorted(x, s[1..], le);
      InsertPermutes(x, s[1..], le);
      var r := Insert(x, s[1..], le);
      forall k | 0 <= k < |r|
        ensures le(s[0], r[k])
      {
        assert r[k] in multiset(r);
        assert r[k] == x || r[k] in s[1..];
      }
    } else if s != [] {
      forall k | 0 <= k < |s|
        ensures le(x, s[k])
      {
        assert le(x, s[0]) && (k == 0 || le(s[0], s[k]));
      }
    }
  }

  lemma {:induction false} SortSorted<T(!new)>(s: seq<T>, le: (T, T) -> bool)
    requires TotalPreorder(le)
    ensures Sorted(SortBy(s, le), le)
  {
    if s != [] {
      SortSorted(s[1..], le);
      InsertSorted(s[0], SortBy(s[1..], le), le);
    }
  }

  /** Sorting leaves a sorted sequence alone. */
  lemma {:induction false} SortFixes<T(!new)>(s: seq<T>, le: (T, T) -> bool)
    requires Sorted(s, le)
    ensures SortBy(s, le) == s
  {
    if s != [] {
      SortFixes(s[1..], le);
      assert s == [s[0]] + s[1..];
    }
  }

  ghost function Filter<T>(s: seq<T>, p: T -> bool): seq<T> {
    if s == [] then [] else (if p(s[0]) then [s[0]] else []) + Filter(s[1..], p)
  }

  ghost function SameRank<T>(x: T, le: (T, T) -> bool): T -> bool {
    y => le(x, y) && le(y, x)
  }

  lemma {:induction false} InsertStable<T(!new)>(x: T, s: seq<T>, le: (T, T) -> bool, g: T)
    requires TotalPreorder(le)
    ensures Filter(Insert(x, s, le), SameRank(g, le)) == Filter([x] + s, SameRank(g, le))
  {
    assert ([x] + s)[1..] == s;
    if s != [] && !le(x, s[0]) {
      InsertStable(x, s[1..], le, g);
      assert ([x] + s[1..])[1..] == s[1..];
      assert !(SameRank(g, le)(x) && SameRank(g, le)(s[0]));
    }
  }

  /** Elements of equal rank keep their relative order: with SortSorted and
      SortPermutes this determines the result of a stable sort. */
  lemma {:induction false} SortStable<T(!new)>(s: seq<T>, le: (T, T) -> bool, g: T)
    requires TotalPreorder(le)
    ensures Filter(SortBy(s, le), SameRank(g, le)) == Filter(s, SameRank(g, le))
  {
    if s != [] {
      SortStable(s[1..], le, g);
      InsertStable(s[0], SortBy(s[1..], le), le, g);
      var t := [s[0]] + SortBy(s[1..], le);
      assert t[1..] == SortBy(s[1..], le);
    }
  }

  ghost predicate DistinctBy<T, U>(s: seq<T>, key: T -> U) {
    forall i, j :: 0 <= i < j < |s| ==> key(s[i]) != key(s[j])
  }

  lemma {:induction false} InsertDistinct<T, U>(x: T, s: seq<T>, le: (T, T) -> bool, key: T -> U)
    requires DistinctBy(s, key) && forall i :: 0 <= i < |s| ==> key(x) != key(s[i])
    ensures DistinctBy(Insert(x, s, le), key)
  {
    if s != [] && !le(x, s[0]) {
      InsertDistinct(x, s[1..], le, key);
      InsertPermutes(x, s[1..], le);
      var r := Insert(x, s[1..], le);
      forall j | 0 <= j < |r|
        ensures key(s[0]) != key(r[j])
      {
        assert r[j] in multiset(r);
        if r[j] != x {
          assert r[j] in s[1..];
          var k :| 0 <= k < |s| - 1 && s[1..][k] == r[j];
          assert s[k + 1] == r[j];
        }
      }
    }
  }

  /** Sorting keeps keys distinct. */
  lemma {:induction false} SortDistinct<T, U>(s: seq<T>, le: (T, T) -> bool, key: T -> U)
    requires DistinctBy(s, key)
    ensures DistinctBy(SortBy(s, le), key)
  {
    if s != [] {
      var sorted := SortBy(s[1..], le);
      SortDistinct(s[1..], le, key);
      SortPermutes(s[1..], le);
      forall i | 0 <= i < |sorted|
        ensures key(s[0]) != key(sorted[i])
      {
        assert sorted[i] in multiset(sorted) && sorted[i] in multiset(s[1..]);
        var k :| 0 <= k < |s| - 1 && s[1..][k] == sorted[i];
        assert s[k + 1] == sorted[i];
      }
      InsertDistinct(s[0], sorted, le, key);
    }
  }

  // ---------------------------------------------------------------- merging

  /** Merge, taking from the left on equal rank. */
  ghost function Merge<T>(a: seq<T>, b: seq<T>, le: (T, T) -> bool): (r: seq<T>)
    ensures |r| == |a| + |b|
    decreases |a| + |b|
  {
    if a == [] then b
    else if b == [] then a
    else if le(a[0], b[0]) then [a[0]] + Merge(a[1..], b, le)
    else [b[0]] + Merge(a, b[1..], le)
  }

  lemma {:induction false} InsertMerge<T(!new)>(x: T, a: seq<T>, b: seq<T>, le: (T, T) -> bool)
    requires TotalPreorder(le)
    ensures Insert(x, Merge(a, b, le), le) == Merge(Insert(x, a, le), b, le)
    decreases |a| + |b|
  {
    var m := Merge(a, b, le);
    if b == [] {
    } else if a == [] {
      if !le(x, b[0]) {
        InsertMerge(x, [], b[1..], le);
      } else {
        assert ([x] + a)[1..] == a;
      }
    } else if le(a[0], b[0]) {
      assert m[1..] == Merge(a[1..], b, le);
      if le(x, a[0]) {
        assert ([x] + a)[1..] == a && le(x, b[0]);
      } else {
        InsertMerge(x, a[1..], b, le);
        assert Insert(x, a, le)[1..] == Insert(x, a[1..], le);
      }
    } else {
      assert m[1..] == Merge(a, b[1..], le);
      if le(x, b[0]) {
        assert ([x] + a)[1..] == a && le(x, a[0]);
      } else {
        InsertMerge(x, a, b[1..], le);
        assert !le(Insert(x, a, le)[0], b[0]);
      }
    }
  }

  /** Sorting a concatenation merges the sorted parts. */
  lemma {:induction false} SortMerges<T(!new)>(a: seq<T>, b: seq<T>, le: (T, T) -> bool)
    requires TotalPreorder(le)
    ensures SortBy(a + b, le) == Merge(SortBy(a, le), SortBy(b, le), le)
  {
    if a == [] {
      assert a + b == b;
    } else {
      assert (a + b)[1..] == a[1..] + b;
      SortMerges(a[1..], b, le);
      InsertMerge(a[0], SortBy(a[1..], le), SortBy(b, le), le);
    }
  }

  function Take<T>(k: nat, s: seq<T>): seq<T> {
    if k < |s| then s[..k] else s
  }

  lemma TakeTail<T>(k: nat, a: seq<T>, a': seq<T>)
    requires k > 0 && Take(k, a) == Take(k, a')
    ensures Take(k - 1, a) == Take(k - 1, a') && (a == [] <==> a' == [])
    ensures a != [] ==> a[0] == a'[0] && Take(k - 1, a[1..]) == Take(k - 1, a'[1..])
  {
    assert Take(k - 1, a) == Take(k - 1, Take(k, a)) && Take(k - 1, a') == Take(k - 1, Take(k, a'));
    if a != [] && a' != [] {
      assert a[0] == Take(k, a)[0] && a'[0] == Take(k, a')[0];
      assert Take(k - 1, a[1..]) == Take(k, a)[1..] && Take(k - 1, a'[1..]) == Take(k, a')[1..];
    }
  }

  lemma TakeCons<T>(k: nat, x: T, m: seq<T>)
    requires k > 0
    ensures Take(k, [x] + m) == [x] + Take(k - 1, m)
  {}

  /** The first `k` of a merge only depend on the first `k` of each part. */
  lemma {:induction false} TakeMerge<T>(k: nat, a: seq<T>, a': seq<T>, b: seq<T>, b': seq<T>, le: (T, T) -> bool)
    requires Take(k, a) == Take(k, a') && Take(k, b) == Take(k, b')
    ensures Take(k, Merge(a, b, le)) == Take(k, Merge(a', b', le))
  {
    if k > 0 {
      TakeTail(k, a, a');
      TakeTail(k, b, b');
      if a != [] && b != [] {
        if le(a[0], b[0]) {
          TakeMerge(k - 1, a[1..], a'[1..], b, b', le);
          TakeCons(k, a[0], Merge(a[1..], b, le));
          TakeCons(k, a[0], Merge(a'[1..], b', le));
        } else {
          TakeMerge(k - 1, a, a', b[1..], b'[1..], le);
          TakeCons(k, b[0], Merge(a, b[1..], le));
          TakeCons(k, b[0], Merge(a', b'[1..], le));
        }
      }
    }
  }

  /** Sorting the first `k` of two sorted sequences finds the first `k` of everything. */
  lemma MergeOfTruncated<T(!new)>(k: nat, a: seq<T>, b: seq<T>, le: (T, T) -> bool)
    requires TotalPreorder(le)
    ensures Take(k, SortBy(Take(k, SortBy(a, le)) + Take(k, SortBy(b, le)), le)) == Take(k, SortBy(a + b, le))
  {
    var x, y := SortBy(a, le), SortBy(b, le);
    SortSorted(a, le);
    SortSorted(b, le);
    SortMerges(a, b, le);
    SortMerges(Take(k, x), Take(k, y), le);
    SortFixes(Take(k, x), le);
    SortFixes(Take(k, y), le);
    hide SortBy, Merge, Sorted;
    assert Take(k, Take(k, x)) == Take(k, x) && Take(k, Take(k, y)) == Take(k, y);
    TakeMerge(k, Take(k, x), x, Take(k, y), y, le);
  }
}
