/** What every reachable routing table looks like and what a lookup returns. */
module DhtTheorems {
  import opened Prelude
  import opened StableSort
  import opened Distance
  import opened Dht

  ghost predicate UniqueIds(s: seq<Node>) {
    forall i, j :: 0 <= i < j < |s| ==> s[i].id != s[j].id
  }

  // ---------------------------------------------------------------- one bucket: least recently seen goes first

  ghost function Filled(history: seq<Node>): seq<Node> {
    if history == [] then []
    else BucketInsert(Filled(history[..|history| - 1]), history[|history| - 1])
  }

  /** Position of the last insertion of an id, -1 if there is none. */
  ghost function LastSeen(history: seq<Node>, id: Id): (r: int)
    ensures -1 <= r < |history|
  {
    if history == [] then -1
    else if history[|history| - 1].id == id then |history| - 1
    else LastSeen(history[..|history| - 1], id)
  }

  /** The distinct ids of a history with their latest addresses, ordered by last insertion. */
  ghost function Latest(history: seq<Node>): seq<Node> {
    if history == [] then []
    else
      var last := history[|history| - 1];
      Without(Latest(history[..|history| - 1]), last.id) + [last]
  }

  ghost function Freshest(s: seq<Node>): seq<Node> {
    if |s| <= K then s else s[|s| - K..]
  }

  lemma {:induction false} WithoutMembers(s: seq<Node>, id: Id)
    requires UniqueIds(s)
    ensures forall n :: n in Without(s, id) <==> n in s && n.id != id
  {
    if s != [] {
      assert s == [s[0]] + s[1..];
      assert UniqueIds(s[1..]);
      if s[0].id == id {
        assert forall i :: 0 < i < |s| ==> s[i].id != id;
      } else {
        WithoutMembers(s[1..], id);
      }
    }
  }

  /** `Without` keeps the order of what it keeps. */
  ghost predicate OrderedBy(s: seq<Node>, history: seq<Node>) {
    forall i, j :: 0 <= i < j < |s| ==> LastSeen(history, s[i].id) < LastSeen(history, s[j].id)
  }

  lemma HeadFirst(s: seq<Node>, history: seq<Node>)
    requires s != [] && OrderedBy(s, history)
    ensures forall n :: n in s[1..] ==> LastSeen(history, s[0].id) < LastSeen(history, n.id)
  {
    hide LastSeen;
    forall n | n in s[1..]
      ensures LastSeen(history, s[0].id) < LastSeen(history, n.id)
    {
      var k :| 0 <= k < |s| - 1 && s[1..][k] == n;
      assert s[k + 1] == n;
    }
  }

  lemma ConsOrdered(head: Node, w: seq<Node>, history: seq<Node>)
    requires OrderedBy(w, history) && forall n :: n in w ==> LastSeen(history, head.id) < LastSeen(history, n.id)
    ensures OrderedBy([head] + w, history)
  {
    hide LastSeen;
    forall j | 0 <= j < |w|
      ensures LastSeen(history, head.id) < LastSeen(history, w[j].id)
    {
      assert w[j] in w;
    }
  }

  lemma {:induction false} WithoutOrdered(s: seq<Node>, id: Id, history: seq<Node>)
    requires OrderedBy(s, history) && UniqueIds(s)
    ensures OrderedBy(Without(s, id), history)
  {
    if s != [] {
      assert OrderedBy(s[1..], history) && UniqueIds(s[1..]);
      if s[0].id != id {
        assert Without(s, id) == [s[0]] + Without(s[1..], id);
        hide LastSeen, Without, UniqueIds, OrderedBy;
        WithoutOrdered(s[1..], id, history);
        WithoutMembers(s[1..], id);
        HeadFirst(s, history);
        ConsOrdered(s[0], Without(s[1..], id), history);
      }
    }
  }

  ghost predicate IsLatest(n: Node, history: seq<Node>) {
    LastSeen(history, n.id) >= 0 && history[LastSeen(history, n.id)] == n
  }

  /** `Latest` is exactly that: each id once, as last inserted, in order of last insertion. */
  lemma {:induction false} LatestExact(history: seq<Node>)
    ensures OrderedBy(Latest(history), history) && UniqueIds(Latest(history))
    ensures forall n :: n in Latest(history) <==> IsLatest(n, history)
  {
    if history != [] {
      var front, last := history[..|history| - 1], history[|history| - 1];
      var d := Latest(front);
      assert Latest(history) == Without(d, last.id) + [last];
      assert history == front + [last];
      hide Latest, OrderedBy, UniqueIds, IsLatest, Without;
      LatestExact(front);
      WithoutMembers(d, last.id);
      WithoutOrdered(d, last.id, front);
      LatestStep(front, last, Without(d, last.id));
    }
  }

  lemma LatestStep(front: seq<Node>, last: Node, w: seq<Node>)
    requires OrderedBy(w, front)
    requires forall n :: n in w <==> n.id != last.id && IsLatest(n, front)
    ensures var history := front + [last];
            && OrderedBy(w + [last], history) && UniqueIds(w + [last])
            && forall n :: n in w + [last] <==> IsLatest(n, history)
  {
    var history := front + [last];
    assert history[..|history| - 1] == front;
    forall id
      ensures LastSeen(history, id) == if id == last.id then |front| else LastSeen(front, id)
    {
    }
    forall i | 0 <= i < |w|
      ensures w[i].id != last.id
    {
      assert w[i] in w;
    }
  }

  lemma {:induction false} WithoutInRest(p: seq<Node>, b: seq<Node>, id: Id)
    requires !Knows(p, id)
    ensures Without(p + b, id) == p + Without(b, id)
  {
    if p == [] {
      assert p + b == b;
    } else {
      assert p[0].id != id;
      assert !Knows(p[1..], id) by {
        assert forall i :: 0 <= i < |p| - 1 ==> p[1..][i] == p[i + 1];
      }
      assert (p + b)[1..] == p[1..] + b && (p + b)[0] == p[0];
      WithoutInRest(p[1..], b, id);
    }
  }

  lemma {:induction false} WithoutInFront(p: seq<Node>, b: seq<Node>, id: Id)
    requires !Knows(b, id)
    ensures Without(p + b, id) == Without(p, id) + b
  {
    if p == [] {
      assert p + b == b;
    } else {
      assert (p + b)[1..] == p[1..] + b && (p + b)[0] == p[0];
      WithoutInFront(p[1..], b, id);
    }
  }

  lemma FreshestStep(d: seq<Node>, n: Node)
    requires UniqueIds(d)
    ensures BucketInsert(Freshest(d), n) == Freshest(Without(d, n.id) + [n])
  {
    var b := Freshest(d);
    var p := d[..|d| - |b|];
    assert d == p + b;
    if Knows(b, n.id) {
      KnownStep(p, b, n);
    } else {
      UnknownStep(p, b, n);
    }
  }

  lemma KnownStep(p: seq<Node>, b: seq<Node>, n: Node)
    requires UniqueIds(p + b) && Knows(b, n.id) && |b| <= K && (p == [] || |b| == K)
    ensures Without(b, n.id) + [n] == Freshest(Without(p + b, n.id) + [n])
  {
    assert !Knows(p, n.id) by {
      var i :| 0 <= i < |b| && b[i].id == n.id;
      assert (p + b)[|p| + i].id == n.id;
      assert forall j :: 0 <= j < |p| ==> p[j] == (p + b)[j];
    }
    WithoutInRest(p, b, n.id);
    Tail(p, Without(b, n.id) + [n]);
    assert (p + Without(b, n.id)) + [n] == p + (Without(b, n.id) + [n]);
  }

  lemma UnknownStep(p: seq<Node>, b: seq<Node>, n: Node)
    requires !Knows(b, n.id) && |b| <= K && (p == [] || |b| == K)
    ensures BucketInsert(b, n) == Freshest(Without(p + b, n.id) + [n])
  {
    WithoutInFront(p, b, n.id);
    var q := Without(p, n.id);
    hide Freshest, Without;
    if |b| == K {
      Tail(q + [b[0]], b[1..] + [n]);
      assert b == [b[0]] + b[1..];
      Assoc(q, [b[0]], b[1..]);
      Assoc(q + [b[0]], b[1..], [n]);
    } else {
      assert q == [] by {
        NothingWithout(n.id);
      }
      Assoc(q, b, [n]);
      Tail(q, b + [n]);
    }
  }

  lemma NothingWithout(id: Id)
    ensures Without([], id) == []
  {}

  lemma Tail(p: seq<Node>, s: seq<Node>)
    requires |s| == K || (|s| < K && p == [])
    ensures Freshest(p + s) == s
  {}

  /** After any insertions a bucket holds exactly the (at most) eight ids inserted
      last, each with its latest address, the least recently seen first. */
  lemma {:induction false} BucketIsFreshest(history: seq<Node>)
    ensures Filled(history) == Freshest(Latest(history))
  {
    if history != [] {
      var front := history[..|history| - 1];
      BucketIsFreshest(front);
      LatestExact(front);
      FreshestStep(Latest(front), history[|history| - 1]);
    }
  }

  // ---------------------------------------------------------------- the whole table

  ghost function Table(our: Id, history: seq<Node>): Buckets {
    if history == [] then EmptyBuckets()
    else TableInsert(Table(our, history[..|history| - 1]), our, history[|history| - 1])
  }

  /** The insertions that went to bucket `i`. */
  ghost function InBucket(our: Id, history: seq<Node>, i: nat): seq<Node> {
    if history == [] then []
    else
      var last := history[|history| - 1];
      InBucket(our, history[..|history| - 1], i) + if BucketIndex(our, last.id) == i then [last] else []
  }

  /** Each bucket is what its own insertions make of it. */
  lemma {:induction false} TableExact(our: Id, history: seq<Node>, i: nat)
    requires i < NUM_BUCKETS
    ensures Table(our, history)[i] == Freshest(Latest(InBucket(our, history, i)))
  {
    BucketIsFreshest(InBucket(our, history, i));
    BucketHistory(our, history, i);
  }

  lemma {:induction false} BucketHistory(our: Id, history: seq<Node>, i: nat)
    requires i < NUM_BUCKETS
    ensures Table(our, history)[i] == Filled(InBucket(our, history, i))
  {
    if history != [] {
      var front, last := history[..|history| - 1], history[|history| - 1];
      BucketHistory(our, front, i);
      hide BucketInsert, BucketIndex;
      var before := InBucket(our, front, i);
      assert (before + [last])[..|before|] == before;
      assert before + [] == before;
    }
  }

  lemma {:induction false} InBucketMembers(our: Id, history: seq<Node>, i: nat)
    ensures forall n :: n in InBucket(our, history, i) <==> n in history && BucketIndex(our, n.id) == i
  {
    hide BucketIndex;
    if history != [] {
      var front, last := history[..|history| - 1], history[|history| - 1];
      InBucketMembers(our, front, i);
      assert history == front + [last];
    }
  }

  /** The shape of every reachable table. */
  ghost predicate WellFormed(our: Id, buckets: seq<seq<Node>>) {
    forall i :: 0 <= i < |buckets| ==>
      && |buckets[i]| <= K
      && UniqueIds(buckets[i])
      && (forall n :: n in buckets[i] ==> BucketIndex(our, n.id) == i)
  }

  lemma TableWellFormed(our: Id, history: seq<Node>)
    ensures WellFormed(our, Table(our, history))
    ensures UniqueIds(AllNodes(Table(our, history)))
    ensures forall n :: n in AllNodes(Table(our, history)) ==> n in history
  {
    var t := Table(our, history);
    forall i | 0 <= i < NUM_BUCKETS
      ensures BucketOk(our, history, t[i], i)
    {
      BucketWellFormed(our, history, i);
    }
    hide Table, BucketIndex;
    AllMembers(our, t);
  }

  ghost predicate BucketOk(our: Id, history: seq<Node>, bucket: seq<Node>, i: nat) {
    |bucket| <= K && UniqueIds(bucket) && forall n :: n in bucket ==> n in history && BucketIndex(our, n.id) == i
  }

  lemma BucketWellFormed(our: Id, history: seq<Node>, i: nat)
    requires i < NUM_BUCKETS
    ensures BucketOk(our, history, Table(our, history)[i], i)
  {
    var h := InBucket(our, history, i);
    TableExact(our, history, i);
    LatestExact(h);
    InBucketMembers(our, history, i);
    hide BucketIndex, InBucket, Latest, Table;
    var b := Freshest(Latest(h));
    forall n | n in b
      ensures n in h
    {
      assert n in Latest(h) && IsLatest(n, h);
    }
  }

  lemma UniqueConcat(a: seq<Node>, b: seq<Node>)
    requires UniqueIds(a) && UniqueIds(b) && forall x, y :: x in a && y in b ==> x.id != y.id
    ensures UniqueIds(a + b)
  {
    var s := a + b;
    forall i, j | 0 <= i < j < |s|
      ensures s[i].id != s[j].id
    {
      if i < |a| <= j {
        assert s[i] in a && s[j] in b;
      }
    }
  }

  lemma {:induction false} AllMembers(our: Id, buckets: seq<seq<Node>>)
    requires WellFormed(our, buckets)
    ensures UniqueIds(AllNodes(buckets))
    ensures forall n :: n in AllNodes(buckets) ==>
      BucketIndex(our, n.id) < |buckets| && n in buckets[BucketIndex(our, n.id)]
  {
    hide BucketIndex;
    if buckets != [] {
      var n := |buckets| - 1;
      var front, last := buckets[..n], buckets[n];
      assert WellFormed(our, front);
      AllMembers(our, front);
      assert forall x :: x in last ==> BucketIndex(our, x.id) == n;
      hide UniqueIds;
      UniqueConcat(AllNodes(front), last);
    }
  }

  // ---------------------------------------------------------------- lookups

  lemma CloserIsOrder(target: Id)
    ensures TotalPreorder(Closer(target))
  {
    var le := Closer(target);
    forall a: Node, b: Node
      ensures le(a, b) || le(b, a)
    {
      LexTotal(Xor(a.id, target), Xor(b.id, target));
    }
    forall a: Node, b: Node, c: Node | le(a, b) && le(b, c)
      ensures le(a, c)
    {
      LexTransitive(Xor(a.id, target), Xor(b.id, target), Xor(c.id, target));
    }
  }

  ghost function DistanceTo(n: Node, target: Id): nat {
    Number(Xor(n.id, target))
  }

  lemma CloserIsNumeric(a: Node, b: Node, target: Id)
    ensures Closer(target)(a, b) <==> DistanceTo(a, target) <= DistanceTo(b, target)
    ensures DistanceTo(a, target) == DistanceTo(b, target) <==> a.id == b.id
  {
    var x, y := Xor(a.id, target), Xor(b.id, target);
    ByteOrderIsNumeric(x, y);
    ByteOrderIsNumeric(y, x);
    LexTotal(x, y);
    DistancesDistinct(a.id, b.id, target);
  }

  lemma SortUnique(s: seq<Node>, le: (Node, Node) -> bool)
    requires UniqueIds(s)
    ensures UniqueIds(SortBy(s, le))
  {
    var key := (n: Node) => n.id;
    assert DistinctBy(s, key);
    SortDistinct(s, le, key);
    var r := SortBy(s, le);
    forall i, j | 0 <= i < j < |r|
      ensures r[i].id != r[j].id
    {
      assert key(r[i]) != key(r[j]);
    }
  }

  ghost predicate StrictlyCloser(s: seq<Node>, target: Id) {
    forall i, j :: 0 <= i < j < |s| ==> DistanceTo(s[i], target) < DistanceTo(s[j], target)
  }

  /** The result of a lookup among nodes with unique ids. */
  ghost predicate ClosestOf(r: seq<Node>, all: seq<Node>, target: Id, count: nat) {
    && |r| == Min(count, |all|)
    && StrictlyCloser(r, target)
    && (forall n :: n in r ==> n in all)
    && (forall i, n :: 0 <= i < |r| && n in all && n !in r ==> DistanceTo(r[i], target) < DistanceTo(n, target))
  }

  lemma SortedIsStrict(s: seq<Node>, target: Id)
    requires Sorted(s, Closer(target)) && UniqueIds(s)
    ensures StrictlyCloser(s, target)
  {
    hide Closer, DistanceTo;
    forall i, j | 0 <= i < j < |s|
      ensures DistanceTo(s[i], target) < DistanceTo(s[j], target)
    {
      CloserIsNumeric(s[i], s[j], target);
    }
  }

  lemma PrefixIsClosest(s: seq<Node>, all: seq<Node>, target: Id, count: nat)
    requires StrictlyCloser(s, target) && |s| == |all| && forall n :: n in s <==> n in all
    ensures ClosestOf(Take(count, s), all, target, count)
  {
    hide DistanceTo;
    var r := Take(count, s);
    forall i, n | 0 <= i < |r| && n in all && n !in r
      ensures DistanceTo(r[i], target) < DistanceTo(n, target)
    {
      assert n in s;
      var k :| 0 <= k < |s| && s[k] == n;
      assert forall j :: 0 <= j < |r| ==> r[j] == s[j] && r[j] in r;
    }
  }

  lemma TakeSortedIsClosest(all: seq<Node>, target: Id, count: nat)
    requires UniqueIds(all)
    ensures ClosestOf(Take(count, SortBy(all, Closer(target))), all, target, count)
  {
    var le := Closer(target);
    CloserIsOrder(target);
    hide SortBy, Closer, Sorted, UniqueIds, ClosestOf, StrictlyCloser;
    SortSorted(all, le);
    SortPermutes(all, le);
    SortUnique(all, le);
    SortedIsStrict(SortBy(all, le), target);
    PrefixIsClosest(SortBy(all, le), all, target, count);
  }

  /** In every reachable table a lookup returns as many nodes as it can, strictly
      closest first, and leaves out only strictly farther ones. */
  lemma FindClosestExact(our: Id, history: seq<Node>, target: Id, count: nat)
    ensures var t := Table(our, history);
            ClosestOf(FindClosest(t, target, count), AllNodes(t), target, count)
  {
    TableWellFormed(our, history);
    TakeSortedIsClosest(AllNodes(Table(our, history)), target, count);
  }

  /** Merging two truncated searches finds the same as searching both families at once. */
  lemma DualMergeExact(v4: Buckets, v6: Buckets, target: Id, count: nat)
    ensures FindClosestDual(v4, v6, target, count)
         == Take(count, SortBy(AllNodes(v4) + AllNodes(v6), Closer(target)))
  {
    CloserIsOrder(target);
    MergeOfTruncated(count, AllNodes(v4), AllNodes(v6), Closer(target));
  }
}
