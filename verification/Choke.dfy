/** Upload slots and the periodic choke round (BEP 3 tit-for-tat). */
module Choke {
  import opened Prelude
  import opened StableSort

  /** What the round reads of a peer; times are nanoseconds. */
  datatype PeerInfo = PeerInfo(interested: bool, uploaded: nat, downloaded: nat, lastData: Option<int>)

  datatype Stat = Stat(addr: SocketAddr, bytes: nat)

  type Peers = map<SocketAddr, PeerInfo>

  /** Not snubbed when leeching, interested when seeding. */
  predicate Eligible(info: PeerInfo, seeding: bool, now: int, snubTimeout: int) {
    if seeding then info.interested
    else info.lastData.Some? && Max(0, now - info.lastData.value) < snubTimeout
  }

  /** The peers that compete, in the order in which the table lists them. */
  function Stats(order: seq<SocketAddr>, peers: Peers, seeding: bool): seq<Stat>
    requires forall a :: a in order ==> a in peers
  {
    if order == [] then []
    else
      var info := peers[order[0]];
      var rest := Stats(order[1..], peers, seeding);
      if seeding && !info.interested then rest
      else [Stat(order[0], if seeding then info.uploaded else info.downloaded)] + rest
  }

  function MoreBytes(): (Stat, Stat) -> bool {
    (a: Stat, b: Stat) => a.bytes >= b.bytes
  }

  function Addrs(stats: seq<Stat>): set<SocketAddr> {
    if stats == [] then {} else {stats[0].addr} + Addrs(stats[1..])
  }

  /** The clock reading that is taken for a peer. */
  type Clock = SocketAddr -> int

  function EligibleAmong(peers: Peers, seeding: bool, clock: Clock, snubTimeout: int): set<SocketAddr> {
    set a | a in peers && Eligible(peers[a], seeding, clock(a), snubTimeout)
  }

  /** Who passes the first look still at each peer's turn, or does not any more. */
  lemma EligibleLater(peers: Peers, seeding: bool, first: Clock, second: Clock, snubTimeout: int)
    requires forall a :: a in peers ==> first(a) <= second(a)
    ensures EligibleAmong(peers, seeding, second, snubTimeout) <= EligibleAmong(peers, seeding, first, snubTimeout)
  {}

  /** Fill free slots with eligible peers, best first, from position `i` on. */
  function Refill(stats: seq<Stat>, i: nat, eligible: set<SocketAddr>, chosen: set<SocketAddr>, max: nat): set<SocketAddr>
    requires i <= |stats|
    decreases |stats| - i
  {
    if i == |stats| || |chosen| >= max then chosen
    else Refill(stats, i + 1, eligible, if stats[i].addr in eligible then chosen + {stats[i].addr} else chosen, max)
  }

  /** The first of the ranking and the optimistic candidate, if there is one. */
  function Best(stats: seq<Stat>, max: nat, pick: nat): set<SocketAddr>
    requires max > 0
  {
    var top := Min(max - 1, |stats|);
    Addrs(stats[..top]) + if top + pick < |stats| then {stats[top + pick].addr} else {}
  }

  /** The selection among ranked peers; `pick` is the random optimistic candidate, `kept`
      are the peers that are eligible when the best are sifted, `active` those that are
      when slots are refilled. */
  function Select(stats: seq<Stat>, kept: set<SocketAddr>, active: set<SocketAddr>, max: nat, pick: nat): set<SocketAddr>
    requires max > 0
  {
    Refill(stats, 0, active, Best(stats, max, pick) * kept, max)
  }

  // ---------------------------------------------------------------- slots

  class UploadManager {
    const maxUploads: nat
    var unchoked: set<SocketAddr>

    constructor (maxUploads: nat)
      ensures this.maxUploads == maxUploads && unchoked == {}
    {
      this.maxUploads, unchoked := maxUploads, {};
    }

    method Choke(addr: SocketAddr)
      modifies this
      ensures unchoked == old(unchoked) - {addr}
    {
      unchoked := unchoked - {addr};
    }

    method Unchoke(addr: SocketAddr)
      modifies this
      ensures unchoked == if |old(unchoked)| < maxUploads then old(unchoked) + {addr} else old(unchoked)
    {
      if |unchoked| < maxUploads {
        unchoked := unchoked + {addr};
      }
    }
  }

  /** The slots after a round that selected `chosen`: holders in the selection keep
      theirs, and as many of the others as were free before the round get one. */
  ghost predicate SlotsAfter(before: set<SocketAddr>, chosen: set<SocketAddr>, max: nat, after: set<SocketAddr>) {
    && before * chosen <= after <= chosen
    && |after - before| == Min(max - |before|, |chosen - before|)
  }

  lemma SlotsOf(before: set<SocketAddr>, mid: set<SocketAddr>, chosen: set<SocketAddr>, max: nat)
    requires before <= mid <= before + chosen && |mid| <= max
    requires |mid - before| == Min(max - |before|, |chosen - before|)
    ensures SlotsAfter(before, chosen, max, mid * chosen)
    ensures mid - chosen == before - chosen
    ensures |mid * chosen| <= max
  {
    assert mid * chosen - before == mid - before;
    SubsetSize(mid * chosen, mid);
  }

  class ChokeManager {
    const uploads: UploadManager
    const snubTimeout: int

    ghost predicate Valid()
      reads uploads
    {
      |uploads.unchoked| <= uploads.maxUploads
    }

    constructor (maxUploads: nat, snubTimeout: int)
      ensures Valid() && fresh(uploads) && uploads.unchoked == {} && uploads.maxUploads == maxUploads
      ensures this.snubTimeout == snubTimeout
    {
      uploads := new UploadManager(maxUploads);
      this.snubTimeout := snubTimeout;
    }

    /** `order` lists the peers as the hash table does, `sift` and `refill` are the clock
        readings for each peer, `pick` is the random draw; `unchokes` and `chokes` are the
        peers that were sent the message. */
    method RunRound(peers: Peers, order: seq<SocketAddr>, seeding: bool, sift: Clock, refill: Clock, pick: nat)
      returns (peers': Peers, unchokes: set<SocketAddr>, chokes: set<SocketAddr>, ghost chosen: set<SocketAddr>)
      requires Valid()
      requires forall a :: a in order <==> a in peers
      requires forall a :: a in peers ==> sift(a) <= refill(a)
      requires var n := |Stats(order, peers, seeding)|;
               uploads.maxUploads > 0 && n >= uploads.maxUploads ==> pick < n - (uploads.maxUploads - 1)
      modifies uploads
      ensures Valid()
      ensures uploads.maxUploads == 0 ==>
                uploads.unchoked == old(uploads.unchoked) && peers' == peers && unchokes == chokes == {}
      ensures uploads.maxUploads > 0 ==>
                var stats := SortBy(Stats(order, peers, seeding), MoreBytes());
                var kept := EligibleAmong(peers, seeding, sift, snubTimeout);
                var active := EligibleAmong(peers, seeding, refill, snubTimeout);
                && chosen == Select(stats, kept, active, uploads.maxUploads, pick)
                && SlotsAfter(old(uploads.unchoked), chosen, uploads.maxUploads, uploads.unchoked)
                && unchokes == chosen - old(uploads.unchoked)
                && (unchokes <= uploads.unchoked
                    <==> |chosen - old(uploads.unchoked)| <= uploads.maxUploads - |old(uploads.unchoked)|)
                && chokes == old(uploads.unchoked) - chosen
                && peers' == map a | a in peers :: peers[a].(uploaded := 0, downloaded := 0)
      ensures uploads.maxUploads > 0 ==>
                forall a :: a in uploads.unchoked ==> a in peers && Eligible(peers[a], seeding, sift(a), snubTimeout)
    {
      peers', unchokes, chokes, chosen := peers, {}, {}, {};
      var max := uploads.maxUploads;
      if max == 0 {
        return;
      }
      var stats := SortBy(Stats(order, peers, seeding), MoreBytes());
      var kept := EligibleAmong(peers, seeding, sift, snubTimeout);
      var active := EligibleAmong(peers, seeding, refill, snubTimeout);
      var toUnchoke := SelectPeers(stats, kept, active, max, pick);
      chosen := toUnchoke;
      EligibleLater(peers, seeding, sift, refill, snubTimeout);
      SelectEligible(stats, kept, active, max, pick);
      ghost var before := uploads.unchoked;
      unchokes := GiveSlots(toUnchoke);
      SlotsOf(before, uploads.unchoked, chosen, max);
      chokes := TakeSlots(toUnchoke);
      ToldButRefused(before, chosen, max, uploads.unchoked);
      peers' := map a | a in peers :: peers[a].(uploaded := 0, downloaded := 0);
    }

    method SelectPeers(stats: seq<Stat>, kept: set<SocketAddr>, active: set<SocketAddr>, max: nat, pick: nat)
      returns (toUnchoke: set<SocketAddr>)
      requires max > 0 && (|stats| >= max ==> pick < |stats| - (max - 1))
      ensures toUnchoke == Select(stats, kept, active, max, pick)
    {
      var top := Min(max - 1, |stats|);
      toUnchoke := Addrs(stats[..top]);
      var candidates := stats[top..];
      if candidates != [] {
        toUnchoke := toUnchoke + {candidates[pick].addr};
      }
      toUnchoke := toUnchoke * kept;
      ghost var best := toUnchoke;
      assert Select(stats, kept, active, max, pick) == Refill(stats, 0, active, best, max);
      hide Select, Addrs;
      var i := 0;
      while i < |stats| && |toUnchoke| < max
        invariant i <= |stats|
        invariant Refill(stats, i, active, toUnchoke, max) == Refill(stats, 0, active, best, max)
      {
        if stats[i].addr in active {
          toUnchoke := toUnchoke + {stats[i].addr};
        }
        i := i + 1;
      }
    }

    /** Unchoke what is selected, in any order; a full table silently refuses. */
    method GiveSlots(chosen: set<SocketAddr>) returns (told: set<SocketAddr>)
      requires Valid()
      modifies uploads
      ensures Valid()
      ensures old(uploads.unchoked) <= uploads.unchoked <= old(uploads.unchoked) + chosen
      ensures |uploads.unchoked - old(uploads.unchoked)|
           == Min(uploads.maxUploads - |old(uploads.unchoked)|, |chosen - old(uploads.unchoked)|)
      ensures told == chosen - old(uploads.unchoked)
    {
      told := {};
      var rest := chosen;
      ghost var before := uploads.unchoked;
      while rest != {}
        invariant rest <= chosen
        invariant forall a :: a in told <==> a in chosen && a !in rest && a !in before
        invariant before <= uploads.unchoked <= before + told
        invariant |uploads.unchoked| == |before| + Min(uploads.maxUploads - |before|, |told|)
        decreases rest
      {
        var addr :| addr in rest;
        if addr !in uploads.unchoked {
          assert addr !in told && |told + {addr}| == |told| + 1;
          uploads.Unchoke(addr);
          told := told + {addr};
        }
        rest := rest - {addr};
      }
      assert told == chosen - before;
      SplitSize(before, uploads.unchoked);
    }

    method TakeSlots(chosen: set<SocketAddr>) returns (told: set<SocketAddr>)
      modifies uploads
      ensures uploads.unchoked == old(uploads.unchoked) * chosen
      ensures told == old(uploads.unchoked) - chosen
    {
      told := {};
      var previously := uploads.unchoked;
      while previously != {}
        invariant previously <= uploads.unchoked <= old(uploads.unchoked)
        invariant uploads.unchoked - previously <= chosen
        invariant told == old(uploads.unchoked) - uploads.unchoked && told !! chosen
        decreases previously
      {
        var addr :| addr in previously;
        if addr !in chosen {
          uploads.Choke(addr);
          told := told + {addr};
        }
        previously := previously - {addr};
      }
      assert uploads.unchoked == old(uploads.unchoked) * chosen;
    }
  }

  // ---------------------------------------------------------------- the selection

  ghost predicate DistinctAddrs(stats: seq<Stat>) {
    forall i, j :: 0 <= i < j < |stats| ==> stats[i].addr != stats[j].addr
  }

  /** Refilling adds the eligible peers of a run of the ranking, which only stops early at `max`. */
  lemma {:induction false} RefillAddsPrefix(stats: seq<Stat>, i: nat, eligible: set<SocketAddr>,
                                            chosen: set<SocketAddr>, max: nat) returns (end: nat)
    requires i <= |stats|
    ensures i <= end <= |stats|
    ensures Refill(stats, i, eligible, chosen, max) == chosen + Addrs(stats[i..end]) * eligible
    ensures end < |stats| ==> |Refill(stats, i, eligible, chosen, max)| >= max
    ensures |chosen| <= max ==> |Refill(stats, i, eligible, chosen, max)| <= max
    decreases |stats| - i
  {
    if i == |stats| || |chosen| >= max {
      end := i;
      assert Addrs(stats[i..i]) == {};
    } else {
      var next := if stats[i].addr in eligible then chosen + {stats[i].addr} else chosen;
      end := RefillAddsPrefix(stats, i + 1, eligible, next, max);
      assert stats[i..end][0] == stats[i] && stats[i..end][1..] == stats[i + 1..end];
      assert Addrs(stats[i..end]) == {stats[i].addr} + Addrs(stats[i + 1..end]);
      hide Refill, Addrs;
      OneMore(chosen, stats[i].addr, Addrs(stats[i + 1..end]), eligible);
    }
  }

  lemma OneMore(chosen: set<SocketAddr>, a: SocketAddr, rest: set<SocketAddr>, eligible: set<SocketAddr>)
    ensures (if a in eligible then chosen + {a} else chosen) + rest * eligible == chosen + ({a} + rest) * eligible
  {}

  lemma {:induction false} AddrsMember(stats: seq<Stat>, a: SocketAddr)
    ensures a in Addrs(stats) <==> exists i :: 0 <= i < |stats| && stats[i].addr == a
  {
    if stats != [] {
      AddrsMember(stats[1..], a);
      if a in Addrs(stats[1..]) {
        var i :| 0 <= i < |stats| - 1 && stats[1..][i].addr == a;
        assert stats[i + 1].addr == a;
      }
      if i :| 0 < i < |stats| && stats[i].addr == a {
        assert stats[1..][i - 1].addr == a;
      }
    }
  }

  lemma {:induction false} AddrsSize(stats: seq<Stat>)
    ensures |Addrs(stats)| <= |stats|
  {
    if stats != [] {
      AddrsSize(stats[1..]);
      UnionSize({stats[0].addr}, Addrs(stats[1..]));
    }
  }

  lemma SelectEligible(stats: seq<Stat>, kept: set<SocketAddr>, active: set<SocketAddr>, max: nat, pick: nat)
    requires max > 0 && active <= kept
    ensures Select(stats, kept, active, max, pick) <= kept
  {
    assert Select(stats, kept, active, max, pick) == Refill(stats, 0, active, Best(stats, max, pick) * kept, max);
    hide Select, Best, Refill, Addrs;
    var _ := RefillAddsPrefix(stats, 0, active, Best(stats, max, pick) * kept, max);
  }

  /** The optimistic candidate, if there is one. */
  function Optimistic(stats: seq<Stat>, max: nat, pick: nat): Option<SocketAddr>
    requires max > 0
  {
    var top := Min(max - 1, |stats|);
    if top + pick < |stats| then Some(stats[top + pick].addr) else None
  }

  /** Who is selected: at most `max` peers, eligible at the first look, and as many as
      are still eligible at the second if they fit; each of them but the optimistic one is
      ranked above every peer that is still eligible and left out. */
  ghost predicate GoodSelection(chosen: set<SocketAddr>, stats: seq<Stat>, kept: set<SocketAddr>,
                                active: set<SocketAddr>, max: nat, optimistic: Option<SocketAddr>) {
    && chosen <= kept
    && Min(max, |active|) <= |chosen| <= Min(max, |kept|)
    && Outranks(chosen, stats, active, optimistic)
  }

  ghost predicate Outranks(chosen: set<SocketAddr>, stats: seq<Stat>, eligible: set<SocketAddr>,
                           optimistic: Option<SocketAddr>) {
    forall i, j |
      0 <= i < |stats| && 0 <= j < |stats|
      && stats[i].addr in chosen && Some(stats[i].addr) != optimistic
      && stats[j].addr in eligible && stats[j].addr !in chosen
      :: stats[i].bytes >= stats[j].bytes
  }

  lemma BestFits(stats: seq<Stat>, kept: set<SocketAddr>, max: nat, pick: nat)
    requires max > 0
    ensures |Best(stats, max, pick) * kept| <= max
  {
    var top := Min(max - 1, |stats|);
    var picked := if top + pick < |stats| then {stats[top + pick].addr} else {};
    assert Best(stats, max, pick) == Addrs(stats[..top]) + picked;
    AddrsSize(stats[..top]);
    UnionSize(Addrs(stats[..top]), picked);
    hide Best, Addrs;
    SubsetSize(Best(stats, max, pick) * kept, Best(stats, max, pick));
  }

  lemma BestParts(stats: seq<Stat>, max: nat, pick: nat)
    requires max > 0
    ensures var opt := Optimistic(stats, max, pick);
            Best(stats, max, pick) == Addrs(stats[..Min(max - 1, |stats|)]) + if opt.Some? then {opt.value} else {}
  {
    hide Addrs;
  }

  lemma SelectIsGood(stats: seq<Stat>, kept: set<SocketAddr>, active: set<SocketAddr>, max: nat, pick: nat)
    requires max > 0 && DistinctAddrs(stats) && Sorted(stats, MoreBytes()) && active <= kept <= Addrs(stats)
    ensures GoodSelection(Select(stats, kept, active, max, pick), stats, kept, active, max, Optimistic(stats, max, pick))
  {
    var best, chosen := Best(stats, max, pick), Select(stats, kept, active, max, pick);
    assert chosen == Refill(stats, 0, active, best * kept, max);
    hide Select, Refill, Best, Addrs, DistinctAddrs, Sorted, Outranks, Optimistic;
    BestFits(stats, kept, max, pick);
    var end := RefillAddsPrefix(stats, 0, active, best * kept, max);
    assert stats[0..end] == stats[..end];
    BestParts(stats, max, pick);
    PrefixOutranks(stats, kept, active, Min(max - 1, |stats|), end, Optimistic(stats, max, pick), chosen);
    SubsetSize(chosen, kept);
    if end == |stats| {
      assert stats[..end] == stats;
      SubsetSize(active, chosen);
    }
  }

  lemma PrefixOutranks(stats: seq<Stat>, kept: set<SocketAddr>, active: set<SocketAddr>, top: nat, end: nat,
                       opt: Option<SocketAddr>, chosen: set<SocketAddr>)
    requires DistinctAddrs(stats) && Sorted(stats, MoreBytes()) && top <= |stats| && end <= |stats|
    requires active <= kept
    requires chosen == (Addrs(stats[..top]) + (if opt.Some? then {opt.value} else {})) * kept
                       + Addrs(stats[..end]) * active
    ensures Outranks(chosen, stats, active, opt)
  {
    hide Addrs, DistinctAddrs, Sorted;
    forall i, j | 0 <= i < |stats| && 0 <= j < |stats|
        && stats[i].addr in chosen && Some(stats[i].addr) != opt
        && stats[j].addr in active && stats[j].addr !in chosen
      ensures stats[i].bytes >= stats[j].bytes
    {
      PrefixAddrs(stats, end, i);
      PrefixAddrs(stats, end, j);
      PrefixAddrs(stats, top, i);
      PrefixAddrs(stats, top, j);
      Descending(stats, i, j);
    }
  }

  lemma Descending(stats: seq<Stat>, i: nat, j: nat)
    requires Sorted(stats, MoreBytes()) && i < j < |stats|
    ensures stats[i].bytes >= stats[j].bytes
  {
    assert MoreBytes()(stats[i], stats[j]);
  }

  /** With distinct addresses a peer is among the first `n` exactly when its position is. */
  lemma PrefixAddrs(stats: seq<Stat>, n: nat, i: nat)
    requires n <= |stats| && i < |stats| && DistinctAddrs(stats)
    ensures (stats[i].addr in Addrs(stats[..n])) <==> i < n
  {
    AddrsMember(stats[..n], stats[i].addr);
    if i < n {
      assert stats[..n][i].addr == stats[i].addr;
    }
    if k :| 0 <= k < n && stats[..n][k].addr == stats[i].addr {
      assert stats[k].addr == stats[i].addr;
    }
  }

  // ---------------------------------------------------------------- the round

  /** What a peer is ranked by. */
  function Rank(info: PeerInfo, seeding: bool): nat {
    if seeding then info.uploaded else info.downloaded
  }

  ghost predicate Listing(order: seq<SocketAddr>, peers: Peers) {
    && (forall a :: a in order <==> a in peers)
    && (forall i, j :: 0 <= i < j < |order| ==> order[i] != order[j])
  }

  lemma {:induction false} StatsExact(order: seq<SocketAddr>, peers: Peers, seeding: bool)
    requires forall a :: a in order ==> a in peers
    requires forall i, j :: 0 <= i < j < |order| ==> order[i] != order[j]
    ensures var stats := Stats(order, peers, seeding);
            && (forall s :: s in stats <==> s.addr in order && s.bytes == Rank(peers[s.addr], seeding)
                                            && (seeding ==> peers[s.addr].interested))
            && DistinctAddrs(stats)
  {
    if order != [] {
      StatsExact(order[1..], peers, seeding);
      var stats, rest := Stats(order, peers, seeding), Stats(order[1..], peers, seeding);
      assert forall a :: a in order <==> a == order[0] || a in order[1..];
      assert forall i :: 0 < i < |order| ==> order[i] == order[1..][i - 1] && order[0] != order[i];
      assert order[0] !in order[1..];
      assert forall i :: 0 <= i < |rest| ==> rest[i] in rest && rest[i].addr != order[0];
    }
  }

  lemma RankedStats(order: seq<SocketAddr>, peers: Peers, seeding: bool)
    requires Listing(order, peers)
    ensures var stats := SortBy(Stats(order, peers, seeding), MoreBytes());
            && DistinctAddrs(stats) && Sorted(stats, MoreBytes())
            && (forall s :: s in stats <==> s.addr in peers && s.bytes == Rank(peers[s.addr], seeding)
                                            && (seeding ==> peers[s.addr].interested))
  {
    var raw, le, key := Stats(order, peers, seeding), MoreBytes(), (s: Stat) => s.addr;
    StatsExact(order, peers, seeding);
    SortPermutes(raw, le);
    assert TotalPreorder(le);
    SortSorted(raw, le);
    assert DistinctBy(raw, key);
    SortDistinct(raw, le, key);
    var stats := SortBy(raw, le);
    forall i, j | 0 <= i < j < |stats|
      ensures stats[i].addr != stats[j].addr
    {
      assert key(stats[i]) != key(stats[j]);
    }
  }

  /** A round selects at most `max` peers that were eligible when looked at first, and
      `min(max, active)` or more of them; every selected one but the optimistic pick has at
      least the rank of every peer left out that is eligible at the second look too. */
  ghost predicate RoundSelection(chosen: set<SocketAddr>, peers: Peers, seeding: bool, kept: set<SocketAddr>,
                                 active: set<SocketAddr>, max: nat, optimistic: Option<SocketAddr>) {
    && chosen <= kept
    && Min(max, |active|) <= |chosen| <= Min(max, |kept|)
    && (forall a, b :: a in chosen && Some(a) != optimistic && b in active - chosen && a in peers && b in peers ==>
          Rank(peers[a], seeding) >= Rank(peers[b], seeding))
  }

  /** For every table order, random draw and clock. If no peer's time runs out during the
      round, in particular when seeding, both looks agree and exactly `min(max, eligible)`
      peers are selected. */
  lemma RoundSelectsBest(order: seq<SocketAddr>, peers: Peers, seeding: bool, sift: Clock, refill: Clock,
                         snubTimeout: int, max: nat, pick: nat)
    requires max > 0 && Listing(order, peers) && forall a :: a in peers ==> sift(a) <= refill(a)
    ensures var stats := SortBy(Stats(order, peers, seeding), MoreBytes());
            var kept := EligibleAmong(peers, seeding, sift, snubTimeout);
            var active := EligibleAmong(peers, seeding, refill, snubTimeout);
            && RoundSelection(Select(stats, kept, active, max, pick), peers, seeding, kept, active, max,
                              Optimistic(stats, max, pick))
            && (seeding || sift == refill ==> kept == active)
  {
    RankedStats(order, peers, seeding);
    EligibleLater(peers, seeding, sift, refill, snubTimeout);
    var stats := SortBy(Stats(order, peers, seeding), MoreBytes());
    var kept := EligibleAmong(peers, seeding, sift, snubTimeout);
    var active := EligibleAmong(peers, seeding, refill, snubTimeout);
    hide SortBy, Stats, DistinctAddrs, Sorted, Select, Addrs;
    forall a | a in kept
      ensures exists i :: 0 <= i < |stats| && stats[i] == Stat(a, Rank(peers[a], seeding))
      ensures a in Addrs(stats)
    {
      assert Stat(a, Rank(peers[a], seeding)) in stats;
      AddrsMember(stats, a);
    }
    SelectIsGood(stats, kept, active, max, pick);
    SelectionByRank(stats, peers, seeding, Select(stats, kept, active, max, pick), kept, active, max,
      Optimistic(stats, max, pick));
  }

  lemma SelectionByRank(stats: seq<Stat>, peers: Peers, seeding: bool, chosen: set<SocketAddr>,
                        kept: set<SocketAddr>, active: set<SocketAddr>, max: nat, optimistic: Option<SocketAddr>)
    requires GoodSelection(chosen, stats, kept, active, max, optimistic) && active <= kept
    requires forall a :: a in kept ==>
      a in peers && exists i :: 0 <= i < |stats| && stats[i] == Stat(a, Rank(peers[a], seeding))
    ensures RoundSelection(chosen, peers, seeding, kept, active, max, optimistic)
  {
    forall a, b | a in chosen && Some(a) != optimistic && b in active - chosen
      ensures Rank(peers[a], seeding) >= Rank(peers[b], seeding)
    {
      var i :| 0 <= i < |stats| && stats[i] == Stat(a, Rank(peers[a], seeding));
      var j :| 0 <= j < |stats| && stats[j] == Stat(b, Rank(peers[b], seeding));
      assert stats[i].bytes >= stats[j].bytes;
    }
  }

  /** No round exceeds the slots, and every selected peer told "unchoke" holds one
      exactly when that many slots were free before the round. */
  lemma ToldButRefused(before: set<SocketAddr>, chosen: set<SocketAddr>, max: nat, after: set<SocketAddr>)
    requires |before| <= max && SlotsAfter(before, chosen, max, after)
    ensures chosen - before <= after <==> |chosen - before| <= max - |before|
  {
    assert after - before <= chosen - before;
    if chosen - before <= after {
      assert after - before == chosen - before;
    } else {
      var c :| c in chosen - before && c !in after;
      assert c !in after - before;
      SubsetSize(after - before, chosen - before);
    }
  }

  /** With one slot, held by a snubbed peer, the round selects the other peer, sends it
      Unchoke and gives it nothing: afterwards no peer holds the slot. */
  lemma RefusedExample(a: SocketAddr, b: SocketAddr, now: int, snubTimeout: int, after: set<SocketAddr>)
    requires a != b && snubTimeout > 0
    ensures var peers := map[a := PeerInfo(true, 0, 9, None), b := PeerInfo(true, 0, 5, Some(now))];
            var stats := SortBy(Stats([a, b], peers, false), MoreBytes());
            var eligible := EligibleAmong(peers, false, _ => now, snubTimeout);
            var chosen := Select(stats, eligible, eligible, 1, 1);
            && chosen - {a} == {b}
            && (SlotsAfter({a}, chosen, 1, after) ==> after == {})
  {
    var peers := map[a := PeerInfo(true, 0, 9, None), b := PeerInfo(true, 0, 5, Some(now))];
    var eligible := EligibleAmong(peers, false, _ => now, snubTimeout);
    assert eligible == {b};
    ExampleStats(a, b, peers);
    var stats := [Stat(a, 9), Stat(b, 5)];
    var best := Addrs(stats[..0]) + {b};
    assert Refill(stats, 0, eligible, best * eligible, 1) == {b};
    if SlotsAfter({a}, {b}, 1, after) {
      assert {b} - {a} == {b} && after - {a} == after;
    }
  }

  lemma ExampleStats(a: SocketAddr, b: SocketAddr, peers: Peers)
    requires a != b && a in peers && b in peers && peers[a].downloaded == 9 && peers[b].downloaded == 5
    ensures SortBy(Stats([a, b], peers, false), MoreBytes()) == [Stat(a, 9), Stat(b, 5)]
  {
    assert [a, b][1..] == [b] && [b][1..] == [];
    assert Stats([b], peers, false) == [Stat(b, 5)];
    assert Stats([a, b], peers, false) == [Stat(a, 9)] + [Stat(b, 5)];
    var stats := [Stat(a, 9), Stat(b, 5)];
    assert Sorted(stats, MoreBytes());
    SortFixes(stats, MoreBytes());
  }

  /** A second round with the same selection gives every selected peer its slot. */
  lemma SecondRoundFills(before: set<SocketAddr>, chosen: set<SocketAddr>, max: nat,
                         mid: set<SocketAddr>, after: set<SocketAddr>)
    requires |before| <= max && |chosen| <= max
    requires SlotsAfter(before, chosen, max, mid) && SlotsAfter(mid, chosen, max, after)
    ensures after == chosen
  {
    SplitSize(mid, chosen);
    assert mid * chosen == mid;
    if after != chosen {
      var c :| c in chosen && c !in after;
      assert c in chosen - mid && c !in after - mid;
      SubsetSize(after - mid, chosen - mid);
    }
  }

  lemma SplitSize(a: set<SocketAddr>, b: set<SocketAddr>)
    requires a <= b
    ensures |b - a| == |b| - |a|
  {
    assert b == a + (b - a);
  }

  lemma UnionSize(a: set<SocketAddr>, b: set<SocketAddr>)
    ensures |a + b| <= |a| + |b|
  {
    assert a + b == a + (b - a);
    SubsetSize(b - a, b);
  }
}
