/** The connection pool over whole runs with one outstanding batch at a time. */
module PeerPoolRuns {
  import opened Prelude
  import opened UniDeques
  import opened PeerPool

  datatype Event =
    | Announced(addrs: seq<SocketAddr>)
    | Drains(now: int)
    | Results(outcomes: seq<Outcome>, now: int)
    | Removed(addr: SocketAddr)

  /** `batch` was handed out and its results are not in yet; empty if there is none. */
  datatype System = System(pool: Pool, batch: seq<SocketAddr>)

  /** At most one outcome per address, and only for addresses of the batch. */
  ghost predicate Honest(outcomes: seq<Outcome>, batch: seq<SocketAddr>) {
    && (forall i, j :: 0 <= i < j < |outcomes| ==> outcomes[i].addr != outcomes[j].addr)
    && (forall i :: 0 <= i < |outcomes| ==> outcomes[i].addr in batch)
  }

  ghost predicate Applies(s: System, e: Event) {
    match e
    case Drains(_) => s.batch == []
    case Results(outcomes, _) => Honest(outcomes, s.batch)
    case _ => true
  }

  ghost function Step(s: System, e: Event, limits: Limits): System {
    if !Applies(s, e) then s
    else
      match e
      case Announced(addrs) => s.(pool := AddPeers(s.pool, addrs))
      case Drains(now) => var d := DrainBatch(s.pool, limits, now); System(d.pool, d.batch)
      case Results(outcomes, now) => System(ApplyResults(s.pool, outcomes, s.batch, limits, now), [])
      case Removed(addr) => s.(pool := RemovePeer(s.pool, addr))
  }

  const EMPTY := System(Pool({}, [], map[]), [])

  ghost function Run(events: seq<Event>, limits: Limits): System {
    if events == [] then EMPTY
    else Step(Run(events[..|events| - 1], limits), events[|events| - 1], limits)
  }

  // ---------------------------------------------------------------- draining

  ghost function Ready(p: Pool, raw: seq<SocketAddr>, now: int): seq<SocketAddr> {
    if raw == [] then []
    else (if Cooling(p, raw[0], now) then [] else [raw[0]]) + Ready(p, raw[1..], now)
  }

  ghost function Resting(p: Pool, raw: seq<SocketAddr>, now: int): seq<SocketAddr> {
    if raw == [] then []
    else (if Cooling(p, raw[0], now) then [raw[0]] else []) + Resting(p, raw[1..], now)
  }

  lemma {:induction false} SiftExact(p: Pool, raw: seq<SocketAddr>, now: int)
    requires NoDuplicates(p.pending + raw)
    ensures Sift(p, raw, now) == Drained(p.(pending := p.pending + Resting(p, raw, now)), Ready(p, raw, now))
    decreases |raw|
  {
    if raw == [] {
      assert p.pending + [] == p.pending;
    } else {
      assert raw == [raw[0]] + raw[1..];
      var all := p.pending + raw;
      assert all[|p.pending|] == raw[0];
      assert forall i :: 0 <= i < |p.pending| ==> all[i] == p.pending[i] && all[i] != all[|p.pending|];
      if Cooling(p, raw[0], now) {
        var q := p.(pending := p.pending + [raw[0]]);
        assert q.pending + raw[1..] == all;
        SiftExact(q, raw[1..], now);
        SameBackoff(p, q, raw[1..], now);
        assert p.pending + ([raw[0]] + Resting(p, raw[1..], now)) == q.pending + Resting(p, raw[1..], now);
      } else {
        DropMiddle(p.pending, raw);
        SiftExact(p, raw[1..], now);
      }
    }
  }

  lemma {:induction false} SameBackoff(p: Pool, q: Pool, raw: seq<SocketAddr>, now: int)
    requires p.backoff == q.backoff
    ensures Ready(p, raw, now) == Ready(q, raw, now) && Resting(p, raw, now) == Resting(q, raw, now)
  {
    if raw != [] {
      SameBackoff(p, q, raw[1..], now);
    }
  }

  lemma DropMiddle(pending: seq<SocketAddr>, raw: seq<SocketAddr>)
    requires raw != [] && NoDuplicates(pending + raw)
    ensures NoDuplicates(pending + raw[1..])
  {
    var all, some := pending + raw, pending + raw[1..];
    forall i, j | 0 <= i < j < |some|
      ensures some[i] != some[j]
    {
      assert some[i] == all[if i < |pending| then i else i + 1];
      assert some[j] == all[if j < |pending| then j else j + 1];
    }
  }

  lemma {:induction false} SiftedMembers(p: Pool, raw: seq<SocketAddr>, now: int)
    requires NoDuplicates(raw)
    ensures forall a :: a in Ready(p, raw, now) <==> a in raw && !Cooling(p, a, now)
    ensures forall a :: a in Resting(p, raw, now) <==> a in raw && Cooling(p, a, now)
    ensures NoDuplicates(Ready(p, raw, now)) && NoDuplicates(Resting(p, raw, now))
    ensures |Ready(p, raw, now)| + |Resting(p, raw, now)| == |raw|
  {
    if raw != [] {
      assert raw == [raw[0]] + raw[1..];
      assert raw[0] !in raw[1..];
      SiftedMembers(p, raw[1..], now);
    }
  }

  /** A drain takes the front of the queue, as far as free connections allow: those not
      cooling are handed out, the cooling ones go to the back, nobody is lost. */
  lemma DrainExact(p: Pool, limits: Limits, now: int)
    requires NoDuplicates(p.pending)
    ensures var d := DrainBatch(p, limits, now);
            var n := Min(Max(limits.maxConnections - |p.connections|, 0), |p.pending|);
            && d.batch == Ready(p, p.pending[..n], now)
            && d.pool == p.(pending := p.pending[n..] + Resting(p, p.pending[..n], now))
            && (forall a :: a in d.batch ==> !Cooling(p, a, now) && a !in d.pool.pending)
            && (forall a :: a in p.pending <==> a in d.batch || a in d.pool.pending)
            && NoDuplicates(d.batch) && NoDuplicates(d.pool.pending)
            && (|p.connections| <= limits.maxConnections ==> |p.connections| + |d.batch| <= limits.maxConnections)
  {
    var n := Min(Max(limits.maxConnections - |p.connections|, 0), |p.pending|);
    var raw, rest := p.pending[..n], p.pending[n..];
    assert p.pending == raw + rest;
    var q := p.(pending := rest);
    Rotated(raw, rest);
    SiftExact(q, raw, now);
    SameBackoff(p, q, raw, now);
    SiftedMembers(p, raw, now);
    hide Ready, Resting, Sift;
    Apart(rest, Resting(p, raw, now));
  }

  lemma Rotated(a: seq<SocketAddr>, b: seq<SocketAddr>)
    requires NoDuplicates(a + b)
    ensures NoDuplicates(b + a) && NoDuplicates(a) && NoDuplicates(b)
    ensures forall x :: x in a ==> x !in b
  {
    var s, t := a + b, b + a;
    forall i, j | 0 <= i < |a| && 0 <= j < |b|
      ensures a[i] != b[j]
    {
      assert s[i] == a[i] && s[|a| + j] == b[j];
    }
    assert forall i :: 0 <= i < |a| ==> s[i] == a[i];
    assert forall j :: 0 <= j < |b| ==> s[|a| + j] == b[j];
    forall i, j | 0 <= i < j < |t|
      ensures t[i] != t[j]
    {
    }
  }

  lemma Apart(a: seq<SocketAddr>, b: seq<SocketAddr>)
    requires NoDuplicates(a) && NoDuplicates(b) && forall x :: x in b ==> x !in a
    ensures NoDuplicates(a + b)
  {
    forall i, j | 0 <= i < j < |a + b|
      ensures (a + b)[i] != (a + b)[j]
    {
      if i < |a| <= j {
        assert (a + b)[j] in b && (a + b)[i] in a;
      }
    }
  }

  // ---------------------------------------------------------------- results

  /** Failed attempts since the address was last connected, discarded or removed. */
  function Failures(p: Pool, a: SocketAddr): nat {
    if a in p.backoff then p.backoff[a].attempts else 0
  }

  /** What the results do to one address of the batch. */
  ghost predicate Settled(p: Pool, p': Pool, a: SocketAddr, outcomes: seq<Outcome>, limits: Limits, now: int) {
    if Outcome(a, true) in outcomes then
      a in p'.connections && a !in p'.backoff && (a in p'.pending <==> a in p.pending)
    else if Outcome(a, false) in outcomes then
      && (a in p'.connections <==> a in p.connections)
      && (if Failures(p, a) < limits.maxRetries then
            a in p'.pending && a in p'.backoff && p'.backoff[a] == Backoff(Failures(p, a) + 1, now + limits.cooldown)
          else
            a !in p'.backoff && (a in p'.pending <==> a in p.pending))
    else Untouched(p, p', a)
  }

  ghost predicate Untouched(p: Pool, p': Pool, a: SocketAddr) {
    && (a in p'.connections <==> a in p.connections)
    && (a in p'.pending <==> a in p.pending)
    && (a in p'.backoff <==> a in p.backoff)
    && (a in p.backoff ==> p'.backoff[a] == p.backoff[a])
  }

  lemma OneOutcome(p: Pool, o: Outcome, limits: Limits, now: int)
    ensures var p' := ApplyOutcome(p, o, limits, now);
            && (forall a :: a != o.addr ==> Untouched(p, p', a))
            && Settled(p, p', o.addr, [o], limits, now)
            && (NoDuplicates(p.pending) ==> NoDuplicates(p'.pending))
  {}

  lemma {:induction false} OutcomesSettle(p: Pool, outcomes: seq<Outcome>, limits: Limits, now: int)
    requires forall i, j :: 0 <= i < j < |outcomes| ==> outcomes[i].addr != outcomes[j].addr
    ensures forall a :: Settled(p, ApplyOutcomes(p, outcomes, limits, now), a, outcomes, limits, now)
    ensures NoDuplicates(p.pending) ==> NoDuplicates(ApplyOutcomes(p, outcomes, limits, now).pending)
    decreases |outcomes|
  {
    if outcomes == [] {
    } else {
      var o, rest := outcomes[0], outcomes[1..];
      var q := ApplyOutcome(p, o, limits, now);
      var p' := ApplyOutcomes(q, rest, limits, now);
      OneOutcome(p, o, limits, now);
      OutcomesSettle(q, rest, limits, now);
      hide ApplyOutcome, ApplyOutcomes;
      forall a
        ensures Settled(p, p', a, outcomes, limits, now)
      {
        SettledLater(p, q, p', a, o, rest, limits, now);
        assert outcomes == [o] + rest;
      }
    }
  }

  lemma SettledLater(p: Pool, q: Pool, p': Pool, a: SocketAddr, o: Outcome, rest: seq<Outcome>, limits: Limits, now: int)
    requires forall i :: 0 <= i < |rest| ==> rest[i].addr != o.addr
    requires a != o.addr ==> Untouched(p, q, a)
    requires Settled(p, q, o.addr, [o], limits, now)
    requires Settled(q, p', a, rest, limits, now)
    ensures Settled(p, p', a, [o] + rest, limits, now)
  {
    assert forall x :: x in [o] + rest <==> x == o || x in rest;
    if a == o.addr {
      assert Outcome(a, true) !in rest && Outcome(a, false) !in rest;
      assert o in [o];
    }
  }

  lemma {:induction false} RequeueExact(p: Pool, batch: seq<SocketAddr>, outcomes: seq<Outcome>)
    ensures var p' := Requeue(p, batch, outcomes);
            && p'.connections == p.connections && p'.backoff == p.backoff
            && (forall a :: a in p'.pending <==> a in p.pending || (a in batch && !Processed(outcomes, a)))
            && (NoDuplicates(p.pending) ==> NoDuplicates(p'.pending))
    decreases |batch|
  {
    hide Processed;
    if batch != [] {
      var q := if Processed(outcomes, batch[0]) then p else p.(pending := PushUnique(p.pending, batch[0]));
      RequeueExact(q, batch[1..], outcomes);
      assert batch == [batch[0]] + batch[1..];
    }
  }

  /** An address of the batch is settled by its outcome, or waits again if it has none;
      every other address is left alone. */
  ghost predicate ResultFor(p: Pool, p': Pool, a: SocketAddr, outcomes: seq<Outcome>, batch: seq<SocketAddr>,
                            limits: Limits, now: int) {
    if a !in batch then Untouched(p, p', a)
    else if Processed(outcomes, a) then Settled(p, p', a, outcomes, limits, now)
    else
      && a in p'.pending && Failures(p', a) == Failures(p, a)
      && (a in p'.connections <==> a in p.connections)
  }

  lemma ResultOfOne(p: Pool, q: Pool, p': Pool, a: SocketAddr, outcomes: seq<Outcome>, batch: seq<SocketAddr>,
                    limits: Limits, now: int)
    requires Honest(outcomes, batch) && Settled(p, q, a, outcomes, limits, now)
    requires p'.connections == q.connections && p'.backoff == q.backoff
    requires a in p'.pending <==> a in q.pending || (a in batch && !Processed(outcomes, a))
    ensures ResultFor(p, p', a, outcomes, batch, limits, now)
    ensures a in p'.connections <==> a in p.connections || Outcome(a, true) in outcomes
  {
    ProcessedExact(outcomes, a);
    hide Processed;
  }

  lemma ProcessedExact(outcomes: seq<Outcome>, a: SocketAddr)
    ensures Processed(outcomes, a) <==> Outcome(a, true) in outcomes || Outcome(a, false) in outcomes
  {
    if Processed(outcomes, a) {
      var i :| 0 <= i < |outcomes| && outcomes[i].addr == a;
      assert outcomes[i] in outcomes;
    }
  }

  /** After the results every address of the batch is connected, pending again (with one
      more failure counted, or with none if the attempt has no outcome) or discarded. */
  lemma ResultsSettle(p: Pool, outcomes: seq<Outcome>, batch: seq<SocketAddr>, limits: Limits, now: int)
    requires Honest(outcomes, batch)
    ensures var p' := ApplyResults(p, outcomes, batch, limits, now);
            && (forall a :: ResultFor(p, p', a, outcomes, batch, limits, now))
            && (NoDuplicates(p.pending) ==> NoDuplicates(p'.pending))
            && p'.connections == p.connections + ConnectedBy(outcomes)
  {
    var q := ApplyOutcomes(p, outcomes, limits, now);
    var p' := Requeue(q, batch, outcomes);
    OutcomesSettle(p, outcomes, limits, now);
    RequeueExact(q, batch, outcomes);
    ConnectedByExact(outcomes);
    hide ApplyOutcomes, Requeue, ConnectedBy, Settled, ResultFor, Processed, NoDuplicates;
    forall a
      ensures ResultFor(p, p', a, outcomes, batch, limits, now)
      ensures a in p'.connections <==> a in p.connections || a in ConnectedBy(outcomes)
    {
      ResultOfOne(p, q, p', a, outcomes, batch, limits, now);
    }
  }

  ghost function ConnectedBy(outcomes: seq<Outcome>): set<SocketAddr> {
    if outcomes == [] then {}
    else (if outcomes[0].connected then {outcomes[0].addr} else {}) + ConnectedBy(outcomes[1..])
  }

  lemma {:induction false} ConnectedByExact(outcomes: seq<Outcome>)
    ensures forall a :: a in ConnectedBy(outcomes) <==> Outcome(a, true) in outcomes
    ensures |ConnectedBy(outcomes)| <= |outcomes|
  {
    if outcomes != [] {
      ConnectedByExact(outcomes[1..]);
      assert outcomes == [outcomes[0]] + outcomes[1..];
      var a, b := if outcomes[0].connected then {outcomes[0].addr} else {}, ConnectedBy(outcomes[1..]);
      assert a + b == a + (b - a) && |b - a| <= |b| by {
        assert b == (b - a) + (b * a);
      }
    }
  }

  // ---------------------------------------------------------------- runs

  ghost predicate Bounded(s: System, limits: Limits) {
    && |s.pool.connections| + |s.batch| <= limits.maxConnections
    && NoDuplicates(s.pool.pending) && NoDuplicates(s.batch)
  }

  lemma {:induction false} AddKeepsQueue(p: Pool, addrs: seq<SocketAddr>)
    requires NoDuplicates(p.pending)
    ensures var p' := AddPeers(p, addrs);
            NoDuplicates(p'.pending) && p'.connections == p.connections && p'.backoff == p.backoff
    decreases |addrs|
  {
    if addrs != [] {
      AddKeepsQueue(if addrs[0] in p.connections then p else p.(pending := PushUnique(p.pending, addrs[0])), addrs[1..]);
    }
  }

  lemma FewOutcomes(outcomes: seq<Outcome>, batch: seq<SocketAddr>)
    requires Honest(outcomes, batch)
    ensures |ConnectedBy(outcomes)| <= |batch|
  {
    ConnectedByExact(outcomes);
    var members := set a | a in batch;
    SetOfSeq(batch);
    assert ConnectedBy(outcomes) <= members by {
      forall a | a in ConnectedBy(outcomes)
        ensures a in batch
      {
        var i :| 0 <= i < |outcomes| && outcomes[i] == Outcome(a, true);
      }
    }
    assert members == ConnectedBy(outcomes) + (members - ConnectedBy(outcomes));
  }

  lemma {:induction false} SetOfSeq(s: seq<SocketAddr>)
    ensures |set a | a in s| <= |s|
  {
    if s == [] {
      assert (set a | a in s) == {};
    } else {
      SetOfSeq(s[1..]);
      assert s == [s[0]] + s[1..];
      assert (set a | a in s) == {s[0]} + (set a | a in s[1..]);
    }
  }

  lemma StepBounded(s: System, e: Event, limits: Limits)
    requires Bounded(s, limits)
    ensures Bounded(Step(s, e, limits), limits)
  {
    hide AddPeers, DrainBatch, ApplyResults;
    if Applies(s, e) {
      match e
      case Announced(addrs) => AddKeepsQueue(s.pool, addrs);
      case Drains(now) => DrainExact(s.pool, limits, now);
      case Results(outcomes, now) =>
        ResultsSettle(s.pool, outcomes, s.batch, limits, now);
        FewOutcomes(outcomes, s.batch);
        var c, n := s.pool.connections, ConnectedBy(outcomes);
        assert c + n == c + (n - c);
        SubsetSize(n - c, n);
      case Removed(addr) => SubsetSize(s.pool.connections - {addr}, s.pool.connections);
    }
  }

  /** In every run connections and outstanding attempts together stay within the limit,
      and the pending queue never holds an address twice. */
  lemma {:induction false} RunBounded(events: seq<Event>, limits: Limits)
    ensures Bounded(Run(events, limits), limits)
  {
    if events != [] {
      hide Step;
      RunBounded(events[..|events| - 1], limits);
      StepBounded(Run(events[..|events| - 1], limits), events[|events| - 1], limits);
    }
  }

  // ---------------------------------------------------------------- the retry budget

  /** How often connecting `a` failed in a run, counting only results that were applied. */
  ghost function FailuresSeen(events: seq<Event>, a: SocketAddr, limits: Limits): nat {
    if events == [] then 0
    else
      var front, e := events[..|events| - 1], events[|events| - 1];
      FailuresSeen(front, a, limits)
      + if e.Results? && Applies(Run(front, limits), e) && Outcome(a, false) in e.outcomes then 1 else 0
  }

  /** The run never connects or removes `a`. */
  ghost predicate NeverReset(events: seq<Event>, a: SocketAddr) {
    forall i :: 0 <= i < |events| ==>
      && events[i] != Removed(a)
      && (events[i].Results? ==> Outcome(a, true) !in events[i].outcomes)
  }

  lemma StepFailures(s: System, e: Event, a: SocketAddr, limits: Limits)
    requires NoDuplicates(s.pool.pending)
    requires e != Removed(a) && (e.Results? ==> Outcome(a, true) !in e.outcomes)
    requires !(e.Results? && Applies(s, e) && Outcome(a, false) in e.outcomes)
    ensures Failures(Step(s, e, limits).pool, a) == Failures(s.pool, a)
  {
    hide AddPeers, DrainBatch, ApplyResults;
    if Applies(s, e) {
      match e
      case Announced(addrs) => AddKeepsQueue(s.pool, addrs);
      case Drains(now) => DrainExact(s.pool, limits, now);
      case Results(outcomes, now) =>
        ResultsSettle(s.pool, outcomes, s.batch, limits, now);
        ProcessedExact(outcomes, a);
        assert ResultFor(s.pool, ApplyResults(s.pool, outcomes, s.batch, limits, now), a, outcomes, s.batch, limits, now);
      case Removed(addr) =>
    }
  }

  lemma FailedStep(s: System, e: Event, a: SocketAddr, limits: Limits)
    requires e.Results? && Applies(s, e) && Outcome(a, false) in e.outcomes && Outcome(a, true) !in e.outcomes
    ensures var p, p' := s.pool, Step(s, e, limits).pool;
            if Failures(p, a) < limits.maxRetries then
              a in p'.pending && Failures(p', a) == Failures(p, a) + 1
            else
              a !in p'.backoff && (a in p'.pending <==> a in p.pending) && (a in p'.connections <==> a in p.connections)
  {
    ResultsSettle(s.pool, e.outcomes, s.batch, limits, e.now);
    ProcessedExact(e.outcomes, a);
    hide ApplyResults;
    var i :| 0 <= i < |e.outcomes| && e.outcomes[i] == Outcome(a, false);
    assert e.outcomes[i].addr in s.batch;
    var p' := ApplyResults(s.pool, e.outcomes, s.batch, limits, e.now);
    assert ResultFor(s.pool, p', a, e.outcomes, s.batch, limits, e.now);
  }

  /** An address that only ever fails is retried after each of its first `maxRetries`
      failures: the count is kept exactly, whatever else happens in the run. */
  lemma {:induction false} CountsFailures(events: seq<Event>, a: SocketAddr, limits: Limits)
    requires NeverReset(events, a) && FailuresSeen(events, a, limits) <= limits.maxRetries
    ensures Failures(Run(events, limits).pool, a) == FailuresSeen(events, a, limits)
  {
    if events != [] {
      var front, e := events[..|events| - 1], events[|events| - 1];
      var s := Run(front, limits);
      assert NeverReset(front, a) by {
        assert forall i :: 0 <= i < |front| ==> front[i] == events[i];
      }
      CountsFailures(front, a, limits);
      RunBounded(front, limits);
      hide Step, Failures;
      if e.Results? && Applies(s, e) && Outcome(a, false) in e.outcomes {
        FailedStep(s, e, a, limits);
      } else {
        StepFailures(s, e, a, limits);
      }
    }
  }

  /** ... and the failure after those discards it: it is neither put back nor remembered. */
  lemma DiscardedAfterRetries(events: seq<Event>, e: Event, a: SocketAddr, limits: Limits)
    requires NeverReset(events + [e], a) && FailuresSeen(events, a, limits) == limits.maxRetries
    requires e.Results? && Applies(Run(events, limits), e) && Outcome(a, false) in e.outcomes
    ensures var p, p' := Run(events, limits).pool, Run(events + [e], limits).pool;
            a !in p'.backoff && (a in p'.pending <==> a in p.pending) && (a in p'.connections <==> a in p.connections)
  {
    assert NeverReset(events, a) by {
      assert forall i :: 0 <= i < |events| ==> (events + [e])[i] == events[i];
    }
    assert (events + [e])[|events|] == e && (events + [e])[..|events|] == events;
    CountsFailures(events, a, limits);
    FailedStep(Run(events, limits), e, a, limits);
    hide Step;
  }

  // ---------------------------------------------------------------- announced again while connecting

  /** Every retry finds the address absent from the queue, as the code asserts. */
  ghost predicate RetriesAreNew(p: Pool, outcomes: seq<Outcome>, limits: Limits, now: int)
    decreases |outcomes|
  {
    outcomes != [] ==>
      var o := outcomes[0];
      && (!o.connected && Failures(p, o.addr) < limits.maxRetries ==> o.addr !in p.pending)
      && RetriesAreNew(ApplyOutcome(p, o, limits, now), outcomes[1..], limits, now)
  }

  /** The assertion on retries holds exactly when no address that is to be retried was
      announced again between the drain and the results. */
  lemma {:induction false} RetryAssertionExact(p: Pool, outcomes: seq<Outcome>, limits: Limits, now: int)
    requires forall i, j :: 0 <= i < j < |outcomes| ==> outcomes[i].addr != outcomes[j].addr
    ensures RetriesAreNew(p, outcomes, limits, now)
       <==> (forall i | 0 <= i < |outcomes| && !outcomes[i].connected ::
               Failures(p, outcomes[i].addr) < limits.maxRetries ==> outcomes[i].addr !in p.pending)
    decreases |outcomes|
  {
    if outcomes != [] {
      var o, rest := outcomes[0], outcomes[1..];
      var q := ApplyOutcome(p, o, limits, now);
      OneOutcome(p, o, limits, now);
      hide ApplyOutcome;
      RetryAssertionExact(q, rest, limits, now);
      forall i | 0 <= i < |rest|
        ensures Failures(q, rest[i].addr) == Failures(p, rest[i].addr)
        ensures rest[i].addr in q.pending <==> rest[i].addr in p.pending
      {
        assert rest[i] == outcomes[i + 1];
        assert Untouched(p, q, rest[i].addr);
      }
      assert forall i :: 0 < i < |outcomes| ==> outcomes[i] == rest[i - 1];
    }
  }

  /** It can fail: the same address is announced, drained, announced again and then fails. */
  lemma RetryAssertionFails(a: SocketAddr, limits: Limits, now: int)
    requires limits.maxConnections > 0 && limits.maxRetries > 0
    ensures var events := [Announced([a]), Drains(now), Announced([a])];
            var s := Run(events, limits);
            Honest([Outcome(a, false)], s.batch) && !RetriesAreNew(s.pool, [Outcome(a, false)], limits, now)
  {
    var announce, drain := Announced([a]), Drains(now);
    RunSnoc([], announce, limits);
    RunSnoc([announce], drain, limits);
    RunSnoc([announce, drain], announce, limits);
    assert [] + [announce] == [announce] && [announce] + [drain] == [announce, drain];
    assert [announce, drain] + [announce] == [announce, drain, announce];
    QueueOne(a, limits, now);
    hide AddPeers, DrainBatch, Run;
  }

  lemma QueueOne(a: SocketAddr, limits: Limits, now: int)
    requires limits.maxConnections > 0
    ensures AddPeers(EMPTY.pool, [a]) == Pool({}, [a], map[])
    ensures DrainBatch(Pool({}, [a], map[]), limits, now) == Drained(EMPTY.pool, [a])
    ensures Run([], limits) == EMPTY
  {
    var queued := Pool({}, [a], map[]);
    assert [a][1..] == [] && queued.pending[..1] == [a] && queued.pending[1..] == [];
    assert |queued.connections| == 0 && !Cooling(EMPTY.pool, a, now);
    assert Sift(EMPTY.pool, [], now) == Drained(EMPTY.pool, []);
    assert Sift(EMPTY.pool, [a], now) == Drained(EMPTY.pool, [a] + []);
  }

  lemma RunSnoc(events: seq<Event>, e: Event, limits: Limits)
    ensures Run(events + [e], limits) == Step(Run(events, limits), e, limits)
  {
    assert (events + [e])[..|events|] == events;
  }
}
