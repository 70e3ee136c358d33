/** The connection pool of one torrent: connected, pending and backed-off peers. */
module PeerPool {
  import opened Prelude
  import opened UniDeques

  /** Times are nanoseconds. */
  datatype Backoff = Backoff(attempts: nat, until: int)

  datatype Limits = Limits(maxConnections: nat, maxRetries: nat, cooldown: int)

  datatype Pool = Pool(connections: set<SocketAddr>, pending: seq<SocketAddr>, backoff: map<SocketAddr, Backoff>)

  /** The pool after a drain and the addresses handed out. */
  datatype Drained = Drained(pool: Pool, batch: seq<SocketAddr>)

  datatype Outcome = Outcome(addr: SocketAddr, connected: bool)

  function AddPeers(p: Pool, addrs: seq<SocketAddr>): Pool
    decreases |addrs|
  {
    if addrs == [] then p
    else
      var a := addrs[0];
      AddPeers(if a in p.connections then p else p.(pending := PushUnique(p.pending, a)), addrs[1..])
  }

  predicate Cooling(p: Pool, a: SocketAddr, now: int) {
    a in p.backoff && p.backoff[a].until > now
  }

  /** Split a raw batch: cooling peers go back to the queue. */
  function Sift(p: Pool, raw: seq<SocketAddr>, now: int): Drained
    decreases |raw|
  {
    if raw == [] then Drained(p, [])
    else if Cooling(p, raw[0], now) then Sift(p.(pending := PushUnique(p.pending, raw[0])), raw[1..], now)
    else
      var rest := Sift(p, raw[1..], now);
      Drained(rest.pool, [raw[0]] + rest.batch)
  }

  function DrainBatch(p: Pool, limits: Limits, now: int): Drained {
    var n := Min(Max(limits.maxConnections - |p.connections|, 0), |p.pending|);
    Sift(p.(pending := p.pending[n..]), p.pending[..n], now)
  }

  function ApplyOutcome(p: Pool, o: Outcome, limits: Limits, now: int): Pool {
    if o.connected then p.(connections := p.connections + {o.addr}, backoff := p.backoff - {o.addr})
    else
      var attempts := if o.addr in p.backoff then p.backoff[o.addr].attempts else 0;
      if attempts < limits.maxRetries then
        p.(backoff := p.backoff[o.addr := Backoff(attempts + 1, now + limits.cooldown)],
           pending := PushUnique(p.pending, o.addr))
      else p.(backoff := p.backoff - {o.addr})
  }

  function ApplyOutcomes(p: Pool, outcomes: seq<Outcome>, limits: Limits, now: int): Pool
    decreases |outcomes|
  {
    if outcomes == [] then p
    else ApplyOutcomes(ApplyOutcome(p, outcomes[0], limits, now), outcomes[1..], limits, now)
  }

  predicate Processed(outcomes: seq<Outcome>, a: SocketAddr) {
    exists i :: 0 <= i < |outcomes| && outcomes[i].addr == a
  }

  /** Put back the peers whose connection attempt has no outcome. */
  function Requeue(p: Pool, batch: seq<SocketAddr>, outcomes: seq<Outcome>): Pool
    decreases |batch|
  {
    if batch == [] then p
    else
      Requeue(if Processed(outcomes, batch[0]) then p else p.(pending := PushUnique(p.pending, batch[0])),
              batch[1..], outcomes)
  }

  function ApplyResults(p: Pool, outcomes: seq<Outcome>, batch: seq<SocketAddr>, limits: Limits, now: int): Pool {
    Requeue(ApplyOutcomes(p, outcomes, limits, now), batch, outcomes)
  }

  function RemovePeer(p: Pool, a: SocketAddr): Pool {
    p.(connections := p.connections - {a}, backoff := p.backoff - {a})
  }

  class PeerManager {
    const limits: Limits
    var connections: set<SocketAddr>
    const pending: UniDeque<SocketAddr>
    var backoff: map<SocketAddr, Backoff>

    ghost function State(): Pool
      reads this, pending
    {
      Pool(connections, pending.queue, backoff)
    }

    ghost predicate Valid()
      reads this, pending
    {
      pending.Valid()
    }

    constructor (limits: Limits)
      ensures Valid() && fresh(pending) && this.limits == limits
      ensures State() == Pool({}, [], map[])
    {
      this.limits := limits;
      connections, backoff := {}, map[];
      pending := new UniDeque();
    }

    method AddAddresses(addrs: seq<SocketAddr>)
      requires Valid()
      modifies pending
      ensures Valid() && State() == AddPeers(old(State()), addrs)
    {
      for i := 0 to |addrs|
        invariant Valid() && connections == old(connections) && backoff == old(backoff)
        invariant AddPeers(State(), addrs[i..]) == AddPeers(old(State()), addrs)
      {
        assert addrs[i..][0] == addrs[i] && addrs[i..][1..] == addrs[i + 1..];
        if addrs[i] !in connections {
          var _ := pending.Push(addrs[i]);
        }
      }
    }

    method Remove(addr: SocketAddr)
      requires Valid()
      modifies this
      ensures Valid() && State() == RemovePeer(old(State()), addr)
    {
      connections := connections - {addr};
      backoff := backoff - {addr};
    }

    method DrainPendingBatch(now: int) returns (batch: seq<SocketAddr>)
      requires Valid()
      modifies pending
      ensures Valid() && Drained(State(), batch) == DrainBatch(old(State()), limits, now)
    {
      var batchSize := Max(limits.maxConnections - |connections|, 0);
      var raw := pending.DrainFirst(batchSize);
      ghost var all := Sift(State(), raw, now);
      assert all == DrainBatch(old(State()), limits, now);
      batch := [];
      if raw == [] {
        return;
      }
      assert raw[0..] == raw && [] + all.batch == all.batch;
      for i := 0 to |raw|
        invariant Valid() && connections == old(connections) && backoff == old(backoff)
        invariant all.pool == Sift(State(), raw[i..], now).pool
        invariant all.batch == batch + Sift(State(), raw[i..], now).batch
      {
        assert raw[i..][0] == raw[i] && raw[i..][1..] == raw[i + 1..];
        if raw[i] in backoff && backoff[raw[i]].until > now {
          var _ := pending.Push(raw[i]);
        } else {
          assert batch + ([raw[i]] + Sift(State(), raw[i + 1..], now).batch)
              == (batch + [raw[i]]) + Sift(State(), raw[i + 1..], now).batch;
          batch := batch + [raw[i]];
        }
      }
    }

    method ApplyConnectResults(outcomes: seq<Outcome>, batch: seq<SocketAddr>, now: int)
      returns (connected: seq<SocketAddr>)
      requires Valid()
      modifies this, pending
      ensures Valid() && State() == ApplyResults(old(State()), outcomes, batch, limits, now)
      ensures forall a :: a in connected <==> Outcome(a, true) in outcomes
    {
      connected := [];
      assert outcomes[0..] == outcomes;
      for i := 0 to |outcomes|
        invariant Valid()
        invariant ApplyOutcomes(State(), outcomes[i..], limits, now) == ApplyOutcomes(old(State()), outcomes, limits, now)
        invariant forall a :: a in connected <==> Outcome(a, true) in outcomes[..i]
      {
        assert outcomes[i..][0] == outcomes[i] && outcomes[i..][1..] == outcomes[i + 1..];
        assert outcomes[..i + 1] == outcomes[..i] + [outcomes[i]];
        var o := outcomes[i];
        if o.connected {
          connections := connections + {o.addr};
          backoff := backoff - {o.addr};
          connected := connected + [o.addr];
        } else {
          var attempts := if o.addr in backoff then backoff[o.addr].attempts else 0;
          if attempts < limits.maxRetries {
            backoff := backoff[o.addr := Backoff(attempts + 1, now + limits.cooldown)];
            var _ := pending.Push(o.addr);
          } else {
            backoff := backoff - {o.addr};
          }
        }
      }
      assert outcomes[..|outcomes|] == outcomes && batch[0..] == batch;
      ghost var applied := State();
      for i := 0 to |batch|
        invariant Valid() && connections == applied.connections && backoff == applied.backoff
        invariant Requeue(State(), batch[i..], outcomes) == Requeue(applied, batch, outcomes)
      {
        assert batch[i..][0] == batch[i] && batch[i..][1..] == batch[i + 1..];
        if !Processed(outcomes, batch[i]) {
          var _ := pending.Push(batch[i]);
        }
      }
    }
  }
}
