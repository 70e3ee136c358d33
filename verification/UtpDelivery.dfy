/** The invariant of a uTP conversation and what follows from it for every run. */
module UtpDelivery {
  import opened Prelude
  import opened Congestion
  import opened Utp
  import opened UtpTheorems
  import opened UtpRuns

  // ---------------------------------------------------------------- one event at one side

  /** An event without an incoming packet changes no more than this. */
  ghost predicate Frame(x: Side, x': Side) {
    && x'.first == x.first && x.log <= x'.log
    && x'.base == x.base
    && x'.taken + x'.conn.rx.ready == x.taken + x.conn.rx.ready
    && x.net <= x'.net
    && |x'.conn.rx.ready| <= |x.conn.rx.ready|
    && x'.conn.rx.ackNr == x.conn.rx.ackNr && x'.conn.rx.recvBuffer == x.conn.rx.recvBuffer
    && (x'.conn.state == x.conn.state || x'.conn.state == Closed
        || (x.conn.state == Connected && x'.conn.state == FinSent))
    && (x.base.None? && x.taken == [] && x.conn.rx.ready == [] ==> x'.taken == [] && x'.conn.rx.ready == [])
  }

  lemma WrittenOnly(x: Side, written: seq<byte>, role: Role)
    ensures SideOk(x.(written := written), role) == SideOk(x, role)
  {}

  lemma SendsOk(x: Side, role: Role, data: seq<byte>, packetSize: nat, now: int, budget: nat)
    requires SideOk(x, role)
    requires x.conn.state == Connected ==> role.Pins(x.conn.rx.ackNr)
    requires var x' := AfterSend(x, data, packetSize, now, budget);
             |x'.log| <= 0x1_0000
    ensures SideOk(AfterSend(x, data, packetSize, now, budget), role)
    ensures Frame(x, AfterSend(x, data, packetSize, now, budget))
  {
    hide SideOk, SendChunks, Stream, Payloads;
    var x' := AfterSend(x, data, packetSize, now, budget);
    if x.conn.state == Connected {
      SendChunksOk(x, role, data, Max(packetSize, 150), now, budget);
    } else {
      ApplyNothing(x, x.conn, Err(PeerUtpProtocolError));
    }
    WrittenOnly(x'.(written := x.written), x'.written, role);
  }

  lemma ClosesOk(x: Side, role: Role, now: int, ok: bool)
    requires SideOk(x, role)
    requires |Apply(x, Close(x.conn, now, ok)).log| <= 0x1_0000
    ensures SideOk(Apply(x, Close(x.conn, now, ok)), role)
    ensures Frame(x, Apply(x, Close(x.conn, now, ok)))
  {
    var one := SendNumbered(x.conn, StFin, [], now, ok);
    SendNumberedShape(x.conn, StFin, [], now, ok);
    if x.conn.state == Connected {
      hide SideOk, SendNumbered;
      SendNumberedOk(x, role, StFin, [], now, ok);
      var y := Apply(x, one);
      CongestionOnly(y, role, y.conn.(state := FinSent));
    } else {
      hide SideOk;
      ApplyNothing(x, x.conn, Ok(0));
    }
  }

  lemma TicksOk(x: Side, role: Role, now: int, budget: nat)
    requires SideOk(x, role)
    requires |AfterTick(x, CheckRetransmit(x.conn, now, budget)).log| <= 0x1_0000
    ensures SideOk(AfterTick(x, CheckRetransmit(x.conn, now, budget)), role)
    ensures Frame(x, AfterTick(x, CheckRetransmit(x.conn, now, budget)))
  {
    hide SideOk, RetransmitAll, SendNumbered, Payloads;
    var c := x.conn;
    var timeoutMs := c.tx.cc.timeout;
    if Elapsed(c.lastActivity, now) / NS_PER_MS > timeoutMs * 4 {
      CongestionOnly(x, role, c.(state := Closed));
      ApplyNothing(x, c.(state := Closed), Err(PeerUtpProtocolError));
    } else {
      var r := RetransmitAll(c, TimedOut(c.tx.sendBuffer, now, timeoutMs, 0), now, budget);
      RetransmitAllOk(x, role, TimedOut(c.tx.sendBuffer, now, timeoutMs, 0), now, budget);
      if r.result.Ok? && r.conn.state == SynSent && r.conn.tx.sendBuffer == map[]
         && Elapsed(r.conn.lastActivity, now) > timeoutMs * NS_PER_MS {
        SendNumberedShape(r.conn, StSyn, [], now, budget > |r.wire|);
        ResendsSyn(x, role, r, now, budget > |r.wire|);
      }
    }
  }

  lemma ResendsSyn(x: Side, role: Role, r: Sent, now: int, ok: bool)
    requires SideOk(AfterTick(x, r), role) && r.numbered == [] && r.conn.state == SynSent && r.result.Ok?
    requires |x.log| < 0x1_0000
    ensures var s := SendNumbered(r.conn, StSyn, [], now, ok);
            var all := Sent(s.conn, s.numbered, r.wire + s.wire, s.result);
            && |s.numbered| == 1
            && s.conn.rx == r.conn.rx && s.conn.state == SynSent
            && SideOk(AfterTick(x, all), role)
  {
    var s := SendNumbered(r.conn, StSyn, [], now, ok);
    SendNumberedShape(r.conn, StSyn, [], now, ok);
    hide SideOk, SendNumbered;
    assert x.log + [] == x.log;
    SendNumberedOk(AfterTick(x, r), role, StSyn, [], now, ok);
    var all := Sent(s.conn, s.numbered, r.wire + s.wire, s.result);
    assert (set p | p in r.wire + s.wire) == (set p | p in r.wire) + (set p | p in s.wire);
    assert x.net + (set p | p in all.wire) == AfterTick(x, r).net + (set p | p in s.wire);
    assert Apply(AfterTick(x, r), s) == Apply(x, all);
    MayDrop(Apply(x, all), x.dropped || s.result == Err(PeerUtpConnectionFailed), role);
  }

  lemma MayDrop(x: Side, dropped: bool, role: Role)
    requires SideOk(x, role) && (x.dropped ==> dropped)
    ensures SideOk(x.(dropped := dropped), role)
  {}

  lemma ReadsOk(x: Side, net: set<Packet>, role: Role)
    requires SideOk(x, role)
    ensures SideOk(Act(x, net, Reads), role)
    ensures Frame(x, Act(x, net, Reads))
  {
    var c := x.conn.(rx := x.conn.rx.(ready := []));
    CongestionOnly(x, role, c);
    hide SideOk;
  }

  lemma LocalEventOk(x: Side, net: set<Packet>, role: Role, e: Event)
    requires SideOk(x, role) && !e.Arrives?
    requires x.conn.state == Connected ==> role.Pins(x.conn.rx.ackNr)
    requires |Act(x, net, e).log| <= 0x1_0000
    ensures SideOk(Act(x, net, e), role)
    ensures Frame(x, Act(x, net, e))
  {
    hide SideOk, Frame, AfterSend, AfterTick, Apply;
    match e
    case Sends(data, packetSize, now, budget) => SendsOk(x, role, data, packetSize, now, budget);
    case Closes(now, ok) => ClosesOk(x, role, now, ok);
    case Ticks(now, budget) => TicksOk(x, role, now, budget);
    case Reads => ReadsOk(x, net, role);
  }

  // ---------------------------------------------------------------- the conversation

  /** What `x` received from `y`. */
  ghost predicate Receives(x: Side, y: Side) {
    if x.base.None? then
      && (Handshaking(x.conn) || x.conn.state == Closed)
      && x.taken == [] && x.conn.rx.ready == [] && x.conn.rx.recvBuffer == map[]
    else
      && !Handshaking(x.conn)
      && (x.base.value == y.first || Place(y.first, x.base.value) < |y.log|)
      && Reassembled(x.conn.rx, x.taken, x.base.value, y.first, y.log)
  }

  /** Until the responder got its first DATA packet, all of them acknowledge its STATE. */
  function Pin(b: Side): Role {
    Opener(if b.conn.state == SynRecv then Some(b.first) else None)
  }

  /** The number that `x` started from is that of a DATA packet of `y`. */
  ghost predicate StartedByData(x: Side, y: Side) {
    x.base.Some? ==> exists p :: p in y.net && p.kind == StData && p.seqNr == x.base.value
  }

  ghost predicate Invariant(s: System) {
    && SideOk(s.a, Pin(s.b)) && SideOk(s.b, Acceptor)
    && Receives(s.a, s.b) && Receives(s.b, s.a) && StartedByData(s.b, s.a)
    && s.a.conn.state != SynRecv && s.b.conn.state != SynSent
    && (s.a.base.Some? ==> s.a.base.value == s.b.first)
  }

  lemma FrameReceives(x: Side, x': Side, y: Side)
    requires Receives(x, y) && Frame(x, x')
    ensures Receives(x', y)
  {
    hide Stream, Buffered;
  }

  lemma PeerLogGrows(x: Side, y: Side, y': Side)
    requires Receives(x, y) && y'.first == y.first && y.log <= y'.log && |y'.log| <= 0x1_0000
    ensures Receives(x, y')
  {
    hide Reassembled;
    assert y'.log == y.log + y'.log[|y.log|..];
    if x.base.Some? {
      LogGrows(x.conn.rx, x.taken, x.base.value, y.first, y.log, y'.log[|y.log|..]);
    }
  }

  lemma Unpin(x: Side, role: Role)
    requires SideOk(x, role) && role.Opener?
    ensures SideOk(x, Opener(None))
  {
    hide Ledger;
  }

  /** A genuine packet keeps the received stream in order. */
  lemma ArrivalReceives(x: Side, y: Side, p: Packet, now: int, role: Role)
    requires Receives(x, y) && Genuine(y.first, y.log, role, p) && y.first < 0x1_0000 && |y.log| <= 0x1_0000
    requires role == Acceptor && x.base.Some? ==> x.base.value == y.first
    ensures Receives(AfterPacket(x, p, now), y)
    ensures AfterPacket(x, p, now).base.Some? && x.base.None? ==>
      && AfterPacket(x, p, now).base.value == p.seqNr
      && (x.conn.state == SynSent ==> p.seqNr == y.first)
  {
    if x.base.Some? {
      LaterArrival(x, y, p, now, role);
    } else {
      FirstArrival(x, y, p, now, role);
    }
  }

  lemma LaterArrival(x: Side, y: Side, p: Packet, now: int, role: Role)
    requires Receives(x, y) && Genuine(y.first, y.log, role, p) && x.base.Some?
    requires role == Acceptor ==> x.base.value == y.first
    ensures Receives(AfterPacket(x, p, now), y) && AfterPacket(x, p, now).base == x.base
  {
    PacketRx(x.conn, p, now);
    PacketTx(x.conn, p, now);
    hide HandlePacket, HandleAck, Receive, Reassembled, Logged;
    if x.conn.state == Connected && (p.kind == StData || p.kind == StFin) {
      ReceiveInOrder(x.conn.rx, p.seqNr, p.payload, x.taken, x.base.value, y.first, y.log);
    }
  }

  lemma FirstArrival(x: Side, y: Side, p: Packet, now: int, role: Role)
    requires Receives(x, y) && Genuine(y.first, y.log, role, p) && x.base.None? && y.first < 0x1_0000 && |y.log| <= 0x1_0000
    ensures Receives(AfterPacket(x, p, now), y)
    ensures AfterPacket(x, p, now).base.Some? ==>
      && AfterPacket(x, p, now).base.value == p.seqNr
      && (x.conn.state == SynSent ==> p.seqNr == y.first)
  {
    PacketRx(x.conn, p, now);
    StateChange(x.conn, p, now);
    hide HandlePacket, Receive;
    if HandlePacket(x.conn, p, now).state == Connected {
      EmptyReassembled(x.conn.rx, p, y, role);
    }
  }

  lemma StateChange(c: Conn, p: Packet, now: int)
    requires Handshaking(c) || c.state == Closed
    ensures HandlePacket(c, p, now).state == Connected
       <==> (c.state == SynSent && p.kind == StState) || (c.state == SynRecv && p.kind == StData)
    ensures HandlePacket(c, p, now).state == Connected || HandlePacket(c, p, now).state == c.state
         || HandlePacket(c, p, now).state == Closed
  {
    hide HandleAck, Drain, Cc.UpdateDelay;
  }

  lemma EmptyReassembled(rx: Rx, p: Packet, y: Side, role: Role)
    requires Genuine(y.first, y.log, role, p) && y.first < 0x1_0000 && |y.log| <= 0x1_0000
    requires rx.ready == [] && rx.recvBuffer == map[]
    ensures Reassembled(rx.(ackNr := p.seqNr), [], p.seqNr, y.first, y.log)
    ensures p.seqNr == y.first || Place(y.first, p.seqNr) < |y.log|
  {}

  // ---------------------------------------------------------------- steps and runs

  lemma ArrivesAt(x: Side, y: Side, role: Role, peerRole: Role, p: Packet, now: int)
    requires SideOk(x, role) && SideOk(y, peerRole) && Receives(x, y)
    requires x.conn.state == SynRecv ==> peerRole == Opener(Some(x.first))
    requires peerRole == Acceptor && x.base.Some? ==> x.base.value == y.first
    ensures var x' := Act(x, y.net, Arrives(p, now));
            && SideOk(x', role) && Receives(x', y)
            && x'.first == x.first && x'.log == x.log
            && (Handshaking(x'.conn) ==> x'.conn.state == x.conn.state)
            && (x'.base.Some? ==> x'.base == x.base || x.conn.state == SynRecv || x'.base.value == y.first)
  {
    hide Receives;
    if p in y.net {
      assert Genuine(y.first, y.log, peerRole, p) && y.first < 0x1_0000 && |y.log| <= 0x1_0000;
      hide SideOk, HandlePacket, HandleAck;
      PacketSideOk(x, role, p, now);
      ArrivalReceives(x, y, p, now, peerRole);
      PacketTx(x.conn, p, now);
      BaseOnlyOnce(x, p, now);
      hide AfterPacket;
    }
  }

  lemma BaseOnlyOnce(x: Side, p: Packet, now: int)
    ensures var x' := AfterPacket(x, p, now);
            x'.conn == HandlePacket(x.conn, p, now) && x'.first == x.first && x'.log == x.log
            && (x'.base == x.base || (Handshaking(x.conn) && x'.base == Some(p.seqNr)))
  {
    hide HandlePacket;
  }

  /** While the responder waits, the initiator can only acknowledge the STATE. */
  lemma PinnedAck(a: Side, b: Side)
    requires Receives(a, b) && SideOk(b, Acceptor) && (a.base.Some? ==> a.base.value == b.first)
    requires a.conn.state == Connected && Pin(b).pin.Some?
    ensures a.conn.rx.ackNr == b.first
  {
    hide NetOk, BufferOk, Buffered, Stream, Ledger;
  }

  lemma FirstKept(x: Side, net: set<Packet>, e: Event)
    ensures |x.log| <= |Act(x, net, e).log| && x.first == Act(x, net, e).first
  {
    hide Close, CheckRetransmit, Send, HandlePacket;
  }

  lemma NetGrows(x: Side, net: set<Packet>, e: Event)
    ensures x.net <= Act(x, net, e).net
  {
    hide Close, CheckRetransmit, Send, HandlePacket;
  }

  lemma StillStartedByData(x: Side, y: Side, e: Event)
    requires StartedByData(x, y) && Receives(x, y) && x.conn.state != SynSent
    ensures StartedByData(Act(x, y.net, e), y)
  {
    if e.Arrives? && e.p in y.net {
      if Handshaking(x.conn) {
        StateChange(x.conn, e.p, e.now);
      }
      hide HandlePacket, Reassembled;
    } else {
      hide Close, CheckRetransmit, Send;
    }
  }

  lemma StepOfA(s: System, e: Event)
    requires Invariant(s) && NumbersOnce(Step(s, true, e))
    ensures Invariant(Step(s, true, e))
  {
    var a, b := s.a, s.b;
    var a' := Act(a, b.net, e);
    hide SideOk, Receives, Act;
    assert |a'.log| <= 0x1_0000 && |b.log| <= 0x1_0000;
    NetGrows(a, b.net, e);
    if e.Arrives? {
      ArrivesAt(a, b, Pin(b), Acceptor, e.p, e.now);
    } else {
      if a.conn.state == Connected && Pin(b).pin.Some? {
        PinnedAck(a, b);
      }
      LocalEventOk(a, b.net, Pin(b), e);
      FrameReceives(a, a', b);
    }
    PeerLogGrows(b, a, a');
  }

  lemma StepOfB(s: System, e: Event)
    requires Invariant(s) && NumbersOnce(Step(s, false, e))
    ensures Invariant(Step(s, false, e))
  {
    var a, b := s.a, s.b;
    var b' := Act(b, a.net, e);
    StillStartedByData(b, a, e);
    hide SideOk, Receives, Act, StartedByData;
    assert |b'.log| <= 0x1_0000 && |a.log| <= 0x1_0000;
    if e.Arrives? {
      ArrivesAt(b, a, Acceptor, Pin(b), e.p, e.now);
    } else {
      LocalEventOk(b, a.net, Acceptor, e);
      FrameReceives(b, b', a);
    }
    PeerLogGrows(a, b, b');
    assert Handshaking(b'.conn) ==> b'.conn.state == b.conn.state;
    if Pin(b') != Pin(b) {
      Unpin(a, Pin(b));
    }
  }

  lemma StartInvariant(now: int, firstSeqNr: u16, acceptTime: int)
    ensures Invariant(Start(now, firstSeqNr, acceptTime)) && NumbersOnce(Start(now, firstSeqNr, acceptTime))
  {
    var s := Start(now, firstSeqNr, acceptTime);
    StartInitiator(now, Opener(Some(firstSeqNr)));
    StartResponder(2, firstSeqNr, acceptTime);
    SendNumberedShape(Initiator(now), StSyn, [], now, true);
    hide SideOk;
    assert s.b.conn.state == SynRecv;
  }

  lemma StartInitiator(now: int, role: Role)
    ensures SideOk(Start(now, 0, now).a, role)
  {
    var c := Initiator(now);
    var p := MakePacket(c, StSyn, []);
    EmptyInFlight(map[], 0);
    assert SizeAt(map[], p.seqNr) == 0;
    SendRawLedger(c.(tx := c.tx.(seqNr := 3)), p, now, true);
    assert Payloads([p]) == [[]];
    LogBytesSnoc([], []);
    hide InFlight;
  }

  lemma StartResponder(synSeqNr: u16, firstSeqNr: u16, now: int)
    ensures var s := SendState(Responder(synSeqNr, firstSeqNr, now), now, true);
            SideOk(Apply(Side(s.conn, firstSeqNr, [], {}, None, [], [], false), s), Acceptor)
  {
    var c := Responder(synSeqNr, firstSeqNr, now);
    var p := MakePacket(c, StState, []);
    EmptyInFlight(map[], 0);
    SendRawLedger(c, p, now, true);
    hide InFlight;
  }

  lemma {:induction false} EmptyInFlight(buffer: map<u16, SentPacket>, from: nat)
    requires from <= 0x1_0000 && buffer == map[]
    ensures InFlightFrom(buffer, from) == 0
    decreases 0x1_0000 - from
  {
    if from < 0x1_0000 {
      EmptyInFlight(buffer, from + 1);
    }
  }

  lemma TracePrefix(states: seq<System>, events: seq<(bool, Event)>)
    requires |states| == |events| + 1 && Trace(states, events) && events != []
    ensures Trace(states[..|events|], events[..|events| - 1])
    ensures states[|events|] == Step(states[|events| - 1], events[|events| - 1].0, events[|events| - 1].1)
  {
    hide Step;
    var n := |events| - 1;
    forall i | 0 <= i < n
      ensures states[..n + 1][i + 1] == Step(states[..n + 1][i], events[..n][i].0, events[..n][i].1)
    {
      assert states[i + 1] == Step(states[i], events[i].0, events[i].1);
    }
    assert states[n + 1] == Step(states[n], events[n].0, events[n].1);
  }

  /** No run, whatever is lost, repeated, reordered or refused by the sockets, breaks the invariant. */
  lemma {:induction false} RunInvariant(states: seq<System>, events: seq<(bool, Event)>)
    requires |states| == |events| + 1 && Trace(states, events) && Invariant(states[0]) && NumbersOnce(states[|events|])
    ensures Invariant(states[|events|])
    decreases |events|
  {
    if events != [] {
      var n := |events| - 1;
      TracePrefix(states, events);
      hide Invariant, Step, Trace, NumbersOnce;
      assert states[..n + 1][n] == states[n] && states[..n + 1][0] == states[0];
      NumbersOnceBefore(states[n], events[n].0, events[n].1);
      RunInvariant(states[..n + 1], events[..n]);
      StepInvariant(states[n], events[n].0, events[n].1);
    }
  }

  lemma NumbersOnceBefore(s: System, atA: bool, e: Event)
    requires NumbersOnce(Step(s, atA, e))
    ensures NumbersOnce(s)
  {
    hide Act;
    if atA {
      FirstKept(s.a, s.b.net, e);
    } else {
      FirstKept(s.b, s.a.net, e);
    }
  }

  /** Every event at either side keeps the invariant. */
  lemma StepInvariant(s: System, atA: bool, e: Event)
    requires Invariant(s) && NumbersOnce(Step(s, atA, e))
    ensures Invariant(Step(s, atA, e))
  {
    hide Invariant, Act;
    if atA {
      StepOfA(s, e);
    } else {
      StepOfB(s, e);
    }
  }

  lemma StartedInvariant(s: System)
    requires Started(s)
    ensures Invariant(s)
  {
    hide Start, Invariant;
    var now, firstSeqNr, acceptTime :| s == Start(now, firstSeqNr, acceptTime);
    StartInvariant(now, firstSeqNr, acceptTime);
  }

  // ---------------------------------------------------------------- what was written

  lemma {:induction false} StreamAppend(log: seq<seq<byte>>, more: seq<seq<byte>>, n: nat)
    requires n <= |more|
    ensures Stream(log + more, 0, |log| + n) == Stream(log, 0, |log|) + Stream(more, 0, n)
  {
    if n == 0 {
      StreamPrefix(log, more, 0, |log|);
    } else {
      StreamAppend(log, more, n - 1);
      assert (log + more)[|log| + n - 1] == more[n - 1];
    }
  }

  lemma {:induction false} StreamSplit(log: seq<seq<byte>>, from: int, mid: int, end: int)
    requires 0 <= from <= mid <= end <= |log|
    ensures Stream(log, from, end) == Stream(log, from, mid) + Stream(log, mid, end)
    decreases end - mid
  {
    if mid < end {
      StreamSplit(log, from, mid, end - 1);
    }
  }

  /** The numbered payloads together are exactly what the writer handed over. */
  ghost predicate LogIsWritten(x: Side) {
    Stream(x.log, 0, |x.log|) == x.written
  }

  lemma {:induction false} RetransmitsNumberNothing(c: Conn, seqs: seq<u16>, now: int, budget: nat)
    ensures RetransmitAll(c, seqs, now, budget).numbered == []
    decreases |seqs|
  {
    if seqs != [] {
      if seqs[0] !in c.tx.sendBuffer {
        RetransmitsNumberNothing(c.(tx := c.tx.(cc := c.tx.cc.OnTimeout())), seqs[1..], now, budget);
      } else if budget > 0 {
        RetransmitsNumberNothing(Resent(c, seqs[0], now), seqs[1..], now, budget - 1);
      }
    }
  }

  lemma NumberedWritten(x: Side, s: Sent, bytes: seq<byte>)
    requires LogIsWritten(x) && bytes == Stream(Payloads(s.numbered), 0, |s.numbered|)
    ensures LogIsWritten(Apply(x, s).(written := x.written + bytes))
  {
    StreamAppend(x.log, Payloads(s.numbered), |s.numbered|);
  }

  lemma NothingCarries(s: Sent)
    requires s.numbered == [] || (|s.numbered| == 1 && s.numbered[0].payload == [])
    ensures Stream(Payloads(s.numbered), 0, |s.numbered|) == []
  {
    if s.numbered != [] {
      assert Stream(Payloads(s.numbered), 0, 0) == [];
      assert Stream(Payloads(s.numbered), 0, 1) == Stream(Payloads(s.numbered), 0, 0) + Payloads(s.numbered)[0];
    }
  }

  lemma TickNumbers(c: Conn, now: int, budget: nat)
    ensures var s := CheckRetransmit(c, now, budget);
            s.numbered == [] || (|s.numbered| == 1 && s.numbered[0].payload == [])
  {
    RetransmitsNumberNothing(c, TimedOut(c.tx.sendBuffer, now, c.tx.cc.timeout, 0), now, budget);
    hide RetransmitAll, TimedOut;
  }

  lemma SendWritten(x: Side, data: seq<byte>, packetSize: nat, now: int, budget: nat)
    requires LogIsWritten(x)
    ensures LogIsWritten(AfterSend(x, data, packetSize, now, budget))
  {
    var s := Send(x.conn, data, packetSize, now, budget);
    if x.conn.state == Connected {
      ChunksCarryData(x.conn, data, Max(packetSize, 150), now, budget);
    }
    hide SendChunks, LogIsWritten;
    NumberedWritten(x, s, Stream(Payloads(s.numbered), 0, |s.numbered|));
  }

  lemma ActWritten(x: Side, net: set<Packet>, e: Event)
    requires LogIsWritten(x)
    ensures LogIsWritten(Act(x, net, e))
  {
    match e
    case Sends(data, packetSize, now, budget) =>
      hide AfterSend, LogIsWritten;
      SendWritten(x, data, packetSize, now, budget);
    case Closes(now, ok) =>
      NothingCarries(Close(x.conn, now, ok));
      NumberedWritten(x, Close(x.conn, now, ok), []);
      hide Close, Stream;
    case Ticks(now, budget) =>
      TickNumbers(x.conn, now, budget);
      NothingCarries(CheckRetransmit(x.conn, now, budget));
      NumberedWritten(x, CheckRetransmit(x.conn, now, budget), []);
      hide CheckRetransmit, Stream;
    case Reads =>
    case Arrives(p, now) =>
      hide HandlePacket;
  }

  lemma {:induction false} RunWritten(states: seq<System>, events: seq<(bool, Event)>)
    requires |states| == |events| + 1 && Trace(states, events) && LogIsWritten(states[0].a) && LogIsWritten(states[0].b)
    ensures LogIsWritten(states[|events|].a) && LogIsWritten(states[|events|].b)
    decreases |events|
  {
    if events != [] {
      var n := |events| - 1;
      var before, atA, e := states[n], events[n].0, events[n].1;
      TracePrefix(states, events);
      hide LogIsWritten, Act, Trace;
      assert states[..n + 1][n] == before && states[..n + 1][0] == states[0];
      RunWritten(states[..n + 1], events[..n]);
      if atA {
        ActWritten(before.a, before.b.net, e);
      } else {
        ActWritten(before.b, before.a.net, e);
      }
    }
  }

  lemma StartedWritten(s: System)
    requires Started(s)
    ensures LogIsWritten(s.a) && LogIsWritten(s.b)
  {
    var now, firstSeqNr, acceptTime :| s == Start(now, firstSeqNr, acceptTime);
    NothingCarries(SendNumbered(Initiator(now), StSyn, [], now, true));
  }

  // ---------------------------------------------------------------- theorems about all runs

  /** The place behind the last payload of `y` that `x` delivered. */
  ghost function DeliveredTo(x: Side, y: Side): int
    requires x.base.Some?
  {
    Reached(x.conn.rx, x.base.value, y.first)
  }

  /** What the reader of `x` got and can get: the peer's payloads numbered from one
      above `base` to `ackNr`, in order and once each; what is kept for later is
      numbered above the next number; no more than 2 MiB wait. */
  ghost predicate DeliversInOrder(x: Side, y: Side) {
    && |x.conn.rx.ready| <= MAX_READY_BYTES
    && (x.base.None? ==> x.taken + x.conn.rx.ready == [])
    && (x.base.Some? ==>
          && x.base.value <= x.conn.rx.ackNr
          && (x.base.value < x.conn.rx.ackNr ==> DeliveredTo(x, y) <= |y.log|)
          && x.taken + x.conn.rx.ready == Stream(y.log, Place(y.first, x.base.value) + 1, DeliveredTo(x, y)))
    && (forall k :: k in x.conn.rx.recvBuffer ==>
          && x.conn.rx.ackNr + 1 < k
          && Place(y.first, k) < |y.log|
          && x.conn.rx.recvBuffer[k] == y.log[Place(y.first, k)])
  }

  lemma ReceivesDelivers(x: Side, y: Side)
    requires Receives(x, y)
    ensures DeliversInOrder(x, y)
  {
    hide Stream;
  }

  /** In every run in which no side uses a number twice, both directions deliver in order. */
  lemma RunDelivers(states: seq<System>, events: seq<(bool, Event)>)
    requires |states| == |events| + 1 && Trace(states, events) && Started(states[0]) && NumbersOnce(states[|events|])
    ensures DeliversInOrder(states[|events|].a, states[|events|].b)
    ensures DeliversInOrder(states[|events|].b, states[|events|].a)
  {
    var s := states[|events|];
    hide Started, Trace, SideOk, Receives, DeliversInOrder;
    StartedInvariant(states[0]);
    RunInvariant(states, events);
    ReceivesDelivers(s.a, s.b);
    ReceivesDelivers(s.b, s.a);
  }

  /** Nothing numbered past 65535 was delivered: what was delivered is a prefix of the
      payloads from one above `base` up to that number. */
  ghost predicate EndsAtLastNumber(x: Side, y: Side) {
    x.base.Some? ==>
      var from := Place(y.first, x.base.value);
      x.taken + x.conn.rx.ready <= Stream(y.log, from + 1, Min(|y.log|, from + 0x1_0000 - x.base.value))
  }

  lemma DeliversNoFurther(x: Side, y: Side)
    requires DeliversInOrder(x, y)
    ensures EndsAtLastNumber(x, y)
  {
    if x.base.Some? && x.base.value < x.conn.rx.ackNr {
      var from := Place(y.first, x.base.value);
      StreamSplit(y.log, from + 1, DeliveredTo(x, y), Min(|y.log|, from + 0x1_0000 - x.base.value));
    }
  }

  /** The sender goes on past number 65535, the receiver never does. */
  lemma RunEndsAtLastNumber(states: seq<System>, events: seq<(bool, Event)>)
    requires |states| == |events| + 1 && Trace(states, events) && Started(states[0]) && NumbersOnce(states[|events|])
    ensures EndsAtLastNumber(states[|events|].a, states[|events|].b)
    ensures EndsAtLastNumber(states[|events|].b, states[|events|].a)
  {
    var s := states[|events|];
    RunDelivers(states, events);
    hide Started, Trace, DeliversInOrder, EndsAtLastNumber;
    DeliversNoFurther(s.a, s.b);
    DeliversNoFurther(s.b, s.a);
  }

  lemma BaseIsFirst(s: System)
    requires Invariant(s) && s.a.base.Some?
    ensures s.a.base.value == s.b.first && Place(s.b.first, s.a.base.value) == 0
  {
    hide SideOk, Receives;
  }

  /** The first payload the responder sends is never delivered: its number is the
      one the handshake already used. */
  lemma ResponderFirstPayloadSkipped(states: seq<System>, events: seq<(bool, Event)>)
    requires |states| == |events| + 1 && Trace(states, events) && Started(states[0]) && NumbersOnce(states[|events|])
    ensures var a, b := states[|events|].a, states[|events|].b;
            a.base.Some? ==> a.taken + a.conn.rx.ready == Stream(b.log, 1, DeliveredTo(a, b))
  {
    RunDelivers(states, events);
    hide Started, Trace, Invariant, Stream;
    StartedInvariant(states[0]);
    RunInvariant(states, events);
    if states[|events|].a.base.Some? {
      BaseIsFirst(states[|events|]);
    }
  }

  /** The packet `p` carried the responder out of the handshake: its payload and all
      numbered before it, the SYN included, are not delivered. */
  ghost predicate SkippedUpTo(b: Side, a: Side, p: Packet) {
    var i := Place(a.first, p.seqNr);
    && p in a.net && p.kind == StData && b.base == Some(p.seqNr)
    && 0 < i < |a.log| && a.log[i] == p.payload
    && b.taken + b.conn.rx.ready == Stream(a.log, i + 1, DeliveredTo(b, a))
  }

  lemma SkippedByHandshake(s: System)
    requires Invariant(s) && DeliversInOrder(s.b, s.a) && s.b.base.Some?
    ensures exists p :: SkippedUpTo(s.b, s.a, p)
  {
    hide Receives, Ledger, BufferOk, Stream;
    var p :| p in s.a.net && p.kind == StData && p.seqNr == s.b.base.value;
    assert Genuine(s.a.first, s.a.log, Pin(s.b), p);
    assert SkippedUpTo(s.b, s.a, p);
  }

  /** The first DATA payload of the initiator is never delivered either: the responder
      takes the number of the first DATA packet it gets and delivers what follows. */
  lemma InitiatorFirstPayloadSkipped(states: seq<System>, events: seq<(bool, Event)>)
    requires |states| == |events| + 1 && Trace(states, events) && Started(states[0]) && NumbersOnce(states[|events|])
    ensures states[|events|].b.base.Some? ==> exists p :: SkippedUpTo(states[|events|].b, states[|events|].a, p)
  {
    RunDelivers(states, events);
    hide Started, Trace, Invariant, Stream, SkippedUpTo, DeliversInOrder;
    StartedInvariant(states[0]);
    RunInvariant(states, events);
    if states[|events|].b.base.Some? {
      SkippedByHandshake(states[|events|]);
    }
  }

  /** What the reader got is one contiguous part of what the writer wrote. */
  lemma PartOfWritten(x: Side, y: Side)
    requires Receives(x, y) && LogIsWritten(y) && x.base.Some?
    ensures y.written == Stream(y.log, 0, Place(y.first, x.base.value) + 1)
                       + (x.taken + x.conn.rx.ready)
                       + Stream(y.log, DeliveredTo(x, y), |y.log|)
  {
    hide Buffered;
    var from, upTo := Place(y.first, x.base.value) + 1, DeliveredTo(x, y);
    if y.log != [] {
      StreamSplit(y.log, 0, from, upTo);
      StreamSplit(y.log, 0, upTo, |y.log|);
    }
  }

  lemma RunEndToEnd(states: seq<System>, events: seq<(bool, Event)>)
    requires |states| == |events| + 1 && Trace(states, events) && Started(states[0]) && NumbersOnce(states[|events|])
    ensures var a, b := states[|events|].a, states[|events|].b;
            && (a.base.Some? ==> exists before, after :: b.written == before + (a.taken + a.conn.rx.ready) + after)
            && (b.base.Some? ==> exists before, after :: a.written == before + (b.taken + b.conn.rx.ready) + after)
  {
    hide Started, Trace, SideOk, Stream, Receives, LogIsWritten;
    StartedInvariant(states[0]);
    RunInvariant(states, events);
    StartedWritten(states[0]);
    RunWritten(states, events);
    var s := states[|events|];
    if s.a.base.Some? {
      PartOfWritten(s.a, s.b);
    }
    if s.b.base.Some? {
      PartOfWritten(s.b, s.a);
    }
  }

  /** The in-flight counter of a side that cannot have saturated: at least the bytes that
      wait for acknowledgement, and exactly those unless a retransmission failed. */
  ghost predicate CountsInFlight(x: Side) {
    HEADER_SIZE + LogBytes(x.log) <= U32_MAX ==>
      && InFlight(x.conn.tx.sendBuffer) <= x.conn.tx.cc.curWindow
      && (!x.dropped ==> InFlight(x.conn.tx.sendBuffer) == x.conn.tx.cc.curWindow)
  }

  /** In every run in which no side uses a number twice the counters of both sides are right. */
  lemma RunLedger(states: seq<System>, events: seq<(bool, Event)>)
    requires |states| == |events| + 1 && Trace(states, events) && Started(states[0]) && NumbersOnce(states[|events|])
    ensures CountsInFlight(states[|events|].a) && CountsInFlight(states[|events|].b)
  {
    hide Started, Trace, Numbered, Receives, InFlight, LogBytes;
    StartedInvariant(states[0]);
    RunInvariant(states, events);
  }
}
