/** Two uTP endpoints and a network that loses, repeats and reorders packets:
    what holds after every sequence of events. */
module UtpRuns {
  import opened Prelude
  import opened Congestion
  import opened Utp
  import opened UtpTheorems

  /** An endpoint with its history: `log[i]` is the payload it numbered `first + i`,
      `net` the packets it handed to the network, `base` its `ackNr` on entering
      Connected, `taken` the bytes its reader took, `written` the bytes accepted from its
      writer; `dropped` tells that a retransmission failed. */
  datatype Side = Side(conn: Conn, first: nat, log: seq<seq<byte>>, net: set<Packet>,
                       base: Option<nat>, taken: seq<byte>, written: seq<byte>, dropped: bool)

  /** `a` opened the connection, `b` accepted it. */
  datatype System = System(a: Side, b: Side)

  datatype Event =
    | Sends(data: seq<byte>, packetSize: nat, now: int, budget: nat)
    | Closes(now: int, ok: bool)
    | Ticks(now: int, budget: nat)
    | Reads
    | Arrives(p: Packet, now: int)

  ghost function Apply(x: Side, s: Sent): Side {
    x.(conn := s.conn, log := x.log + Payloads(s.numbered), net := x.net + (set p | p in s.wire))
  }

  predicate Handshaking(c: Conn) {
    c.state == SynSent || c.state == SynRecv
  }

  /** One event at an endpoint; any packet its peer ever sent may arrive, any number of times. */
  ghost function Act(x: Side, peerNet: set<Packet>, e: Event): Side {
    match e
    case Sends(data, packetSize, now, budget) => AfterSend(x, data, packetSize, now, budget)
    case Closes(now, ok) => Apply(x, Close(x.conn, now, ok))
    case Ticks(now, budget) => AfterTick(x, CheckRetransmit(x.conn, now, budget))
    case Reads => x.(taken := x.taken + x.conn.rx.ready, conn := x.conn.(rx := x.conn.rx.(ready := [])))
    case Arrives(p, now) => if p in peerNet then AfterPacket(x, p, now) else x
  }

  ghost function AfterSend(x: Side, data: seq<byte>, packetSize: nat, now: int, budget: nat): Side {
    var s := Send(x.conn, data, packetSize, now, budget);
    Apply(x, s).(written := x.written + if s.result.Ok? then data else Stream(Payloads(s.numbered), 0, |s.numbered|))
  }

  ghost function AfterTick(x: Side, s: Sent): Side {
    Apply(x, s).(dropped := x.dropped || s.result == Err(PeerUtpConnectionFailed))
  }

  ghost function AfterPacket(x: Side, p: Packet, now: int): Side {
    var c := HandlePacket(x.conn, p, now);
    x.(conn := c, base := if Handshaking(x.conn) && c.state == Connected then Some(p.seqNr) else x.base)
  }

  ghost function Step(s: System, atA: bool, e: Event): System {
    if atA then s.(a := Act(s.a, s.b.net, e)) else s.(b := Act(s.b, s.a.net, e))
  }

  /** The SYN and its STATE answer are out; nothing has arrived. */
  ghost function Start(now: int, firstSeqNr: u16, acceptTime: int): System {
    var syn := SendNumbered(Initiator(now), StSyn, [], now, true);
    var state := SendState(Responder(syn.numbered[0].seqNr, firstSeqNr, acceptTime), acceptTime, true);
    System(Apply(Side(Initiator(now), 2, [], {}, None, [], [], false), syn),
           Apply(Side(state.conn, firstSeqNr, [], {}, None, [], [], false), state))
  }

  ghost predicate Started(s: System) {
    exists now, firstSeqNr, acceptTime :: s == Start(now, firstSeqNr, acceptTime)
  }

  /** The states that a sequence of events leads through. */
  ghost predicate Trace(states: seq<System>, events: seq<(bool, Event)>)
    requires |states| == |events| + 1
  {
    forall i :: 0 <= i < |events| ==> states[i + 1] == Step(states[i], events[i].0, events[i].1)
  }

  /** No side has used a sequence number twice. */
  ghost predicate NumbersOnce(s: System) {
    |s.a.log| <= 0x1_0000 && |s.b.log| <= 0x1_0000
  }

  // ---------------------------------------------------------------- invariants of one side

  /** The opener's first number went to its SYN. While the acceptor has numbered nothing,
      all DATA packets of the opener acknowledge the same number, `pin`. */
  datatype Role = Opener(pin: Option<nat>) | Acceptor {
    predicate Pins(ackNr: nat) {
      Opener? && pin.Some? ==> ackNr == pin.value
    }
  }

  /** A packet this side really made. */
  ghost predicate Genuine(first: nat, log: seq<seq<byte>>, role: Role, p: Packet) {
    && p.kind != StReset
    && (if p.kind == StState then p.seqNr == first else Logged(first, log, p.seqNr, p.payload))
    && (p.kind == StData ==> role.Pins(p.ackNr))
    && (role.Opener? && (p.kind == StData || p.kind == StFin) ==> p.seqNr != first)
  }

  ghost predicate BufferOk(buffer: map<u16, SentPacket>, first: nat, log: seq<seq<byte>>, role: Role) {
    forall k :: k in buffer ==> buffer[k].packet.seqNr == k && Genuine(first, log, role, buffer[k].packet)
  }

  ghost predicate NetOk(net: set<Packet>, first: nat, log: seq<seq<byte>>, role: Role) {
    forall p :: p in net ==> Genuine(first, log, role, p)
  }

  ghost predicate Numbered(x: Side, role: Role) {
    && x.first < 0x1_0000 && |x.log| <= 0x1_0000
    && x.conn.tx.seqNr == Wrap(x.first + |x.log|)
    && NetOk(x.net, x.first, x.log, role)
    && BufferOk(x.conn.tx.sendBuffer, x.first, x.log, role)
    && (x.conn.state == SynRecv ==> x.log == [])
    && (role.Opener? ==> x.log != [])
    && (x.conn.state == Connected || x.conn.state == SynSent ==> NextFree(x, x.conn.tx.sendBuffer))
  }

  /** The next number, if there is one left, is not in the buffer. */
  ghost predicate NextFree(x: Side, buffer: map<u16, SentPacket>) {
    |x.log| < 0x1_0000 ==> Wrap(x.first + |x.log|) !in buffer
  }

  /** Header and payload bytes of everything numbered. */
  ghost function LogBytes(log: seq<seq<byte>>): nat {
    if log == [] then 0
    else LogBytes(log[..|log| - 1]) + (HEADER_SIZE + |log[|log| - 1]|) % 0x1_0000_0000
  }

  /** The counter cannot have saturated if everything ever sent fits into it. */
  ghost predicate Unsaturated(x: Side) {
    HEADER_SIZE + LogBytes(x.log) <= U32_MAX
  }

  ghost predicate Ledger(x: Side) {
    Unsaturated(x) ==> LedgerOf(x.conn.tx, HEADER_SIZE + LogBytes(x.log), x.dropped)
  }

  ghost predicate LedgerOf(tx: Tx, added: nat, dropped: bool) {
    && InFlight(tx.sendBuffer) <= tx.cc.curWindow <= added
    && (!dropped ==> InFlight(tx.sendBuffer) == tx.cc.curWindow)
  }

  ghost predicate SideOk(x: Side, role: Role) {
    Numbered(x, role) && Ledger(x)
  }

  // ---------------------------------------------------------------- sending

  lemma GenuineGrows(first: nat, log: seq<seq<byte>>, more: seq<seq<byte>>, role: Role, p: Packet)
    requires Genuine(first, log, role, p)
    ensures Genuine(first, log + more, role, p)
  {}

  lemma LogBytesSnoc(log: seq<seq<byte>>, payload: seq<byte>)
    ensures LogBytes(log + [payload]) == LogBytes(log) + (HEADER_SIZE + |payload|) % 0x1_0000_0000
  {
    assert (log + [payload])[..|log|] == log;
  }

  lemma SendNumberedOk(x: Side, role: Role, kind: UtpType, payload: seq<byte>, now: int, ok: bool)
    requires SideOk(x, role) && |x.log| < 0x1_0000
    requires x.conn.state == Connected || x.conn.state == SynSent
    requires kind == StData || kind == StFin || kind == StSyn
    requires kind == StData ==> role.Pins(x.conn.rx.ackNr)
    ensures SideOk(Apply(x, SendNumbered(x.conn, kind, payload, now, ok)), role)
  {
    SendNumberedNumbered(x, role, kind, payload, now, ok);
    SendNumberedLedger(x, role, kind, payload, now, ok);
  }

  lemma NewGenuine(x: Side, role: Role, kind: UtpType, payload: seq<byte>)
    requires Numbered(x, role) && |x.log| < 0x1_0000
    requires kind == StData || kind == StFin || kind == StSyn
    requires kind == StData ==> role.Pins(x.conn.rx.ackNr)
    ensures Genuine(x.first, x.log + [payload], role, MakePacket(x.conn, kind, payload))
  {
    hide BufferOk, NetOk;
    assert Place(x.first, x.conn.tx.seqNr) == |x.log|;
  }

  lemma BufferGrows(buffer: map<u16, SentPacket>, first: nat, log: seq<seq<byte>>, payload: seq<byte>,
                    role: Role, sent: SentPacket)
    requires BufferOk(buffer, first, log, role) && Genuine(first, log + [payload], role, sent.packet)
    ensures BufferOk(buffer[sent.packet.seqNr := sent], first, log + [payload], role)
  {
    forall q | Genuine(first, log, role, q)
      ensures Genuine(first, log + [payload], role, q)
    {
      GenuineGrows(first, log, [payload], role, q);
    }
    hide Genuine;
  }

  lemma NetGrows(net: set<Packet>, first: nat, log: seq<seq<byte>>, payload: seq<byte>, role: Role,
                 more: set<Packet>, p: Packet)
    requires NetOk(net, first, log, role) && Genuine(first, log + [payload], role, p) && more <= {p}
    ensures NetOk(net + more, first, log + [payload], role)
  {
    forall q | Genuine(first, log, role, q)
      ensures Genuine(first, log + [payload], role, q)
    {
      GenuineGrows(first, log, [payload], role, q);
    }
    hide Genuine;
  }

  /** The number behind the log is not that of any genuine packet. */
  lemma BufferedBelow(buffer: map<u16, SentPacket>, first: nat, log: seq<seq<byte>>, role: Role)
    requires BufferOk(buffer, first, log, role) && first < 0x1_0000 && 0 < |log| < 0x1_0000
    ensures Wrap(first + |log|) !in buffer
  {
    var k := Wrap(first + |log|);
    assert Place(first, k) == |log| && k != first;
  }

  lemma WrapNext(n: int)
    ensures Wrap(Wrap(n) + 1) == Wrap(n + 1)
  {}

  /** What a numbered send changes. */
  lemma Numbers(x: Side, kind: UtpType, payload: seq<byte>, now: int, ok: bool) returns (sent: SentPacket, wire: set<Packet>)
    ensures var p, y := MakePacket(x.conn, kind, payload), Apply(x, SendNumbered(x.conn, kind, payload, now, ok));
            && sent.packet == p && wire <= {p} && p.seqNr == x.conn.tx.seqNr
            && y.first == x.first && y.log == x.log + [payload] && y.net == x.net + wire
            && y.conn.state == x.conn.state && y.conn.tx.seqNr == Wrap(x.conn.tx.seqNr + 1)
            && y.conn.tx.sendBuffer == x.conn.tx.sendBuffer[p.seqNr := sent]
  {
    var s := SendNumbered(x.conn, kind, payload, now, ok);
    var p := MakePacket(x.conn, kind, payload);
    assert Payloads([p]) == [payload];
    sent, wire := SentPacket(p, now, 0, kind != StSyn), set q | q in s.wire;
  }

  lemma SendNumberedNumbered(x: Side, role: Role, kind: UtpType, payload: seq<byte>, now: int, ok: bool)
    requires Numbered(x, role) && |x.log| < 0x1_0000
    requires x.conn.state == Connected || x.conn.state == SynSent
    requires kind == StData || kind == StFin || kind == StSyn
    requires kind == StData ==> role.Pins(x.conn.rx.ackNr)
    ensures Numbered(Apply(x, SendNumbered(x.conn, kind, payload, now, ok)), role)
  {
    hide Apply, SendNumbered, MakePacket, BufferOk, NetOk, Genuine, Wrap;
    var sent, wire := Numbers(x, kind, payload, now, ok);
    NewGenuine(x, role, kind, payload);
    WrapNext(x.first + |x.log|);
    BufferGrows(x.conn.tx.sendBuffer, x.first, x.log, payload, role, sent);
    NetGrows(x.net, x.first, x.log, payload, role, wire, sent.packet);
    if |x.log| + 1 < 0x1_0000 {
      BufferedBelow(x.conn.tx.sendBuffer[sent.packet.seqNr := sent], x.first, x.log + [payload], role);
    }
  }

  lemma SendNumberedLedger(x: Side, role: Role, kind: UtpType, payload: seq<byte>, now: int, ok: bool)
    requires SideOk(x, role) && |x.log| < 0x1_0000
    requires x.conn.state == Connected || x.conn.state == SynSent
    ensures Ledger(Apply(x, SendNumbered(x.conn, kind, payload, now, ok)))
  {
    hide BufferOk, NetOk, InFlight, LogBytes;
    var p := MakePacket(x.conn, kind, payload);
    assert Payloads([p]) == [payload];
    LogBytesSnoc(x.log, payload);
    if HEADER_SIZE + LogBytes(x.log + [payload]) <= U32_MAX {
      var c := x.conn.(tx := x.conn.tx.(seqNr := Wrap(x.conn.tx.seqNr + 1)));
      SendRawLedger(c, p, now, ok);
      assert SizeAt(x.conn.tx.sendBuffer, p.seqNr) == 0;
    }
  }

  lemma ApplyNothing(x: Side, c: Conn, r: Result<nat>)
    ensures Apply(x, Sent(c, [], [], r)) == x.(conn := c)
  {
    assert x.log + [] == x.log;
    assert (set p: Packet | p in []) == {};
    assert x.net + {} == x.net;
  }

  lemma ApplyTwice(x: Side, one: Sent, p: Packet, rest: Sent, r: Result<nat>)
    requires one.numbered == [p]
    ensures Apply(Apply(x, one), rest)
         == Apply(x, Sent(rest.conn, [p] + rest.numbered, one.wire + rest.wire, r))
  {
    assert ([p] + rest.numbered)[1..] == rest.numbered && [p][1..] == [];
    assert Payloads([p] + rest.numbered) == [p.payload] + Payloads(rest.numbered);
    assert Payloads([p]) == [p.payload];
    assert (x.log + [p.payload]) + Payloads(rest.numbered) == x.log + ([p.payload] + Payloads(rest.numbered));
    assert (set q | q in one.wire + rest.wire) == (set q | q in one.wire) + (set q | q in rest.wire);
  }

  lemma {:induction false} SendChunksOk(x: Side, role: Role, data: seq<byte>, size: nat, now: int, budget: nat)
    requires SideOk(x, role) && x.conn.state == Connected && size > 0
    requires role.Pins(x.conn.rx.ackNr)
    requires |x.log| + |SendChunks(x.conn, data, size, now, budget).numbered| <= 0x1_0000
    ensures SideOk(Apply(x, SendChunks(x.conn, data, size, now, budget)), role)
    ensures SendChunks(x.conn, data, size, now, budget).conn.state == Connected
    ensures SendChunks(x.conn, data, size, now, budget).conn.rx == x.conn.rx
    decreases |data|
  {
    hide SendChunks, SideOk, SendNumbered, MakePacket;
    if data == [] {
      NoChunks(x.conn, size, now, budget);
      ApplyNothing(x, x.conn, Ok(0));
    } else {
      var n := Min(size, |data|);
      var one, p := SendNumbered(x.conn, StData, data[..n], now, budget > 0), MakePacket(x.conn, StData, data[..n]);
      SendNumberedShape(x.conn, StData, data[..n], now, budget > 0);
      assert |Apply(x, one).log| == |x.log| + 1;
      ChunksStep(x.conn, data, n, size, now, budget);
      SendNumberedOk(x, role, StData, data[..n], now, budget > 0);
      if budget > 0 {
        var rest := SendChunks(one.conn, data[n..], size, now, budget - 1);
        ApplyTwice(x, one, p, rest, Prepend([p], [p], n, rest).result);
        SendChunksOk(Apply(x, one), role, data[n..], size, now, budget - 1);
      }
    }
  }

  // ---------------------------------------------------------------- everything that does not number a packet

  /** A step that only takes packets out of the buffer keeps the side in order. */
  lemma OnlyRemoves(x: Side, role: Role, c: Conn, sent: set<Packet>, dropped: bool)
    requires SideOk(x, role) && c.tx.seqNr == x.conn.tx.seqNr
    requires forall k :: k in c.tx.sendBuffer ==>
      k in x.conn.tx.sendBuffer && c.tx.sendBuffer[k].packet == x.conn.tx.sendBuffer[k].packet
    requires NetOk(sent, x.first, x.log, role)
    requires c.state == SynRecv ==> x.conn.state == SynRecv
    requires c.state == Connected || c.state == SynSent ==>
      x.conn.state == Connected || x.conn.state == SynSent || NextFree(x, c.tx.sendBuffer)
    requires Unsaturated(x) ==> LedgerOf(c.tx, HEADER_SIZE + LogBytes(x.log), dropped)
    ensures SideOk(x.(conn := c, net := x.net + sent, dropped := dropped), role)
  {
    hide LedgerOf, LogBytes, Genuine;
  }

  lemma AckOnlyRemoves(x: Side, role: Role, ack: u16, now: int, cc: Cc)
    requires SideOk(x, role) && cc.curWindow == x.conn.tx.cc.curWindow
    ensures var tx := HandleAck(x.conn.tx.(cc := cc), ack, now);
            && tx.seqNr == x.conn.tx.seqNr
            && (forall k :: k in tx.sendBuffer ==>
                  k in x.conn.tx.sendBuffer && tx.sendBuffer[k] == x.conn.tx.sendBuffer[k] && !IsAcked(k, ack))
            && (Unsaturated(x) ==> LedgerOf(tx, HEADER_SIZE + LogBytes(x.log), x.dropped))
  {
    hide InFlight, AckedSeqs, RemoveAll, LogBytes, Numbered, IsAcked;
    var tx0 := x.conn.tx.(cc := cc);
    HandleAckExact(tx0, ack, now);
    if Unsaturated(x) {
      RemoveAllLedger(tx0, AckedSeqs(tx0.sendBuffer, ack, 0), now);
    }
  }

  /** What a packet may do to the sending half and to the state. */
  ghost predicate TxEffect(c: Conn, p: Packet, tx: Tx, acked: Tx, c': Conn) {
    && (c'.tx == tx || c'.tx == acked)
    && (Handshaking(c') ==> c'.state == c.state)
    && (c'.state == Connected ==> c.state == Connected || Handshaking(c))
    && (c.state == SynRecv && c'.state == Connected ==> p.kind == StData && c'.tx == acked)
    && (c.state == SynSent && c'.state == Connected ==> p.kind == StState)
    && (c'.state != c.state && Handshaking(c) ==> c'.state == Connected || c'.state == Closed)
  }

  lemma PacketTx(c: Conn, p: Packet, now: int)
    ensures var tx := c.tx.(cc := c.tx.cc.UpdateDelay(p.tsDiff, now));
            TxEffect(c, p, tx, HandleAck(tx, p.ackNr, now), HandlePacket(c, p, now))
  {
    hide HandleAck, Drain, Cc.UpdateDelay;
  }

  /** What a packet does to the receiving half. */
  lemma PacketRx(c: Conn, p: Packet, now: int)
    ensures HandlePacket(c, p, now).rx
         == (if (c.state == SynSent && p.kind == StState) || (c.state == SynRecv && p.kind == StData) then
               c.rx.(ackNr := p.seqNr)
             else if c.state == Connected && (p.kind == StData || p.kind == StFin) then
               Receive(c.rx, p.seqNr, p.payload).0
             else c.rx)
  {
    hide HandleAck, Drain, Cc.UpdateDelay;
  }

  lemma SameLedger(tx: Tx, cc: Cc, added: nat, dropped: bool)
    requires cc.curWindow == tx.cc.curWindow
    ensures LedgerOf(tx.(cc := cc), added, dropped) == LedgerOf(tx, added, dropped)
  {}

  lemma PacketSideOk(x: Side, role: Role, p: Packet, now: int)
    requires SideOk(x, role)
    requires x.conn.state == SynRecv && p.kind == StData ==> p.ackNr == x.first
    ensures SideOk(AfterPacket(x, p, now), role)
  {
    var cc := x.conn.tx.cc.UpdateDelay(p.tsDiff, now);
    assert cc.curWindow == x.conn.tx.cc.curWindow;
    PacketTx(x.conn, p, now);
    PacketEffectOk(x, role, p, now, cc, HandlePacket(x.conn, p, now));
  }

  lemma PacketEffectOk(x: Side, role: Role, p: Packet, now: int, cc: Cc, c: Conn)
    requires SideOk(x, role) && cc.curWindow == x.conn.tx.cc.curWindow
    requires x.conn.state == SynRecv && p.kind == StData ==> p.ackNr == x.first
    requires TxEffect(x.conn, p, x.conn.tx.(cc := cc), HandleAck(x.conn.tx.(cc := cc), p.ackNr, now), c)
    ensures SideOk(x.(conn := c), role)
  {
    hide HandleAck, LogBytes, InFlight, LedgerOf, IsAcked, BufferOk, NetOk;
    assert x.net + {} == x.net;
    if c.tx == HandleAck(x.conn.tx.(cc := cc), p.ackNr, now) {
      AckOnlyRemoves(x, role, p.ackNr, now, cc);
      if x.conn.state == SynRecv {
        OnlyStateBuffered(x, role);
      }
    } else {
      SameLedger(x.conn.tx, cc, HEADER_SIZE + LogBytes(x.log), x.dropped);
    }
    assert NetOk({}, x.first, x.log, role) by {
      EmptyNetOk(x.first, x.log, role);
    }
    OnlyRemoves(x, role, c, {}, x.dropped);
  }

  lemma EmptyNetOk(first: nat, log: seq<seq<byte>>, role: Role)
    ensures NetOk({}, first, log, role)
  {}

  /** Before its first numbered packet a responder only waits for its STATE to be acknowledged. */
  lemma OnlyStateBuffered(x: Side, role: Role)
    requires Numbered(x, role) && x.conn.state == SynRecv
    ensures x.log == [] && forall k :: k in x.conn.tx.sendBuffer ==> k == x.first && IsAcked(k, x.first)
  {}

  lemma ResentInFlight(c: Conn, s: u16, now: int)
    requires s in c.tx.sendBuffer
    ensures InFlight(Resent(c, s, now).tx.sendBuffer) == InFlight(c.tx.sendBuffer)
  {
    hide Packet.Size;
    InFlightUpdate(c.tx.sendBuffer, Resent(c, s, now).tx.sendBuffer, s, 0);
  }

  lemma ResentOk(x: Side, role: Role, s: u16, now: int)
    requires SideOk(x, role) && s in x.conn.tx.sendBuffer
    ensures SideOk(x.(conn := Resent(x.conn, s, now), net := x.net + {x.conn.tx.sendBuffer[s].packet}), role)
  {
    var c := Resent(x.conn, s, now);
    ResentInFlight(x.conn, s, now);
    hide InFlight, LogBytes, Packet.Size;
    OnlyRemoves(x, role, c, {x.conn.tx.sendBuffer[s].packet}, x.dropped);
  }

  lemma DroppedOk(x: Side, role: Role, s: u16)
    requires SideOk(x, role) && s in x.conn.tx.sendBuffer
    ensures SideOk(x.(conn := x.conn.(tx := x.conn.tx.(sendBuffer := x.conn.tx.sendBuffer - {s})), dropped := true), role)
  {
    var c := x.conn.(tx := x.conn.tx.(sendBuffer := x.conn.tx.sendBuffer - {s}));
    DroppedInFlight(x.conn.tx.sendBuffer, s);
    hide InFlight, LogBytes;
    assert x.net + {} == x.net;
    OnlyRemoves(x, role, c, {}, true);
  }

  lemma DroppedInFlight(buffer: map<u16, SentPacket>, s: u16)
    ensures InFlight(buffer - {s}) <= InFlight(buffer)
  {
    hide Packet.Size;
    InFlightUpdate(buffer, buffer - {s}, s, 0);
  }

  lemma CongestionOnly(x: Side, role: Role, c: Conn)
    requires SideOk(x, role)
    requires c.state == x.conn.state || c.state == Closed || (x.conn.state == Connected && c.state == FinSent)
    requires c.tx.seqNr == x.conn.tx.seqNr && c.tx.sendBuffer == x.conn.tx.sendBuffer
    requires c.tx.cc.curWindow == x.conn.tx.cc.curWindow
    ensures SideOk(x.(conn := c), role)
  {
    hide InFlight, LogBytes;
    assert x.net + {} == x.net;
    OnlyRemoves(x, role, c, {}, x.dropped);
  }

  lemma {:induction false} RetransmitAllOk(x: Side, role: Role, seqs: seq<u16>, now: int, budget: nat)
    requires SideOk(x, role)
    ensures var s := RetransmitAll(x.conn, seqs, now, budget);
            && SideOk(AfterTick(x, s), role)
            && s.numbered == [] && s.conn.rx == x.conn.rx
            && (s.conn.state == x.conn.state || s.conn.state == Closed)
    decreases |seqs|
  {
    var s := RetransmitAll(x.conn, seqs, now, budget);
    if seqs == [] {
      NothingTimedOut(x.conn, now, budget);
      ApplyNothing(x, x.conn, Ok(0));
    } else {
      RetransmitStep(x.conn, seqs, now, budget);
      hide RetransmitAll, SideOk, Resent, Prepend, Apply;
      var k := seqs[0];
      if k !in x.conn.tx.sendBuffer {
        var c := x.conn.(tx := x.conn.tx.(cc := x.conn.tx.cc.OnTimeout()));
        CongestionOnly(x, role, c);
        RetransmitAllOk(x.(conn := c), role, seqs[1..], now, budget);
        SameApply(x, c, s);
      } else if x.conn.tx.sendBuffer[k].retransmits >= MAX_RETRANSMIT {
        CongestionOnly(x, role, x.conn.(state := Closed));
        ApplyNothing(x, s.conn, s.result);
      } else if budget == 0 {
        DroppedOk(x, role, k);
        ApplyNothing(x, s.conn, s.result);
      } else {
        ResentOk(x, role, k, now);
        RetransmitMore(x, role, k, seqs, now, budget);
      }
    }
  }

  lemma SameApply(x: Side, c: Conn, s: Sent)
    ensures Apply(x.(conn := c), s) == Apply(x, s)
  {}

  lemma RetransmitMore(x: Side, role: Role, k: u16, seqs: seq<u16>, now: int, budget: nat)
    requires seqs != [] && k == seqs[0] && k in x.conn.tx.sendBuffer && budget > 0
    requires SideOk(x.(conn := Resent(x.conn, k, now), net := x.net + {x.conn.tx.sendBuffer[k].packet}), role)
    ensures var s := Prepend([], [x.conn.tx.sendBuffer[k].packet], 0,
                             RetransmitAll(Resent(x.conn, k, now), seqs[1..], now, budget - 1));
            && SideOk(AfterTick(x, s), role)
            && s.numbered == [] && s.conn.rx == x.conn.rx
            && (s.conn.state == x.conn.state || s.conn.state == Closed)
    decreases |seqs|, 0
  {
    hide SideOk, Apply;
    var p := x.conn.tx.sendBuffer[k].packet;
    var x1 := x.(conn := Resent(x.conn, k, now), net := x.net + {p});
    assert x1.conn.state == x.conn.state && x1.conn.rx == x.conn.rx;
    hide Resent;
    RetransmitAllOk(x1, role, seqs[1..], now, budget - 1);
    var rest := RetransmitAll(x1.conn, seqs[1..], now, budget - 1);
    hide RetransmitAll;
    var s := Prepend([], [p], 0, rest);
    PrependedPacket(p, rest);
    hide Prepend;
    ApplyMore(x, x1.conn, p, rest, s.result);
  }

  lemma PrependedPacket(p: Packet, rest: Sent)
    ensures var s := Prepend([], [p], 0, rest);
            s.conn == rest.conn && s.wire == [p] + rest.wire && s.result == rest.result && s.numbered == rest.numbered
  {
    assert [] + rest.numbered == rest.numbered;
  }

  lemma ApplyMore(x: Side, c: Conn, p: Packet, rest: Sent, r: Result<nat>)
    ensures Apply(x.(conn := c, net := x.net + {p}), rest)
         == Apply(x, Sent(rest.conn, rest.numbered, [p] + rest.wire, r))
  {
    hide Payloads;
    assert (set q | q in [p] + rest.wire) == {p} + (set q | q in rest.wire);
    assert x.net + ({p} + (set q | q in rest.wire)) == (x.net + {p}) + (set q | q in rest.wire);
  }
}
