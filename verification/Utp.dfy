/** A uTP connection (BEP 29): sequence numbers, acknowledgement, reassembly and
    retransmission. Times are nanoseconds; a socket send succeeds or fails. */
module Utp {
  import opened Prelude
  import opened Congestion

  const MAX_RETRANSMIT: nat := 10
  const MAX_READY_BYTES: nat := 2 * 1024 * 1024
  const HEADER_SIZE: nat := 20
  const NS_PER_MS: nat := 1_000_000

  datatype UtpType = StData | StFin | StState | StReset | StSyn

  datatype Packet = Packet(kind: UtpType, seqNr: u16, ackNr: u16, tsDiff: u32, payload: seq<byte>) {
    /** `packet.len() as u32`. */
    function Size(): u32 {
      (HEADER_SIZE + |payload|) % 0x1_0000_0000
    }
  }

  datatype SentPacket = SentPacket(packet: Packet, sendTime: int, retransmits: nat, rttMeasurable: bool)

  datatype ConnState = SynSent | SynRecv | Connected | FinSent | FinRecv | Closed

  /** The sending half of a connection. */
  datatype Tx = Tx(seqNr: u16, sendBuffer: map<u16, SentPacket>, cc: Cc)

  /** The receiving half. */
  datatype Rx = Rx(ackNr: u16, recvBuffer: map<u16, seq<byte>>, ready: seq<byte>)

  datatype Conn = Conn(state: ConnState, eofPkt: Option<u16>, lastActivity: int, tx: Tx, rx: Rx)

  /** The initiator before its SYN goes out. */
  function Initiator(now: int): Conn {
    Conn(SynSent, None, now, Tx(2, map[], INITIAL_CC), Rx(0, map[], []))
  }

  /** The responder to a SYN; its first sequence number is random. */
  function Responder(synSeqNr: u16, firstSeqNr: u16, now: int): Conn {
    Conn(SynRecv, None, now, Tx(firstSeqNr, map[], INITIAL_CC), Rx(synSeqNr, map[], []))
  }

  function Wrap(n: int): u16 {
    n % 0x1_0000
  }

  function Elapsed(since: int, now: int): nat {
    Max(0, now - since)
  }

  // ---------------------------------------------------------------- acknowledgement

  /** The wrapping comparison of the ACK handler. */
  predicate IsAcked(seqNr: u16, ack: u16) {
    Wrap(seqNr - ack) == 0 || Wrap(seqNr - ack) > 0x8000
  }

  /** The acknowledged keys from `from` up, in key order. */
  function AckedSeqs(buffer: map<u16, SentPacket>, ack: u16, from: nat): seq<u16>
    requires from <= 0x1_0000
    decreases 0x1_0000 - from
  {
    if from == 0x1_0000 then []
    else (if from in buffer && IsAcked(from, ack) then [from] else []) + AckedSeqs(buffer, ack, from + 1)
  }

  function RttMs(sent: SentPacket, now: int): u32 {
    (Elapsed(sent.sendTime, now) / NS_PER_MS) % 0x1_0000_0000
  }

  function RemoveSent(tx: Tx, s: u16, now: int): Tx {
    if s !in tx.sendBuffer then tx
    else
      var pkt := tx.sendBuffer[s];
      var cc := if pkt.rttMeasurable then tx.cc.UpdateRtt(RttMs(pkt, now)) else tx.cc;
      tx.(sendBuffer := tx.sendBuffer - {s}, cc := cc.RemoveInFlight(pkt.packet.Size()))
  }

  function RemoveAll(tx: Tx, seqs: seq<u16>, now: int): Tx
    decreases |seqs|
  {
    if seqs == [] then tx else RemoveAll(RemoveSent(tx, seqs[0], now), seqs[1..], now)
  }

  lemma RemoveStep(tx: Tx, seqs: seq<u16>, now: int)
    requires seqs != []
    ensures RemoveAll(tx, seqs, now) == RemoveAll(RemoveSent(tx, seqs[0], now), seqs[1..], now)
  {}

  lemma NothingAcked(tx: Tx, now: int)
    ensures RemoveAll(tx, [], now) == tx
  {}

  function HandleAck(tx: Tx, ack: u16, now: int): Tx {
    RemoveAll(tx, AckedSeqs(tx.sendBuffer, ack, 0), now)
  }

  // ---------------------------------------------------------------- reassembly

  /** Deliver buffered packets as long as the next one is there and fits; the one
      that does not fit is dropped from the buffer. */
  function Drain(rx: Rx, next: u16): Rx
    decreases |rx.recvBuffer|
  {
    if next !in rx.recvBuffer then rx
    else
      var data := rx.recvBuffer[next];
      var rest := rx.recvBuffer - {next};
      assert rest.Keys < rx.recvBuffer.Keys;
      assert |rest.Keys| < |rx.recvBuffer.Keys| by {
        SubsetSize(rest.Keys, rx.recvBuffer.Keys);
      }
      if |rx.ready| + |data| > MAX_READY_BYTES then rx.(recvBuffer := rest)
      else Drain(Rx(next, rest, rx.ready + data), Wrap(next + 1))
  }

  /** What a data or FIN packet does to the receiving half; true when the reader
      is so far behind that the connection closes. */
  function Receive(rx: Rx, seqNr: u16, payload: seq<byte>): (Rx, bool) {
    var next := Wrap(rx.ackNr + 1);
    if seqNr <= rx.ackNr then (rx, false)
    else if seqNr == next then
      if |rx.ready| + |payload| > MAX_READY_BYTES then (rx, true)
      else (Drain(rx.(ackNr := seqNr, ready := rx.ready + payload), Wrap(seqNr + 1)), false)
    else if seqNr > next then (rx.(recvBuffer := rx.recvBuffer[seqNr := payload]), false)
    else (rx, false)
  }

  function ProcessData(c: Conn, p: Packet, now: int): Conn {
    var (rx, overflow) := Receive(c.rx, p.seqNr, p.payload);
    c.(tx := HandleAck(c.tx, p.ackNr, now), rx := rx, state := if overflow then Closed else c.state)
  }

  function HandleFin(c: Conn, p: Packet): Conn {
    c.(eofPkt := Some(p.seqNr), state := if c.state == Connected then FinRecv else c.state)
  }

  function HandlePacket(c0: Conn, p: Packet, now: int): Conn {
    var c := c0.(lastActivity := now, tx := c0.tx.(cc := c0.tx.cc.UpdateDelay(p.tsDiff, now)));
    match c.state
    case SynSent =>
      if p.kind == StState then c.(state := Connected, rx := c.rx.(ackNr := p.seqNr))
      else if p.kind == StReset then c.(state := Closed)
      else c
    case SynRecv =>
      if p.kind == StData then ProcessData(c.(state := Connected, rx := c.rx.(ackNr := p.seqNr)), p, now)
      else if p.kind == StFin then HandleFin(c, p)
      else c
    case Connected =>
      (match p.kind
       case StData => ProcessData(c, p, now)
       case StState => c.(tx := HandleAck(c.tx, p.ackNr, now))
       case StFin => HandleFin(ProcessData(c, p, now), p)
       case StReset => c.(state := Closed)
       case StSyn => c)
    case FinSent =>
      c.(state := if p.kind == StFin then Closed else FinSent, tx := HandleAck(c.tx, p.ackNr, now))
    case FinRecv =>
      var tx := HandleAck(c.tx, p.ackNr, now);
      c.(tx := tx, state := if tx.sendBuffer == map[] then Closed else FinRecv)
    case Closed => c
  }

  // ---------------------------------------------------------------- sending

  /** What an operation did: the connection after it, the packets that took a
      sequence number of their own, the packets that reached the socket. */
  datatype Sent = Sent(conn: Conn, numbered: seq<Packet>, wire: seq<Packet>, result: Result<nat>)

  function MakePacket(c: Conn, kind: UtpType, payload: seq<byte>): Packet {
    Packet(kind, c.tx.seqNr, c.rx.ackNr, c.tx.cc.replyMicro, payload)
  }

  /** Buffer a packet for retransmission and hand it to the socket. */
  function SendRaw(c: Conn, p: Packet, now: int, ok: bool): Conn {
    c.(tx := c.tx.(cc := c.tx.cc.AddInFlight(p.Size()),
                   sendBuffer := c.tx.sendBuffer[p.seqNr := SentPacket(p, now, 0, p.kind != StSyn)]),
       lastActivity := if ok then now else c.lastActivity)
  }

  /** Send a packet that uses up a sequence number. */
  function SendNumbered(c: Conn, kind: UtpType, payload: seq<byte>, now: int, ok: bool): Sent {
    var p := MakePacket(c, kind, payload);
    var c' := SendRaw(c.(tx := c.tx.(seqNr := Wrap(c.tx.seqNr + 1))), p, now, ok);
    Sent(c', [p], if ok then [p] else [], if ok then Ok(|payload|) else Err(PeerUtpConnectionFailed))
  }

  /** The chunk loop of `send`; the socket accepts `budget` more packets. */
  function SendChunks(c: Conn, data: seq<byte>, size: nat, now: int, budget: nat): Sent
    requires size > 0
    decreases |data|
  {
    if data == [] then Sent(c, [], [], Ok(0))
    else
      var n := Min(size, |data|);
      var one := SendNumbered(c, StData, data[..n], now, budget > 0);
      if budget == 0 then one
      else
        var rest := SendChunks(one.conn, data[n..], size, now, budget - 1);
        Sent(rest.conn, one.numbered + rest.numbered, one.wire + rest.wire,
             if rest.result.Ok? then Ok(n + rest.result.value) else rest.result)
  }

  /** A run of sends put in front of what follows them. */
  ghost function Prepend(numbered: seq<Packet>, wire: seq<Packet>, bytes: nat, rest: Sent): Sent {
    Sent(rest.conn, numbered + rest.numbered, wire + rest.wire,
         if rest.result.Ok? then Ok(bytes + rest.result.value) else rest.result)
  }

  lemma PrependTwice(numbered: seq<Packet>, wire: seq<Packet>, bytes: nat, p: Packet, n: nat, rest: Sent)
    ensures Prepend(numbered, wire, bytes, Prepend([p], [p], n, rest))
         == Prepend(numbered + [p], wire + [p], bytes + n, rest)
  {
    assert numbered + ([p] + rest.numbered) == (numbered + [p]) + rest.numbered;
    assert wire + ([p] + rest.wire) == (wire + [p]) + rest.wire;
  }

  lemma PrependNothing(s: Sent)
    ensures Prepend([], [], 0, s) == s
  {
    assert [] + s.numbered == s.numbered && [] + s.wire == s.wire;
  }

  lemma PrependWire(wire: seq<Packet>, p: Packet, rest: Sent)
    ensures Prepend([], wire, 0, Prepend([], [p], 0, rest)) == Prepend([], wire + [p], 0, rest)
  {
    assert wire + ([p] + rest.wire) == (wire + [p]) + rest.wire;
    assert [] + ([] + rest.numbered) == [] + rest.numbered;
  }

  lemma PrependEnd(numbered: seq<Packet>, wire: seq<Packet>, bytes: nat, c: Conn, e: ErrorKind)
    ensures Prepend(numbered, wire, bytes, Sent(c, [], [], Ok(0))) == Sent(c, numbered, wire, Ok(bytes))
    ensures Prepend(numbered, wire, bytes, Sent(c, [], [], Err(e))) == Sent(c, numbered, wire, Err(e))
    ensures forall p :: Prepend(numbered, wire, bytes, Sent(c, [p], [], Err(e))) == Sent(c, numbered + [p], wire, Err(e))
  {}

  lemma NoChunks(c: Conn, size: nat, now: int, left: nat)
    requires size > 0
    ensures SendChunks(c, [], size, now, left) == Sent(c, [], [], Ok(0))
  {}

  lemma ChunksStep(c: Conn, data: seq<byte>, n: nat, size: nat, now: int, left: nat)
    requires size > 0 && data != [] && n == Min(size, |data|)
    ensures var one := SendNumbered(c, StData, data[..n], now, left > 0);
            var p := MakePacket(c, StData, data[..n]);
            SendChunks(c, data, size, now, left)
            == (if left == 0 then Sent(one.conn, [p], [], Err(PeerUtpConnectionFailed))
                else Prepend([p], [p], n, SendChunks(one.conn, data[n..], size, now, left - 1)))
  {}

  /** One turn of the chunk loop, after `sent` bytes. */
  lemma ChunkOfAll(all: Sent, numbered: seq<Packet>, wire: seq<Packet>, c: Conn, data: seq<byte>,
                   sent: nat, n: nat, size: nat, now: int, left: nat)
    requires size > 0 && sent < |data| && n == Min(size, |data| - sent)
    requires all == Prepend(numbered, wire, sent, SendChunks(c, data[sent..], size, now, left))
    ensures var chunk := data[sent..sent + n];
            var one := SendNumbered(c, StData, chunk, now, left > 0);
            var p := MakePacket(c, StData, chunk);
            all == (if left == 0 then Sent(one.conn, numbered + [p], wire, Err(PeerUtpConnectionFailed))
                    else Prepend(numbered + [p], wire + [p], sent + n,
                                 SendChunks(one.conn, data[sent + n..], size, now, left - 1)))
  {
    hide SendChunks, Prepend, SendNumbered, MakePacket;
    var rest, chunk := data[sent..], data[sent..sent + n];
    assert rest[..n] == chunk && rest[n..] == data[sent + n..];
    ChunksStep(c, rest, n, size, now, left);
    var one, p := SendNumbered(c, StData, chunk, now, left > 0), MakePacket(c, StData, chunk);
    if left == 0 {
      PrependEnd(numbered, wire, sent, one.conn, PeerUtpConnectionFailed);
    } else {
      PrependTwice(numbered, wire, sent, p, n, SendChunks(one.conn, rest[n..], size, now, left - 1));
    }
  }

  function Send(c: Conn, data: seq<byte>, packetSize: nat, now: int, budget: nat): Sent {
    if c.state != Connected then Sent(c, [], [], Err(PeerUtpProtocolError))
    else SendChunks(c, data, Max(packetSize, 150), now, budget)
  }

  function Close(c: Conn, now: int, ok: bool): Sent {
    if c.state != Connected then Sent(c, [], [], Ok(0))
    else
      var s := SendNumbered(c, StFin, [], now, ok);
      if ok then s.(conn := s.conn.(state := FinSent)) else s
  }

  /** The STATE answer to a SYN: it takes the next sequence number but does not use it up. */
  function SendState(c: Conn, now: int, ok: bool): Sent {
    var p := MakePacket(c, StState, []);
    Sent(SendRaw(c, p, now, ok), [], if ok then [p] else [], if ok then Ok(0) else Err(PeerUtpConnectionFailed))
  }

  // ---------------------------------------------------------------- retransmission

  function TimedOut(buffer: map<u16, SentPacket>, now: int, timeoutMs: u32, from: nat): seq<u16>
    requires from <= 0x1_0000
    decreases 0x1_0000 - from
  {
    if from == 0x1_0000 then []
    else
      (if from in buffer && Elapsed(buffer[from].sendTime, now) >= timeoutMs * NS_PER_MS then [from] else [])
      + TimedOut(buffer, now, timeoutMs, from + 1)
  }

  /** The packet went out again: its RTT is no longer measured. */
  function Resent(c: Conn, s: u16, now: int): Conn
    requires s in c.tx.sendBuffer
  {
    var pkt := c.tx.sendBuffer[s];
    var again := SentPacket(pkt.packet, now, pkt.retransmits + 1, false);
    c.(tx := c.tx.(sendBuffer := c.tx.sendBuffer[s := again], cc := c.tx.cc.OnTimeout()))
  }

  /** The retransmission loop; a failed send loses the packet that was taken out of the buffer. */
  function RetransmitAll(c: Conn, seqs: seq<u16>, now: int, budget: nat): Sent
    decreases |seqs|
  {
    if seqs == [] then Sent(c, [], [], Ok(0))
    else
      var s := seqs[0];
      if s !in c.tx.sendBuffer then
        RetransmitAll(c.(tx := c.tx.(cc := c.tx.cc.OnTimeout())), seqs[1..], now, budget)
      else
        var pkt := c.tx.sendBuffer[s];
        if pkt.retransmits >= MAX_RETRANSMIT then Sent(c.(state := Closed), [], [], Err(PeerUtpProtocolError))
        else if budget == 0 then
          Sent(c.(tx := c.tx.(sendBuffer := c.tx.sendBuffer - {s})), [], [], Err(PeerUtpConnectionFailed))
        else
          var rest := RetransmitAll(Resent(c, s, now), seqs[1..], now, budget - 1);
          rest.(wire := [pkt.packet] + rest.wire)
  }

  lemma RetransmitStep(c: Conn, seqs: seq<u16>, now: int, left: nat)
    requires seqs != []
    ensures var s := seqs[0];
            RetransmitAll(c, seqs, now, left)
            == (if s !in c.tx.sendBuffer then
                  RetransmitAll(c.(tx := c.tx.(cc := c.tx.cc.OnTimeout())), seqs[1..], now, left)
                else if c.tx.sendBuffer[s].retransmits >= MAX_RETRANSMIT then
                  Sent(c.(state := Closed), [], [], Err(PeerUtpProtocolError))
                else if left == 0 then
                  Sent(c.(tx := c.tx.(sendBuffer := c.tx.sendBuffer - {s})), [], [], Err(PeerUtpConnectionFailed))
                else
                  Prepend([], [c.tx.sendBuffer[s].packet], 0, RetransmitAll(Resent(c, s, now), seqs[1..], now, left - 1)))
  {
    hide Resent;
    if seqs[0] in c.tx.sendBuffer && left > 0 {
      PrependNothing(RetransmitAll(Resent(c, seqs[0], now), seqs[1..], now, left - 1));
    }
  }

  lemma NothingTimedOut(c: Conn, now: int, left: nat)
    ensures RetransmitAll(c, [], now, left) == Sent(c, [], [], Ok(0))
  {}

  /** One turn of the retransmission loop. */
  lemma RetransmitOne(all: Sent, wire: seq<Packet>, c: Conn, seqs: seq<u16>, i: nat, now: int, left: nat)
    requires i < |seqs|
    requires all == Prepend([], wire, 0, RetransmitAll(c, seqs[i..], now, left))
    ensures var s := seqs[i];
            all == (if s !in c.tx.sendBuffer then
                      Prepend([], wire, 0,
                              RetransmitAll(c.(tx := c.tx.(cc := c.tx.cc.OnTimeout())), seqs[i + 1..], now, left))
                    else if c.tx.sendBuffer[s].retransmits >= MAX_RETRANSMIT then
                      Sent(c.(state := Closed), [], wire, Err(PeerUtpProtocolError))
                    else if left == 0 then
                      Sent(c.(tx := c.tx.(sendBuffer := c.tx.sendBuffer - {s})), [], wire, Err(PeerUtpConnectionFailed))
                    else
                      Prepend([], wire + [c.tx.sendBuffer[s].packet], 0,
                              RetransmitAll(Resent(c, s, now), seqs[i + 1..], now, left - 1)))
  {
    hide RetransmitAll, Prepend, Resent;
    var s := seqs[i];
    assert seqs[i..][0] == s && seqs[i..][1..] == seqs[i + 1..];
    RetransmitStep(c, seqs[i..], now, left);
    if s in c.tx.sendBuffer {
      PrependEnd([], wire, 0, c.(state := Closed), PeerUtpProtocolError);
      PrependEnd([], wire, 0, c.(tx := c.tx.(sendBuffer := c.tx.sendBuffer - {s})), PeerUtpConnectionFailed);
      if left > 0 {
        PrependWire(wire, c.tx.sendBuffer[s].packet, RetransmitAll(Resent(c, s, now), seqs[i + 1..], now, left - 1));
      }
    }
  }

  function CheckRetransmit(c: Conn, now: int, budget: nat): Sent {
    var timeoutMs := c.tx.cc.timeout;
    if Elapsed(c.lastActivity, now) / NS_PER_MS > timeoutMs * 4 then
      Sent(c.(state := Closed), [], [], Err(PeerUtpProtocolError))
    else
      var r := RetransmitAll(c, TimedOut(c.tx.sendBuffer, now, timeoutMs, 0), now, budget);
      if r.result.Err? then r
      else if r.conn.state == SynSent && r.conn.tx.sendBuffer == map[]
              && Elapsed(r.conn.lastActivity, now) > timeoutMs * NS_PER_MS then
        var s := SendNumbered(r.conn, StSyn, [], now, budget > |r.wire|);
        Sent(s.conn, s.numbered, r.wire + s.wire, s.result)
      else r
  }

  // ---------------------------------------------------------------- the connection object

  class UtpConnection {
    var state: ConnState
    var seqNr: u16
    var ackNr: u16
    var eofPkt: Option<u16>
    const cc: UtpCongestionControl
    var sendBuffer: map<u16, SentPacket>
    var recvBuffer: map<u16, seq<byte>>
    var readyData: seq<byte>
    var lastActivity: int

    ghost function State(): Conn
      reads this, cc
    {
      Conn(state, eofPkt, lastActivity, Tx(seqNr, sendBuffer, cc.State()), Rx(ackNr, recvBuffer, readyData))
    }

    /** Sends the SYN; the caller drops the connection if the socket refuses it. */
    constructor Connect(now: int, ok: bool)
      ensures fresh(cc)
      ensures State() == SendNumbered(Initiator(now), StSyn, [], now, ok).conn
    {
      state, seqNr, ackNr, eofPkt := SynSent, 2, 0, None;
      cc := new UtpCongestionControl();
      sendBuffer, recvBuffer, readyData, lastActivity := map[], map[], [], now;
      new;
      var _ := SendPacket(StSyn, [], now, ok);
    }

    constructor Accept(synSeqNr: u16, firstSeqNr: u16, now: int)
      ensures fresh(cc)
      ensures State() == Responder(synSeqNr, firstSeqNr, now)
    {
      state, seqNr, ackNr, eofPkt := SynRecv, firstSeqNr, synSeqNr, None;
      cc := new UtpCongestionControl();
      sendBuffer, recvBuffer, readyData, lastActivity := map[], map[], [], now;
    }

    method HandlePacketMsg(p: Packet, now: int)
      modifies this, cc
      ensures State() == HandlePacket(old(State()), p, now)
    {
      hide HandleAck, Receive;
      lastActivity := now;
      cc.UpdateDelay(p.tsDiff, now);
      match state
      case SynSent =>
        if p.kind == StState {
          state := Connected;
          ackNr := p.seqNr;
        } else if p.kind == StReset {
          state := Closed;
        }
      case SynRecv =>
        if p.kind == StData {
          state := Connected;
          ackNr := p.seqNr;
          ProcessDataPacket(p, now);
        } else if p.kind == StFin {
          HandleFinPacket(p);
        }
      case Connected =>
        match p.kind {
          case StData =>
            ProcessDataPacket(p, now);
          case StState =>
            ApplyAck(p.ackNr, now);
          case StFin =>
            ProcessDataPacket(p, now);
            HandleFinPacket(p);
          case StReset =>
            state := Closed;
          case StSyn =>
        }
      case FinSent =>
        if p.kind == StFin {
          state := Closed;
        }
        ApplyAck(p.ackNr, now);
      case FinRecv =>
        ApplyAck(p.ackNr, now);
        if sendBuffer == map[] {
          state := Closed;
        }
      case Closed =>
    }

    /** The loop that delivers what was kept for later, from number `first` on. */
    method DrainReady(first: u16)
      modifies this
      ensures State() == old(State()).(rx := Drain(old(State()).rx, first))
    {
      var next := first;
      while next in recvBuffer
        invariant Drain(Rx(ackNr, recvBuffer, readyData), next) == Drain(old(State()).rx, first)
        invariant State() == old(State()).(rx := State().rx)
        decreases |recvBuffer|
      {
        var data := recvBuffer[next];
        SubsetSize((recvBuffer - {next}).Keys, recvBuffer.Keys);
        recvBuffer := recvBuffer - {next};
        if |readyData| + |data| > MAX_READY_BYTES {
          break;
        }
        ackNr := next;
        readyData := readyData + data;
        next := Wrap(next as int + 1);
      }
    }

    method ProcessDataPacket(p: Packet, now: int)
      modifies this, cc
      ensures State() == ProcessData(old(State()), p, now)
    {
      hide HandleAck;
      ApplyAck(p.ackNr, now);
      if p.seqNr <= ackNr {
        return;
      }
      if p.seqNr == Wrap(ackNr + 1) {
        if |readyData| + |p.payload| > MAX_READY_BYTES {
          state := Closed;
          return;
        }
        ackNr := p.seqNr;
        readyData := readyData + p.payload;
        DrainReady(Wrap(p.seqNr + 1));
      } else if p.seqNr > Wrap(ackNr + 1) {
        recvBuffer := recvBuffer[p.seqNr := p.payload];
      }
    }

    method ApplyAck(remoteAck: u16, now: int)
      modifies this, cc
      ensures State() == old(State()).(tx := HandleAck(old(State()).tx, remoteAck, now))
    {
      var acked := AckedSeqs(sendBuffer, remoteAck, 0);
      ghost var tx := State().tx;
      assert acked[0..] == acked;
      hide AckedSeqs, RemoveAll, RemoveSent;
      for i := 0 to |acked|
        invariant RemoveAll(tx, acked[i..], now) == RemoveAll(old(State()).tx, acked, now)
        invariant State() == old(State()).(tx := tx)
      {
        assert acked[i..][0] == acked[i] && acked[i..][1..] == acked[i + 1..];
        RemoveStep(tx, acked[i..], now);
        tx := RemoveSent(tx, acked[i], now);
        RemoveAcked(acked[i], now);
      }
      NothingAcked(tx, now);
      assert acked[|acked|..] == [];
    }

    method RemoveAcked(s: u16, now: int)
      modifies this, cc
      ensures State() == old(State()).(tx := RemoveSent(old(State()).tx, s, now))
    {
      if s in sendBuffer {
        var pkt := sendBuffer[s];
        sendBuffer := sendBuffer - {s};
        if pkt.rttMeasurable {
          cc.UpdateRtt(RttMs(pkt, now));
        }
        cc.RemoveInFlight(pkt.packet.Size());
      }
    }

    method HandleFinPacket(p: Packet)
      modifies this
      ensures State() == HandleFin(old(State()), p)
    {
      eofPkt := Some(p.seqNr);
      if state == Connected {
        state := FinRecv;
      }
    }

    method SendRawPacket(p: Packet, now: int, ok: bool)
      modifies this, cc
      ensures State() == SendRaw(old(State()), p, now, ok)
    {
      cc.AddInFlight(p.Size());
      sendBuffer := sendBuffer[p.seqNr := SentPacket(p, now, 0, p.kind != StSyn)];
      if ok {
        lastActivity := now;
      }
    }

    /** `send_packet`: STATE and RESET do not use up their number. */
    method SendPacket(kind: UtpType, payload: seq<byte>, now: int, ok: bool) returns (p: Packet)
      modifies this, cc
      ensures p == MakePacket(old(State()), kind, payload)
      ensures State() == if kind == StState || kind == StReset then SendRaw(old(State()), p, now, ok)
                         else SendNumbered(old(State()), kind, payload, now, ok).conn
    {
      if kind == StState || kind == StReset {
        p := Packet(kind, seqNr, ackNr, cc.replyMicro, payload);
        SendRawPacket(p, now, ok);
      } else {
        p := SendNext(kind, payload, now, ok);
      }
    }

    /** Take the next number and send. */
    method SendNext(kind: UtpType, payload: seq<byte>, now: int, ok: bool) returns (p: Packet)
      modifies this, cc
      ensures p == MakePacket(old(State()), kind, payload)
      ensures State() == SendNumbered(old(State()), kind, payload, now, ok).conn
    {
      p := Packet(kind, seqNr, ackNr, cc.replyMicro, payload);
      seqNr := Wrap(seqNr + 1);
      SendRawPacket(p, now, ok);
    }

    /** `send`: the socket accepts `budget` more packets before it fails. */
    method SendData(data: seq<byte>, packetSize: nat, now: int, budget: nat)
      returns (r: Result<nat>, ghost numbered: seq<Packet>, ghost wire: seq<Packet>)
      modifies this, cc
      ensures Sent(State(), numbered, wire, r) == Send(old(State()), data, packetSize, now, budget)
    {
      hide SendChunks;
      if state != Connected {
        return Err(PeerUtpProtocolError), [], [];
      }
      r, numbered, wire := SendPackets(data, Max(packetSize, 150), now, budget);
    }

    /** The loop over chunks of at most `size` bytes. */
    method SendPackets(data: seq<byte>, size: nat, now: int, budget: nat)
      returns (r: Result<nat>, ghost numbered: seq<Packet>, ghost wire: seq<Packet>)
      requires size > 0
      modifies this, cc
      ensures Sent(State(), numbered, wire, r) == SendChunks(old(State()), data, size, now, budget)
    {
      hide SendNumbered, MakePacket, SendChunks, Prepend;
      var totalSent, left := 0, budget;
      ghost var c := State();
      ghost var all := SendChunks(c, data, size, now, budget);
      numbered, wire := [], [];
      PrependNothing(all);
      assert data[0..] == data;
      while totalSent < |data|
        invariant totalSent <= |data| && State() == c
        invariant all == Prepend(numbered, wire, totalSent, SendChunks(c, data[totalSent..], size, now, left))
      {
        var n := Min(size, |data| - totalSent);
        ChunkOfAll(all, numbered, wire, c, data, totalSent, n, size, now, left);
        var chunk := data[totalSent..totalSent + n];
        c := SendNumbered(c, StData, chunk, now, left > 0).conn;
        var p := SendNext(StData, chunk, now, left > 0);
        if left == 0 {
          return Err(PeerUtpConnectionFailed), numbered + [p], wire;
        }
        left := left - 1;
        numbered, wire := numbered + [p], wire + [p];
        totalSent := totalSent + n;
      }
      NoChunks(c, size, now, left);
      assert data[totalSent..] == [];
      PrependEnd(numbered, wire, totalSent, c, Io);
      r := Ok(totalSent);
    }

    method SendStateResponse(now: int, ok: bool) returns (r: Result<nat>, ghost wire: seq<Packet>)
      modifies this, cc
      ensures Sent(State(), [], wire, r) == SendState(old(State()), now, ok)
    {
      var p := SendPacket(StState, [], now, ok);
      r, wire := if ok then Ok(0) else Err(PeerUtpConnectionFailed), if ok then [p] else [];
    }

    method CloseGracefully(now: int, ok: bool)
      returns (r: Result<nat>, ghost numbered: seq<Packet>, ghost wire: seq<Packet>)
      modifies this, cc
      ensures Sent(State(), numbered, wire, r) == Close(old(State()), now, ok)
    {
      r, numbered, wire := Ok(0), [], [];
      if state == Connected {
        var p := SendNext(StFin, [], now, ok);
        numbered := [p];
        if !ok {
          return Err(PeerUtpConnectionFailed), numbered, wire;
        }
        wire := [p];
        state := FinSent;
      }
    }

    /** `recv`: everything that is ready, byte by byte. */
    method Recv() returns (data: seq<byte>)
      modifies this
      ensures data == old(readyData)
      ensures State() == old(State()).(rx := old(State()).rx.(ready := []))
    {
      data := [];
      while readyData != []
        invariant data + readyData == old(readyData)
        invariant State().(rx := State().rx.(ready := [])) == old(State()).(rx := old(State()).rx.(ready := []))
        decreases |readyData|
      {
        data := data + [readyData[0]];
        readyData := readyData[1..];
      }
    }

    method CheckRetransmits(now: int, budget: nat)
      returns (r: Result<nat>, ghost numbered: seq<Packet>, ghost wire: seq<Packet>)
      modifies this, cc
      ensures Sent(State(), numbered, wire, r) == CheckRetransmit(old(State()), now, budget)
    {
      var timeoutMs := cc.timeout;
      numbered, wire := [], [];
      if Elapsed(lastActivity, now) / NS_PER_MS > timeoutMs * 4 {
        state := Closed;
        return Err(PeerUtpProtocolError), numbered, wire;
      }
      var timedOut := TimedOut(sendBuffer, now, timeoutMs, 0);
      var left;
      r, left, wire := RetransmitPackets(timedOut, now, budget);
      if r.Err? {
        return;
      }
      if state == SynSent && sendBuffer == map[] && Elapsed(lastActivity, now) > timeoutMs * NS_PER_MS {
        var p := SendPacket(StSyn, [], now, left > 0);
        numbered := [p];
        r := if left > 0 then Ok(0) else Err(PeerUtpConnectionFailed);
        wire := wire + if left > 0 then [p] else [];
      }
    }

    method RetransmitPackets(seqs: seq<u16>, now: int, budget: nat)
      returns (r: Result<nat>, left: nat, ghost wire: seq<Packet>)
      modifies this, cc
      ensures Sent(State(), [], wire, r) == RetransmitAll(old(State()), seqs, now, budget)
      ensures left + |wire| == budget
    {
      ghost var c := State();
      ghost var all := RetransmitAll(c, seqs, now, budget);
      wire, left := [], budget;
      PrependNothing(all);
      assert seqs[0..] == seqs;
      hide RetransmitAll, Prepend;
      for i := 0 to |seqs|
        invariant left + |wire| == budget && State() == c
        invariant all == Prepend([], wire, 0, RetransmitAll(c, seqs[i..], now, left))
      {
        var s := seqs[i];
        RetransmitOne(all, wire, c, seqs, i, now, left);
        if s in sendBuffer {
          c := Resent(c, s, now);
          if sendBuffer[s].retransmits >= MAX_RETRANSMIT {
            state := Closed;
            return Err(PeerUtpProtocolError), left, wire;
          }
          var pkt := sendBuffer[s];
          sendBuffer := sendBuffer - {s};
          if left == 0 {
            return Err(PeerUtpConnectionFailed), left, wire;
          }
          left, wire := left - 1, wire + [pkt.packet];
          sendBuffer := sendBuffer[s := SentPacket(pkt.packet, now, pkt.retransmits + 1, false)];
        } else {
          c := c.(tx := c.tx.(cc := c.tx.cc.OnTimeout()));
        }
        cc.OnTimeout();
      }
      NothingTimedOut(c, now, left);
      PrependEnd([], wire, 0, c, Io);
      assert seqs[|seqs|..] == [];
      r := Ok(0);
    }
  }
}
