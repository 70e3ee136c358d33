/** What single uTP operations guarantee: acknowledgement, the in-flight counter,
    chunking and reassembly. */
module UtpTheorems {
  import opened Prelude
  import opened Congestion
  import opened Utp

  // ---------------------------------------------------------------- acknowledgement

  /** The unwrapped number with the given low 16 bits. */
  function Unwrapped(lap: int, low: u16): int {
    0x1_0000 * lap + low
  }

  /** The wrapped comparison agrees with the unwrapped numbers in a window of 65536. */
  lemma WrappedAck(s: u16, lap: int, ack: u16, ackLap: int)
    ensures Unwrapped(ackLap, ack) - 32767 <= Unwrapped(lap, s) <= Unwrapped(ackLap, ack) + 32768 ==>
              (IsAcked(s, ack) <==> Unwrapped(lap, s) <= Unwrapped(ackLap, ack))
    ensures Unwrapped(lap, s) == Unwrapped(ackLap, ack) - 32768 ==> !IsAcked(s, ack)
    ensures Unwrapped(lap, s) == Unwrapped(ackLap, ack) + 32769 ==> IsAcked(s, ack)
  {
    WrapDifference(s, ack);
  }

  lemma WrapDifference(s: u16, ack: u16)
    ensures Wrap(s - ack) == if s >= ack then s - ack else s - ack + 0x1_0000
  {}

  lemma {:induction false} AckedExact(buffer: map<u16, SentPacket>, ack: u16, from: nat)
    requires from <= 0x1_0000
    ensures forall s :: s in AckedSeqs(buffer, ack, from) <==> s >= from && s in buffer && IsAcked(s, ack)
    decreases 0x1_0000 - from
  {
    hide IsAcked;
    if from < 0x1_0000 {
      AckedExact(buffer, ack, from + 1);
    }
  }

  lemma {:induction false} RemoveAllExact(tx: Tx, seqs: seq<u16>, now: int)
    ensures RemoveAll(tx, seqs, now).seqNr == tx.seqNr
    ensures RemoveAll(tx, seqs, now).sendBuffer == map s | s in tx.sendBuffer && s !in seqs :: tx.sendBuffer[s]
    decreases |seqs|
  {
    if seqs == [] {
      assert tx.sendBuffer == map s | s in tx.sendBuffer && s !in seqs :: tx.sendBuffer[s];
    } else {
      RemoveAllExact(RemoveSent(tx, seqs[0], now), seqs[1..], now);
      assert RemoveSent(tx, seqs[0], now).sendBuffer == tx.sendBuffer - {seqs[0]};
      assert forall s :: s in seqs <==> s == seqs[0] || s in seqs[1..];
    }
  }

  /** The ACK handler keeps exactly the packets that are not acknowledged. */
  lemma HandleAckExact(tx: Tx, ack: u16, now: int)
    ensures HandleAck(tx, ack, now).seqNr == tx.seqNr
    ensures HandleAck(tx, ack, now).sendBuffer == map s | s in tx.sendBuffer && !IsAcked(s, ack) :: tx.sendBuffer[s]
  {
    var acked := AckedSeqs(tx.sendBuffer, ack, 0);
    AckedExact(tx.sendBuffer, ack, 0);
    RemoveAllExact(tx, acked, now);
    hide IsAcked, AckedSeqs, RemoveAll;
  }

  /** With every outstanding packet at most 32767 behind and 32768 ahead of the
      acknowledged number, exactly those numbered at or below it are removed. */
  lemma AckRemovesExactly(tx: Tx, laps: map<u16, int>, ack: u16, ackLap: int, now: int)
    requires forall s :: s in tx.sendBuffer ==>
      s in laps && Unwrapped(ackLap, ack) - 32767 <= Unwrapped(laps[s], s) <= Unwrapped(ackLap, ack) + 32768
    ensures HandleAck(tx, ack, now).sendBuffer
         == map s | s in tx.sendBuffer && Unwrapped(laps[s], s) > Unwrapped(ackLap, ack) :: tx.sendBuffer[s]
  {
    HandleAckExact(tx, ack, now);
    hide IsAcked, HandleAck, Unwrapped;
    forall s | s in tx.sendBuffer
      ensures IsAcked(s, ack) <==> Unwrapped(laps[s], s) <= Unwrapped(ackLap, ack)
    {
      WrappedAck(s, laps[s], ack, ackLap);
    }
  }

  // ---------------------------------------------------------------- bytes in flight

  /** The size of the packets that wait for an acknowledgement, from key `from` up. */
  ghost function InFlightFrom(buffer: map<u16, SentPacket>, from: nat): nat
    requires from <= 0x1_0000
    decreases 0x1_0000 - from
  {
    if from == 0x1_0000 then 0
    else (if from in buffer then buffer[from].packet.Size() else 0) + InFlightFrom(buffer, from + 1)
  }

  ghost function InFlight(buffer: map<u16, SentPacket>): nat {
    InFlightFrom(buffer, 0)
  }

  ghost function SizeAt(buffer: map<u16, SentPacket>, s: u16): nat {
    if s in buffer then buffer[s].packet.Size() else 0
  }

  lemma {:induction false} InFlightUpdate(b: map<u16, SentPacket>, b': map<u16, SentPacket>, s: u16, from: nat)
    requires from <= 0x1_0000
    requires forall k :: k != s ==> SizeAt(b, k) == SizeAt(b', k)
    ensures InFlightFrom(b', from)
         == InFlightFrom(b, from) + (if from <= s then SizeAt(b', s) - SizeAt(b, s) else 0)
    decreases 0x1_0000 - from
  {
    if from < 0x1_0000 {
      InFlightUpdate(b, b', s, from + 1);
      assert from != s ==> SizeAt(b, from) == SizeAt(b', from);
    }
  }

  lemma RemoveSentLedger(tx: Tx, s: u16, now: int)
    requires InFlight(tx.sendBuffer) <= tx.cc.curWindow
    ensures var tx' := RemoveSent(tx, s, now);
            && tx'.cc.curWindow == tx.cc.curWindow - SizeAt(tx.sendBuffer, s)
            && InFlight(tx'.sendBuffer) == InFlight(tx.sendBuffer) - SizeAt(tx.sendBuffer, s)
  {
    hide Packet.Size;
    InFlightUpdate(tx.sendBuffer, RemoveSent(tx, s, now).sendBuffer, s, 0);
  }

  /** Acknowledgement takes the same number of bytes out of the counter and the buffer. */
  lemma {:induction false} RemoveAllLedger(tx: Tx, seqs: seq<u16>, now: int)
    requires InFlight(tx.sendBuffer) <= tx.cc.curWindow
    ensures var tx' := RemoveAll(tx, seqs, now);
            && tx'.cc.curWindow <= tx.cc.curWindow
            && InFlight(tx'.sendBuffer) <= tx'.cc.curWindow
            && tx'.cc.curWindow - InFlight(tx'.sendBuffer) == tx.cc.curWindow - InFlight(tx.sendBuffer)
    decreases |seqs|
  {
    hide InFlight, RemoveSent;
    if seqs != [] {
      RemoveSentLedger(tx, seqs[0], now);
      RemoveAllLedger(RemoveSent(tx, seqs[0], now), seqs[1..], now);
    }
  }

  /** Sending adds the packet's size to the counter; a buffered packet with the
      same number is lost from the buffer but not from the counter. */
  lemma SendRawLedger(c: Conn, p: Packet, now: int, ok: bool)
    requires c.tx.cc.curWindow + p.Size() <= U32_MAX
    ensures var tx := SendRaw(c, p, now, ok).tx;
            && tx.cc.curWindow == c.tx.cc.curWindow + p.Size()
            && InFlight(tx.sendBuffer) == InFlight(c.tx.sendBuffer) + p.Size() - SizeAt(c.tx.sendBuffer, p.seqNr)
  {
    hide Packet.Size;
    InFlightUpdate(c.tx.sendBuffer, SendRaw(c, p, now, ok).tx.sendBuffer, p.seqNr, 0);
  }

  // ---------------------------------------------------------------- chunking

  /** The payloads numbered `from` up to but not including `end`, in order. */
  ghost function Stream(log: seq<seq<byte>>, from: int, end: int): seq<byte>
    decreases end - from
  {
    if 0 <= from < end <= |log| then Stream(log, from, end - 1) + log[end - 1] else []
  }

  ghost function Payloads(packets: seq<Packet>): (r: seq<seq<byte>>)
    ensures |r| == |packets|
    ensures forall i :: 0 <= i < |packets| ==> r[i] == packets[i].payload
  {
    if packets == [] then [] else [packets[0].payload] + Payloads(packets[1..])
  }

  lemma {:induction false} StreamPrefix(log: seq<seq<byte>>, more: seq<seq<byte>>, from: int, end: int)
    requires end <= |log|
    ensures Stream(log + more, from, end) == Stream(log, from, end)
    decreases end - from
  {
    if 0 <= from < end {
      StreamPrefix(log, more, from, end - 1);
      assert (log + more)[end - 1] == log[end - 1];
    }
  }

  lemma {:induction false} StreamCons(head: seq<byte>, log: seq<seq<byte>>, n: nat)
    requires n <= |log|
    ensures Stream([head] + log, 0, n + 1) == head + Stream(log, 0, n)
  {
    if n > 0 {
      StreamCons(head, log, n - 1);
      assert ([head] + log)[n] == log[n - 1];
    } else {
      assert Stream([head] + log, 0, 0) == [];
    }
  }

  ghost predicate ChunkNumbers(packets: seq<Packet>, seqNr: u16, size: nat) {
    forall i :: 0 <= i < |packets| ==>
      && packets[i].kind == StData
      && packets[i].seqNr == Wrap(seqNr + i)
      && 0 < |packets[i].payload| <= size
  }

  /** The outcome of cutting `data` into chunks: all of it in order when the send
      succeeds, otherwise the part up to and including the packet that failed. */
  ghost predicate CarriesData(s: Sent, data: seq<byte>) {
    && Stream(Payloads(s.numbered), 0, |s.numbered|) <= data
    && (s.result.Ok? ==>
          && s.result.value == |data|
          && s.wire == s.numbered
          && Stream(Payloads(s.numbered), 0, |s.numbered|) == data)
    && (s.result.Err? ==> s.numbered != [] && s.wire == s.numbered[..|s.numbered| - 1])
  }

  /** One `send` cuts the data into consecutively numbered packets that carry it. */
  lemma {:induction false} ChunksCarryData(c: Conn, data: seq<byte>, size: nat, now: int, budget: nat)
    requires size > 0
    ensures CarriesData(SendChunks(c, data, size, now, budget), data)
    ensures ChunkNumbers(SendChunks(c, data, size, now, budget).numbered, c.tx.seqNr, size)
    decreases |data|
  {
    hide SendChunks, SendNumbered, MakePacket, CarriesData, ChunkNumbers, Prepend, Wrap, Stream, Payloads;
    if data == [] {
      NoChunks(c, size, now, budget);
      NothingCarried(c, size);
    } else {
      var n := Min(size, |data|);
      var one, p := SendNumbered(c, StData, data[..n], now, budget > 0), MakePacket(c, StData, data[..n]);
      SendNumberedShape(c, StData, data[..n], now, budget > 0);
      ChunksStep(c, data, n, size, now, budget);
      if budget == 0 {
        ChunkFails(one.conn, p, data, size);
      } else {
        ChunksCarryData(one.conn, data[n..], size, now, budget - 1);
        ChunkJoin(p, data, n, size, SendChunks(one.conn, data[n..], size, now, budget - 1));
      }
    }
  }

  lemma NothingCarried(c: Conn, size: nat)
    ensures CarriesData(Sent(c, [], [], Ok(0)), []) && ChunkNumbers([], c.tx.seqNr, size)
  {}

  lemma SendNumberedShape(c: Conn, kind: UtpType, payload: seq<byte>, now: int, ok: bool)
    ensures var one, p := SendNumbered(c, kind, payload, now, ok), MakePacket(c, kind, payload);
            && one.numbered == [p] && one.wire == (if ok then [p] else [])
            && p.kind == kind && p.seqNr == c.tx.seqNr && p.ackNr == c.rx.ackNr && p.payload == payload
            && one.conn.tx.seqNr == Wrap(c.tx.seqNr + 1)
            && one.conn.state == c.state && one.conn.rx == c.rx
  {}

  lemma ChunkFails(c: Conn, p: Packet, data: seq<byte>, size: nat)
    requires p.kind == StData && 0 < |p.payload| <= size && p.payload <= data
    ensures CarriesData(Sent(c, [p], [], Err(PeerUtpConnectionFailed)), data)
    ensures ChunkNumbers([p], p.seqNr, size)
  {
    assert Payloads([p]) == [p.payload] + [];
    StreamCons(p.payload, [], 0);
  }

  lemma PrefixJoin(data: seq<byte>, n: nat, part: seq<byte>)
    requires n <= |data| && part <= data[n..]
    ensures data[..n] + part <= data
    ensures part == data[n..] ==> data[..n] + part == data
  {
    assert data == data[..n] + data[n..];
  }

  lemma FrontJoin<T>(p: T, s: seq<T>)
    requires s != []
    ensures [p] + s[..|s| - 1] == ([p] + s)[..|s|]
  {}

  /** The bytes that a run of packets carries. */
  ghost function Carried(packets: seq<Packet>): seq<byte> {
    Stream(Payloads(packets), 0, |packets|)
  }

  lemma ChunkJoin(p: Packet, data: seq<byte>, n: nat, size: nat, rest: Sent)
    requires p.kind == StData && 0 < n <= |data| && n <= size && p.payload == data[..n]
    requires CarriesData(rest, data[n..]) && ChunkNumbers(rest.numbered, Wrap(p.seqNr + 1), size)
    ensures CarriesData(Prepend([p], [p], n, rest), data)
    ensures ChunkNumbers(Prepend([p], [p], n, rest).numbered, p.seqNr, size)
  {
    ChunkNumbersJoin(p, size, rest.numbered);
    StreamJoin(p, rest.numbered);
    assert Carried([p] + rest.numbered) == data[..n] + Carried(rest.numbered);
    assert Carried(rest.numbered) <= data[n..];
    hide ChunkNumbers, Stream, Payloads;
    PrefixJoin(data, n, Carried(rest.numbered));
    if rest.result.Err? {
      FrontJoin(p, rest.numbered);
    }
  }

  lemma StreamJoin(p: Packet, rest: seq<Packet>)
    ensures Stream(Payloads([p] + rest), 0, |rest| + 1) == p.payload + Stream(Payloads(rest), 0, |rest|)
  {
    assert ([p] + rest)[1..] == rest;
    assert Payloads([p] + rest) == [p.payload] + Payloads(rest);
    hide Payloads;
    StreamCons(p.payload, Payloads(rest), |rest|);
  }

  lemma ChunkNumbersJoin(p: Packet, size: nat, rest: seq<Packet>)
    requires p.kind == StData && 0 < |p.payload| <= size
    requires ChunkNumbers(rest, Wrap(p.seqNr + 1), size)
    ensures ChunkNumbers([p] + rest, p.seqNr, size)
  {
    var all := [p] + rest;
    forall i | 0 <= i < |all|
      ensures all[i].kind == StData && all[i].seqNr == Wrap(p.seqNr + i) && 0 < |all[i].payload| <= size
    {
      if i > 0 {
        assert all[i] == rest[i - 1];
      }
    }
  }

  // ---------------------------------------------------------------- reassembly

  /** The place of a number in the log of a sender whose first number is `first`. */
  function Place(first: int, number: int): nat {
    Wrap(number - first)
  }

  /** One above the place of `ackNr`, counted on from the place of `base`. */
  function Reached(rx: Rx, base: int, first: int): int {
    Place(first, base) + 1 + rx.ackNr - base
  }

  /** `taken` was read and `rx.ready` waits: together they are the peer's payloads
      numbered from `base + 1` to `ackNr`. The sender wraps its numbers, the receiver
      never passes 65535 and, having started on a wrapped number, never passes `first`. */
  ghost predicate InOrder(rx: Rx, taken: seq<byte>, base: int, first: int, log: seq<seq<byte>>) {
    && 0 <= first < 0x1_0000 && 0 <= base <= rx.ackNr
    && |log| <= 0x1_0000
    && (base < first ==> rx.ackNr < first)
    && (base < rx.ackNr ==> Reached(rx, base, first) <= |log|)
    && |rx.ready| <= MAX_READY_BYTES
    && taken + rx.ready == Stream(log, Place(first, base) + 1, Reached(rx, base, first))
  }

  /** Everything kept for later is numbered above `low` and is what the peer sent. */
  ghost predicate Buffered(buffer: map<u16, seq<byte>>, low: int, first: int, log: seq<seq<byte>>) {
    forall k :: k in buffer ==> low < k && k != first && Logged(first, log, k, buffer[k])
  }

  ghost predicate Logged(first: int, log: seq<seq<byte>>, number: int, payload: seq<byte>) {
    Place(first, number) < |log| && payload == log[Place(first, number)]
  }

  ghost predicate Reassembled(rx: Rx, taken: seq<byte>, base: int, first: int, log: seq<seq<byte>>) {
    InOrder(rx, taken, base, first, log) && Buffered(rx.recvBuffer, rx.ackNr + 1, first, log)
  }

  /** Delivering the packet after `ackNr` keeps the stream in order. */
  lemma DeliverNext(rx: Rx, rest: map<u16, seq<byte>>, data: seq<byte>, taken: seq<byte>,
                    base: int, first: int, log: seq<seq<byte>>)
    requires InOrder(rx, taken, base, first, log)
    requires rx.ackNr < 0xFFFF && rx.ackNr + 1 != first && Logged(first, log, rx.ackNr + 1, data)
    requires |rx.ready| + |data| <= MAX_READY_BYTES
    ensures InOrder(Rx(rx.ackNr + 1, rest, rx.ready + data), taken, base, first, log)
  {
    var from, end := Place(first, base) + 1, Reached(rx, base, first) + 1;
    assert Place(first, rx.ackNr + 1) == end - 1;
    assert Stream(log, from, end) == Stream(log, from, end - 1) + log[end - 1];
    assert taken + (rx.ready + data) == (taken + rx.ready) + data;
  }

  lemma {:induction false} DrainInOrder(rx: Rx, taken: seq<byte>, base: int, first: int, log: seq<seq<byte>>)
    requires InOrder(rx, taken, base, first, log) && Buffered(rx.recvBuffer, rx.ackNr, first, log)
    ensures Reassembled(Drain(rx, Wrap(rx.ackNr + 1)), taken, base, first, log)
    decreases |rx.recvBuffer|
  {
    hide InOrder;
    var next := Wrap(rx.ackNr + 1);
    if next in rx.recvBuffer {
      assert next == rx.ackNr + 1;
      var data, rest := rx.recvBuffer[next], rx.recvBuffer - {next};
      SubsetSize(rest.Keys, rx.recvBuffer.Keys);
      assert Buffered(rest, rx.ackNr + 1, first, log);
      if |rx.ready| + |data| > MAX_READY_BYTES {
        KeepOrder(rx, rest, taken, base, first, log);
      } else {
        DeliverNext(rx, rest, data, taken, base, first, log);
        DrainInOrder(Rx(next, rest, rx.ready + data), taken, base, first, log);
      }
    }
  }

  lemma KeepOrder(rx: Rx, rest: map<u16, seq<byte>>, taken: seq<byte>, base: int, first: int, log: seq<seq<byte>>)
    ensures InOrder(rx.(recvBuffer := rest), taken, base, first, log) == InOrder(rx, taken, base, first, log)
  {}

  /** The three ways in which the receiving half takes a packet. */
  lemma ReceiveCases(rx: Rx, seqNr: u16, payload: seq<byte>)
    ensures Receive(rx, seqNr, payload).0
         == (if seqNr == rx.ackNr + 1 && |rx.ready| + |payload| <= MAX_READY_BYTES then
               Drain(Rx(seqNr, rx.recvBuffer, rx.ready + payload), Wrap(seqNr + 1))
             else if seqNr > rx.ackNr + 1 then rx.(recvBuffer := rx.recvBuffer[seqNr := payload])
             else rx)
  {
    hide Drain;
  }

  /** Whatever logged packet arrives, reassembly stays in order. */
  lemma ReceiveInOrder(rx: Rx, seqNr: u16, payload: seq<byte>, taken: seq<byte>,
                       base: int, first: int, log: seq<seq<byte>>)
    requires Reassembled(rx, taken, base, first, log) && Logged(first, log, seqNr, payload)
    requires seqNr == first ==> first <= base
    ensures Reassembled(Receive(rx, seqNr, payload).0, taken, base, first, log)
  {
    assert base <= rx.ackNr;
    hide InOrder, Drain, Receive, Logged;
    ReceiveCases(rx, seqNr, payload);
    if seqNr == rx.ackNr + 1 && |rx.ready| + |payload| <= MAX_READY_BYTES {
      DeliverNext(rx, rx.recvBuffer, payload, taken, base, first, log);
      DrainInOrder(Rx(seqNr, rx.recvBuffer, rx.ready + payload), taken, base, first, log);
    } else if seqNr > rx.ackNr + 1 {
      KeepOrder(rx, rx.recvBuffer[seqNr := payload], taken, base, first, log);
    }
  }

  /** More packets sent by the peer do not disturb what was received. */
  lemma LogGrows(rx: Rx, taken: seq<byte>, base: int, first: int, log: seq<seq<byte>>, more: seq<seq<byte>>)
    requires Reassembled(rx, taken, base, first, log) && |log + more| <= 0x1_0000
    ensures Reassembled(rx, taken, base, first, log + more)
  {
    if base < rx.ackNr {
      StreamPrefix(log, more, Place(first, base) + 1, Reached(rx, base, first));
    }
  }

  // ---------------------------------------------------------------- the end of the number space

  function ReceiveEach(rx: Rx, packets: seq<Packet>): Rx {
    if packets == [] then rx
    else Receive(ReceiveEach(rx, packets[..|packets| - 1]), packets[|packets| - 1].seqNr, packets[|packets| - 1].payload).0
  }

  /** The receiver compares numbers without wrapping: after 65535 nothing is ever
      delivered or buffered again. */
  lemma {:induction false} StallsAfterLastNumber(rx: Rx, packets: seq<Packet>)
    requires rx.ackNr == 0xFFFF
    ensures ReceiveEach(rx, packets) == rx
  {
    if packets != [] {
      StallsAfterLastNumber(rx, packets[..|packets| - 1]);
    }
  }

  lemma {:induction false} DrainShrinks(rx: Rx, next: u16)
    ensures Drain(rx, next) == rx || |Drain(rx, next).recvBuffer| < |rx.recvBuffer|
    decreases |rx.recvBuffer|
  {
    if next in rx.recvBuffer {
      var data, rest := rx.recvBuffer[next], rx.recvBuffer - {next};
      SubsetSize(rest.Keys, rx.recvBuffer.Keys);
      assert |rest| == |rest.Keys| && |rx.recvBuffer| == |rx.recvBuffer.Keys|;
      if |rx.ready| + |data| <= MAX_READY_BYTES {
        DrainShrinks(Rx(next, rest, rx.ready + data), Wrap(next + 1));
      }
    }
  }

  /** The packet after `ackNr` advances the receiver exactly when the number does
      not wrap and the reader has room. */
  lemma NextAcceptedExactly(rx: Rx, payload: seq<byte>)
    ensures Receive(rx, Wrap(rx.ackNr + 1), payload).0 != rx
       <==> rx.ackNr < 0xFFFF && |rx.ready| + |payload| <= MAX_READY_BYTES
  {
    if rx.ackNr < 0xFFFF && |rx.ready| + |payload| <= MAX_READY_BYTES {
      DrainShrinks(rx.(ackNr := rx.ackNr + 1, ready := rx.ready + payload), Wrap(rx.ackNr + 2));
    }
  }
}
