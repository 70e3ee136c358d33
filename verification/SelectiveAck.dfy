/** The Selective ACK bitmask and the extension list behind a uTP header (BEP 29). */
module SelectiveAck {
  import opened Prelude
  import opened Bits

  const MIN_BYTES: nat := 4

  /** `acknowledges`: the bit of a packet, by its offset from `ack_nr + 2`. */
  predicate Acked(bitmask: seq<bv8>, offset: nat) {
    offset / 8 < |bitmask| && Bit(bitmask[offset / 8], offset % 8)
  }

  /** The set of offsets a bitmask stands for. */
  ghost function Members(bitmask: seq<bv8>): set<nat> {
    set o: nat | 0 <= o < 8 * |bitmask| && Acked(bitmask, o)
  }

  function Extended(bitmask: seq<bv8>, minBytes: nat): seq<bv8> {
    if minBytes > |bitmask| then bitmask + seq(DivCeil(minBytes, 4) * 4 - |bitmask|, _ => 0 as bv8)
    else bitmask
  }

  function SetAt(bitmask: seq<bv8>, offset: nat): seq<bv8> {
    var b := Extended(bitmask, offset / 8 + 1);
    b[offset / 8 := SetBit(b[offset / 8], offset % 8)]
  }

  function ClearAt(bitmask: seq<bv8>, offset: nat): seq<bv8> {
    if offset / 8 < |bitmask| then bitmask[offset / 8 := ClearBit(bitmask[offset / 8], offset % 8)]
    else bitmask
  }

  /** The lengths BEP 29 allows. */
  predicate ValidLength(n: nat) {
    n >= MIN_BYTES && n % 4 == 0
  }

  lemma ExtendedSame(bitmask: seq<bv8>, minBytes: nat)
    ensures |Extended(bitmask, minBytes)| >= minBytes
    ensures ValidLength(|bitmask|) ==> ValidLength(|Extended(bitmask, minBytes)|)
    ensures forall o: nat :: Acked(Extended(bitmask, minBytes), o) <==> Acked(bitmask, o)
  {
    forall o: nat
      ensures Acked(Extended(bitmask, minBytes), o) <==> Acked(bitmask, o)
    {
      ZeroBits(o % 8);
    }
  }

  /** Setting adds exactly one member. */
  lemma SetMember(bitmask: seq<bv8>, offset: nat)
    ensures Members(SetAt(bitmask, offset)) == Members(bitmask) + {offset}
    ensures ValidLength(|bitmask|) ==> ValidLength(|SetAt(bitmask, offset)|)
  {
    ExtendedSame(bitmask, offset / 8 + 1);
    var b, r := Extended(bitmask, offset / 8 + 1), SetAt(bitmask, offset);
    forall o: nat
      ensures Acked(r, o) <==> o == offset || Acked(bitmask, o)
    {
      BitUpdate(b[offset / 8], offset % 8, o % 8);
      assert Acked(b, o) <==> Acked(bitmask, o);
    }
    assert forall o: nat :: Acked(bitmask, o) ==> o < 8 * |bitmask|;
  }

  /** Clearing removes exactly one member. */
  lemma ClearMember(bitmask: seq<bv8>, offset: nat)
    ensures Members(ClearAt(bitmask, offset)) == Members(bitmask) - {offset}
    ensures |ClearAt(bitmask, offset)| == |bitmask|
  {
    if offset / 8 < |bitmask| {
      forall o: nat
        ensures Acked(ClearAt(bitmask, offset), o) <==> o != offset && Acked(bitmask, o)
      {
        BitUpdate(bitmask[offset / 8], offset % 8, o % 8);
      }
    }
  }

  datatype Op = Set(offset: nat) | Clear(offset: nat)

  function Apply(bitmask: seq<bv8>, ops: seq<Op>): seq<bv8>
    decreases |ops|
  {
    if ops == [] then bitmask
    else
      match ops[0]
      case Set(o) => Apply(SetAt(bitmask, o), ops[1..])
      case Clear(o) => Apply(ClearAt(bitmask, o), ops[1..])
  }

  ghost function ApplySet(s: set<nat>, ops: seq<Op>): set<nat>
    decreases |ops|
  {
    if ops == [] then s
    else
      match ops[0]
      case Set(o) => ApplySet(s + {o}, ops[1..])
      case Clear(o) => ApplySet(s - {o}, ops[1..])
  }

  /** The bitmask refines a set of offsets under any operations, and keeps a
      length that BEP 29 allows. */
  lemma {:induction false} RefinesSet(bitmask: seq<bv8>, ops: seq<Op>)
    ensures Members(Apply(bitmask, ops)) == ApplySet(Members(bitmask), ops)
    ensures ValidLength(|bitmask|) ==> ValidLength(|Apply(bitmask, ops)|)
    decreases |ops|
  {
    if ops != [] {
      match ops[0]
      case Set(o) =>
        SetMember(bitmask, o);
        RefinesSet(SetAt(bitmask, o), ops[1..]);
      case Clear(o) =>
        ClearMember(bitmask, o);
        RefinesSet(ClearAt(bitmask, o), ops[1..]);
    }
  }

  // ---------------------------------------------------------------- counting

  /** The members below `n`. */
  ghost function Below(bitmask: seq<bv8>, n: nat): set<nat> {
    set o: nat | o in Members(bitmask) && o < n
  }

  lemma BelowNext(bitmask: seq<bv8>, n: nat)
    ensures |Below(bitmask, n + 1)| == |Below(bitmask, n)| + BitCount(Acked(bitmask, n))
  {
    if Acked(bitmask, n) {
      assert Below(bitmask, n + 1) == Below(bitmask, n) + {n};
    } else {
      assert Below(bitmask, n + 1) == Below(bitmask, n);
    }
  }

  /** The low `k` bits, as the mask of a partial byte. */
  function LowMask(k: nat): bv8
    requires k <= 8
  {
    if k == 8 then 0xFF else (1 << k) - 1
  }

  function OnesBelow(b: bv8, k: nat): nat
    requires k <= 8
  {
    if k == 0 then 0 else OnesBelow(b, k - 1) + BitCount(Bit(b, k - 1))
  }

  lemma MaskedBit(b: bv8, k: nat, j: nat)
    requires k <= 8 && j < 8
    ensures Bit(b & LowMask(k), j) == (j < k && Bit(b, j))
  {
    hide Bit, LowMask;
    LowMaskBit(k, j);
    AndBit(b, LowMask(k), j);
  }

  lemma LowMaskBit(k: nat, j: nat)
    requires k <= 8 && j < 8
    ensures Bit(LowMask(k), j) == (j < k)
  {
    if k < 8 {
      Cases(k);
    }
    Cases(j);
  }

  lemma {:induction false} MaskedOnesBelow(b: bv8, k: nat, j: nat)
    requires k <= 8 && j <= 8
    ensures OnesBelow(b & LowMask(k), j) == OnesBelow(b, Min(j, k))
  {
    if j > 0 {
      MaskedOnesBelow(b, k, j - 1);
      MaskedBit(b, k, j - 1);
      hide LowMask, Bit;
    }
  }

  lemma OnesAllBits(b: bv8)
    ensures Ones(b) == OnesBelow(b, 8)
  {
    hide Bit;
    assert OnesBelow(b, 1) == BitCount(Bit(b, 0));
    assert OnesBelow(b, 2) == BitCount(Bit(b, 0)) + BitCount(Bit(b, 1));
    assert OnesBelow(b, 4) == OnesBelow(b, 2) + BitCount(Bit(b, 2)) + BitCount(Bit(b, 3));
    assert OnesBelow(b, 6) == OnesBelow(b, 4) + BitCount(Bit(b, 4)) + BitCount(Bit(b, 5));
    assert OnesBelow(b, 8) == OnesBelow(b, 6) + BitCount(Bit(b, 6)) + BitCount(Bit(b, 7));
  }

  lemma MaskedOnes(b: bv8, k: nat)
    requires k <= 8
    ensures Ones(b & LowMask(k)) == OnesBelow(b, k)
  {
    hide LowMask, Bit, Ones;
    OnesAllBits(b & LowMask(k));
    MaskedOnesBelow(b, k, 8);
  }

  lemma {:induction false} BelowByte(bitmask: seq<bv8>, i: nat, k: nat)
    requires i < |bitmask| && k <= 8
    ensures |Below(bitmask, 8 * i + k)| == |Below(bitmask, 8 * i)| + OnesBelow(bitmask[i], k)
  {
    if k > 0 {
      BelowByte(bitmask, i, k - 1);
      BelowNext(bitmask, 8 * i + k - 1);
      assert (8 * i + k - 1) / 8 == i && (8 * i + k - 1) % 8 == k - 1;
    }
  }

  lemma CountByte(bitmask: seq<bv8>, maxOffset: nat, i: nat, bits: nat)
    requires i < |bitmask| && bits <= 8 && 8 * i <= maxOffset && 8 * i + bits == Min(8 * (i + 1), maxOffset)
    ensures |Below(bitmask, Min(8 * (i + 1), maxOffset))|
         == |Below(bitmask, Min(8 * i, maxOffset))| + Ones(bitmask[i] & LowMask(bits))
  {
    hide Below, Ones, LowMask, OnesBelow;
    MaskedOnes(bitmask[i], bits);
    BelowByte(bitmask, i, bits);
  }

  lemma BelowAll(bitmask: seq<bv8>, n: nat)
    requires n >= 8 * |bitmask|
    ensures Below(bitmask, n) == Members(bitmask) == Below(bitmask, 8 * |bitmask|)
  {}

  /** Member offsets at or after `from`, ascending. */
  function AckedFrom(bitmask: seq<bv8>, from: nat): seq<nat>
    requires from <= 8 * |bitmask|
    decreases 8 * |bitmask| - from
  {
    if from == 8 * |bitmask| then []
    else (if Acked(bitmask, from) then [from] else []) + AckedFrom(bitmask, from + 1)
  }

  /** The offsets come out once each, in rising order. */
  lemma {:induction false} IterExact(bitmask: seq<bv8>, from: nat)
    requires from <= 8 * |bitmask|
    ensures forall o :: o in AckedFrom(bitmask, from) <==> from <= o && o in Members(bitmask)
    ensures forall i, j :: 0 <= i < j < |AckedFrom(bitmask, from)|
              ==> AckedFrom(bitmask, from)[i] < AckedFrom(bitmask, from)[j]
    decreases 8 * |bitmask| - from
  {
    if from < 8 * |bitmask| {
      IterExact(bitmask, from + 1);
      var rest := AckedFrom(bitmask, from + 1);
      assert forall i :: 0 <= i < |rest| ==> rest[i] in rest;
    }
  }

  // ---------------------------------------------------------------- the extension

  class SelectiveAck {
    const nextExtension: byte
    var bitmask: seq<bv8>

    ghost predicate Valid()
      reads this
    {
      ValidLength(|bitmask|)
    }

    constructor (nextExtension: byte)
      ensures Valid() && Members(bitmask) == {} && this.nextExtension == nextExtension
    {
      this.nextExtension := nextExtension;
      bitmask := seq(MIN_BYTES, _ => 0 as bv8);
      new;
      forall o: nat
        ensures !Acked(bitmask, o)
      {
        ZeroBits(o % 8);
      }
    }

    method Set(offset: nat)
      modifies this
      ensures bitmask == SetAt(old(bitmask), offset)
    {
      bitmask := Extended(bitmask, offset / 8 + 1);
      bitmask := bitmask[offset / 8 := SetBit(bitmask[offset / 8], offset % 8)];
    }

    method Clear(offset: nat)
      modifies this
      ensures bitmask == ClearAt(old(bitmask), offset)
    {
      if offset / 8 < |bitmask| {
        bitmask := bitmask[offset / 8 := ClearBit(bitmask[offset / 8], offset % 8)];
      }
    }

    method CountAckedInRange(maxOffset: nat) returns (count: nat)
      ensures count == |Below(bitmask, maxOffset)|
    {
      var maxByte := DivCeil(maxOffset, 8);
      var limit := Min(maxByte, |bitmask|);
      count := 0;
      assert Below(bitmask, 0) == {};
      hide Below, Ones, LowMask, OnesBelow;
      for i := 0 to limit
        invariant count == |Below(bitmask, Min(8 * i, maxOffset))|
      {
        var bits := if i == limit - 1 then Min(maxOffset - i * 8, 8) else 8;
        var masked := bitmask[i] & LowMask(bits);
        CountByte(bitmask, maxOffset, i, bits);
        count := count + Ones(masked);
      }
      if limit == |bitmask| && 8 * |bitmask| <= maxOffset {
        BelowAll(bitmask, maxOffset);
      }
    }
  }

  // ---------------------------------------------------------------- extension lists

  datatype Extension = Extension(kind: byte, data: seq<byte>)

  /** The list behind the header, for a first extension of type `kind`. */
  function ParseFrom(kind: byte, data: seq<byte>): Result<seq<Extension>>
    decreases |data|
  {
    if kind == 0 then Ok([])
    else if |data| < 2 then Err(PeerUtpInvalidHeader)
    else
      var len := data[1] as nat;
      if 2 + len > |data| then Err(PeerUtpInvalidHeader)
      else
        var rest :- ParseFrom(data[0], data[2 + len..]);
        Ok([Extension(kind, data[2..2 + len])] + rest)
  }

  method ParseExtensions(firstType: byte, data: seq<byte>) returns (r: Result<seq<Extension>>)
    ensures r == ParseFrom(firstType, data)
  {
    var extensions: seq<Extension> := [];
    var extType := firstType;
    var offset := 0;
    assert data[0..] == data;
    AfterNothing(ParseFrom(firstType, data));
    hide InFront;
    while extType != 0
      invariant 0 <= offset <= |data|
      invariant ParseFrom(firstType, data) == InFront(extensions, ParseFrom(extType, data[offset..]))
      decreases |data| - offset
    {
      ghost var rest := data[offset..];
      AfterEnd(extensions);
      if offset + 2 > |data| {
        return Err(PeerUtpInvalidHeader);
      }
      var nextExt := data[offset];
      var len := data[offset + 1] as nat;
      offset := offset + 2;
      if offset + len > |data| {
        return Err(PeerUtpInvalidHeader);
      }
      var extData := data[offset..offset + len];
      assert extData == rest[2..2 + len] && rest[2 + len..] == data[offset + len..];
      AfterOne(extensions, Extension(extType, extData), ParseFrom(nextExt, data[offset + len..]));
      extensions := extensions + [Extension(extType, extData)];
      offset := offset + len;
      extType := nextExt;
    }
    AfterEnd(extensions);
    return Ok(extensions);
  }

  lemma AfterNothing(r: Result<seq<Extension>>)
    ensures InFront([], r) == r
  {
    assert r.Ok? ==> [] + r.value == r.value;
  }

  lemma AfterEnd(done: seq<Extension>)
    ensures InFront(done, Ok([])) == Ok(done)
    ensures InFront(done, Err(PeerUtpInvalidHeader)) == Err(PeerUtpInvalidHeader)
  {
    assert done + [] == done;
  }

  lemma AfterOne(done: seq<Extension>, ext: Extension, r: Result<seq<Extension>>)
    ensures InFront(done, if r.Ok? then Ok([ext] + r.value) else r) == InFront(done + [ext], r)
  {
    if r.Ok? {
      Assoc(done, [ext], r.value);
    }
  }

  /** The type field in front of a list. */
  function FirstType(exts: seq<Extension>): byte {
    if exts == [] then 0 else exts[0].kind
  }

  predicate Encodable(exts: seq<Extension>) {
    forall i :: 0 <= i < |exts| ==> exts[i].kind != 0 && |exts[i].data| <= 255
  }

  function Serialize(exts: seq<Extension>): seq<byte>
    requires Encodable(exts)
  {
    if exts == [] then []
    else [FirstType(exts[1..]), |exts[0].data| as byte] + exts[0].data + Serialize(exts[1..])
  }

  /** Parsing a serialised list gives the list back, whatever follows it. */
  lemma {:induction false} SerializeParse(exts: seq<Extension>, tail: seq<byte>)
    requires Encodable(exts)
    ensures ParseFrom(FirstType(exts), Serialize(exts) + tail) == Ok(exts)
  {
    if exts != [] {
      hide ParseFrom;
      var e, rest := exts[0], exts[1..];
      Assoc([FirstType(rest), |e.data| as byte] + e.data, Serialize(rest), tail);
      hide Serialize;
      SerializeParse(rest, tail);
      ParseOne(e, FirstType(rest), Serialize(rest) + tail);
      assert exts == [e] + rest;
    }
  }

  lemma ParseOne(e: Extension, next: byte, tail: seq<byte>)
    requires e.kind != 0 && |e.data| <= 255
    ensures ParseFrom(e.kind, [next, |e.data| as byte] + e.data + tail)
         == if ParseFrom(next, tail).Ok? then Ok([e] + ParseFrom(next, tail).value) else ParseFrom(next, tail)
  {
    var d := [next, |e.data| as byte] + e.data + tail;
    assert d[2..2 + |e.data|] == e.data;
    assert d[2 + |e.data|..] == tail;
  }

  /** Whatever parses, is the serialised form of what it parses to. */
  lemma {:induction false} ParseSerialize(kind: byte, data: seq<byte>)
    requires ParseFrom(kind, data).Ok?
    ensures var exts := ParseFrom(kind, data).value;
            Encodable(exts) && kind == FirstType(exts) && Serialize(exts) <= data
    decreases |data|
  {
    if kind != 0 {
      var len := data[1] as nat;
      var tail := data[2 + len..];
      ParseSerialize(data[0], tail);
      var rest := ParseFrom(data[0], tail).value;
      var exts := ParseFrom(kind, data).value;
      assert exts[1..] == rest;
      assert data == [data[0], data[1]] + data[2..2 + len] + tail;
    }
  }

  /** `to_extension_bytes`; the length is cut to one byte. */
  function ExtensionBytes(nextExtension: byte, mask: seq<byte>): seq<byte> {
    [nextExtension, (|mask| % 256) as byte] + mask
  }

  /** A Selective ACK at the end of the list is read back whole exactly when its
      mask is shorter than 256 bytes. */
  lemma ExtensionBytesExact(kind: byte, mask: seq<byte>)
    requires kind != 0
    ensures ParseFrom(kind, ExtensionBytes(0, mask)) == Ok([Extension(kind, mask)]) <==> |mask| < 256
  {
    var d := ExtensionBytes(0, mask);
    var len := |mask| % 256;
    assert d[2..2 + len] == mask[..len];
    assert [Extension(kind, mask[..len])] + [] == [Extension(kind, mask[..len])];
    assert ParseFrom(kind, d) == Ok([Extension(kind, mask[..len])]);
    if |mask| < 256 {
      assert mask[..len] == mask;
    } else {
      assert |mask[..len]| != |mask|;
      assert [Extension(kind, mask[..len])][0] != [Extension(kind, mask)][0];
    }
  }
}
