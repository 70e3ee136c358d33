/** Which pieces are complete, and the bitfield sent to peers. */
module Pieces {
  import opened Prelude
  import opened Bits

  /** Indices at or after `from` of missing pieces, ascending. */
  function MissingFrom(bitfield: seq<bool>, from: nat): seq<nat>
    requires from <= |bitfield|
    decreases |bitfield| - from
  {
    if from == |bitfield| then []
    else (if bitfield[from] then [] else [from]) + MissingFrom(bitfield, from + 1)
  }

  lemma {:induction false} MissingMembers(bitfield: seq<bool>, from: nat)
    requires from <= |bitfield|
    ensures forall k :: k in MissingFrom(bitfield, from) <==> from <= k < |bitfield| && !bitfield[k]
    decreases |bitfield| - from
  {
    if from < |bitfield| {
      MissingMembers(bitfield, from + 1);
      var rest := MissingFrom(bitfield, from + 1);
      assert MissingFrom(bitfield, from) == (if bitfield[from] then [] else [from]) + rest;
      hide MissingFrom;
    }
  }

  lemma {:induction false} MissingExact(bitfield: seq<bool>, from: nat)
    requires from <= |bitfield|
    ensures forall k :: k in MissingFrom(bitfield, from) <==> from <= k < |bitfield| && !bitfield[k]
    ensures forall i, j :: 0 <= i < j < |MissingFrom(bitfield, from)|
              ==> MissingFrom(bitfield, from)[i] < MissingFrom(bitfield, from)[j]
    decreases |bitfield| - from
  {
    MissingMembers(bitfield, from);
    if from < |bitfield| {
      MissingExact(bitfield, from + 1);
      var rest := MissingFrom(bitfield, from + 1);
      assert MissingFrom(bitfield, from) == (if bitfield[from] then [] else [from]) + rest;
      hide MissingFrom;
      assert forall i :: 0 <= i < |rest| ==> rest[i] in rest;
    }
  }

  /** Bit `i` of a bitfield message, most significant bit first. */
  predicate MessageBit(bytes: seq<bv8>, i: nat) {
    i / 8 < |bytes| && Bit(bytes[i / 8], 7 - i % 8)
  }

  class PieceManager {
    const numPieces: nat
    var bitfield: seq<bool>

    ghost predicate Valid()
      reads this
    {
      |bitfield| == numPieces
    }

    constructor (numPieces: nat)
      ensures Valid() && this.numPieces == numPieces
      ensures forall i :: 0 <= i < numPieces ==> !bitfield[i]
    {
      this.numPieces := numPieces;
      bitfield := seq(numPieces, _ => false);
    }

    method SetPiece(index: nat)
      requires Valid()
      modifies this
      ensures Valid()
      ensures bitfield == if index < numPieces then old(bitfield)[index := true] else old(bitfield)
    {
      if index < numPieces {
        bitfield := bitfield[index := true];
      }
    }

    predicate HasPiece(index: nat)
      requires Valid()
      reads this
    {
      index < numPieces && bitfield[index]
    }

    function MissingPieces(): seq<nat>
      reads this
    {
      MissingFrom(bitfield, 0)
    }

    /** The message has one bit per piece, and the padding bits are clear. */
    method ToBitfield() returns (bytes: seq<bv8>)
      requires Valid()
      ensures |bytes| == DivCeil(numPieces, 8)
      ensures forall i :: 0 <= i < 8 * |bytes| ==> (MessageBit(bytes, i) <==> i < numPieces && bitfield[i])
    {
      bytes := seq(DivCeil(numPieces, 8), _ => 0);
      forall i | 0 <= i < 8 * |bytes|
        ensures !MessageBit(bytes, i)
      {
        ZeroBits(7 - i % 8);
      }
      for k := 0 to numPieces
        invariant |bytes| == DivCeil(numPieces, 8)
        invariant forall i :: 0 <= i < 8 * |bytes| ==> (MessageBit(bytes, i) <==> i < k && bitfield[i])
      {
        if bitfield[k] {
          ghost var before := bytes;
          bytes := bytes[k / 8 := SetBit(bytes[k / 8], 7 - k % 8)];
          forall i | 0 <= i < 8 * |bytes|
            ensures MessageBit(bytes, i) <==> i == k || MessageBit(before, i)
          {
            BitUpdate(before[k / 8], 7 - k % 8, 7 - i % 8);
          }
        }
      }
    }
  }
}
