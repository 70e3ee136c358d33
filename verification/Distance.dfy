/** The Kademlia XOR metric on 160-bit identifiers (BEP 5, "Routing Table"). */
module Distance {
  import opened Prelude

  const ID_LENGTH: nat := 20
  const NUM_BUCKETS: nat := 160

  type Id = s: seq<byte> | |s| == ID_LENGTH witness seq(ID_LENGTH, _ => 0)

  /** Exclusive or of the low `k` bits, one binary digit at a time. */
  function XorBits(a: nat, b: nat, k: nat): (r: nat)
    ensures r < Pow2(k)
  {
    if k == 0 then 0 else 2 * XorBits(a / 2, b / 2, k - 1) + (if a % 2 != b % 2 then 1 else 0)
  }

  function XorByte(a: byte, b: byte): byte {
    assert Pow2(4) == 16 && Pow2(6) == 64 && Pow2(8) == 256;
    XorBits(a as nat, b as nat, 8) as byte
  }

  function Xor(a: seq<byte>, b: seq<byte>): (d: seq<byte>)
    requires |a| == |b|
    ensures |d| == |a|
    ensures forall i :: 0 <= i < |a| ==> d[i] == XorByte(a[i], b[i])
  {
    if a == [] then [] else [XorByte(a[0], b[0])] + Xor(a[1..], b[1..])
  }

  /** `u8::leading_zeros`. */
  function LeadingZeros(b: byte): nat {
    if b >= 128 then 0 else if b >= 64 then 1 else if b >= 32 then 2 else if b >= 16 then 3
    else if b >= 8 then 4 else if b >= 4 then 5 else if b >= 2 then 6 else if b >= 1 then 7 else 8
  }

  /** The first differing bit, from byte `from` on; 0 for the same id. */
  function BucketFrom(our: Id, node: Id, from: nat): nat
    requires from <= ID_LENGTH
    decreases ID_LENGTH - from
  {
    if from == ID_LENGTH then 0
    else
      var diff := XorByte(our[from], node[from]);
      if diff != 0 then from * 8 + LeadingZeros(diff) else BucketFrom(our, node, from + 1)
  }

  function BucketIndex(our: Id, node: Id): (i: nat)
    ensures i < NUM_BUCKETS
  {
    BucketInRange(our, node, 0);
    BucketFrom(our, node, 0)
  }

  lemma {:induction false} BucketInRange(our: Id, node: Id, from: nat)
    requires from <= ID_LENGTH
    ensures BucketFrom(our, node, from) < NUM_BUCKETS
    decreases ID_LENGTH - from
  {
    if from < ID_LENGTH {
      BucketInRange(our, node, from + 1);
    }
  }

  method XorDistance(a: Id, b: Id) returns (dist: Id)
    ensures dist == Xor(a, b)
  {
    var d := new byte[ID_LENGTH](_ => 0);
    for i := 0 to ID_LENGTH
      invariant forall k :: 0 <= k < i ==> d[k] == XorByte(a[k], b[k])
    {
      d[i] := XorByte(a[i], b[i]);
    }
    dist := d[..];
    assert dist == Xor(a, b);
  }

  method FindBucket(our: Id, node: Id) returns (index: nat)
    ensures index == BucketIndex(our, node)
  {
    for i := 0 to ID_LENGTH
      invariant BucketFrom(our, node, 0) == BucketFrom(our, node, i)
    {
      var diff := XorByte(our[i], node[i]);
      if diff != 0 {
        return i * 8 + LeadingZeros(diff);
      }
    }
    return 0;
  }

  // ---------------------------------------------------------------- the metric

  /** A byte string as a big-endian number. */
  function Number(d: seq<byte>): nat {
    if d == [] then 0 else d[0] as nat * Pow2(8 * (|d| - 1)) + Number(d[1..])
  }

  lemma {:induction false} Pow2Monotone(a: nat, b: nat)
    requires a < b
    ensures 2 * Pow2(a) <= Pow2(b)
    decreases b
  {
    if a < b - 1 {
      Pow2Monotone(a, b - 1);
    }
  }

  lemma {:induction false} Pow2Sum(a: nat, b: nat)
    ensures Pow2(a + b) == Pow2(a) * Pow2(b)
  {
    if a > 0 {
      Pow2Sum(a - 1, b);
      Associate(Pow2(a - 1), Pow2(b));
    }
  }

  lemma Associate(x: nat, y: nat)
    ensures 2 * (x * y) == (2 * x) * y
  {}

  lemma Pow2Byte(n: nat)
    ensures Pow2(8 * (n + 1)) == 256 * Pow2(8 * n)
  {
    Pow2Sum(8, 8 * n);
    assert Pow2(8) == 256 by {
      assert Pow2(4) == 16;
    }
  }

  lemma {:induction false} NumberBound(d: seq<byte>)
    ensures Number(d) < Pow2(8 * |d|)
  {
    if d != [] {
      NumberBound(d[1..]);
      Pow2Byte(|d| - 1);
      Bounded(d[0] as nat, Pow2(8 * (|d| - 1)), Number(d[1..]));
    }
  }

  lemma Bounded(x: nat, p: nat, r: nat)
    requires x < 256 && r < p
    ensures x * p + r < 256 * p
  {
    assert x * p <= 255 * p;
  }

  lemma {:induction false} XorBitsFacts(a: nat, b: nat, t: nat, k: nat)
    requires a < Pow2(k) && b < Pow2(k)
    ensures XorBits(a, b, k) == XorBits(b, a, k)
    ensures XorBits(a, b, k) == 0 <==> a == b
    ensures XorBits(a, t, k) == XorBits(b, t, k) <==> a == b
  {
    if k > 0 {
      XorBitsFacts(a / 2, b / 2, t / 2, k - 1);
      assert a == 2 * (a / 2) + a % 2 && b == 2 * (b / 2) + b % 2;
    }
  }

  /** `0` exactly for equal bytes; the other byte is determined by the distance. */
  lemma XorByteFacts(a: byte, b: byte, t: byte)
    ensures XorByte(a, b) == XorByte(b, a)
    ensures XorByte(a, b) == 0 <==> a == b
    ensures XorByte(a, t) == XorByte(b, t) <==> a == b
  {
    assert Pow2(4) == 16 && Pow2(6) == 64 && Pow2(8) == 256;
    hide Pow2, XorBits;
    XorBitsFacts(a as nat, b as nat, t as nat, 8);
  }

  /** Distances to one target tell ids apart, and only an id itself is at distance 0. */
  lemma DistancesDistinct(a: Id, b: Id, target: Id)
    ensures Xor(a, target) == Xor(b, target) <==> a == b
    ensures Xor(a, b) == Xor(b, a)
    ensures Number(Xor(a, b)) == 0 <==> a == b
  {
    forall i | 0 <= i < ID_LENGTH
      ensures XorByte(a[i], target[i]) == XorByte(b[i], target[i]) <==> a[i] == b[i]
      ensures Xor(a, b)[i] == Xor(b, a)[i]
      ensures Xor(a, b)[i] == 0 <==> a[i] == b[i]
    {
      XorByteFacts(a[i], b[i], target[i]);
    }
    if Xor(a, target) == Xor(b, target) {
      assert forall i :: 0 <= i < ID_LENGTH ==> a[i] == b[i];
    }
    NumberZero(Xor(a, b));
  }

  lemma {:induction false} NumberZero(d: seq<byte>)
    ensures Number(d) == 0 <==> forall i :: 0 <= i < |d| ==> d[i] == 0
  {
    if d != [] {
      var rest := d[1..];
      NumberZero(rest);
      PositiveTerm(d[0] as nat, 8 * (|d| - 1));
      assert Number(d) == d[0] as nat * Pow2(8 * (|d| - 1)) + Number(rest);
      assert Number(d) == 0 <==> d[0] == 0 && Number(rest) == 0;
      hide Pow2, Number;
      assert forall i :: 0 < i < |d| ==> d[i] == rest[i - 1];
      assert forall i :: 0 <= i < |rest| ==> rest[i] == d[i + 1];
    }
  }

  lemma {:induction false} Pow2Positive(n: nat)
    ensures Pow2(n) > 0
  {
    if n > 0 {
      Pow2Positive(n - 1);
    }
  }

  lemma PositiveTerm(x: nat, n: nat)
    ensures x * Pow2(n) == 0 <==> x == 0
  {
    Pow2Positive(n);
  }

  /** The order of distances as byte arrays is the order of the numbers. */
  lemma {:induction false} ByteOrderIsNumeric(d: seq<byte>, e: seq<byte>)
    requires |d| == |e|
    ensures LexLeq(d, e) <==> Number(d) <= Number(e)
  {
    if d != [] {
      ByteOrderIsNumeric(d[1..], e[1..]);
      NumberBound(d[1..]);
      NumberBound(e[1..]);
      Digits(d[0] as nat, e[0] as nat, Pow2(8 * (|d| - 1)), Number(d[1..]), Number(e[1..]));
    }
  }

  lemma Digits(x: nat, y: nat, p: nat, r: nat, s: nat)
    requires r < p && s < p
    ensures x * p + r <= y * p + s <==> x < y || (x == y && r <= s)
  {
    if x < y {
      assert (x + 1) * p <= y * p;
    } else if y < x {
      assert (y + 1) * p <= x * p;
    }
  }

  // ---------------------------------------------------------------- buckets and distance

  lemma LeadingZerosExact(b: byte)
    requires b != 0
    ensures LeadingZeros(b) < 8
    ensures Pow2(7 - LeadingZeros(b)) <= b as nat < Pow2(8 - LeadingZeros(b))
  {
    assert Pow2(1) == 2 && Pow2(2) == 4 && Pow2(3) == 8;
    assert Pow2(4) == 16 && Pow2(5) == 32;
    assert Pow2(6) == 64 && Pow2(7) == 128;
    assert Pow2(8) == 256;
  }

  /** The first set bit of a distance, from byte `from` on. */
  ghost function FirstBit(d: Id, from: nat): nat
    requires from <= ID_LENGTH
    decreases ID_LENGTH - from
  {
    if from == ID_LENGTH then 0
    else if d[from] != 0 then from * 8 + LeadingZeros(d[from]) else FirstBit(d, from + 1)
  }

  lemma {:induction false} BucketIsFirstBit(our: Id, node: Id, from: nat)
    requires from <= ID_LENGTH
    ensures BucketFrom(our, node, from) == FirstBit(Xor(our, node), from)
    decreases ID_LENGTH - from
  {
    hide LeadingZeros, Xor;
    if from < ID_LENGTH {
      BucketIsFirstBit(our, node, from + 1);
    }
  }

  lemma NumberStep(d: Id, from: nat)
    requires from < ID_LENGTH
    ensures Number(d[from..]) == d[from] as nat * Pow2(8 * (19 - from)) + Number(d[from + 1..])
  {
    var t := d[from..];
    assert t[0] == d[from] && t[1..] == d[from + 1..];
    hide Pow2;
    assert Number(t) == t[0] as nat * Pow2(8 * (|t| - 1)) + Number(t[1..]);
  }

  /** The number written by the distance bytes from `from` on has its top bit at the first set bit. */
  lemma {:induction false} FirstBitIsTop(d: Id, from: nat)
    requires from <= ID_LENGTH && Number(d[from..]) != 0
    ensures TopBitAt(FirstBit(d, from), Number(d[from..]))
    decreases ID_LENGTH - from
  {
    if from == ID_LENGTH {
      assert false;
    } else {
      NumberStep(d, from);
      hide Number, Pow2, TopBitAt, LeadingZeros;
      if d[from] == 0 {
        assert 0 * Pow2(8 * (19 - from)) == 0;
        FirstBitIsTop(d, from + 1);
      } else {
        TopBit(d[from], d[from + 1..], from);
      }
    }
  }

  ghost predicate TopBitAt(i: nat, v: nat) {
    i < NUM_BUCKETS && Pow2(159 - i) <= v < Pow2(160 - i)
  }

  lemma TopBit(b: byte, rest: seq<byte>, from: nat)
    requires b != 0 && from + 1 + |rest| == ID_LENGTH
    ensures TopBitAt(8 * from + LeadingZeros(b), b as nat * Pow2(8 * (19 - from)) + Number(rest))
  {
    var n, z := 8 * |rest|, LeadingZeros(b);
    LeadingZerosExact(b);
    NumberBound(rest);
    Pow2Sum(7 - z, n);
    Pow2Sum(8 - z, n);
    hide Pow2, Number, LeadingZeros;
    Between(b as nat, Pow2(7 - z), Pow2(8 - z), Pow2(n), Number(rest));
    assert 159 - (8 * from + z) == 7 - z + n && 160 - (8 * from + z) == 8 - z + n;
  }

  lemma MulMonotone(x: nat, y: nat, p: nat)
    requires x <= y
    ensures x * p <= y * p
  {}

  lemma Between(b: nat, lo: nat, hi: nat, p: nat, r: nat)
    requires lo <= b < hi && r < p
    ensures lo * p <= b * p + r < hi * p
  {
    MulMonotone(lo, b, p);
    MulMonotone(b + 1, hi, p);
    assert (b + 1) * p == b * p + p;
  }

  lemma TopBitUnique(i: nat, k: nat, v: nat)
    requires i < k
    ensures !(TopBitAt(i, v) && TopBitAt(k, v))
  {
    if k < NUM_BUCKETS {
      AtMost(160 - k, 159 - i);
    }
  }

  lemma AtMost(a: nat, b: nat)
    requires a <= b
    ensures Pow2(a) <= Pow2(b)
  {
    if a < b {
      Pow2Monotone(a, b);
    }
  }

  /** For distinct ids the bucket is `i` exactly when the distance is in [2^(159-i), 2^(160-i)). */
  lemma BucketExact(our: Id, node: Id, i: nat)
    requires our != node && i < NUM_BUCKETS
    ensures BucketIndex(our, node) == i <==> Pow2(159 - i) <= Number(Xor(our, node)) < Pow2(160 - i)
  {
    var d, k := Xor(our, node), BucketIndex(our, node);
    assert d[0..] == d;
    BucketIsFirstBit(our, node, 0);
    DistancesDistinct(our, node, our);
    hide Pow2, Number, Xor, BucketFrom, FirstBit;
    FirstBitIsTop(d, 0);
    if k < i {
      TopBitUnique(k, i, Number(d));
    } else if i < k {
      TopBitUnique(i, k, Number(d));
    }
  }
}
