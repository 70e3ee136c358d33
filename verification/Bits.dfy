/** Single bits of a byte. */
module Bits {
  function Bit(b: bv8, k: nat): bool
    requires k < 8
  {
    (b >> k) & 1 == 1
  }

  function SetBit(b: bv8, k: nat): bv8
    requires k < 8
  {
    b | (1 << k)
  }

  function ClearBit(b: bv8, k: nat): bv8
    requires k < 8
  {
    b & !(1 << k)
  }

  lemma OrBit(b: bv8, m: bv8, j: nat)
    requires j < 8
    ensures Bit(b | m, j) == (Bit(b, j) || Bit(m, j))
  {
    Cases(j);
  }

  lemma NotBit(m: bv8, j: nat)
    requires j < 8
    ensures Bit(!m, j) == !Bit(m, j)
  {
    Cases(j);
  }

  lemma AndBit(b: bv8, m: bv8, j: nat)
    requires j < 8
    ensures Bit(b & m, j) == (Bit(b, j) && Bit(m, j))
  {
    assert b & m == !(!b | !m);
    hide Bit;
    NotBit(b, j);
    NotBit(m, j);
    OrBit(!b, !m, j);
    NotBit(!b | !m, j);
  }

  lemma OneBit(k: nat, j: nat)
    requires k < 8 && j < 8
    ensures Bit(1 << k, j) == (j == k)
  {
    Cases(k);
    Cases(j);
  }

  /** Setting or clearing a bit changes that bit and no other. */
  lemma BitUpdate(b: bv8, k: nat, j: nat)
    requires k < 8 && j < 8
    ensures Bit(SetBit(b, k), j) == (j == k || Bit(b, j))
    ensures Bit(ClearBit(b, k), j) == (j != k && Bit(b, j))
  {
    hide Bit;
    var m: bv8 := 1 << k;
    OneBit(k, j);
    OrBit(b, m, j);
    AndBit(b, !m, j);
    NotBit(m, j);
  }

  lemma Cases(k: nat)
    requires k < 8
    ensures k == 0 || k == 1 || k == 2 || k == 3 || k == 4 || k == 5 || k == 6 || k == 7
  {}

  lemma ZeroBits(j: nat)
    requires j < 8
    ensures !Bit(0, j)
  {
    Cases(j);
  }

  function BitCount(b: bool): nat {
    if b then 1 else 0
  }

  /** `count_ones`. */
  function Ones(b: bv8): nat {
    BitCount(Bit(b, 0)) + BitCount(Bit(b, 1)) + BitCount(Bit(b, 2)) + BitCount(Bit(b, 3))
    + BitCount(Bit(b, 4)) + BitCount(Bit(b, 5)) + BitCount(Bit(b, 6)) + BitCount(Bit(b, 7))
  }
}
