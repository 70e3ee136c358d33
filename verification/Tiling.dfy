/** How fixed-size pieces tile the bytes of a torrent. */
module Tiling {
  import opened Prelude

  function PieceOffset(index: nat, pieceLength: nat): nat {
    index * pieceLength
  }

  /** `piece_len_for_index`; the last piece takes what is left of the total. */
  function PieceLen(index: nat, numPieces: nat, pieceLength: nat, total: nat): int {
    if index >= numPieces then 0
    else if index == numPieces - 1 then total - index * pieceLength
    else pieceLength
  }

  /** The part of `data` that piece `index` covers. */
  function Tile<T>(data: seq<T>, index: nat, p: nat): seq<T> {
    var start := PieceOffset(index, p);
    if start <= |data| then data[start..Min(start + p, |data|)] else []
  }

  lemma DivUnique(n: nat, p: nat, q: nat, r: nat)
    requires p > 0 && n == q * p + r && r < p
    ensures n / p == q && n % p == r
  {
    var d := n / p;
    assert n == d * p + n % p;
    if d < q {
      MulStep(d, q, p);
    } else if q < d {
      MulStep(q, d, p);
    }
  }

  lemma {:induction false} MulStep(i: nat, j: nat, p: nat)
    requires i < j
    ensures i * p + p <= j * p
    decreases j
  {
    assert j * p == (j - 1) * p + p;
    if i < j - 1 {
      MulStep(i, j - 1, p);
    }
  }

  /** The number of pieces that cover `total` bytes, as a product. */
  lemma CeilBounds(total: nat, p: nat)
    requires p > 0
    ensures var n := DivCeil(total, p);
            && total <= n * p
            && (total > 0 ==> n > 0 && (n - 1) * p < total)
            && (total == 0 ==> n == 0)
  {
    var n := DivCeil(total, p);
    assert total + p - 1 == n * p + (total + p - 1) % p;
    if total > 0 {
      assert n == 0 ==> n * p == 0;
      assert (n - 1) * p == n * p - p;
    } else {
      DivUnique(p - 1, p, 0, p - 1);
    }
  }

  lemma CeilUnique(total: nat, p: nat, n: nat)
    requires p > 0 && total <= n * p && (n > 0 ==> (n - 1) * p < total)
    ensures n == DivCeil(total, p)
  {
    if n > 0 {
      assert (n - 1) * p == n * p - p;
      DivUnique(total + p - 1, p, n, total + p - 1 - n * p);
    } else {
      assert total == 0;
      DivUnique(p - 1, p, 0, p - 1);
    }
  }

  /** With the right number of pieces, every piece is a non-empty part of the
      torrent, and it is the part of its tile that exists. */
  lemma PieceInside(index: nat, p: nat, total: nat)
    requires p > 0 && index < DivCeil(total, p)
    ensures var n := DivCeil(total, p);
            && PieceOffset(index, p) < total
            && PieceLen(index, n, p, total) == Min(p, total - PieceOffset(index, p))
            && 0 < PieceLen(index, n, p, total) <= p
  {
    var n := DivCeil(total, p);
    CeilBounds(total, p);
    assert (n - 1) * p == n * p - p;
    if index < n - 1 {
      MulStep(index, n - 1, p);
    }
  }

  /** Every byte lies in the piece that division gives, and in no other. */
  lemma ByteInPiece(b: nat, index: nat, p: nat)
    requires p > 0
    ensures PieceOffset(index, p) <= b < PieceOffset(index, p) + p <==> b / p == index
  {
    assert b == (b / p) * p + b % p;
    if PieceOffset(index, p) <= b < PieceOffset(index, p) + p {
      DivUnique(b, p, index, b - index * p);
    }
  }

  /** Every byte of the torrent has a piece. */
  lemma ByteHasPiece(b: nat, p: nat, total: nat)
    requires p > 0 && b < total
    ensures b / p < DivCeil(total, p)
  {
    CeilBounds(total, p);
    var q, n := b / p, DivCeil(total, p);
    assert q * p <= b;
    if n <= q {
      if n < q {
        MulStep(n, q, p);
      }
      assert false;
    }
  }
}
