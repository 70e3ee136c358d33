/** Where the files of a torrent lie in its byte stream, and how much of each is downloaded. */
module Progress {
  import opened Prelude
  import opened Tiling
  import opened Metainfo

  datatype FileOffset = FileOffset(offset: nat, length: nat, path: seq<Text>)

  datatype FileStatus = FileStatus(path: seq<Text>, length: nat, downloaded: nat, progress: real)

  /** `downloaded / length` without rounding; an empty file counts as complete. */
  function Fraction(downloaded: nat, length: nat): real {
    if length > 0 then downloaded as real / length as real else 1.0
  }

  function SumLengths(files: seq<FileInfo>): nat {
    if files == [] then 0 else files[0].length + SumLengths(files[1..])
  }

  /** `total_size`, without the wrap of a u64 sum. */
  function TotalSize(mode: Mode): nat {
    match mode
    case Single(_, length) => length
    case Multiple(_, files) => SumLengths(files)
  }

  function OffsetsFrom(files: seq<FileInfo>, offset: nat): (r: seq<FileOffset>)
    ensures |r| == |files|
  {
    if files == [] then []
    else [FileOffset(offset, files[0].length, files[0].path)]
         + OffsetsFrom(files[1..], offset + files[0].length)
  }

  function Offsets(mode: Mode): seq<FileOffset> {
    match mode
    case Single(name, length) => [FileOffset(0, length, [name])]
    case Multiple(_, files) => OffsetsFrom(files, 0)
  }

  method FileOffsets(mode: Mode) returns (offsets: seq<FileOffset>)
    ensures offsets == Offsets(mode)
  {
    match mode
    case Single(name, length) =>
      offsets := [FileOffset(0, length, [name])];
    case Multiple(_, files) =>
      var offset := 0;
      offsets := [];
      for i := 0 to |files|
        invariant offset >= 0
        invariant offsets + OffsetsFrom(files[i..], offset) == OffsetsFrom(files, 0)
      {
        assert files[i..][1..] == files[i + 1..];
        var f := files[i];
        Assoc(offsets, [FileOffset(offset, f.length, f.path)], OffsetsFrom(files[i + 1..], offset + f.length));
        offsets := offsets + [FileOffset(offset, f.length, f.path)];
        offset := offset + f.length;
      }
  }

  /** Consecutive files that end at `total`. */
  ghost predicate Tiles(offsets: seq<FileOffset>, start: nat, total: nat) {
    if offsets == [] then start == total
    else offsets[0].offset == start && Tiles(offsets[1..], start + offsets[0].length, total)
  }

  lemma {:induction false} OffsetsTile(files: seq<FileInfo>, start: nat)
    ensures Tiles(OffsetsFrom(files, start), start, start + SumLengths(files))
  {
    if files != [] {
      OffsetsTile(files[1..], start + files[0].length);
      assert OffsetsFrom(files, start)[1..] == OffsetsFrom(files[1..], start + files[0].length);
    }
  }

  /** The files of a torrent cover its bytes without gap or overlap. */
  lemma FilesTile(mode: Mode)
    ensures Tiles(Offsets(mode), 0, TotalSize(mode))
  {
    if mode.Multiple? {
      OffsetsTile(mode.files, 0);
    } else {
      assert Offsets(mode)[1..] == [];
    }
  }

  lemma {:induction false} TileBounds(offsets: seq<FileOffset>, start: nat, total: nat, k: nat)
    requires Tiles(offsets, start, total) && k < |offsets|
    ensures start <= offsets[k].offset && offsets[k].offset + offsets[k].length <= total
    ensures forall j :: k < j < |offsets| ==> offsets[k].offset + offsets[k].length <= offsets[j].offset
  {
    var rest, next := offsets[1..], start + offsets[0].length;
    TileEnd(rest, next, total);
    if k == 0 {
      forall j | 0 < j < |offsets|
        ensures next <= offsets[j].offset
      {
        TileBounds(rest, next, total, j - 1);
      }
    } else {
      TileBounds(rest, next, total, k - 1);
      assert forall j :: k < j < |offsets| ==> offsets[j] == rest[j - 1];
    }
  }

  lemma {:induction false} TileEnd(offsets: seq<FileOffset>, start: nat, total: nat)
    requires Tiles(offsets, start, total)
    ensures start <= total
  {
    if offsets != [] {
      TileEnd(offsets[1..], start + offsets[0].length, total);
    }
  }

  // ---------------------------------------------------------------- counting bytes

  /** Byte `b` lies in a completed piece. */
  ghost predicate Have(bitfield: seq<bool>, p: nat, b: nat) {
    p > 0 && b / p < |bitfield| && bitfield[b / p]
  }

  /** The number of bytes from `lo` up to `hi` that lie in completed pieces. */
  ghost function Count(bitfield: seq<bool>, p: nat, lo: nat, hi: nat): nat {
    if lo >= hi then 0 else Count(bitfield, p, lo, hi - 1) + (if Have(bitfield, p, hi - 1) then 1 else 0)
  }

  function Overlap(lo: nat, hi: nat, a: nat, b: nat): nat {
    Max(0, Min(hi, b) - Max(lo, a))
  }

  lemma {:induction false} CountConcat(bitfield: seq<bool>, p: nat, lo: nat, mid: nat, hi: nat)
    requires lo <= mid <= hi
    ensures Count(bitfield, p, lo, hi) == Count(bitfield, p, lo, mid) + Count(bitfield, p, mid, hi)
  {
    if mid < hi {
      CountConcat(bitfield, p, lo, mid, hi - 1);
    }
  }

  lemma {:induction false} CountSame(bits: seq<bool>, more: seq<bool>, p: nat, lo: nat, hi: nat)
    requires forall b: nat :: lo <= b < hi ==> (Have(bits, p, b) <==> Have(more, p, b))
    ensures Count(bits, p, lo, hi) == Count(more, p, lo, hi)
  {
    if lo < hi {
      CountSame(bits, more, p, lo, hi - 1);
    }
  }

  /** One more piece is the only change to what is had. */
  lemma HaveNext(bitfield: seq<bool>, p: nat, i: nat, b: nat)
    requires p > 0 && i < |bitfield|
    ensures Have(bitfield[..i + 1], p, b)
       <==> Have(bitfield[..i], p, b) || (bitfield[i] && PieceOffset(i, p) <= b < PieceOffset(i, p) + p)
    ensures Have(bitfield[..i], p, b) ==> !(PieceOffset(i, p) <= b < PieceOffset(i, p) + p)
  {
    ByteInPiece(b, i, p);
    var q := b / p;
    hide PieceOffset;
    assert q < i ==> bitfield[..i + 1][q] == bitfield[..i][q];
  }

  /** What the next piece adds to a range. */
  lemma {:induction false} CountNext(bitfield: seq<bool>, p: nat, i: nat, lo: nat, hi: nat)
    requires p > 0 && i < |bitfield| && lo <= hi
    ensures Count(bitfield[..i + 1], p, lo, hi)
         == Count(bitfield[..i], p, lo, hi)
            + (if bitfield[i] then Overlap(lo, hi, PieceOffset(i, p), PieceOffset(i, p) + p) else 0)
  {
    hide PieceOffset, Have;
    if lo < hi {
      CountNext(bitfield, p, i, lo, hi - 1);
      HaveNext(bitfield, p, i, hi - 1);
    }
  }

  lemma {:induction false} CountBound(bitfield: seq<bool>, p: nat, lo: nat, hi: nat)
    requires lo <= hi
    ensures Count(bitfield, p, lo, hi) <= hi - lo
  {
    if lo < hi {
      CountBound(bitfield, p, lo, hi - 1);
    }
  }

  /** Completing a piece never lowers a file. */
  lemma {:induction false} CountGrows(bitfield: seq<bool>, p: nat, i: nat, lo: nat, hi: nat)
    requires i < |bitfield|
    ensures Count(bitfield, p, lo, hi) <= Count(bitfield[i := true], p, lo, hi)
  {
    if lo < hi {
      CountGrows(bitfield, p, i, lo, hi - 1);
    }
  }

  lemma PieceBefore(b: nat, p: nat, i: nat)
    requires p > 0 && b < PieceOffset(i, p)
    ensures b / p < i
  {
    var q := b / p;
    assert q * p <= b;
    if i < q {
      MulStep(i, q, p);
    }
  }

  /** Bytes before the start of piece `i` only see the pieces before it. */
  lemma CountPast(bitfield: seq<bool>, p: nat, i: nat, lo: nat, hi: nat)
    requires p == 0 || hi <= PieceOffset(i, p)
    requires i <= |bitfield|
    ensures Count(bitfield, p, lo, hi) == Count(bitfield[..i], p, lo, hi)
  {
    hide PieceOffset, Count;
    forall b: nat | lo <= b < hi
      ensures Have(bitfield, p, b) <==> Have(bitfield[..i], p, b)
    {
      if p > 0 {
        PieceBefore(b, p, i);
      }
    }
    CountSame(bitfield, bitfield[..i], p, lo, hi);
  }

  // ---------------------------------------------------------------- file status

  /** The number of bytes of file `f` that lie in completed pieces. */
  ghost function Target(offsets: seq<FileOffset>, bitfield: seq<bool>, p: nat, f: nat): nat
    requires f < |offsets|
  {
    Count(bitfield, p, offsets[f].offset, offsets[f].offset + offsets[f].length)
  }

  ghost predicate Counted(downloaded: seq<nat>, offsets: seq<FileOffset>, bitfield: seq<bool>, p: nat) {
    |downloaded| == |offsets| &&
    forall f :: 0 <= f < |offsets| ==> downloaded[f] == Target(offsets, bitfield, p, f)
  }

  /** The bytes `a..b` are what the second bitfield has more than the first. */
  ghost predicate Adds(offsets: seq<FileOffset>, bits: seq<bool>, more: seq<bool>, p: nat, a: nat, b: nat) {
    forall f :: 0 <= f < |offsets| ==>
      Target(offsets, more, p, f) == Target(offsets, bits, p, f)
                                     + Overlap(offsets[f].offset, offsets[f].offset + offsets[f].length, a, b)
  }

  /** What the files get from piece `i`, cut off at the end of the torrent. */
  lemma PieceAdds(offsets: seq<FileOffset>, bitfield: seq<bool>, p: nat, i: nat, total: nat)
    requires Tiles(offsets, 0, total) && p > 0 && i < |bitfield| && bitfield[i]
    ensures Adds(offsets, bitfield[..i], bitfield[..i + 1], p,
                 PieceOffset(i, p), Min(total, PieceOffset(i, p) + p))
  {
    forall f | 0 <= f < |offsets|
      ensures Target(offsets, bitfield[..i + 1], p, f)
           == Target(offsets, bitfield[..i], p, f)
              + Overlap(offsets[f].offset, offsets[f].offset + offsets[f].length,
                        PieceOffset(i, p), Min(total, PieceOffset(i, p) + p))
    {
      TileBounds(offsets, 0, total, f);
      CountNext(bitfield, p, i, offsets[f].offset, offsets[f].offset + offsets[f].length);
    }
  }

  /** The inner loop: add one completed piece to every file it overlaps. */
  method AddPiece(downloaded: array<nat>, offsets: seq<FileOffset>, pieceStart: nat, pieceEnd: nat,
                  ghost total: nat, ghost bits: seq<bool>, ghost more: seq<bool>, ghost p: nat)
    requires Tiles(offsets, 0, total) && pieceStart < pieceEnd <= total
    requires Adds(offsets, bits, more, p, pieceStart, pieceEnd)
    requires Counted(downloaded[..], offsets, bits, p)
    modifies downloaded
    ensures Counted(downloaded[..], offsets, more, p)
  {
    hide Target;
    for k := 0 to |offsets|
      invariant downloaded.Length == |offsets|
      invariant forall f :: 0 <= f < k ==> downloaded[f] == Target(offsets, more, p, f)
      invariant forall f :: k <= f < |offsets| ==> downloaded[f] == Target(offsets, bits, p, f)
    {
      var fo := offsets[k];
      var fileEnd := fo.offset + fo.length;
      var overlapStart := Max(pieceStart, fo.offset);
      var overlapEnd := Min(pieceEnd, fileEnd);
      if overlapStart < overlapEnd {
        downloaded[k] := downloaded[k] + (overlapEnd - overlapStart);
      }
      if pieceEnd <= fileEnd {
        TileBounds(offsets, 0, total, k);
        return;
      }
    }
  }

  lemma {:induction false} CountNone(p: nat, lo: nat, hi: nat)
    ensures Count([], p, lo, hi) == 0
  {
    if lo < hi {
      CountNone(p, lo, hi - 1);
    }
  }

  /** Counting can stop at a piece that begins behind the last byte. */
  lemma CountedEarly(downloaded: seq<nat>, offsets: seq<FileOffset>, bitfield: seq<bool>, p: nat, i: nat, total: nat)
    requires Tiles(offsets, 0, total) && i <= |bitfield|
    requires i == |bitfield| || p == 0 || PieceOffset(i, p) >= total
    requires Counted(downloaded, offsets, bitfield[..i], p)
    ensures Counted(downloaded, offsets, bitfield, p)
  {
    if i == |bitfield| {
      assert bitfield[..i] == bitfield;
    } else {
      forall f | 0 <= f < |offsets|
        ensures Target(offsets, bitfield, p, f) == Target(offsets, bitfield[..i], p, f)
      {
        TileBounds(offsets, 0, total, f);
        CountPast(bitfield, p, i, offsets[f].offset, offsets[f].offset + offsets[f].length);
      }
    }
  }

  lemma CountedSkip(downloaded: seq<nat>, offsets: seq<FileOffset>, bitfield: seq<bool>, p: nat, i: nat)
    requires i < |bitfield| && !bitfield[i] && Counted(downloaded, offsets, bitfield[..i], p)
    ensures Counted(downloaded, offsets, bitfield[..i + 1], p)
  {
    var bits, more := bitfield[..i], bitfield[..i + 1];
    forall f | 0 <= f < |offsets|
      ensures Target(offsets, more, p, f) == Target(offsets, bits, p, f)
    {
      var lo, hi := offsets[f].offset, offsets[f].offset + offsets[f].length;
      if p > 0 {
        CountNext(bitfield, p, i, lo, hi);
      } else {
        CountSame(bits, more, p, lo, hi);
      }
    }
  }

  /** Every file gets exactly the number of its bytes that lie in completed
      pieces, although both loops stop early. */
  method ComputeFileStatus(info: Info, bitfield: seq<bool>) returns (status: seq<FileStatus>)
    requires |bitfield| == |info.pieces|
    ensures |status| == |Offsets(info.mode)|
    ensures forall f :: 0 <= f < |status| ==>
              var fo, count := Offsets(info.mode)[f], Target(Offsets(info.mode), bitfield, info.pieceLength, f);
              status[f] == FileStatus(fo.path, fo.length, count, Fraction(count, fo.length))
  {
    var offsets := FileOffsets(info.mode);
    var total := TotalSize(info.mode);
    var p := info.pieceLength;
    FilesTile(info.mode);
    var downloaded := new nat[|offsets|](_ => 0);
    NothingCounted(downloaded[..], offsets, bitfield, p);
    hide Counted, Adds;
    var i := 0;
    while i < |bitfield|
      invariant i <= |bitfield|
      invariant Counted(downloaded[..], offsets, bitfield[..i], p)
    {
      if bitfield[i] {
        var pieceStart := PieceOffset(i, p);
        var pieceEnd := Min(total, pieceStart + p);
        if pieceStart >= pieceEnd {
          break;
        }
        PieceAdds(offsets, bitfield, p, i, total);
        AddPiece(downloaded, offsets, pieceStart, pieceEnd, total, bitfield[..i], bitfield[..i + 1], p);
      } else {
        CountedSkip(downloaded[..], offsets, bitfield, p, i);
      }
      i := i + 1;
    }
    CountedEarly(downloaded[..], offsets, bitfield, p, i, total);
    CountedAll(downloaded[..], offsets, bitfield, p);
    status := Statuses(offsets, downloaded[..]);
  }

  lemma NothingCounted(downloaded: seq<nat>, offsets: seq<FileOffset>, bitfield: seq<bool>, p: nat)
    requires |downloaded| == |offsets| && forall f :: 0 <= f < |offsets| ==> downloaded[f] == 0
    ensures Counted(downloaded, offsets, bitfield[..0], p)
  {
    assert bitfield[..0] == [];
    forall f | 0 <= f < |offsets|
      ensures Target(offsets, [], p, f) == 0
    {
      CountNone(p, offsets[f].offset, offsets[f].offset + offsets[f].length);
    }
  }

  lemma CountedAll(downloaded: seq<nat>, offsets: seq<FileOffset>, bitfield: seq<bool>, p: nat)
    requires Counted(downloaded, offsets, bitfield, p)
    ensures |downloaded| == |offsets|
    ensures forall f :: 0 <= f < |offsets| ==> downloaded[f] == Target(offsets, bitfield, p, f)
  {}

  function Statuses(offsets: seq<FileOffset>, downloaded: seq<nat>): seq<FileStatus>
    requires |downloaded| == |offsets|
  {
    seq(|offsets|, f requires 0 <= f < |offsets| =>
      FileStatus(offsets[f].path, offsets[f].length, downloaded[f], Fraction(downloaded[f], offsets[f].length)))
  }

  // ---------------------------------------------------------------- totals

  ghost function SumDownloaded(offsets: seq<FileOffset>, bitfield: seq<bool>, p: nat): nat {
    if offsets == [] then 0
    else Count(bitfield, p, offsets[0].offset, offsets[0].offset + offsets[0].length)
         + SumDownloaded(offsets[1..], bitfield, p)
  }

  /** The lengths of the first `n` pieces that are complete, cut off at the total size. */
  ghost function SumPieces(bitfield: seq<bool>, p: nat, total: nat, n: nat): nat
    requires n <= |bitfield|
  {
    if n == 0 then 0
    else SumPieces(bitfield, p, total, n - 1)
         + (if bitfield[n - 1] then Overlap(0, total, PieceOffset(n - 1, p), PieceOffset(n - 1, p) + p) else 0)
  }

  lemma {:induction false} SumIsCount(offsets: seq<FileOffset>, bitfield: seq<bool>, p: nat, start: nat, total: nat)
    requires Tiles(offsets, start, total)
    ensures start <= total && SumDownloaded(offsets, bitfield, p) == Count(bitfield, p, start, total)
  {
    if offsets != [] {
      var next := start + offsets[0].length;
      SumIsCount(offsets[1..], bitfield, p, next, total);
      CountConcat(bitfield, p, start, next, total);
    }
  }

  lemma {:induction false} CountIsPieces(bitfield: seq<bool>, p: nat, total: nat, n: nat)
    requires p > 0 && n <= |bitfield|
    ensures Count(bitfield[..n], p, 0, total) == SumPieces(bitfield, p, total, n)
  {
    if n == 0 {
      CountNone(p, 0, total);
      assert bitfield[..0] == [];
    } else {
      CountIsPieces(bitfield, p, total, n - 1);
      CountNext(bitfield, p, n - 1, 0, total);
    }
  }

  /** Conservation: the bytes of all files sum up to the completed pieces. */
  lemma StatusConserves(mode: Mode, bitfield: seq<bool>, p: nat)
    requires p > 0
    ensures SumDownloaded(Offsets(mode), bitfield, p)
         == SumPieces(bitfield, p, TotalSize(mode), |bitfield|)
  {
    FilesTile(mode);
    SumIsCount(Offsets(mode), bitfield, p, 0, TotalSize(mode));
    CountIsPieces(bitfield, p, TotalSize(mode), |bitfield|);
    assert bitfield[..|bitfield|] == bitfield;
  }

  /** The progress of a file is between 0 and 1, rises with its bytes, and is 1 exactly
      when all of them are there. */
  lemma FractionExact(downloaded: nat, more: nat, length: nat)
    requires downloaded <= more <= length
    ensures 0.0 <= Fraction(downloaded, length) <= Fraction(more, length) <= 1.0
    ensures Fraction(more, length) == 1.0 <==> more == length
  {
    if length > 0 {
      var a, b, d := downloaded as real, more as real, length as real;
      QuotientEnds(d);
      DivideOrder(0.0, a, d);
      DivideOrder(a, b, d);
      DivideOrder(b, d, d);
    }
  }

  lemma QuotientEnds(d: real)
    requires d > 0.0
    ensures 0.0 / d == 0.0 && d / d == 1.0
  {}

  lemma NegativeProduct(x: real, d: real)
    requires x < 0.0 && d > 0.0
    ensures x * d < 0.0
  {}

  lemma DivideOrder(a: real, b: real, d: real)
    requires a <= b && d > 0.0
    ensures a / d <= b / d && (a / d == b / d <==> a == b)
  {
    var gap := b / d - a / d;
    assert gap * d == b - a;
    if gap < 0.0 {
      NegativeProduct(gap, d);
      assert false;
    }
  }

  /** With all pieces complete, every file is complete. */
  lemma {:induction false} AllComplete(bitfield: seq<bool>, p: nat, total: nat, lo: nat, hi: nat)
    requires p > 0 && |bitfield| == DivCeil(total, p) && lo <= hi <= total
    requires forall i :: 0 <= i < |bitfield| ==> bitfield[i]
    ensures Count(bitfield, p, lo, hi) == hi - lo
  {
    if lo < hi {
      AllComplete(bitfield, p, total, lo, hi - 1);
      ByteHasPiece(hi - 1, p, total);
    }
  }
}
