/** Files that hold a torrent pass the check against its hashes. */
module StoredPieces {
  import opened Prelude
  import opened Tiling
  import opened Storage
  import opened StorageTheorems
  import opened Builder
  import opened Verify

  lemma {:induction false} ReadsKeepLength(disk: Disk, ranges: seq<Range>, buf: seq<byte>, done: nat)
    ensures |ReadRanges(disk, ranges, buf, done).1| == |buf|
    decreases |ranges|
  {
    if ranges != [] {
      var r := ranges[0];
      var end := Min(done + r.len, |buf|);
      if done < end && r.path in disk && ReadExact(disk[r.path], r.offset, end - done).Ok? {
        var data := ReadExact(disk[r.path], r.offset, end - done).value;
        ReadsKeepLength(disk, ranges[1..], buf[..done] + data + buf[end..], done + r.len);
      }
    }
  }

  lemma ReadKeepsLength(mode: Mode, disk: Disk, offset: nat, len: nat, buf: seq<byte>)
    requires len <= |buf|
    ensures |ReadRange(mode, disk, offset, len, buf).1| == |buf|
  {
    if mode.MultiFile? {
      ReadsKeepLength(disk, Ranges(offset, offset + len, mode.files, 0), buf, 0);
    }
  }

  /** `read_piece` of the file storage, as the check sees it; a buffer shorter than the
      piece would be sliced out of bounds. */
  function ReadStored(mode: Mode, disk: Disk, p: nat, numPieces: nat, total: nat,
                      index: nat, buf: seq<byte>): (r: Result<seq<byte>>)
    ensures r.Ok? ==> |r.value| == |buf|
  {
    var len := PieceLen(index, numPieces, p, total);
    if 0 <= len <= |buf| then
      ReadKeepsLength(mode, disk, PieceOffset(index, p), len, buf);
      var (ok, data) := ReadRange(mode, disk, PieceOffset(index, p), len, buf);
      if ok then Ok(data) else Err(Io)
    else Err(Io)
  }

  function FileStore(mode: Mode, disk: Disk, p: nat, numPieces: nat, total: nat): (store: PieceStore)
    ensures store.Valid()
  {
    PieceStore((index: nat, buf: seq<byte>) => ReadStored(mode, disk, p, numPieces, total, index, buf))
  }

  /** Files with the torrent's bytes give every piece that no empty file interrupts. */
  lemma StoredPiece(mode: Mode, disk: Disk, content: seq<byte>, p: nat, i: nat, buf: seq<byte>)
    requires Prepared(mode, |content|, disk) && Bytes(mode, |content|, disk) == content
    requires p > 0 && i < DivCeil(|content|, p) && WholePiece(mode, i, p, |content|)
    requires |buf| == PieceLen(i, DivCeil(|content|, p), p, |content|)
    ensures ReadStored(mode, disk, p, DivCeil(|content|, p), |content|, i, buf) == Ok(Tile(content, i, p))
  {
    PieceInside(i, p, |content|);
    ReadCopies(mode, |content|, disk, PieceOffset(i, p), |buf|, buf);
    hide ReadRange, Bytes, Prepared, StopIn, Interrupted, PieceOffset;
    var tile := content[PieceOffset(i, p)..PieceOffset(i, p) + |buf|];
    assert tile == Tile(content, i, p);
    assert tile + buf[|buf|..] == tile;
  }

  /** After every piece was written, in whatever order, the files pass the check of every
      piece, if no empty file lies strictly inside a piece. */
  lemma WrittenVerifies(mode: Mode, disk: Disk, order: seq<nat>, content: seq<byte>, p: nat, sha1: Sha1)
    requires Prepared(mode, |content|, disk) && p > 0
    requires forall i: nat :: i in order <==> i < DivCeil(|content|, p)
    requires forall i :: 0 <= i < DivCeil(|content|, p) ==> WholePiece(mode, i, p, |content|)
    ensures var layout := Layout(p, PieceHashes(content, p, sha1), |content|);
            var written := WritePieces(mode, disk, order, content, p).disk;
            var store := FileStore(mode, written, p, |layout.pieces|, layout.total);
            && layout.Valid()
            && forall i :: 0 <= i < |layout.pieces| ==> Matches(store, layout, sha1, i)
  {
    var layout := Layout(p, PieceHashes(content, p, sha1), |content|);
    var written := WritePieces(mode, disk, order, content, p).disk;
    var store := FileStore(mode, written, p, |layout.pieces|, layout.total);
    HashedLayout(content, p, sha1);
    WriteAllPieces(mode, disk, order, content, p);
    AllReached(mode, |content|, disk, p);
    hide WritePieces, Prepared, Bytes, WholePiece, Reaches, PieceHashes, DivCeil, ReadStored;
    forall i: nat, buf: seq<byte> | i < |layout.pieces| && |buf| == layout.Len(i)
      ensures store.read(i, buf) == Ok(Tile(content, i, p))
    {
      StoredPiece(mode, written, content, p, i, buf);
    }
    HoldingMatches(store, content, p, sha1);
  }
}
