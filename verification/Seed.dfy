/** Seeding: hashing a data source into a torrent, and checking stored data against one. */
module Seed {
  import opened Prelude
  import opened Tiling
  import opened Metainfo
  import opened Builder
  import opened Pieces
  import opened Verify

  /** A source holds fixed content. A read may return fewer bytes than asked;
      how many is up to the source, as long as they exist. */
  datatype DataSource = DataSource(content: seq<byte>, readLen: (nat, nat) -> nat) {
    ghost predicate Valid() {
      forall offset: nat, len: nat ::
        readLen(offset, len) <= len && readLen(offset, len) <= Max(0, |content| - offset)
    }

    /** Every read returns all the bytes asked for that exist. */
    ghost predicate ReadsFully() {
      forall offset: nat, len: nat :: readLen(offset, len) == Min(len, Max(0, |content| - offset))
    }

    function ReadAt(offset: nat, len: nat): seq<byte>
      requires Valid()
    {
      var n := readLen(offset, len);
      if offset <= |content| then content[offset..offset + n] else []
    }
  }

  const BUFFER_CAP: nat := 16 * 1024 * 1024

  /** How much the hashing loop gets from its read at `offset`. */
  ghost function LoopRead(source: DataSource, bufSize: nat, offset: nat): nat {
    source.readLen(offset, Min(bufSize, Max(0, |source.content| - offset)))
  }

  /** No read inside the content comes back empty. */
  ghost predicate Progresses(source: DataSource, bufSize: nat) {
    forall offset: nat :: offset < |source.content| ==> LoopRead(source, bufSize, offset) > 0
  }

  method HashSource(source: DataSource, pieceLength: u32, sha1: Sha1)
    returns (r: Result<MetainfoBuilder>)
    requires source.Valid() && pieceLength > 0
    ensures r.Ok? ==> fresh(r.value) && r.value.Valid() && r.value.fed == source.content
                      && r.value.pieceLength == pieceLength && r.value.sha1 == sha1
    ensures r.Err? ==> r.error == InvalidInput && !Progresses(source, Min(pieceLength, BUFFER_CAP))
  {
    var total := |source.content|;
    var builder := new MetainfoBuilder(pieceLength, sha1);
    var bufSize := Min(pieceLength, BUFFER_CAP);
    var offset := 0;
    while offset < total
      invariant offset <= total
      invariant fresh(builder) && builder.Valid() && builder.fed == source.content[..offset]
    {
      var readLen := Min(bufSize, total - offset);
      var data := source.ReadAt(offset, readLen);
      if data == [] {
        assert LoopRead(source, bufSize, offset) == 0;
        return Err(InvalidInput);
      }
      assert source.content[..offset] + data == source.content[..offset + |data|];
      builder.AddData(data);
      offset := offset + |data|;
    }
    assert source.content[..total] == source.content;
    return Ok(builder);
  }

  /** A source behind the piece interface of a storage. */
  datatype SourceStorage = SourceStorage(source: DataSource, pieceLength: nat, numPieces: nat, total: nat) {
    /** What reading piece `index` puts into the buffer: the bytes read, then zeros. */
    function Piece(index: nat): (r: seq<byte>)
      requires source.Valid() && PieceLen(index, numPieces, pieceLength, total) >= 0
      ensures |r| == PieceLen(index, numPieces, pieceLength, total)
    {
      var len := PieceLen(index, numPieces, pieceLength, total);
      var data := source.ReadAt(PieceOffset(index, pieceLength), len);
      data + seq(len - |data|, _ => 0 as byte)
    }

    method ReadPiece(index: nat, buf: array<byte>)
      requires source.Valid() && 0 <= PieceLen(index, numPieces, pieceLength, total) <= buf.Length
      modifies buf
      ensures buf[..PieceLen(index, numPieces, pieceLength, total)] == Piece(index)
      ensures buf[PieceLen(index, numPieces, pieceLength, total)..]
           == old(buf[PieceLen(index, numPieces, pieceLength, total)..])
    {
      var len := PieceLen(index, numPieces, pieceLength, total);
      var data := source.ReadAt(PieceOffset(index, pieceLength), len);
      forall i | 0 <= i < |data| {
        buf[i] := data[i];
      }
      forall i | |data| <= i < len {
        buf[i] := 0;
      }
    }

    /** As the check sees it; a buffer shorter than the piece would be sliced out of bounds. */
    function Store(): (store: PieceStore)
      requires source.Valid()
      ensures store.Valid()
    {
      PieceStore((index: nat, buf: seq<byte>) =>
        var len := PieceLen(index, numPieces, pieceLength, total);
        if 0 <= len <= |buf| then Ok(Piece(index) + buf[len..]) else Err(Io))
    }
  }

  /** A source that returns the bytes it is asked for passes the check against
      the torrent made from it, piece by piece and to the last one. */
  lemma HashedVerifies(source: DataSource, p: nat, sha1: Sha1)
    requires source.Valid() && source.ReadsFully() && p > 0
    ensures var layout := Layout(p, PieceHashes(source.content, p, sha1), |source.content|);
            var store := SourceStorage(source, p, |layout.pieces|, layout.total).Store();
            && layout.Valid()
            && forall i :: 0 <= i < |layout.pieces| ==> Matches(store, layout, sha1, i)
  {
    var content := source.content;
    var layout := Layout(p, PieceHashes(content, p, sha1), |content|);
    var storage := SourceStorage(source, p, |layout.pieces|, |content|);
    HashedLayout(content, p, sha1);
    forall i: nat, buf: seq<byte> | i < |layout.pieces| && |buf| == layout.Len(i)
      ensures storage.Store().read(i, buf) == Ok(Tile(content, i, p))
    {
      PieceInside(i, p, |content|);
      assert storage.Piece(i) == Tile(content, i, p);
      assert buf[layout.Len(i)..] == [];
    }
    HoldingMatches(storage.Store(), content, p, sha1);
  }

  lemma FullReadsProgress(source: DataSource, bufSize: nat)
    requires source.Valid() && source.ReadsFully() && bufSize > 0
    ensures Progresses(source, bufSize)
  {}

  /** A torrent made from a source, and what the check of that source found. */
  datatype Seeded = Seeded(metainfo: Metainfo, verified: nat, missing: seq<nat>)

  /** Hash a source into a single-file torrent, then check the source against it. */
  method HashAndVerify(source: DataSource, pieceLength: u32, sha1: Sha1, announce: Text, name: Text)
    returns (r: Result<Seeded>)
    requires source.Valid() && |source.content| <= U64_MAX && pieceLength > 0
    ensures r.Ok? ==>
      && r.value.metainfo.info.pieces == PieceHashes(source.content, pieceLength, sha1)
      && r.value.verified + |r.value.missing| == |r.value.metainfo.info.pieces|
    ensures source.ReadsFully() ==> r.Ok? && r.value.missing == []
  {
    ghost var content := source.content;
    ghost var hashes := PieceHashes(content, pieceLength, sha1);
    if source.ReadsFully() {
      HashedVerifies(source, pieceLength, sha1);
      AllMatch(SourceStorage(source, pieceLength, |hashes|, |content|).Store(),
        Layout(pieceLength, hashes, |content|), sha1, |hashes|);
      FullReadsProgress(source, Min(pieceLength, BUFFER_CAP));
    }
    var builder :- HashSource(source, pieceLength, sha1);
    var m := builder.Finish(announce, Single(name, |source.content|), [], []);
    HashedLayout(content, pieceLength, sha1);
    var layout := Layout(pieceLength, m.info.pieces, |source.content|);
    var storage := SourceStorage(source, pieceLength, |m.info.pieces|, |source.content|);
    var pieceMgr := new PieceManager(|m.info.pieces|);
    var verified :- VerifyExisting(storage.Store(), layout, sha1, pieceMgr);
    var missing := pieceMgr.MissingPieces();
    NothingMissing(pieceMgr.bitfield);
    CountedOrMissing(storage.Store(), layout, sha1, pieceMgr.bitfield, 0);
    return Ok(Seeded(m, verified, missing));
  }
}
