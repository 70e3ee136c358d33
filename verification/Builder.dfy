/** Creating torrents: the piece hasher and the info dictionary it writes. */
module Builder {
  import opened Prelude
  import opened Tiling
  import opened Bencode
  import opened Metainfo

  type Sha1 = seq<byte> -> Hash

  /** The hashes of the first `n` pieces of `data`. */
  ghost function Hashes(data: seq<byte>, p: nat, n: nat, sha1: Sha1): seq<Hash> {
    seq<Hash>(n, i requires 0 <= i => sha1(Tile(data, i, p)))
  }

  /** The hash of every piece of `data`; the last one may be shorter. */
  ghost function PieceHashes(data: seq<byte>, p: nat, sha1: Sha1): seq<Hash>
    requires p > 0
  {
    Hashes(data, p, DivCeil(|data|, p), sha1)
  }

  class MetainfoBuilder {
    const pieceLength: u32
    const sha1: Sha1
    var buf: seq<byte>
    var pieces: seq<Hash>
    var totalLength: nat
    ghost var fed: seq<byte> // everything passed to AddData so far

    ghost predicate Valid()
      reads this
    {
      && pieceLength > 0
      && |buf| < pieceLength
      && totalLength == |fed|
      && Hashed(|pieces|)
    }

    /** `pieces` and `buf` split what was fed at piece boundary `n`. */
    ghost predicate Hashed(n: nat)
      reads this
    {
      && n * pieceLength + |buf| == |fed|
      && buf == fed[n * pieceLength..]
      && pieces == Hashes(fed, pieceLength, n, sha1)
    }

    constructor (pieceLength: u32, sha1: Sha1)
      requires pieceLength > 0
      ensures Valid() && fed == []
      ensures this.pieceLength == pieceLength && this.sha1 == sha1
    {
      this.pieceLength := pieceLength;
      this.sha1 := sha1;
      buf, pieces, totalLength, fed := [], [], 0, [];
    }

    method AddData(data: seq<byte>)
      requires Valid()
      modifies this
      ensures Valid() && fed == old(fed) + data
    {
      totalLength := totalLength + |data|;
      buf := buf + data;
      fed := fed + data;
      HashesPrefix(old(fed), fed, pieceLength, |pieces|, sha1);
      while |buf| >= pieceLength
        invariant fed == old(fed) + data && totalLength == |fed|
        invariant Hashed(|pieces|)
        decreases |buf|
      {
        ghost var n := |pieces|;
        assert (n + 1) * pieceLength == n * pieceLength + pieceLength;
        var pieceData := buf[..pieceLength];
        assert pieceData == Tile(fed, n, pieceLength);
        assert Hashes(fed, pieceLength, n + 1, sha1) == pieces + [sha1(pieceData)];
        buf := buf[pieceLength..];
        pieces := pieces + [sha1(pieceData)];
      }
    }

    method Finish(announce: Text, mode: Mode, urlList: seq<Text>, httpSeeds: seq<Text>)
      returns (m: Metainfo)
      requires Valid()
      ensures m == Finished(PieceHashes(fed, pieceLength, sha1), pieceLength, announce, mode, urlList, httpSeeds)
    {
      var hashes := pieces;
      if buf != [] {
        hashes := hashes + [sha1(buf)];
        assert buf == Tile(fed, |pieces|, pieceLength);
      }
      AllPieces(|fed|, pieceLength, |pieces|, |buf|);
      assert hashes == PieceHashes(fed, pieceLength, sha1);
      m := Finished(hashes, pieceLength, announce, mode, urlList, httpSeeds);
    }
  }

  /** Full pieces stay what they are when more data follows. */
  lemma HashesPrefix(data: seq<byte>, more: seq<byte>, p: nat, n: nat, sha1: Sha1)
    requires n * p <= |data| && data <= more
    ensures Hashes(data, p, n, sha1) == Hashes(more, p, n, sha1)
  {
    forall i: nat | i < n
      ensures Tile(data, i, p) == Tile(more, i, p)
    {
      MulStep(i, n, p);
      assert data[i * p..i * p + p] == more[i * p..i * p + p];
    }
  }

  lemma AllPieces(total: nat, p: nat, n: nat, rest: nat)
    requires p > 0 && n * p + rest == total && rest < p
    ensures DivCeil(total, p) == if rest == 0 then n else n + 1
  {
    assert (n + 1) * p == n * p + p;
    assert n > 0 ==> (n - 1) * p == n * p - p;
    CeilUnique(total, p, if rest == 0 then n else n + 1);
  }

  function Flatten(pieces: seq<Hash>): seq<byte> {
    if pieces == [] then [] else pieces[0] + Flatten(pieces[1..])
  }

  /** The cast `u64 as i64`. */
  function AsI64(n: u64): i64 {
    if n < 0x8000_0000_0000_0000 then n else n - 0x1_0000_0000_0000_0000
  }

  function FileItem(f: FileInfo): Bencode {
    Dict([Entry(LENGTH, Integer(AsI64(f.length))), Entry(PATH, List(TextItems(f.path)))])
  }

  function FileItems(files: seq<FileInfo>): seq<Bencode> {
    seq(|files|, i requires 0 <= i < |files| => FileItem(files[i]))
  }

  function BuildInfoDict(pieceLength: u64, pieces: seq<byte>, mode: Mode): Bencode {
    Dict((match mode
          case Single(name, length) => [Entry(LENGTH, Integer(AsI64(length))), Entry(NAME, Bytes(name))]
          case Multiple(name, files) => [Entry(FILES, List(FileItems(files))), Entry(NAME, Bytes(name))])
         + [Entry(PIECE_LENGTH, Integer(AsI64(pieceLength))), Entry(PIECES, Bytes(pieces))])
  }

  /** The torrent `finish` makes from the piece hashes. */
  function Finished(pieces: seq<Hash>, pieceLength: u32, announce: Text, mode: Mode,
                    urlList: seq<Text>, httpSeeds: seq<Text>): Metainfo {
    var raw := Encode(BuildInfoDict(pieceLength, Flatten(pieces), mode));
    Metainfo(announce, [], Info(pieceLength, pieces, mode, Raw(raw)),
                      urlList, httpSeeds, None, None, None, None)
  }
}
