/** Checking stored pieces against the hashes of a torrent. */
module Verify {
  import opened Prelude
  import opened Tiling
  import opened Metainfo
  import opened Builder
  import opened Pieces

  /** Any storage, as the check sees it: reading a piece fills the given buffer or fails.
      Bytes it does not write stay as they were. */
  datatype PieceStore = PieceStore(read: (nat, seq<byte>) -> Result<seq<byte>>) {
    ghost predicate Valid() {
      forall index: nat, buf: seq<byte> :: read(index, buf).Ok? ==> |read(index, buf).value| == |buf|
    }

    method ReadPiece(index: nat, buf: array<byte>, len: nat) returns (failed: Option<ErrorKind>)
      requires Valid() && len <= buf.Length
      modifies buf
      ensures match read(index, old(buf[..len]))
              case Err(e) => failed == Some(e) && buf[..] == old(buf[..])
              case Ok(data) => failed == None && buf[..] == data + old(buf[len..])
    {
      var data := read(index, buf[..len]);
      if data.Err? {
        return Some(data.error);
      }
      forall k | 0 <= k < len {
        buf[k] := data.value[k];
      }
      return None;
    }
  }

  /** What the check uses of a torrent. */
  datatype Layout = Layout(pieceLength: nat, pieces: seq<Hash>, total: nat) {
    /** The last piece is neither negative nor longer than a piece: the slices of the
        check's buffer need that. */
    predicate Valid() {
      |pieces| > 0 ==> 0 <= total - (|pieces| - 1) * pieceLength <= pieceLength
    }

    function Len(i: nat): (len: nat)
      requires Valid() && i < |pieces|
      ensures len <= pieceLength && len == PieceLen(i, |pieces|, pieceLength, total)
    {
      if i == |pieces| - 1 then total - i * pieceLength else pieceLength
    }
  }

  /** The check's buffer before piece `n`, or the error of the first read that failed. */
  function BufferBefore(store: PieceStore, layout: Layout, n: nat): (r: Result<seq<byte>>)
    requires store.Valid() && layout.Valid() && n <= |layout.pieces|
    ensures r.Ok? ==> |r.value| == layout.pieceLength
  {
    if n == 0 then Ok(seq(layout.pieceLength, _ => 0 as byte))
    else
      var buf :- BufferBefore(store, layout, n - 1);
      var len := layout.Len(n - 1);
      var data :- store.read(n - 1, buf[..len]);
      Ok(data + buf[len..])
  }

  /** Piece `i` is read and has the hash that the torrent says. */
  predicate Matches(store: PieceStore, layout: Layout, sha1: Sha1, i: nat)
    requires store.Valid() && layout.Valid() && i < |layout.pieces|
  {
    var buf := BufferBefore(store, layout, i + 1);
    buf.Ok? && sha1(buf.value[..layout.Len(i)]) == layout.pieces[i]
  }

  ghost function MatchCount(store: PieceStore, layout: Layout, sha1: Sha1, n: nat): nat
    requires store.Valid() && layout.Valid() && n <= |layout.pieces|
  {
    if n == 0 then 0
    else MatchCount(store, layout, sha1, n - 1) + (if Matches(store, layout, sha1, n - 1) then 1 else 0)
  }

  /** A failed read ends the check; the pieces behind it match nothing. */
  lemma {:induction false} FailureStays(store: PieceStore, layout: Layout, n: nat, m: nat)
    requires store.Valid() && layout.Valid() && n <= m <= |layout.pieces|
    requires BufferBefore(store, layout, n).Err?
    ensures BufferBefore(store, layout, m) == BufferBefore(store, layout, n)
  {
    if n < m {
      FailureStays(store, layout, n, m - 1);
    }
  }

  lemma BufferStep(store: PieceStore, layout: Layout, i: nat, buf: seq<byte>)
    requires store.Valid() && layout.Valid() && i < |layout.pieces| && BufferBefore(store, layout, i) == Ok(buf)
    ensures BufferBefore(store, layout, i + 1)
         == match store.read(i, buf[..layout.Len(i)])
            case Err(e) => Err(e)
            case Ok(data) => Ok(data + buf[layout.Len(i)..])
  {}

  /** `after` is `before` with every match among the first `n` pieces marked. */
  ghost predicate Marked(store: PieceStore, layout: Layout, sha1: Sha1, before: seq<bool>, after: seq<bool>, n: nat)
    requires store.Valid() && layout.Valid()
  {
    && |before| == |after| == |layout.pieces|
    && forall i :: 0 <= i < |after| ==> (after[i] <==> before[i] || (i < n && Matches(store, layout, sha1, i)))
  }

  lemma MarkNext(store: PieceStore, layout: Layout, sha1: Sha1, before: seq<bool>, mid: seq<bool>, i: nat)
    requires store.Valid() && layout.Valid() && i < |layout.pieces| && Marked(store, layout, sha1, before, mid, i)
    ensures Marked(store, layout, sha1, before,
                   if Matches(store, layout, sha1, i) then mid[i := true] else mid, i + 1)
  {
    hide Matches;
  }

  lemma MarkedEnd(store: PieceStore, layout: Layout, sha1: Sha1, before: seq<bool>, after: seq<bool>, i: nat, e: ErrorKind)
    requires store.Valid() && layout.Valid() && i < |layout.pieces| && Marked(store, layout, sha1, before, after, i)
    requires BufferBefore(store, layout, i + 1) == Err(e)
    ensures Marked(store, layout, sha1, before, after, |layout.pieces|)
  {
    forall m | i < m <= |layout.pieces|
      ensures BufferBefore(store, layout, m) == Err(e)
    {
      FailureStays(store, layout, i + 1, m);
    }
    hide BufferBefore;
  }

  lemma MatchesRead(store: PieceStore, layout: Layout, sha1: Sha1, i: nat, buf: seq<byte>)
    requires store.Valid() && layout.Valid() && i < |layout.pieces| && BufferBefore(store, layout, i + 1) == Ok(buf)
    ensures Matches(store, layout, sha1, i) <==> sha1(buf[..layout.Len(i)]) == layout.pieces[i]
  {
    hide BufferBefore;
  }

  /** Read piece `i` into the buffer and compare its hash. */
  method CheckPiece(store: PieceStore, layout: Layout, sha1: Sha1, buf: array<byte>, i: nat) returns (r: Result<bool>)
    requires store.Valid() && layout.Valid() && i < |layout.pieces|
    requires BufferBefore(store, layout, i) == Ok(buf[..])
    modifies buf
    ensures match r
            case Ok(matches) =>
              BufferBefore(store, layout, i + 1) == Ok(buf[..]) && (matches <==> Matches(store, layout, sha1, i))
            case Err(e) => BufferBefore(store, layout, i + 1) == Err(e)
  {
    hide BufferBefore, Matches;
    var n := |layout.pieces|;
    var actualLen := if i == n - 1 then layout.total - i * layout.pieceLength else layout.pieceLength;
    ghost var before := buf[..];
    var failed := store.ReadPiece(i, buf, actualLen);
    BufferStep(store, layout, i, before);
    if failed.Some? {
      return Err(failed.value);
    }
    assert buf[..][..actualLen] == buf[..actualLen];
    MatchesRead(store, layout, sha1, i, buf[..]);
    return Ok(sha1(buf[..actualLen]) == layout.pieces[i]);
  }

  lemma NothingChecked(store: PieceStore, layout: Layout, sha1: Sha1, buf: seq<byte>, bitfield: seq<bool>)
    requires store.Valid() && layout.Valid() && |bitfield| == |layout.pieces|
    requires |buf| == layout.pieceLength && forall k :: 0 <= k < |buf| ==> buf[k] == 0
    ensures BufferBefore(store, layout, 0) == Ok(buf) && MatchCount(store, layout, sha1, 0) == 0
    ensures Marked(store, layout, sha1, bitfield, bitfield, 0)
  {
    assert buf == seq(layout.pieceLength, _ => 0 as byte);
  }

  lemma CountNext(store: PieceStore, layout: Layout, sha1: Sha1, i: nat)
    requires store.Valid() && layout.Valid() && i < |layout.pieces|
    ensures MatchCount(store, layout, sha1, i + 1)
         == MatchCount(store, layout, sha1, i) + (if Matches(store, layout, sha1, i) then 1 else 0)
  {
    hide Matches;
  }

  method VerifyExisting(store: PieceStore, layout: Layout, sha1: Sha1, pieceMgr: PieceManager)
    returns (r: Result<nat>)
    requires store.Valid() && layout.Valid()
    requires pieceMgr.Valid() && pieceMgr.numPieces == |layout.pieces|
    modifies pieceMgr
    ensures pieceMgr.Valid()
    ensures Marked(store, layout, sha1, old(pieceMgr.bitfield), pieceMgr.bitfield, |layout.pieces|)
    ensures var last := BufferBefore(store, layout, |layout.pieces|);
            r == if last.Ok? then Ok(MatchCount(store, layout, sha1, |layout.pieces|)) else Err(last.error)
  {
    hide BufferBefore, Marked, Matches, MatchCount;
    var n, verified := |layout.pieces|, 0;
    var buf := new byte[layout.pieceLength](_ => 0);
    NothingChecked(store, layout, sha1, buf[..], pieceMgr.bitfield);
    for i := 0 to n
      invariant pieceMgr.Valid()
      invariant Marked(store, layout, sha1, old(pieceMgr.bitfield), pieceMgr.bitfield, i)
      invariant verified == MatchCount(store, layout, sha1, i)
      invariant BufferBefore(store, layout, i) == Ok(buf[..])
    {
      var matches := CheckPiece(store, layout, sha1, buf, i);
      if matches.Err? {
        MarkedEnd(store, layout, sha1, old(pieceMgr.bitfield), pieceMgr.bitfield, i, matches.error);
        FailureStays(store, layout, i + 1, n);
        return Err(matches.error);
      }
      MarkNext(store, layout, sha1, old(pieceMgr.bitfield), pieceMgr.bitfield, i);
      CountNext(store, layout, sha1, i);
      if matches.value {
        pieceMgr.SetPiece(i);
        verified := verified + 1;
      }
    }
    return Ok(verified);
  }

  /** No piece is missing exactly when all are set. */
  lemma NothingMissing(bitfield: seq<bool>)
    ensures MissingFrom(bitfield, 0) == [] <==> forall i :: 0 <= i < |bitfield| ==> bitfield[i]
  {
    MissingExact(bitfield, 0);
    var m := MissingFrom(bitfield, 0);
    assert m != [] ==> m[0] in m;
  }

  /** Checked into an empty bitfield, every piece is counted or missing. */
  lemma {:induction false} CountedOrMissing(store: PieceStore, layout: Layout, sha1: Sha1, bitfield: seq<bool>, k: nat)
    requires store.Valid() && layout.Valid() && |bitfield| == |layout.pieces| && k <= |bitfield|
    requires forall i :: 0 <= i < |bitfield| ==> (bitfield[i] <==> Matches(store, layout, sha1, i))
    ensures MatchCount(store, layout, sha1, |bitfield|) + |MissingFrom(bitfield, k)|
         == MatchCount(store, layout, sha1, k) + |bitfield| - k
    decreases |bitfield| - k
  {
    if k < |bitfield| {
      CountedOrMissing(store, layout, sha1, bitfield, k + 1);
    }
  }

  lemma {:induction false} AllMatch(store: PieceStore, layout: Layout, sha1: Sha1, n: nat)
    requires store.Valid() && layout.Valid() && n <= |layout.pieces|
    requires forall i :: 0 <= i < n ==> Matches(store, layout, sha1, i)
    ensures MatchCount(store, layout, sha1, n) == n && BufferBefore(store, layout, n).Ok?
  {
    if n > 0 {
      assert Matches(store, layout, sha1, n - 1);
      AllMatch(store, layout, sha1, n - 1);
    }
  }

  /** A storage whose every read puts the piece itself into the buffer. */
  ghost predicate Holds(store: PieceStore, layout: Layout, content: seq<byte>)
    requires layout.Valid()
  {
    forall i: nat, buf: seq<byte> :: i < |layout.pieces| && |buf| == layout.Len(i) ==>
      store.read(i, buf) == Ok(Tile(content, i, layout.pieceLength))
  }

  /** Such a storage passes the check against the hashes of its content, to the last piece. */
  lemma HoldingMatches(store: PieceStore, content: seq<byte>, p: nat, sha1: Sha1)
    requires store.Valid() && p > 0
    ensures var layout := Layout(p, PieceHashes(content, p, sha1), |content|);
            && layout.Valid()
            && (Holds(store, layout, content) ==>
                  forall i :: 0 <= i < |layout.pieces| ==> Matches(store, layout, sha1, i))
  {
    var layout := Layout(p, PieceHashes(content, p, sha1), |content|);
    HashedLayout(content, p, sha1);
    if Holds(store, layout, content) {
      forall i | 0 <= i < |layout.pieces|
        ensures Matches(store, layout, sha1, i)
      {
        HeldBuffer(store, layout, content, i + 1);
        PieceInside(i, p, |content|);
      }
    }
  }

  lemma HashedLayout(content: seq<byte>, p: nat, sha1: Sha1)
    requires p > 0
    ensures Layout(p, PieceHashes(content, p, sha1), |content|).Valid()
    ensures |PieceHashes(content, p, sha1)| == DivCeil(|content|, p)
  {
    var n := DivCeil(|content|, p);
    CeilBounds(|content|, p);
    assert n > 0 ==> (n - 1) * p == n * p - p;
  }

  lemma {:induction false} HeldBuffer(store: PieceStore, layout: Layout, content: seq<byte>, n: nat)
    requires store.Valid() && layout.Valid() && Holds(store, layout, content)
    requires n <= |layout.pieces|
    ensures var buf := BufferBefore(store, layout, n);
            buf.Ok? && (n > 0 ==> buf.value[..layout.Len(n - 1)] == Tile(content, n - 1, layout.pieceLength))
  {
    if n > 0 {
      HeldBuffer(store, layout, content, n - 1);
      var buf, len := BufferBefore(store, layout, n - 1).value, layout.Len(n - 1);
      var data := store.read(n - 1, buf[..len]).value;
      assert (data + buf[len..])[..len] == data;
    }
  }
}
