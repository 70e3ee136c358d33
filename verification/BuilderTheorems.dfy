/** A torrent made by the builder parses back to itself. */
module BuilderTheorems {
  import opened Prelude
  import opened Bencode
  import opened BencodeTheorems
  import opened Metainfo
  import opened MetainfoTheorems
  import opened Builder

  ghost function CanonOption(v: Option<Bencode>): Option<Bencode> {
    if v.Some? then Some(Canon(v.value)) else None
  }

  lemma {:induction false} LookupCanon(es: seq<Entry>, k: seq<byte>)
    ensures Lookup(CanonEntries(es), k) == CanonOption(Lookup(es, k))
  {
    if es != [] {
      LookupCanon(es[1..], k);
      assert CanonEntries(es)[1..] == CanonEntries(es[1..]);
    }
  }

  /** Looking a key up commutes with putting the value in canonical form. */
  lemma CanonGet(es: seq<Entry>, k: seq<byte>)
    ensures DictGet(Canon(Dict(es)), k) == CanonOption(Lookup(es, k))
  {
    LookupSort(CanonEntries(es), k);
    LookupCanon(es, k);
  }

  lemma LookupPair(a: Entry, b: Entry, k: seq<byte>)
    ensures Lookup([a, b], k)
         == if a.key == k then Some(a.value) else if b.key == k then Some(b.value) else None
    ensures DistinctKeys([a, b]) <==> a.key != b.key
  {
    var ab := [a, b];
    assert ab[1..] == [b] && [b][1..] == [];
    LookupSnoc([a], b, k);
    assert [a] + [b] == ab;
    assert Lookup([a], k) == if a.key == k then Some(a.value) else None by {
      assert [a][1..] == [];
    }
    assert Keys([b]) == {b.key} by {
      KeysCons(b, []);
      assert [b] + [] == [b];
    }
    assert Keys([]) == {};
    assert DistinctKeys([b]);
    assert ab[0] == a;
  }

  lemma InfoKeysDiffer()
    ensures |LENGTH| == |PIECES| == 6 && LENGTH[0] == 108 && PIECES[0] == 112
    ensures |NAME| == |PATH| == 4 && NAME[0] == 110 && PATH[0] == 112
    ensures |PIECE_LENGTH| == 12 && |FILES| == 5
  {}

  // ---------------------------------------------------------------- files

  /** The parser turns back lengths that do not fit in an i64, and empty paths. */
  predicate FileOk(f: FileInfo) {
    f.length < 0x8000_0000_0000_0000 && f.path != []
  }

  predicate ModeOk(mode: Mode) {
    match mode
    case Single(_, length) => length < 0x8000_0000_0000_0000
    case Multiple(_, files) => forall i :: 0 <= i < |files| ==> FileOk(files[i])
  }

  lemma {:induction false} ParseTextItems(texts: seq<Text>)
    ensures ParsePath(TextItems(texts)) == Ok(texts)
    ensures CanonItems(TextItems(texts)) == TextItems(texts)
  {
    if texts != [] {
      assert TextItems(texts)[1..] == TextItems(texts[1..]);
      ParseTextItems(texts[1..]);
      assert TextItems(texts) == [Bytes(texts[0])] + TextItems(texts[1..]);
      assert texts == [texts[0]] + texts[1..];
    }
  }

  lemma ParseFileItem(f: FileInfo)
    ensures ParseFile(Canon(FileItem(f))) == if FileOk(f) then Ok(f) else Err(MetainfoInvalidField)
  {
    InfoKeysDiffer();
    var length, path := Entry(LENGTH, Integer(AsI64(f.length))), Entry(PATH, List(TextItems(f.path)));
    CanonGet([length, path], LENGTH);
    CanonGet([length, path], PATH);
    LookupPair(length, path, LENGTH);
    LookupPair(length, path, PATH);
    ParseTextItems(f.path);
  }

  lemma {:induction false} ParseFileItems(files: seq<FileInfo>)
    ensures ParseFiles(CanonItems(FileItems(files)))
         == if forall i :: 0 <= i < |files| ==> FileOk(files[i]) then Ok(files) else Err(MetainfoInvalidField)
  {
    if files != [] {
      assert FileItems(files)[1..] == FileItems(files[1..]);
      assert CanonItems(FileItems(files))[1..] == CanonItems(FileItems(files[1..]));
      ParseFileItem(files[0]);
      ParseFileItems(files[1..]);
      assert forall i :: 0 < i < |files| ==> files[i] == files[1..][i - 1];
      assert files == [files[0]] + files[1..];
    }
  }

  lemma FileItemKeyed(f: FileInfo)
    ensures WellKeyed(FileItem(f))
  {
    InfoKeysDiffer();
    LookupPair(Entry(LENGTH, Integer(AsI64(f.length))), Entry(PATH, List(TextItems(f.path))), []);
  }

  // ---------------------------------------------------------------- piece hashes

  lemma {:induction false} ChunksFlatten(pieces: seq<Hash>)
    ensures |Flatten(pieces)| == 20 * |pieces|
    ensures Chunks(Flatten(pieces)) == pieces
  {
    if pieces != [] {
      ChunksFlatten(pieces[1..]);
      assert Flatten(pieces)[..20] == pieces[0];
      assert Flatten(pieces)[20..] == Flatten(pieces[1..]);
    }
  }

  // ---------------------------------------------------------------- the info dictionary

  ghost function ModeEntry(mode: Mode): Entry {
    match mode
    case Single(_, length) => Entry(LENGTH, Integer(AsI64(length)))
    case Multiple(_, files) => Entry(FILES, List(FileItems(files)))
  }

  lemma InfoEntries(pieceLength: u64, pieces: seq<byte>, mode: Mode)
    ensures BuildInfoDict(pieceLength, pieces, mode)
         == Dict([ModeEntry(mode), Entry(NAME, Bytes(mode.name))]
                 + [Entry(PIECE_LENGTH, Integer(AsI64(pieceLength))), Entry(PIECES, Bytes(pieces))])
  {}

  lemma InfoGet(pieceLength: u64, pieces: seq<byte>, mode: Mode, k: seq<byte>)
    ensures DictGet(Canon(BuildInfoDict(pieceLength, pieces, mode)), k)
         == if k == ModeEntry(mode).key then Some(Canon(ModeEntry(mode).value))
            else if k == NAME then Some(Bytes(mode.name))
            else if k == PIECE_LENGTH then Some(Integer(AsI64(pieceLength)))
            else if k == PIECES then Some(Bytes(pieces))
            else None
  {
    InfoKeysDiffer();
    InfoEntries(pieceLength, pieces, mode);
    var a, b := ModeEntry(mode), Entry(NAME, Bytes(mode.name));
    var c, d := Entry(PIECE_LENGTH, Integer(AsI64(pieceLength))), Entry(PIECES, Bytes(pieces));
    CanonGet([a, b] + [c, d], k);
    LookupConcat([a, b], [c, d], k);
    LookupPair(a, b, k);
    LookupPair(c, d, k);
  }

  lemma InfoKeyed(pieceLength: u64, pieces: seq<byte>, mode: Mode)
    ensures WellKeyed(BuildInfoDict(pieceLength, pieces, mode))
  {
    InfoKeysDiffer();
    InfoEntries(pieceLength, pieces, mode);
    var a, b := ModeEntry(mode), Entry(NAME, Bytes(mode.name));
    var c, d := Entry(PIECE_LENGTH, Integer(AsI64(pieceLength))), Entry(PIECES, Bytes(pieces));
    LookupPair(a, b, []);
    DistinctSnoc([a, b], c);
    DistinctSnoc([a, b] + [c], d);
    assert [a, b] + [c] + [d] == [a, b] + [c, d];
    if mode.Multiple? {
      forall i | 0 <= i < |mode.files|
        ensures WellKeyed(FileItems(mode.files)[i])
      {
        FileItemKeyed(mode.files[i]);
      }
    }
    assert WellKeyed(a.value);
  }

  lemma ParseBuiltMode(pieceLength: u64, pieces: seq<byte>, mode: Mode)
    ensures ParseMode(Canon(BuildInfoDict(pieceLength, pieces, mode)), mode.name)
         == if ModeOk(mode) then Ok(mode) else Err(MetainfoInvalidField)
  {
    InfoKeysDiffer();
    InfoGet(pieceLength, pieces, mode, LENGTH);
    InfoGet(pieceLength, pieces, mode, FILES);
    hide BuildInfoDict;
    if mode.Multiple? {
      ParseFileItems(mode.files);
    }
  }

  /** Parsing a written info dictionary gives back every field it was made from. */
  lemma ParseBuiltInfo(pieceLength: u64, hashes: seq<Hash>, mode: Mode, raw: seq<byte>)
    requires 0 < pieceLength < 0x8000_0000_0000_0000
    ensures ParseInfo(Canon(BuildInfoDict(pieceLength, Flatten(hashes), mode)), raw)
         == if ModeOk(mode) then Ok(Info(pieceLength, hashes, mode, Raw(raw))) else Err(MetainfoInvalidField)
  {
    InfoKeysDiffer();
    var pieces := Flatten(hashes);
    InfoGet(pieceLength, pieces, mode, PIECE_LENGTH);
    InfoGet(pieceLength, pieces, mode, PIECES);
    InfoGet(pieceLength, pieces, mode, NAME);
    ParseBuiltMode(pieceLength, pieces, mode);
    ChunksFlatten(hashes);
  }

  // ---------------------------------------------------------------- built torrents

  /** A built torrent is printed in canonical form, and it survives printing and
      parsing exactly when its lengths fit in an i64, no path is empty and it has
      no web seeds, which are not printed. */
  lemma BuiltRoundTrip(pieces: seq<Hash>, pieceLength: u32, announce: Text, mode: Mode,
                       urlList: seq<Text>, httpSeeds: seq<Text>)
    requires pieceLength > 0
    requires Fits(BuildInfoDict(pieceLength, Flatten(pieces), mode)) && |announce| <= U64_MAX
    ensures var m := Finished(pieces, pieceLength, announce, mode, urlList, httpSeeds);
            var dict := BuildInfoDict(pieceLength, Flatten(pieces), mode);
            && ToBytes(m) == Some(Encode(Dict([Entry(ANNOUNCE, Bytes(announce)), Entry(INFO, dict)])))
            && (FromBytes(ToBytes(m).value) == Ok(m) <==> ModeOk(mode) && urlList == [] && httpSeeds == [])
  {
    var m := Finished(pieces, pieceLength, announce, mode, urlList, httpSeeds);
    var dict := BuildInfoDict(pieceLength, Flatten(pieces), mode);
    var raw := Encode(dict);
    var a := Entry(ANNOUNCE, Bytes(announce));
    assert RootEntries(m) == [a];
    PrintedCanonical(m, dict);
    assert [a] + [Entry(INFO, dict)] == [a, Entry(INFO, dict)];
    InfoKeyed(pieceLength, Flatten(pieces), mode);
    RoundTrip(dict, []);
    assert raw + [] == raw;
    ParseBuiltInfo(pieceLength, pieces, mode, raw);
    PrintParseExact(m);
  }
}
