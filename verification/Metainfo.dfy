/** `.torrent` files (BEP 3, BEP 12): parsing, the raw info scan, and printing. */
module Metainfo {
  import opened Prelude
  import opened StableSort
  import opened Bencode
  import Utf8

  type Text = Utf8.Text
  type Hash = h: seq<byte> | |h| == 20 witness seq(20, _ => 0)

  datatype Metainfo = Metainfo(
    announce: Text,
    announceList: seq<seq<Text>>,
    info: Info,
    urlList: seq<Text>,
    httpSeeds: seq<Text>,
    creationDate: Option<i64>,
    comment: Option<Text>,
    createdBy: Option<Text>,
    encoding: Option<Text>)

  datatype Info = Info(pieceLength: u64, pieces: seq<Hash>, mode: Mode, rawInfo: RawInfo)

  datatype Mode =
    | Single(name: Text, length: u64)
    | Multiple(name: Text, files: seq<FileInfo>)

  datatype FileInfo = FileInfo(length: u64, path: seq<Text>)

  /** The exact bytes of the info dictionary, or only their hash (magnet links). */
  datatype RawInfo = Raw(bytes: seq<byte>) | HashOnly(hash: Hash)

  const ANNOUNCE: seq<byte> := [97, 110, 110, 111, 117, 110, 99, 101] // "announce"
  const ANNOUNCE_LIST: seq<byte> := [97, 110, 110, 111, 117, 110, 99, 101, 45, 108, 105, 115, 116] // "announce-list"
  const COMMENT: seq<byte> := [99, 111, 109, 109, 101, 110, 116] // "comment"
  const CREATED_BY: seq<byte> := [99, 114, 101, 97, 116, 101, 100, 32, 98, 121] // "created by"
  const CREATION_DATE: seq<byte> := [99, 114, 101, 97, 116, 105, 111, 110, 32, 100, 97, 116, 101] // "creation date"
  const ENCODING: seq<byte> := [101, 110, 99, 111, 100, 105, 110, 103] // "encoding"
  const INFO: seq<byte> := [105, 110, 102, 111] // "info"
  const URL_LIST: seq<byte> := [117, 114, 108, 45, 108, 105, 115, 116] // "url-list"
  const HTTPSEEDS: seq<byte> := [104, 116, 116, 112, 115, 101, 101, 100, 115] // "httpseeds"
  const PIECE_LENGTH: seq<byte> := [112, 105, 101, 99, 101, 32, 108, 101, 110, 103, 116, 104] // "piece length"
  const PIECES: seq<byte> := [112, 105, 101, 99, 101, 115] // "pieces"
  const NAME: seq<byte> := [110, 97, 109, 101] // "name"
  const LENGTH: seq<byte> := [108, 101, 110, 103, 116, 104] // "length"
  const FILES: seq<byte> := [102, 105, 108, 101, 115] // "files"
  const PATH: seq<byte> := [112, 97, 116, 104] // "path"

  // ---------------------------------------------------------------- raw info scan

  function FindRawInfo(data: seq<byte>): Result<seq<byte>> {
    if data == [] || data[0] != DICT then Err(MetainfoInvalidField) else ScanEntries(data[1..])
  }

  /** The scan over the top-level entries, on the bytes not yet passed. */
  function ScanEntries(rest: seq<byte>): Result<seq<byte>>
    decreases |rest|
  {
    if rest == [] then Err(MetainfoMissingField)
    else
      match Decode(rest)
      case Err(_) => Err(MetainfoMissingField)
      case Ok(k) =>
        var v :- Decode(k.rest);
        if k.value == Bytes(INFO) then Ok(Consumed(k.rest, v.rest)) else ScanEntries(v.rest)
  }

  /** The scan as written, with a byte position. */
  method FindRawInfoBytes(data: seq<byte>) returns (r: Result<seq<byte>>)
    ensures r == FindRawInfo(data)
  {
    hide Decode;
    if data == [] || data[0] != DICT {
      return Err(MetainfoInvalidField);
    }
    var pos := 1;
    while pos < |data|
      invariant 1 <= pos <= |data|
      invariant ScanEntries(data[pos..]) == FindRawInfo(data)
      decreases |data| - pos
    {
      var remaining := data[pos..];
      var key := DecodeValue(remaining);
      if key.Err? {
        return Err(MetainfoMissingField);
      }
      SuffixAt(data, pos, key.value.rest);
      pos := pos + (|remaining| - |key.value.rest|);
      var valRemaining := data[pos..];
      var v :- DecodeValue(valRemaining);
      SuffixAt(data, pos, v.rest);
      var valConsumed := |valRemaining| - |v.rest|;
      if key.value.value == Bytes(INFO) {
        assert data[pos..pos + valConsumed] == Consumed(valRemaining, v.rest);
        return Ok(data[pos..pos + valConsumed]);
      }
      pos := pos + valConsumed;
    }
    return Err(MetainfoMissingField);
  }

  // ---------------------------------------------------------------- parsing

  function StringFromBytes(b: seq<byte>): Result<Text> {
    if Utf8.Valid(b) then Ok(b) else Err(InvalidInput)
  }

  function StringFromBencode(v: Bencode): Result<Text> {
    if v.Bytes? then StringFromBytes(v.bytes) else Err(MetainfoInvalidField)
  }

  function OptionalString(root: Bencode, key: seq<byte>): Option<Text> {
    match DictGet(root, key)
    case None => None
    case Some(v) =>
      match StringFromBencode(v)
      case Ok(s) => Some(s)
      case Err(_) => None
  }

  function Chunks(b: seq<byte>): seq<Hash>
    requires |b| % 20 == 0
  {
    if b == [] then [] else [b[..20]] + Chunks(b[20..])
  }

  function ParsePath(parts: seq<Bencode>): Result<seq<Text>> {
    if parts == [] then Ok([])
    else
      var part :- StringFromBencode(parts[0]);
      var rest :- ParsePath(parts[1..]);
      Ok([part] + rest)
  }

  function ParseFile(item: Bencode): Result<FileInfo> {
    match DictGetInt(item, LENGTH)
    case None => Err(MetainfoMissingField)
    case Some(length) =>
      if length < 0 then Err(MetainfoInvalidField)
      else
        match DictGet(item, PATH)
        case Some(List(parts)) =>
          var path :- ParsePath(parts);
          if path == [] then Err(MetainfoInvalidField) else Ok(FileInfo(length, path))
        case _ => Err(MetainfoInvalidField)
  }

  function ParseFiles(items: seq<Bencode>): Result<seq<FileInfo>> {
    if items == [] then Ok([])
    else
      var file :- ParseFile(items[0]);
      var rest :- ParseFiles(items[1..]);
      Ok([file] + rest)
  }

  method ParseFilesList(v: Bencode) returns (r: Result<seq<FileInfo>>)
    ensures r == if v.List? then ParseFiles(v.items) else Err(MetainfoInvalidField)
  {
    if !v.List? {
      return Err(MetainfoInvalidField);
    }
    var files: seq<FileInfo> := [];
    assert v.items[0..] == v.items;
    assert forall rest: seq<FileInfo> :: files + rest == rest;
    for i := 0 to |v.items|
      invariant ParseFiles(v.items) == InFront(files, ParseFiles(v.items[i..]))
    {
      assert v.items[i..][1..] == v.items[i + 1..];
      var file :- ParseFileItem(v.items[i]);
      assert forall rest :: files + ([file] + rest) == files + [file] + rest;
      files := files + [file];
    }
    assert files + [] == files;
    return Ok(files);
  }

  method ParseFileItem(item: Bencode) returns (r: Result<FileInfo>)
    ensures r == ParseFile(item)
  {
    var length := DictGetInt(item, LENGTH);
    if length.None? {
      return Err(MetainfoMissingField);
    }
    if length.value < 0 {
      return Err(MetainfoInvalidField);
    }
    var parts := DictGet(item, PATH);
    if !(parts.Some? && parts.value.List?) {
      return Err(MetainfoInvalidField);
    }
    var path: seq<Text> := [];
    assert parts.value.items[0..] == parts.value.items;
    assert forall rest: seq<Text> :: path + rest == rest;
    for i := 0 to |parts.value.items|
      invariant ParsePath(parts.value.items) == InFront(path, ParsePath(parts.value.items[i..]))
    {
      assert parts.value.items[i..][1..] == parts.value.items[i + 1..];
      var part :- StringFromBencode(parts.value.items[i]);
      assert forall rest :: path + ([part] + rest) == path + [part] + rest;
      path := path + [part];
    }
    assert path + [] == path;
    if path == [] {
      return Err(MetainfoInvalidField);
    }
    return Ok(FileInfo(length.value, path));
  }

  function ParseInfo(v: Bencode, raw: seq<byte>): Result<Info> {
    match DictGetInt(v, PIECE_LENGTH)
    case None => Err(MetainfoMissingField)
    case Some(pieceLength) =>
      if pieceLength <= 0 then Err(MetainfoInvalidField)
      else
        match DictGetBytes(v, PIECES)
        case None => Err(MetainfoMissingField)
        case Some(pieces) =>
          if |pieces| % 20 != 0 then Err(MetainfoInvalidPieces)
          else
            match DictGetBytes(v, NAME)
            case None => Err(MetainfoMissingField)
            case Some(nameBytes) =>
              var name :- StringFromBytes(nameBytes);
              var mode :- ParseMode(v, name);
              Ok(Info(pieceLength, Chunks(pieces), mode, Raw(raw)))
  }

  function ParseMode(v: Bencode, name: Text): Result<Mode> {
    match DictGetInt(v, LENGTH)
    case Some(length) =>
      if length < 0 then Err(MetainfoInvalidField) else Ok(Single(name, length))
    case None =>
      match DictGet(v, FILES)
      case None => Err(MetainfoMissingField)
      case Some(files) =>
        if !files.List? then Err(MetainfoInvalidField)
        else
          var fs :- ParseFiles(files.items);
          Ok(Multiple(name, fs))
  }

  /** The valid strings of a list, in order; other items are skipped. */
  function Strings(items: seq<Bencode>): seq<Text> {
    if items == [] then []
    else
      match StringFromBencode(items[0])
      case Ok(s) => [s] + Strings(items[1..])
      case Err(_) => Strings(items[1..])
  }

  function Tiers(items: seq<Bencode>): seq<seq<Text>> {
    if items == [] then []
    else if items[0].List? && Strings(items[0].items) != [] then
      [Strings(items[0].items)] + Tiers(items[1..])
    else Tiers(items[1..])
  }

  method ParseAnnounceList(root: Bencode) returns (tiers: seq<seq<Text>>)
    ensures tiers == AnnounceList(root)
  {
    var list := DictGet(root, ANNOUNCE_LIST);
    if !(list.Some? && list.value.List?) {
      return [];
    }
    var items := list.value.items;
    tiers := [];
    for i := 0 to |items|
      invariant tiers + Tiers(items[i..]) == Tiers(items)
    {
      assert items[i..][1..] == items[i + 1..];
      if items[i].List? {
        var urls := Strings(items[i].items);
        if urls != [] {
          assert tiers + ([urls] + Tiers(items[i + 1..])) == tiers + [urls] + Tiers(items[i + 1..]);
          tiers := tiers + [urls];
        }
      }
    }
  }

  function AnnounceList(root: Bencode): seq<seq<Text>> {
    match DictGet(root, ANNOUNCE_LIST)
    case Some(List(tiers)) => Tiers(tiers)
    case _ => []
  }

  function NonEmpty(texts: seq<Text>): seq<Text> {
    if texts == [] then []
    else if texts[0] == [] then NonEmpty(texts[1..])
    else [texts[0]] + NonEmpty(texts[1..])
  }

  function UrlList(root: Bencode): seq<Text> {
    match DictGet(root, URL_LIST)
    case Some(Bytes(b)) => if Utf8.Valid(b) && b != [] then [b] else []
    case Some(List(items)) => NonEmpty(Strings(items))
    case _ => []
  }

  function HttpSeeds(root: Bencode): seq<Text> {
    match DictGet(root, HTTPSEEDS)
    case Some(List(items)) => NonEmpty(Strings(items))
    case _ => []
  }

  function FromBytes(data: seq<byte>): Result<Metainfo> {
    var p :- Decode(data);
    var root := p.value;
    if !root.Dict? then Err(MetainfoInvalidField)
    else
      match DictGet(root, INFO)
      case None => Err(MetainfoMissingField)
      case Some(infoVal) =>
        var raw :- FindRawInfo(data);
        var info :- ParseInfo(infoVal, raw);
        Ok(WithFields(root, info))
  }

  /** The optional fields of the root dictionary around a parsed `info`. */
  function WithFields(root: Bencode, info: Info): Metainfo {
    var announce := OptionalString(root, ANNOUNCE);
    Metainfo(
      if announce.Some? then announce.value else [],
      AnnounceList(root),
      info,
      UrlList(root),
      HttpSeeds(root),
      DictGetInt(root, CREATION_DATE),
      OptionalString(root, COMMENT),
      OptionalString(root, CREATED_BY),
      OptionalString(root, ENCODING))
  }

  // ---------------------------------------------------------------- printing

  function Field(key: seq<byte>, v: Option<Bencode>): seq<Entry> {
    if v.Some? then [Entry(key, v.value)] else []
  }

  function TextValue(t: Option<Text>): Option<Bencode> {
    if t.Some? then Some(Bytes(t.value)) else None
  }

  function TextItems(texts: seq<Text>): seq<Bencode> {
    seq(|texts|, i requires 0 <= i < |texts| => Bytes(texts[i]))
  }

  function TierItems(tiers: seq<seq<Text>>): seq<Bencode> {
    seq(|tiers|, i requires 0 <= i < |tiers| => List(TextItems(tiers[i])))
  }

  /** The root entries besides `info`, in the order they are pushed. */
  function RootEntries(m: Metainfo): seq<Entry> {
    Field(ANNOUNCE, Some(Bytes(m.announce)))
    + Field(ANNOUNCE_LIST, if m.announceList == [] then None else Some(List(TierItems(m.announceList))))
    + Field(CREATION_DATE, if m.creationDate.Some? then Some(Integer(m.creationDate.value)) else None)
    + Field(COMMENT, TextValue(m.comment))
    + Field(CREATED_BY, TextValue(m.createdBy))
    + Field(ENCODING, TextValue(m.encoding))
  }

  function ToBytes(m: Metainfo): Option<seq<byte>> {
    match m.info.rawInfo
    case HashOnly(_) => None
    case Raw(raw) =>
      Some([DICT] + EncodeEntries(SortBy(RootEntries(m), KeyLeq)) + EncodeBytes(INFO) + raw + [END])
  }

  method PrintTorrent(m: Metainfo) returns (r: Option<seq<byte>>)
    ensures r == ToBytes(m)
  {
    if m.info.rawInfo.HashOnly? {
      return None;
    }
    var entries := RootEntries(m);
    var out := [DICT];
    entries := SortBy(entries, KeyLeq);
    for i := 0 to |entries|
      invariant out + EncodeEntries(entries[i..]) == [DICT] + EncodeEntries(entries)
    {
      EntryPrinted(out, entries, i);
      hide EncodeEntries;
      var key := EncodeValue(Bytes(entries[i].key));
      out := out + key;
      var val := EncodeValue(entries[i].value);
      out := out + val;
    }
    assert out == [DICT] + EncodeEntries(entries);
    var infoKey := EncodeValue(Bytes(INFO));
    assert infoKey == EncodeBytes(INFO);
    out := out + infoKey + m.info.rawInfo.bytes;
    out := out + [END];
    return Some(out);
  }

  /** The info hash; SHA-1 is a parameter. */
  function InfoHash(m: Metainfo, sha1: seq<byte> -> Hash): Hash {
    match m.info.rawInfo
    case HashOnly(h) => h
    case Raw(raw) => sha1(raw)
  }
}
