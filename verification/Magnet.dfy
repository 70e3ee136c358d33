/** Magnet URIs (BEP 9): parsing and printing. Strings are their UTF-8 bytes. */
module Magnet {
  import opened Prelude
  import opened Encodings
  import Decimal
  import Metainfo
  import Progress
  import Utf8

  type Text = Metainfo.Text
  type Hash = Metainfo.Hash

  /** An info hash and the form it was written in. */
  datatype InfoHash = InfoHash(bytes: Hash, raw: Text)

  datatype MagnetUri = MagnetUri(
    infoHashes: seq<InfoHash>,
    displayName: Option<Text>,
    trackers: seq<Text>,
    webSeeds: seq<Text>,
    exactSource: Option<Text>,
    acceptableSource: Option<Text>,
    keywordTopic: Option<Text>,
    manifestTopic: Option<Text>,
    exactLength: Option<u64>,
    peers: seq<Text>)

  /** Parsing can also hit a slice that is not on a character boundary, which panics. */
  datatype Outcome = Done(result: Result<MagnetUri>) | Panics

  const EMPTY_URI := MagnetUri([], None, [], [], None, None, None, None, None, [])

  const SCHEME: seq<byte> := [109, 97, 103, 110, 101, 116, 58] // "magnet:"
  const QUESTION: byte := 63
  const URN: seq<byte> := [117, 114, 110, 58, 98, 116, 105, 104, 58] // "urn:btih:"
  const XT: seq<byte> := [120, 116]
  const DN: seq<byte> := [100, 110]
  const TR: seq<byte> := [116, 114]
  const WS: seq<byte> := [119, 115]
  const XS: seq<byte> := [120, 115]
  const AS: seq<byte> := [97, 115]
  const KT: seq<byte> := [107, 116]
  const MT: seq<byte> := [109, 116]
  const PE: seq<byte> := [120, 46, 112, 101] // "x.pe"
  const XL: seq<byte> := [120, 108]

  // ---------------------------------------------------------------- trimming and the scheme

  /** Length of the white-space character (Unicode White_Space) that starts the string, 0 if none does. */
  function SpaceAt(s: seq<byte>): (n: nat)
    ensures n <= |s|
  {
    if |s| >= 1 && (9 <= s[0] <= 13 || s[0] == 32) then 1
    else if |s| >= 2 && s[0] == 0xC2 && (s[1] == 0x85 || s[1] == 0xA0) then 2
    else if |s| >= 3 && ((s[0] == 0xE1 && s[1] == 0x9A && s[2] == 0x80)
                         || (s[0] == 0xE2 && s[1] == 0x80
                             && (0x80 <= s[2] <= 0x8A || s[2] == 0xA8 || s[2] == 0xA9 || s[2] == 0xAF))
                         || (s[0] == 0xE2 && s[1] == 0x81 && s[2] == 0x9F)
                         || (s[0] == 0xE3 && s[1] == 0x80 && s[2] == 0x80)) then 3
    else 0
  }

  /** Length of the white-space character that ends the string. */
  function SpaceBefore(s: seq<byte>): (n: nat)
    ensures n <= |s|
  {
    if |s| >= 1 && SpaceAt(s[|s| - 1..]) == 1 then 1
    else if |s| >= 2 && SpaceAt(s[|s| - 2..]) == 2 then 2
    else if |s| >= 3 && SpaceAt(s[|s| - 3..]) == 3 then 3
    else 0
  }

  function TrimStart(s: seq<byte>): seq<byte> {
    if SpaceAt(s) == 0 then s else TrimStart(s[SpaceAt(s)..])
  }

  function TrimEnd(s: seq<byte>): seq<byte> {
    if SpaceBefore(s) == 0 then s else TrimEnd(s[..|s| - SpaceBefore(s)])
  }

  function Trim(s: seq<byte>): seq<byte> {
    TrimEnd(TrimStart(s))
  }

  function LowerCase(s: seq<byte>): seq<byte> {
    if s == [] then []
    else [if 65 <= s[0] <= 90 then s[0] + 32 else s[0]] + LowerCase(s[1..])
  }

  /** Slicing at byte 7 needs a character boundary there. */
  predicate SliceFails(s: seq<byte>) {
    !(SCHEME <= s) && |s| > 7 && Utf8.Continuation(s[7])
  }

  /** What follows `magnet:` in any case; a string of just that prefix needs lower case. */
  function AfterScheme(s: seq<byte>): Option<seq<byte>> {
    if SCHEME <= s then Some(s[7..])
    else if |s| > 7 && LowerCase(s[..7]) == SCHEME then Some(s[7..])
    else None
  }

  // ---------------------------------------------------------------- parameters

  function Split(s: seq<byte>, separator: byte): seq<seq<byte>> {
    var p := Position(s, separator);
    if p.None? then [s] else [s[..p.value]] + Split(s[p.value + 1..], separator)
  }

  /** The bytes a hash string denotes: 40 hex digits or 32 base32 characters. */
  function DecodeHash(raw: seq<byte>): (r: Option<seq<byte>>)
    ensures r.Some? ==> |r.value| == 20 && Utf8.Valid(raw) && forall i :: 0 <= i < |raw| ==> Plain(raw[i])
  {
    var r := if |raw| == 40 then HexDecode(raw) else if |raw| == 32 then Base32Decode(raw) else None;
    assert r.Some? ==> |r.value| == 20 && Utf8.Valid(raw) && forall i :: 0 <= i < |raw| ==> Plain(raw[i]) by {
      if r.Some? {
        DigitsArePlain(raw);
        Utf8.AsciiValid(raw);
        if |raw| == 40 {
          HexPairsGood(raw);
        } else {
          Base32GroupsGood(raw, 4);
        }
      }
    }
    r
  }

  function ParseXt(value: seq<byte>): Option<InfoHash> {
    if !(URN <= value) then None
    else
      var raw := value[|URN|..];
      var bytes := DecodeHash(raw);
      if bytes.Some? then Some(InfoHash(bytes.value, raw)) else None
  }

  function Decoded(value: seq<byte>): Text {
    Utf8.LossyExact(PercentDecode(value));
    UrlDecode(value)
  }

  datatype Field = Xt | Dn | Tr | Ws | Xs | As | Kt | Mt | Pe | Xl | Unknown

  function FieldOf(key: seq<byte>): Field {
    if key == XT then Xt
    else if key == DN then Dn
    else if key == TR then Tr
    else if key == WS then Ws
    else if key == XS then Xs
    else if key == AS then As
    else if key == KT then Kt
    else if key == MT then Mt
    else if key == PE then Pe
    else if key == XL then Xl
    else Unknown
  }

  /** Set or extend one field; unknown ones are ignored. */
  function SetField(m: MagnetUri, field: Field, value: seq<byte>): MagnetUri {
    match field
    case Xt =>
      var h := ParseXt(value);
      if h.Some? then m.(infoHashes := m.infoHashes + [h.value]) else m
    case Dn => m.(displayName := Some(Decoded(value)))
    case Tr => m.(trackers := m.trackers + [Decoded(value)])
    case Ws => m.(webSeeds := m.webSeeds + [Decoded(value)])
    case Xs => m.(exactSource := Some(Decoded(value)))
    case As => m.(acceptableSource := Some(Decoded(value)))
    case Kt => m.(keywordTopic := Some(Decoded(value)))
    case Mt => m.(manifestTopic := Some(Decoded(value)))
    case Pe => m.(peers := m.peers + [Decoded(value)])
    case Xl => m.(exactLength := Decimal.ParseU64(value))
    case Unknown => m
  }

  function ParseParam(m: MagnetUri, param: seq<byte>): MagnetUri {
    var p := Position(param, EQUALS);
    if p.None? then m else SetField(m, FieldOf(param[..p.value]), param[p.value + 1..])
  }

  function ParseParams(m: MagnetUri, params: seq<seq<byte>>): MagnetUri {
    if params == [] then m
    else ParseParam(ParseParams(m, params[..|params| - 1]), params[|params| - 1])
  }

  function ParseBody(body: seq<byte>): Result<MagnetUri> {
    if body == [] || body[0] != QUESTION then Err(InvalidInput)
    else
      var m := ParseParams(EMPTY_URI, Split(body[1..], AMPERSAND));
      if m.infoHashes == [] then Err(InvalidInput) else Ok(m)
  }

  function Parse(text: seq<byte>): Outcome {
    var s := Trim(text);
    if SliceFails(s) then Panics
    else
      var body := AfterScheme(s);
      if body.None? then Done(Err(InvalidInput)) else Done(ParseBody(body.value))
  }

  /** `from_str`: the parameter loop over the parts between ampersands. */
  method FromStr(text: seq<byte>) returns (r: Outcome)
    ensures r == Parse(text)
  {
    var s := Trim(text);
    if SliceFails(s) {
      return Panics;
    }
    var body := AfterScheme(s);
    hide Trim, SliceFails, AfterScheme, Split, ParseParam;
    if body.None? || body.value == [] || body.value[0] != QUESTION {
      return Done(Err(InvalidInput));
    }
    var params := Split(body.value[1..], AMPERSAND);
    var m := EMPTY_URI;
    for i := 0 to |params|
      invariant m == ParseParams(EMPTY_URI, params[..i])
    {
      assert params[..i + 1][..i] == params[..i];
      m := ParseParam(m, params[i]);
    }
    assert params[..|params|] == params;
    if m.infoHashes == [] {
      return Done(Err(InvalidInput));
    }
    return Done(Ok(m));
  }

  // ---------------------------------------------------------------- from a torrent

  function Flattened(tiers: seq<seq<Text>>): seq<Text> {
    if tiers == [] then [] else tiers[0] + Flattened(tiers[1..])
  }

  lemma HashText(bytes: Hash)
    ensures DecodeHash(HexEncode(bytes)) == Some(bytes) && Utf8.Valid(HexEncode(bytes))
  {
    HexRoundTrip(bytes);
  }

  /** The u64 sum of the file lengths, which wraps. */
  function WrappedSize(mode: Metainfo.Mode): u64 {
    Progress.TotalSize(mode) % 0x1_0000_0000_0000_0000
  }

  /** The magnet URI of a torrent: its hash in hex, its name, size and all trackers. */
  function FromMetainfo(meta: Metainfo.Metainfo, sha1: seq<byte> -> Hash): MagnetUri {
    var hash := Metainfo.InfoHash(meta, sha1);
    HashText(hash);
    MagnetUri([InfoHash(hash, HexEncode(hash))], Some(meta.info.mode.name),
              [meta.announce] + Flattened(meta.announceList), [], None, None, None, None,
              Some(WrappedSize(meta.info.mode)), [])
  }

  // ---------------------------------------------------------------- printing

  function Param(key: seq<byte>, value: seq<byte>): seq<byte> {
    key + [EQUALS] + value
  }

  function XtParams(hashes: seq<InfoHash>): seq<seq<byte>> {
    if hashes == [] then []
    else XtParams(hashes[..|hashes| - 1]) + [Param(XT, URN + hashes[|hashes| - 1].raw)]
  }

  function Each(key: seq<byte>, texts: seq<Text>): seq<seq<byte>> {
    if texts == [] then []
    else Each(key, texts[..|texts| - 1]) + [Param(key, UrlEncode(texts[|texts| - 1]))]
  }

  function AtMostOne(key: seq<byte>, text: Option<Text>): seq<seq<byte>> {
    if text.None? then [] else [Param(key, UrlEncode(text.value))]
  }

  function LengthParam(n: Option<u64>): seq<seq<byte>> {
    if n.None? then [] else [Param(XL, Decimal.Digits(n.value))]
  }

  /** The parameters that are separated by ampersands ... */
  function Head(m: MagnetUri): seq<seq<byte>> {
    XtParams(m.infoHashes) + AtMostOne(DN, m.displayName) + Each(TR, m.trackers)
  }

  /** ... and those that always have one in front. */
  function Tail(m: MagnetUri): seq<seq<byte>> {
    Each(WS, m.webSeeds) + AtMostOne(XS, m.exactSource) + AtMostOne(AS, m.acceptableSource)
    + AtMostOne(KT, m.keywordTopic) + AtMostOne(MT, m.manifestTopic) + Each(PE, m.peers) + LengthParam(m.exactLength)
  }

  function Joined(params: seq<seq<byte>>): seq<byte> {
    if params == [] then []
    else
      var n := |params| - 1;
      Joined(params[..n]) + (if n == 0 then [] else [AMPERSAND]) + params[n]
  }

  function Prefixed(params: seq<seq<byte>>): seq<byte> {
    if params == [] then [] else Prefixed(params[..|params| - 1]) + [AMPERSAND] + params[|params| - 1]
  }

  function Display(m: MagnetUri): seq<byte> {
    SCHEME + [QUESTION] + Joined(Head(m)) + Prefixed(Tail(m))
  }

  /** One `write!` of a parameter, with an ampersand in front unless it is the first. */
  function Written(out: seq<byte>, first: bool, key: seq<byte>, value: seq<byte>): seq<byte> {
    out + (if first then [] else [AMPERSAND]) + key + [EQUALS] + value
  }

  /** What is in the buffer after the given parameters. */
  ghost function Buffer(head: seq<seq<byte>>, tail: seq<seq<byte>>): seq<byte> {
    SCHEME + [QUESTION] + Joined(head) + Prefixed(tail)
  }

  lemma JoinedSnoc(params: seq<seq<byte>>, p: seq<byte>)
    ensures Joined(params + [p]) == Joined(params) + (if params == [] then [] else [AMPERSAND]) + p
  {
    assert (params + [p])[..|params|] == params;
  }

  lemma PrefixedSnoc(params: seq<seq<byte>>, p: seq<byte>)
    ensures Prefixed(params + [p]) == Prefixed(params) + [AMPERSAND] + p
  {
    assert (params + [p])[..|params|] == params;
  }

  /** Writing piece by piece is appending the whole. */
  lemma Regroup(out: seq<byte>, separator: seq<byte>, key: seq<byte>, equals: seq<byte>, value: seq<byte>)
    ensures out + separator + key + equals + value == out + (separator + (key + equals + value))
  {
    Assoc(out + separator, key, equals);
    Assoc(out + separator, key + equals, value);
    Assoc(out, separator, key + equals + value);
  }

  lemma WriteSeparated(head: seq<seq<byte>>, key: seq<byte>, value: seq<byte>)
    ensures Written(Buffer(head, []), head == [], key, value) == Buffer(head + [Param(key, value)], [])
  {
    var p := Param(key, value);
    var separator := if head == [] then [] else [AMPERSAND];
    JoinedSnoc(head, p);
    HeadBuffer(head);
    HeadBuffer(head + [p]);
    Regroup(Buffer(head, []), separator, key, [EQUALS], value);
    hide Joined, Buffer;
    Assoc(Joined(head), separator, p);
    Assoc(SCHEME + [QUESTION], Joined(head), separator + p);
  }

  lemma HeadBuffer(head: seq<seq<byte>>)
    ensures Buffer(head, []) == SCHEME + [QUESTION] + Joined(head)
  {
    hide Joined;
    assert SCHEME + [QUESTION] + Joined(head) + [] == SCHEME + [QUESTION] + Joined(head);
  }

  lemma WriteAppended(head: seq<seq<byte>>, tail: seq<seq<byte>>, key: seq<byte>, value: seq<byte>)
    ensures Written(Buffer(head, tail), false, key, value) == Buffer(head, tail + [Param(key, value)])
  {
    var p := Param(key, value);
    PrefixedSnoc(tail, p);
    Regroup(Buffer(head, tail), [AMPERSAND], key, [EQUALS], value);
    hide Joined, Prefixed;
    Assoc(Prefixed(tail), [AMPERSAND], p);
    Assoc(SCHEME + [QUESTION] + Joined(head), Prefixed(tail), [AMPERSAND] + p);
  }

  /** The `Display` implementation: everything up to the trackers minds the separator. */
  method Format(m: MagnetUri) returns (out: seq<byte>)
    ensures out == Display(m)
  {
    out := SCHEME + [QUESTION];
    var first := true;
    ghost var head: seq<seq<byte>> := [];
    assert out == Buffer(head, []);
    hide Buffer, Written, Param, UrlEncode;
    for i := 0 to |m.infoHashes|
      invariant head == XtParams(m.infoHashes[..i]) && out == Buffer(head, []) && first == (head == [])
    {
      assert m.infoHashes[..i + 1][..i] == m.infoHashes[..i];
      WriteSeparated(head, XT, URN + m.infoHashes[i].raw);
      out := Written(out, first, XT, URN + m.infoHashes[i].raw);
      head, first := head + [Param(XT, URN + m.infoHashes[i].raw)], false;
    }
    assert m.infoHashes[..|m.infoHashes|] == m.infoHashes;
    ghost var hashes := head;
    if m.displayName.Some? {
      WriteSeparated(head, DN, UrlEncode(m.displayName.value));
      out := Written(out, first, DN, UrlEncode(m.displayName.value));
      head, first := head + [Param(DN, UrlEncode(m.displayName.value))], false;
    }
    assert head == hashes + AtMostOne(DN, m.displayName);
    out, head := FormatTrackers(m.trackers, out, first, head);
    assert head == Head(m);
    out := FormatTail(m, out, head);
    assert out == Display(m) by {
      BufferIsDisplay(m);
    }
  }

  lemma BufferIsDisplay(m: MagnetUri)
    ensures Buffer(Head(m), Tail(m)) == Display(m)
  {}

  method FormatTrackers(trackers: seq<Text>, before: seq<byte>, firstBefore: bool, ghost headBefore: seq<seq<byte>>)
    returns (out: seq<byte>, ghost head: seq<seq<byte>>)
    requires before == Buffer(headBefore, []) && firstBefore == (headBefore == [])
    ensures head == headBefore + Each(TR, trackers) && out == Buffer(head, [])
  {
    out, head := before, headBefore;
    var first := firstBefore;
    hide Buffer, Written, Param, UrlEncode;
    for i := 0 to |trackers|
      invariant head == headBefore + Each(TR, trackers[..i]) && out == Buffer(head, []) && first == (head == [])
    {
      assert trackers[..i + 1][..i] == trackers[..i];
      WriteSeparated(head, TR, UrlEncode(trackers[i]));
      out := Written(out, first, TR, UrlEncode(trackers[i]));
      head, first := head + [Param(TR, UrlEncode(trackers[i]))], false;
    }
    assert trackers[..|trackers|] == trackers;
  }

  method FormatTail(m: MagnetUri, before: seq<byte>, ghost head: seq<seq<byte>>) returns (out: seq<byte>)
    requires before == Buffer(head, [])
    ensures out == Buffer(head, Tail(m))
  {
    hide Buffer, Written, Param, UrlEncode, Each;
    ghost var tail: seq<seq<byte>>;
    out, tail := FormatEach(WS, m.webSeeds, before, head, []);
    out, tail := FormatOne(XS, m.exactSource, out, head, tail);
    out, tail := FormatOne(AS, m.acceptableSource, out, head, tail);
    out, tail := FormatOne(KT, m.keywordTopic, out, head, tail);
    out, tail := FormatOne(MT, m.manifestTopic, out, head, tail);
    out, tail := FormatEach(PE, m.peers, out, head, tail);
    if m.exactLength.Some? {
      WriteAppended(head, tail, XL, Decimal.Digits(m.exactLength.value));
      out := Written(out, false, XL, Decimal.Digits(m.exactLength.value));
    }
    assert tail + [] == tail && [] + Each(WS, m.webSeeds) == Each(WS, m.webSeeds);
    tail := tail + LengthParam(m.exactLength);
    assert tail == Tail(m);
  }

  method FormatEach(key: seq<byte>, texts: seq<Text>, before: seq<byte>,
                    ghost head: seq<seq<byte>>, ghost tailBefore: seq<seq<byte>>)
    returns (out: seq<byte>, ghost tail: seq<seq<byte>>)
    requires before == Buffer(head, tailBefore)
    ensures tail == tailBefore + Each(key, texts) && out == Buffer(head, tail)
  {
    out, tail := before, tailBefore;
    hide Buffer, Written, Param, UrlEncode;
    for i := 0 to |texts|
      invariant tail == tailBefore + Each(key, texts[..i]) && out == Buffer(head, tail)
    {
      assert texts[..i + 1][..i] == texts[..i];
      WriteAppended(head, tail, key, UrlEncode(texts[i]));
      out := Written(out, false, key, UrlEncode(texts[i]));
      tail := tail + [Param(key, UrlEncode(texts[i]))];
    }
    assert texts[..|texts|] == texts;
  }

  method FormatOne(key: seq<byte>, text: Option<Text>, before: seq<byte>,
                   ghost head: seq<seq<byte>>, ghost tailBefore: seq<seq<byte>>)
    returns (out: seq<byte>, ghost tail: seq<seq<byte>>)
    requires before == Buffer(head, tailBefore)
    ensures tail == tailBefore + AtMostOne(key, text) && out == Buffer(head, tail)
  {
    out, tail := before, tailBefore;
    if text.Some? {
      WriteAppended(head, tail, key, UrlEncode(text.value));
      out := Written(out, false, key, UrlEncode(text.value));
      tail := tail + [Param(key, UrlEncode(text.value))];
    }
  }
}
