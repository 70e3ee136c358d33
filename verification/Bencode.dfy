/** Bencoded values (BEP 3): the decoder, the encoder, and the loops both are written with. */
module Bencode {
  import opened Prelude
  import opened Decimal
  import opened StableSort
  import Utf8

  datatype Bencode =
    | Bytes(bytes: seq<byte>)
    | Integer(value: i64)
    | List(items: seq<Bencode>)
    | Dict(entries: seq<Entry>)

  /** A dictionary entry; dictionaries keep them in a vector, not in a map. */
  datatype Entry = Entry(key: seq<byte>, value: Bencode)

  /** A decoded value and the bytes after it. */
  datatype Parsed = Parsed(value: Bencode, rest: seq<byte>)

  const COLON: byte := ':' as byte
  const INT: byte := 'i' as byte
  const LIST: byte := 'l' as byte
  const DICT: byte := 'd' as byte
  const END: byte := 'e' as byte

  predicate KeyLeq(a: Entry, b: Entry) {
    LexLeq(a.key, b.key)
  }

  // ---------------------------------------------------------------- decoding

  function Decode(data: seq<byte>): (r: Result<Parsed>)
    ensures r.Ok? ==> ProperSuffix(r.value.rest, data)
    decreases |data|, 1
  {
    if data == [] then Err(BencodeUnexpectedEof)
    else if IsDigit(data[0]) then ParseString(data)
    else if data[0] == INT then ParseInteger(data)
    else if data[0] == LIST then ParseItems(data[1..], [])
    else if data[0] == DICT then ParseEntries(data[1..], [])
    else Err(BencodeInvalidSyntax)
  }

  function ParseString(data: seq<byte>): (r: Result<Parsed>)
    ensures r.Ok? ==> ProperSuffix(r.value.rest, data)
  {
    match Position(data, COLON)
    case None => Err(BencodeInvalidSyntax)
    case Some(colon) =>
      var lenStr := data[..colon];
      var len :- DecimalU64(lenStr);
      var start := colon + 1;
      if |lenStr| > 1 && lenStr[0] == ZERO then Err(BencodeInvalidInteger)
      else if start + len > |data| then Err(BencodeUnexpectedEof)
      else Ok(Parsed(Bytes(data[start..start + len]), data[start + len..]))
  }

  function ParseInteger(data: seq<byte>): (r: Result<Parsed>)
    requires data != [] && data[0] == INT
    ensures r.Ok? ==> ProperSuffix(r.value.rest, data)
  {
    match Position(data, END)
    case None => Err(BencodeUnexpectedEof)
    case Some(end) =>
      var value :- IntegerBody(data[1..end]);
      Ok(Parsed(Integer(value), data[end + 1..]))
  }

  /** The checks on the bytes between `i` and `e`, in the decoder's order. */
  function IntegerBody(num: seq<byte>): Result<i64> {
    if num == [] then Err(BencodeInvalidInteger)
    else
      var hasSign := num[0] == MINUS;
      var start := if hasSign then 1 else 0;
      if start >= |num| then Err(BencodeInvalidInteger)
      else if hasSign && num[1] == ZERO && |num| == 2 then Err(BencodeInvalidInteger)
      else if |num| - start > 1 && num[start] == ZERO then Err(BencodeInvalidInteger)
      else if !Utf8.Valid(num) then Err(BencodeInvalidInteger)
      else
        match ParseI64(num)
        case None => Err(BencodeIntegerOverflow)
        case Some(v) => Ok(v)
  }

  /** The list loop, with the items read so far. */
  function ParseItems(rest: seq<byte>, items: seq<Bencode>): (r: Result<Parsed>)
    ensures r.Ok? ==> ProperSuffix(r.value.rest, rest)
    decreases |rest|, 2
  {
    if rest == [] then Err(BencodeUnexpectedEof)
    else if rest[0] == END then Ok(Parsed(List(items), rest[1..]))
    else
      var p :- Decode(rest);
      ParseItems(p.rest, items + [p.value])
  }

  /** The dictionary loop, with the entries read so far. */
  function ParseEntries(rest: seq<byte>, entries: seq<Entry>): (r: Result<Parsed>)
    ensures r.Ok? ==> ProperSuffix(r.value.rest, rest)
    decreases |rest|, 2
  {
    if rest == [] then Err(BencodeUnexpectedEof)
    else if rest[0] == END then Ok(Parsed(Dict(SortBy(entries, KeyLeq)), rest[1..]))
    else
      var k :- Decode(rest);
      if !k.value.Bytes? then Err(BencodeInvalidSyntax)
      else if k.rest == [] then Err(BencodeUnexpectedEof)
      else
        var v :- Decode(k.rest);
        if HasKey(entries, k.value.bytes) then Err(BencodeInvalidSyntax)
        else ParseEntries(v.rest, entries + [Entry(k.value.bytes, v.value)])
  }

  predicate HasKey(entries: seq<Entry>, key: seq<byte>) {
    exists i :: 0 <= i < |entries| && entries[i].key == key
  }

  method DecodeValue(data: seq<byte>) returns (r: Result<Parsed>)
    ensures r == Decode(data)
    decreases |data|, 1
  {
    if data == [] {
      r := Err(BencodeUnexpectedEof);
    } else if IsDigit(data[0]) {
      r := ParseString(data);
    } else if data[0] == INT {
      r := ParseInteger(data);
    } else if data[0] == LIST {
      r := ParseList(data);
    } else if data[0] == DICT {
      r := ParseDict(data);
    } else {
      r := Err(BencodeInvalidSyntax);
    }
  }

  method ParseList(data: seq<byte>) returns (r: Result<Parsed>)
    requires data != [] && data[0] == LIST
    ensures r == Decode(data)
    decreases |data|, 0
  {
    var rest, items := data[1..], [];
    while true
      invariant |rest| < |data|
      invariant ParseItems(rest, items) == ParseItems(data[1..], [])
      decreases |rest|
    {
      if rest == [] {
        return Err(BencodeUnexpectedEof);
      }
      if rest[0] == END {
        return Ok(Parsed(List(items), rest[1..]));
      }
      var p :- DecodeValue(rest);
      items := items + [p.value];
      rest := p.rest;
    }
  }

  method ParseDict(data: seq<byte>) returns (r: Result<Parsed>)
    requires data != [] && data[0] == DICT
    ensures r == Decode(data)
    decreases |data|, 0
  {
    var rest, entries := data[1..], [];
    while true
      invariant |rest| < |data|
      invariant ParseEntries(rest, entries) == ParseEntries(data[1..], [])
      decreases |rest|
    {
      if rest == [] {
        return Err(BencodeUnexpectedEof);
      }
      if rest[0] == END {
        return Ok(Parsed(Dict(SortBy(entries, KeyLeq)), rest[1..]));
      }
      var k :- DecodeValue(rest);
      if !k.value.Bytes? {
        return Err(BencodeInvalidSyntax);
      }
      if k.rest == [] {
        return Err(BencodeUnexpectedEof);
      }
      var v :- DecodeValue(k.rest);
      if HasKey(entries, k.value.bytes) {
        return Err(BencodeInvalidSyntax);
      }
      entries := entries + [Entry(k.value.bytes, v.value)];
      rest := v.rest;
    }
  }

  // ---------------------------------------------------------------- encoding

  ghost function Depth(v: Bencode): nat {
    match v
    case Bytes(_) => 0
    case Integer(_) => 0
    case List(items) => 1 + ItemsDepth(items)
    case Dict(entries) => 1 + EntriesDepth(entries)
  }

  ghost function ItemsDepth(items: seq<Bencode>): nat {
    if items == [] then 0 else Max(Depth(items[0]), ItemsDepth(items[1..]))
  }

  ghost function EntriesDepth(entries: seq<Entry>): nat {
    if entries == [] then 0 else Max(Depth(entries[0].value), EntriesDepth(entries[1..]))
  }

  lemma {:induction false} InsertDepth(e: Entry, s: seq<Entry>)
    ensures EntriesDepth(Insert(e, s, KeyLeq)) == Max(Depth(e.value), EntriesDepth(s))
  {
    if s == [] || KeyLeq(e, s[0]) {
      assert ([e] + s)[1..] == s;
    } else {
      InsertDepth(e, s[1..]);
      assert ([s[0]] + Insert(e, s[1..], KeyLeq))[1..] == Insert(e, s[1..], KeyLeq);
    }
  }

  /** Sorting the entries does not make them deeper. */
  lemma {:induction false} SortDepth(entries: seq<Entry>)
    ensures EntriesDepth(SortBy(entries, KeyLeq)) == EntriesDepth(entries)
  {
    if entries != [] {
      SortDepth(entries[1..]);
      InsertDepth(entries[0], SortBy(entries[1..], KeyLeq));
    }
  }

  function Encode(v: Bencode): (out: seq<byte>)
    decreases Depth(v), 0
  {
    match v
    case Bytes(b) => EncodeBytes(b)
    case Integer(i) => [INT] + Print(i) + [END]
    case List(items) => [LIST] + EncodeItems(items) + [END]
    case Dict(entries) =>
      SortDepth(entries);
      [DICT] + EncodeEntries(SortBy(entries, KeyLeq)) + [END]
  }

  function EncodeBytes(b: seq<byte>): seq<byte> {
    Digits(|b|) + [COLON] + b
  }

  function EncodeItems(items: seq<Bencode>): seq<byte>
    decreases ItemsDepth(items), |items| + 1
  {
    if items == [] then [] else Encode(items[0]) + EncodeItems(items[1..])
  }

  function EncodeEntries(entries: seq<Entry>): seq<byte>
    decreases EntriesDepth(entries), |entries| + 1
  {
    if entries == [] then []
    else EncodeEntry(entries[0]) + EncodeEntries(entries[1..])
  }

  function EncodeEntry(e: Entry): seq<byte>
    decreases Depth(e.value), 1
  {
    EncodeBytes(e.key) + Encode(e.value)
  }

  method EncodeValue(v: Bencode) returns (out: seq<byte>)
    ensures out == Encode(v)
    decreases Depth(v), 1
  {
    match v
    case Bytes(b) =>
      out := EncodeBytes(b);
    case Integer(i) =>
      out := [INT] + Print(i) + [END];
    case List(items) =>
      out := EncodeList(items);
    case Dict(entries) =>
      out := EncodeDict(entries);
  }

  method EncodeList(items: seq<Bencode>) returns (out: seq<byte>)
    ensures out == Encode(List(items))
    decreases Depth(List(items)), 0
  {
    out := [LIST];
    for i := 0 to |items|
      invariant out + EncodeItems(items[i..]) == [LIST] + EncodeItems(items)
    {
      ItemDepth(items, i);
      assert items[i..][1..] == items[i + 1..];
      var enc := EncodeValue(items[i]);
      out := out + enc;
    }
    out := out + [END];
  }

  /** One turn of the dictionary printers. */
  lemma EntryPrinted(out: seq<byte>, entries: seq<Entry>, i: nat)
    requires i < |entries|
    ensures out + EncodeEntries(entries[i..])
         == out + EncodeBytes(entries[i].key) + Encode(entries[i].value) + EncodeEntries(entries[i + 1..])
  {
    var e := entries[i];
    assert entries[i..][1..] == entries[i + 1..];
    assert EncodeEntries(entries[i..]) == EncodeBytes(e.key) + Encode(e.value) + EncodeEntries(entries[i + 1..]);
    hide EncodeEntries, EncodeBytes, Encode;
    Assoc(out, EncodeBytes(e.key) + Encode(e.value), EncodeEntries(entries[i + 1..]));
    Assoc(out, EncodeBytes(e.key), Encode(e.value));
  }

  method EncodeDict(entries: seq<Entry>) returns (out: seq<byte>)
    ensures out == Encode(Dict(entries))
    decreases Depth(Dict(entries)), 0
  {
    out := [DICT];
    var sorted := SortBy(entries, KeyLeq);
    SortDepth(entries);
    for i := 0 to |sorted|
      invariant out + EncodeEntries(sorted[i..]) == [DICT] + EncodeEntries(sorted)
    {
      EntryDepth(sorted, i);
      EntryPrinted(out, sorted, i);
      hide EncodeEntries;
      var key := EncodeValue(Bytes(sorted[i].key));
      out := out + key;
      var val := EncodeValue(sorted[i].value);
      out := out + val;
    }
    out := out + [END];
  }

  lemma {:induction false} ItemDepth(items: seq<Bencode>, i: nat)
    requires i < |items|
    ensures Depth(items[i]) <= ItemsDepth(items)
  {
    if i > 0 {
      ItemDepth(items[1..], i - 1);
    }
  }

  lemma {:induction false} EntryDepth(entries: seq<Entry>, i: nat)
    requires i < |entries|
    ensures Depth(entries[i].value) <= EntriesDepth(entries)
  {
    if i > 0 {
      EntryDepth(entries[1..], i - 1);
    }
  }

  // ---------------------------------------------------------------- lookup

  /** `dict_get`: the value of the first entry with that key. */
  function DictGet(v: Bencode, key: seq<byte>): Option<Bencode> {
    if v.Dict? then Lookup(v.entries, key) else None
  }

  function Lookup(entries: seq<Entry>, key: seq<byte>): Option<Bencode> {
    if entries == [] then None
    else if entries[0].key == key then Some(entries[0].value)
    else Lookup(entries[1..], key)
  }

  function DictGetInt(v: Bencode, key: seq<byte>): Option<i64> {
    match DictGet(v, key)
    case Some(Integer(i)) => Some(i)
    case _ => None
  }

  function DictGetBytes(v: Bencode, key: seq<byte>): Option<seq<byte>> {
    match DictGet(v, key)
    case Some(Bytes(b)) => Some(b)
    case _ => None
  }
}
