/** Locality of the decoder, and the exact relation between decoder and encoder. */
module BencodeTheorems {
  import opened Prelude
  import opened Decimal
  import opened StableSort
  import opened Bencode
  import Utf8

  // ---------------------------------------------------------------- locality

  lemma StringLocal(data: seq<byte>, x: seq<byte>)
    requires ParseString(data).Ok?
    ensures ParseString(Consumed(data, ParseString(data).value.rest) + x)
         == Ok(Parsed(ParseString(data).value.value, x))
  {
    var r := ParseString(data).value;
    var colon := Position(data, COLON).value;
    var len := DecimalU64(data[..colon]).value;
    var end := colon + 1 + len;
    assert Consumed(data, r.rest) == data[..end];
    var d := data[..end] + x;
    assert d[..colon] == data[..colon];
    PositionUnique(d, COLON, colon);
    assert d[colon + 1..end] == data[colon + 1..end];
    assert d[end..] == x;
  }

  lemma IntegerLocal(data: seq<byte>, x: seq<byte>)
    requires data != [] && data[0] == INT && ParseInteger(data).Ok?
    ensures var d := Consumed(data, ParseInteger(data).value.rest) + x;
            d != [] && d[0] == INT && ParseInteger(d) == Ok(Parsed(ParseInteger(data).value.value, x))
  {
    var r := ParseInteger(data).value;
    var end := Position(data, END).value;
    assert Consumed(data, r.rest) == data[..end + 1];
    var d := data[..end + 1] + x;
    assert d[..end] == data[..end];
    PositionUnique(d, END, end);
    assert d[1..end] == data[1..end];
    assert d[end + 1..] == x;
  }

  /** A successful decode depends only on the bytes it consumed: whatever
      follows them is returned untouched. */
  lemma {:induction false} DecodeLocal(data: seq<byte>, x: seq<byte>)
    requires Decode(data).Ok?
    ensures Decode(Consumed(data, Decode(data).value.rest) + x)
         == Ok(Parsed(Decode(data).value.value, x))
    decreases |data|, 1
  {
    var p := Consumed(data, Decode(data).value.rest);
    assert p[0] == data[0];
    if IsDigit(data[0]) {
      StringLocal(data, x);
    } else if data[0] == INT {
      IntegerLocal(data, x);
    } else {
      assert p[1..] == Consumed(data[1..], Decode(data).value.rest);
      assert (p + x)[1..] == p[1..] + x;
      if data[0] == LIST {
        ItemsLocal(data[1..], [], x);
      } else {
        EntriesLocal(data[1..], [], x);
      }
    }
  }

  lemma {:induction false} ItemsLocal(data: seq<byte>, items: seq<Bencode>, x: seq<byte>)
    requires ParseItems(data, items).Ok?
    ensures ParseItems(Consumed(data, ParseItems(data, items).value.rest) + x, items)
         == Ok(Parsed(ParseItems(data, items).value.value, x))
    decreases |data|, 2
  {
    var rest := ParseItems(data, items).value.rest;
    if data[0] == END {
      assert Consumed(data, rest) + x == [END] + x;
    } else {
      var item := Decode(data).value;
      ConsumedSplit(data, item.rest, rest, x);
      DecodeLocal(data, Consumed(item.rest, rest) + x);
      ItemsLocal(item.rest, items + [item.value], x);
    }
  }

  lemma {:induction false} EntriesLocal(data: seq<byte>, entries: seq<Entry>, x: seq<byte>)
    requires ParseEntries(data, entries).Ok?
    ensures ParseEntries(Consumed(data, ParseEntries(data, entries).value.rest) + x, entries)
         == Ok(Parsed(ParseEntries(data, entries).value.value, x))
    decreases |data|, 2
  {
    var rest := ParseEntries(data, entries).value.rest;
    if data[0] == END {
      assert Consumed(data, rest) + x == [END] + x;
    } else {
      var k := Decode(data).value;
      var v := Decode(k.rest).value;
      var tail := Consumed(v.rest, rest) + x;
      ConsumedSplit(k.rest, v.rest, rest, x);
      ConsumedSplit(data, k.rest, rest, x);
      DecodeLocal(data, Consumed(k.rest, v.rest) + tail);
      DecodeLocal(k.rest, tail);
      EntryStep(Consumed(data, rest) + x, entries, k.value.bytes, Consumed(k.rest, v.rest) + tail);
      EntriesLocal(v.rest, entries + [Entry(k.value.bytes, v.value)], x);
    }
  }

  // ---------------------------------------------------------------- canonical form

  /** The value with the entries of every dictionary in key order. */
  ghost function Canon(v: Bencode): Bencode {
    match v
    case Bytes(_) => v
    case Integer(_) => v
    case List(items) => List(CanonItems(items))
    case Dict(entries) => Dict(SortBy(CanonEntries(entries), KeyLeq))
  }

  ghost function CanonItems(items: seq<Bencode>): seq<Bencode> {
    if items == [] then [] else [Canon(items[0])] + CanonItems(items[1..])
  }

  ghost function CanonEntries(entries: seq<Entry>): (r: seq<Entry>)
    ensures |r| == |entries| && Keys(r) == Keys(entries)
  {
    if entries == [] then []
    else
      var e := Entry(entries[0].key, Canon(entries[0].value));
      var tail := CanonEntries(entries[1..]);
      KeysCons(e, tail);
      KeysCons(entries[0], entries[1..]);
      assert entries == [entries[0]] + entries[1..];
      [e] + tail
  }

  ghost function Keys(entries: seq<Entry>): set<seq<byte>> {
    set i | 0 <= i < |entries| :: entries[i].key
  }

  ghost predicate DistinctKeys(entries: seq<Entry>) {
    entries == [] || (entries[0].key !in Keys(entries[1..]) && DistinctKeys(entries[1..]))
  }

  /** No dictionary inside the value repeats a key. */
  ghost predicate WellKeyed(v: Bencode) {
    match v
    case Bytes(_) => true
    case Integer(_) => true
    case List(items) => forall i :: 0 <= i < |items| ==> WellKeyed(items[i])
    case Dict(entries) =>
      DistinctKeys(entries) && forall i :: 0 <= i < |entries| ==> WellKeyed(entries[i].value)
  }

  /** Every byte string inside the value has a length that a u64 can hold, as
      any string in memory has. */
  ghost predicate Fits(v: Bencode) {
    match v
    case Bytes(b) => |b| <= U64_MAX
    case Integer(_) => true
    case List(items) => forall i :: 0 <= i < |items| ==> Fits(items[i])
    case Dict(entries) =>
      forall i :: 0 <= i < |entries| ==> |entries[i].key| <= U64_MAX && Fits(entries[i].value)
  }

  lemma KeysCons(e: Entry, s: seq<Entry>)
    ensures Keys([e] + s) == {e.key} + Keys(s)
  {
    var t := [e] + s;
    forall k | k in {e.key} + Keys(s)
      ensures k in Keys(t)
    {
      if k == e.key {
        assert t[0].key == k;
      } else {
        var i :| 0 <= i < |s| && s[i].key == k;
        assert t[i + 1].key == k;
      }
    }
  }

  lemma {:induction false} InsertKeys(e: Entry, s: seq<Entry>)
    ensures Keys(Insert(e, s, KeyLeq)) == {e.key} + Keys(s)
    ensures DistinctKeys(Insert(e, s, KeyLeq)) <==> e.key !in Keys(s) && DistinctKeys(s)
  {
    if s == [] || KeyLeq(e, s[0]) {
      KeysCons(e, s);
      assert ([e] + s)[1..] == s;
    } else {
      InsertKeys(e, s[1..]);
      var r := Insert(e, s[1..], KeyLeq);
      KeysCons(s[0], r);
      KeysCons(s[0], s[1..]);
      assert s == [s[0]] + s[1..] && ([s[0]] + r)[1..] == r;
      LexTotal(e.key, s[0].key);
    }
  }

  lemma {:induction false} SortKeys(s: seq<Entry>)
    ensures Keys(SortBy(s, KeyLeq)) == Keys(s)
    ensures DistinctKeys(SortBy(s, KeyLeq)) <==> DistinctKeys(s)
  {
    if s != [] {
      SortKeys(s[1..]);
      InsertKeys(s[0], SortBy(s[1..], KeyLeq));
      KeysCons(s[0], s[1..]);
      assert s == [s[0]] + s[1..];
    }
  }

  lemma KeyOrder()
    ensures TotalPreorder(KeyLeq)
  {
    forall a: Entry, b: Entry
      ensures KeyLeq(a, b) || KeyLeq(b, a)
    {
      LexTotal(a.key, b.key);
    }
    forall a: Entry, b: Entry, c: Entry | KeyLeq(a, b) && KeyLeq(b, c)
      ensures KeyLeq(a, c)
    {
      LexTransitive(a.key, b.key, c.key);
    }
  }

  lemma {:induction false} InsertCanon(e: Entry, s: seq<Entry>)
    ensures CanonEntries(Insert(e, s, KeyLeq))
         == Insert(Entry(e.key, Canon(e.value)), CanonEntries(s), KeyLeq)
  {
    if s == [] || KeyLeq(e, s[0]) {
      assert ([e] + s)[1..] == s;
    } else {
      InsertCanon(e, s[1..]);
      assert ([s[0]] + Insert(e, s[1..], KeyLeq))[1..] == Insert(e, s[1..], KeyLeq);
      assert CanonEntries(s)[1..] == CanonEntries(s[1..]);
    }
  }

  lemma {:induction false} SortCanon(s: seq<Entry>)
    ensures CanonEntries(SortBy(s, KeyLeq)) == SortBy(CanonEntries(s), KeyLeq)
  {
    if s != [] {
      SortCanon(s[1..]);
      InsertCanon(s[0], SortBy(s[1..], KeyLeq));
      assert CanonEntries(s)[1..] == CanonEntries(s[1..]);
    }
  }

  // ---------------------------------------------------------------- round trip

  lemma StringRoundTrip(b: seq<byte>, r: seq<byte>)
    requires |b| <= U64_MAX
    ensures Decode(EncodeBytes(b) + r) == Ok(Parsed(Bytes(b), r))
  {
    var len := Digits(|b|);
    var d := EncodeBytes(b) + r;
    ValueOfDigits(|b|);
    DecimalExact(len);
    assert d[..|len|] == len;
    assert forall i :: 0 <= i < |len| ==> d[i] == len[i] && IsDigit(len[i]);
    assert COLON !in len by {
      assert !IsDigit(COLON);
    }
    PositionUnique(d, COLON, |len|);
    assert d[|len| + 1..|len| + 1 + |b|] == b;
    assert d[|len| + 1 + |b|..] == r;
  }

  lemma IntegerFrame(num: seq<byte>, r: seq<byte>)
    requires END !in num
    ensures ParseInteger([INT] + num + [END] + r)
         == if IntegerBody(num).Err? then Err(IntegerBody(num).error)
            else Ok(Parsed(Integer(IntegerBody(num).value), r))
  {
    var d := [INT] + num + [END] + r;
    var end := 1 + |num|;
    assert d[..end] == [INT] + num;
    PositionUnique(d, END, end);
    assert d[1..end] == num;
    assert d[end + 1..] == r;
  }

  /** A printed integer passes every check of the decoder. */
  lemma PrintedBody(i: i64)
    ensures IntegerBody(Print(i)) == Ok(i)
    ensures END !in Print(i)
  {
    var n: int := i;
    var num := Print(n);
    PrintParse(n);
    assert forall k :: 0 <= k < |num| ==> IsDigit(num[k]) || num[k] == MINUS;
    Utf8.AsciiValid(num);
    if n < 0 {
      assert num[1..] == Digits(-n);
      assert num[1] == Digits(-n)[0];
    }
  }

  lemma IntegerRoundTrip(i: i64, r: seq<byte>)
    ensures Decode([INT] + Print(i) + [END] + r) == Ok(Parsed(Integer(i), r))
  {
    PrintedBody(i);
    IntegerFrame(Print(i), r);
  }

  ghost predicate ItemsKeyed(items: seq<Bencode>) {
    forall i :: 0 <= i < |items| ==> WellKeyed(items[i])
  }

  ghost predicate ItemsFit(items: seq<Bencode>) {
    forall i :: 0 <= i < |items| ==> Fits(items[i])
  }

  ghost predicate EntriesKeyed(entries: seq<Entry>) {
    forall i :: 0 <= i < |entries| ==> WellKeyed(entries[i].value)
  }

  ghost predicate EntriesFit(entries: seq<Entry>) {
    forall i :: 0 <= i < |entries| ==> |entries[i].key| <= U64_MAX && Fits(entries[i].value)
  }

  lemma EncodeNotEnd(v: Bencode)
    ensures Encode(v) != [] && Encode(v)[0] != END
  {
    if v.Bytes? {
      assert IsDigit(Digits(|v.bytes|)[0]);
      assert Encode(v)[0] == Digits(|v.bytes|)[0];
    }
  }

  lemma KeyNotEnd(key: seq<byte>)
    ensures EncodeBytes(key) != [] && EncodeBytes(key)[0] != END
  {
    EncodeNotEnd(Bytes(key));
  }

  /** Decoding the encoding of any value, with any bytes after it: if no
      dictionary in it repeats a key, the result is the value in canonical form
      and exactly those bytes; otherwise it is a syntax error. */
  lemma {:induction false} RoundTrip(v: Bencode, r: seq<byte>)
    requires Fits(v)
    ensures Decode(Encode(v) + r)
         == if WellKeyed(v) then Ok(Parsed(Canon(v), r)) else Err(BencodeInvalidSyntax)
    decreases Depth(v), 0
  {
    match v
    case Bytes(b) =>
      StringRoundTrip(b, r);
    case Integer(i) =>
      IntegerRoundTrip(i, r);
    case List(items) =>
      ListForm(EncodeItems(items), r);
      ItemsRoundTrip(items, [], r);
      assert [] + CanonItems(items) == CanonItems(items);
    case Dict(entries) =>
      SortDepth(entries);
      SortedEntries(entries);
      DictForm(EncodeEntries(SortBy(entries, KeyLeq)), r);
      EntriesRoundTrip(SortBy(entries, KeyLeq), [], [END] + r);
      DictEnd([] + CanonEntries(SortBy(entries, KeyLeq)), r);
      assert [] + CanonEntries(SortBy(entries, KeyLeq)) == CanonEntries(SortBy(entries, KeyLeq));
  }

  lemma ListForm(body: seq<byte>, r: seq<byte>)
    ensures Decode([LIST] + body + [END] + r) == ParseItems(body + ([END] + r), [])
  {
    assert ([LIST] + body + [END] + r)[1..] == body + ([END] + r);
  }

  lemma DictEnd(acc: seq<Entry>, r: seq<byte>)
    ensures ParseEntries([END] + r, acc) == Ok(Parsed(Dict(SortBy(acc, KeyLeq)), r))
  {
    assert ([END] + r)[1..] == r;
  }

  lemma DictForm(body: seq<byte>, r: seq<byte>)
    ensures Decode([DICT] + body + [END] + r) == ParseEntries(body + ([END] + r), [])
  {
    assert ([DICT] + body + [END] + r)[1..] == body + ([END] + r);
  }

  /** Sorting keeps what the round trip asks of the entries, and the entries
      the decoder collects are sorted already. */
  lemma SortedEntries(entries: seq<Entry>)
    ensures var sorted := SortBy(entries, KeyLeq);
            && (EntriesFit(sorted) <==> EntriesFit(entries))
            && (EntriesKeyed(sorted) <==> EntriesKeyed(entries))
            && (DistinctKeys(sorted) <==> DistinctKeys(entries))
            && SortBy(CanonEntries(sorted), KeyLeq) == SortBy(CanonEntries(entries), KeyLeq)
  {
    SortKeys(entries);
    SortPermutes(entries, KeyLeq);
    SameEntries(entries, SortBy(entries, KeyLeq));
    KeyOrder();
    SortCanon(entries);
    SortSorted(CanonEntries(entries), KeyLeq);
    SortFixes(SortBy(CanonEntries(entries), KeyLeq), KeyLeq);
  }

  lemma SameEntries(s: seq<Entry>, t: seq<Entry>)
    requires forall e :: e in s <==> e in t
    ensures EntriesFit(s) <==> EntriesFit(t)
    ensures EntriesKeyed(s) <==> EntriesKeyed(t)
  {
    assert forall i :: 0 <= i < |s| ==> s[i] in t;
    assert forall i :: 0 <= i < |t| ==> t[i] in s;
  }

  /** One turn of the list loop over an encoded item. */
  lemma {:induction false} ItemRoundTrip(v: Bencode, acc: seq<Bencode>, tail: seq<byte>)
    requires Fits(v)
    ensures ParseItems(Encode(v) + tail, acc)
         == if WellKeyed(v) then ParseItems(tail, acc + [Canon(v)]) else Err(BencodeInvalidSyntax)
    decreases Depth(v), 1
  {
    EncodeNotEnd(v);
    RoundTrip(v, tail);
  }

  lemma ItemsEnd(acc: seq<Bencode>, r: seq<byte>)
    ensures ParseItems(EncodeItems([]) + ([END] + r), acc) == Ok(Parsed(List(acc), r))
  {
    assert EncodeItems([]) + ([END] + r) == [END] + r;
    assert ([END] + r)[1..] == r;
  }

  lemma {:induction false} ItemsRoundTrip(items: seq<Bencode>, acc: seq<Bencode>, r: seq<byte>)
    requires ItemsFit(items)
    ensures ParseItems(EncodeItems(items) + ([END] + r), acc)
         == if ItemsKeyed(items) then Ok(Parsed(List(acc + CanonItems(items)), r))
            else Err(BencodeInvalidSyntax)
    decreases ItemsDepth(items), |items| + 1
  {
    if items == [] {
      ItemsEnd(acc, r);
      assert acc + CanonItems(items) == acc;
    } else {
      var head, rest := items[0], items[1..];
      ItemsSplit(items);
      ItemsCons(items, acc, [END] + r);
      ItemRoundTrip(head, acc, EncodeItems(rest) + ([END] + r));
      ItemsRoundTrip(rest, acc + [Canon(head)], r);
    }
  }

  lemma ItemsCons(items: seq<Bencode>, acc: seq<Bencode>, x: seq<byte>)
    requires items != []
    ensures EncodeItems(items) + x == Encode(items[0]) + (EncodeItems(items[1..]) + x)
    ensures acc + [Canon(items[0])] + CanonItems(items[1..]) == acc + CanonItems(items)
  {
    assert EncodeItems(items) == Encode(items[0]) + EncodeItems(items[1..]);
    assert CanonItems(items) == [Canon(items[0])] + CanonItems(items[1..]);
    hide EncodeItems, Encode, CanonItems, Canon;
    Assoc(Encode(items[0]), EncodeItems(items[1..]), x);
    Assoc(acc, [Canon(items[0])], CanonItems(items[1..]));
  }

  lemma EntryStep(d: seq<byte>, acc: seq<Entry>, key: seq<byte>, valTail: seq<byte>)
    requires d != [] && d[0] != END && valTail != []
    requires Decode(d) == Ok(Parsed(Bytes(key), valTail))
    ensures ParseEntries(d, acc)
         == if Decode(valTail).Err? then Err(Decode(valTail).error)
            else if HasKey(acc, key) then Err(BencodeInvalidSyntax)
            else ParseEntries(Decode(valTail).value.rest, acc + [Entry(key, Decode(valTail).value.value)])
  {}

  /** One turn of the dictionary loop over an encoded entry. */
  lemma {:induction false} EntryRoundTrip(e: Entry, acc: seq<Entry>, tail: seq<byte>)
    requires |e.key| <= U64_MAX && Fits(e.value)
    ensures ParseEntries(EncodeEntry(e) + tail, acc)
         == if WellKeyed(e.value) && !HasKey(acc, e.key)
            then ParseEntries(tail, acc + [Entry(e.key, Canon(e.value))])
            else Err(BencodeInvalidSyntax)
    decreases Depth(e.value), 1
  {
    var d, valTail := EncodeEntry(e) + tail, Encode(e.value) + tail;
    Assoc(EncodeBytes(e.key), Encode(e.value), tail);
    hide EncodeBytes, Encode, Decode, ParseEntries;
    KeyNotEnd(e.key);
    assert d[0] == EncodeBytes(e.key)[0];
    EncodeNotEnd(e.value);
    RoundTrip(e.value, tail);
    assert Decode(d) == Ok(Parsed(Bytes(e.key), valTail)) by {
      StringRoundTrip(e.key, valTail);
    }
    EntryStep(d, acc, e.key, valTail);
  }

  /** The dictionary loop reads back encoded entries, unless a key repeats, and
      goes on with whatever follows them. */
  lemma {:induction false} EntriesRoundTrip(entries: seq<Entry>, acc: seq<Entry>, tail: seq<byte>)
    requires EntriesFit(entries)
    ensures ParseEntries(EncodeEntries(entries) + tail, acc)
         == if EntriesKeyed(entries) && DistinctKeys(entries) && Keys(acc) !! Keys(entries)
            then ParseEntries(tail, acc + CanonEntries(entries))
            else Err(BencodeInvalidSyntax)
    decreases EntriesDepth(entries), |entries| + 1
  {
    hide ParseEntries, Encode;
    if entries == [] {
      assert EncodeEntries(entries) + tail == tail;
      assert acc + CanonEntries(entries) == acc;
    } else {
      var e, rest := entries[0], entries[1..];
      var canon := Entry(e.key, Canon(e.value));
      EntriesSplit(entries);
      NextKey(entries, acc, canon);
      EntriesCons(entries, acc, tail);
      EntryRoundTrip(e, acc, EncodeEntries(rest) + tail);
      EntriesRoundTrip(rest, acc + [canon], tail);
    }
  }

  lemma EntriesCons(entries: seq<Entry>, acc: seq<Entry>, x: seq<byte>)
    requires entries != []
    ensures EncodeEntries(entries) + x == EncodeEntry(entries[0]) + (EncodeEntries(entries[1..]) + x)
    ensures acc + [Entry(entries[0].key, Canon(entries[0].value))] + CanonEntries(entries[1..])
         == acc + CanonEntries(entries)
  {
    var e := Entry(entries[0].key, Canon(entries[0].value));
    assert EncodeEntries(entries) == EncodeEntry(entries[0]) + EncodeEntries(entries[1..]);
    assert CanonEntries(entries) == [e] + CanonEntries(entries[1..]);
    hide EncodeEntries, EncodeEntry, CanonEntries, Canon;
    Assoc(EncodeEntry(entries[0]), EncodeEntries(entries[1..]), x);
    Assoc(acc, [e], CanonEntries(entries[1..]));
  }

  /** Checking each key against the entries read before it finds exactly the repeated keys. */
  lemma NextKey(entries: seq<Entry>, acc: seq<Entry>, e: Entry)
    requires entries != [] && e.key == entries[0].key
    ensures (DistinctKeys(entries) && Keys(acc) !! Keys(entries))
       <==> (!HasKey(acc, e.key) && DistinctKeys(entries[1..]) && Keys(acc + [e]) !! Keys(entries[1..]))
  {
    EntriesSplit(entries);
    KeysSnoc(acc, e);
    assert HasKey(acc, e.key) <==> e.key in Keys(acc);
  }

  lemma ItemsSplit(items: seq<Bencode>)
    requires items != []
    ensures ItemsKeyed(items) <==> WellKeyed(items[0]) && ItemsKeyed(items[1..])
    ensures ItemsFit(items) <==> Fits(items[0]) && ItemsFit(items[1..])
  {
    assert forall i :: 0 < i < |items| ==> items[i] == items[1..][i - 1];
  }

  lemma EntriesSplit(entries: seq<Entry>)
    requires entries != []
    ensures EntriesKeyed(entries) <==> WellKeyed(entries[0].value) && EntriesKeyed(entries[1..])
    ensures EntriesFit(entries) <==>
              |entries[0].key| <= U64_MAX && Fits(entries[0].value) && EntriesFit(entries[1..])
    ensures Keys(entries) == {entries[0].key} + Keys(entries[1..])
  {
    assert forall i :: 0 < i < |entries| ==> entries[i] == entries[1..][i - 1];
    KeysCons(entries[0], entries[1..]);
    assert entries == [entries[0]] + entries[1..];
  }

  lemma KeysSnoc(s: seq<Entry>, e: Entry)
    ensures Keys(s + [e]) == Keys(s) + {e.key}
  {
    var t := s + [e];
    forall k | k in Keys(s) + {e.key}
      ensures k in Keys(t)
    {
      if k in Keys(s) {
        var i :| 0 <= i < |s| && s[i].key == k;
        assert t[i].key == k;
      } else {
        assert t[|s|].key == k;
      }
    }
  }

  // ---------------------------------------------------------------- decoded values

  /** A value the decoder can return: keys distinct, entries in order, lengths in range. */
  ghost predicate Decoded(v: Bencode) {
    WellKeyed(v) && Fits(v) && Canon(v) == v
  }

  ghost predicate AllDecoded(items: seq<Bencode>) {
    forall i :: 0 <= i < |items| ==> Decoded(items[i])
  }

  ghost predicate EntriesDecoded(entries: seq<Entry>) {
    forall i :: 0 <= i < |entries| ==> |entries[i].key| <= U64_MAX && Decoded(entries[i].value)
  }

  lemma {:induction false} CanonOfItems(items: seq<Bencode>)
    requires AllDecoded(items)
    ensures CanonItems(items) == items
  {
    if items != [] {
      assert forall i :: 0 < i < |items| ==> items[i] == items[1..][i - 1];
      CanonOfItems(items[1..]);
      assert items == [items[0]] + items[1..];
    }
  }

  lemma {:induction false} CanonOfEntries(entries: seq<Entry>)
    requires EntriesDecoded(entries)
    ensures CanonEntries(entries) == entries
  {
    if entries != [] {
      assert forall i :: 0 < i < |entries| ==> entries[i] == entries[1..][i - 1];
      CanonOfEntries(entries[1..]);
      assert entries == [entries[0]] + entries[1..];
    }
  }

  lemma ListDecoded(items: seq<Bencode>)
    requires AllDecoded(items)
    ensures Decoded(List(items))
  {
    CanonOfItems(items);
  }

  lemma DictDecoded(entries: seq<Entry>)
    requires EntriesDecoded(entries) && DistinctKeys(entries)
    ensures Decoded(Dict(SortBy(entries, KeyLeq)))
  {
    var sorted := SortBy(entries, KeyLeq);
    SortedDecoded(entries);
    SortKeys(entries);
    assert SortBy(CanonEntries(sorted), KeyLeq) == sorted by {
      CanonOfEntries(sorted);
      KeyOrder();
      SortSorted(entries, KeyLeq);
      SortFixes(sorted, KeyLeq);
    }
  }

  lemma SortedDecoded(entries: seq<Entry>)
    requires EntriesDecoded(entries)
    ensures EntriesDecoded(SortBy(entries, KeyLeq))
  {
    var sorted := SortBy(entries, KeyLeq);
    SortPermutes(entries, KeyLeq);
    assert forall i :: 0 <= i < |sorted| ==> sorted[i] in entries;
  }

  lemma {:induction false} DistinctSnoc(s: seq<Entry>, e: Entry)
    requires DistinctKeys(s) && !HasKey(s, e.key)
    ensures DistinctKeys(s + [e])
  {
    if s == [] {
      assert s + [e] == [e] && Keys([e][1..]) == {};
    } else {
      assert !HasKey(s[1..], e.key) by {
        assert forall i :: 0 <= i < |s| - 1 ==> s[1..][i] == s[i + 1];
      }
      DistinctSnoc(s[1..], e);
      KeysSnoc(s[1..], e);
      assert (s + [e])[1..] == s[1..] + [e];
    }
  }

  /** Whatever the decoder accepts, sorted or not, it returns in canonical form. */
  lemma {:induction false} DecodeCanonical(data: seq<byte>)
    requires Decode(data).Ok?
    ensures Decoded(Decode(data).value.value)
    decreases |data|, 1
  {
    if IsDigit(data[0]) {
      var colon := Position(data, COLON).value;
      assert |Decode(data).value.value.bytes| == DecimalU64(data[..colon]).value;
    } else if data[0] == LIST {
      ItemsCanonical(data[1..], []);
    } else if data[0] == DICT {
      EntriesCanonical(data[1..], []);
    }
  }

  lemma {:induction false} ItemsCanonical(data: seq<byte>, items: seq<Bencode>)
    requires AllDecoded(items) && ParseItems(data, items).Ok?
    ensures Decoded(ParseItems(data, items).value.value)
    decreases |data|, 2
  {
    if data[0] == END {
      ListDecoded(items);
    } else {
      var p := Decode(data).value;
      DecodeCanonical(data);
      ItemsCanonical(p.rest, items + [p.value]);
    }
  }

  lemma {:induction false} EntriesCanonical(data: seq<byte>, entries: seq<Entry>)
    requires EntriesDecoded(entries) && DistinctKeys(entries) && ParseEntries(data, entries).Ok?
    ensures Decoded(ParseEntries(data, entries).value.value)
    decreases |data|, 2
  {
    if data[0] == END {
      DictDecoded(entries);
    } else {
      var k := Decode(data).value;
      var v := Decode(k.rest).value;
      var e := Entry(k.value.bytes, v.value);
      DecodeCanonical(data);
      DecodeCanonical(k.rest);
      DistinctSnoc(entries, e);
      EntriesCanonical(v.rest, entries + [e]);
    }
  }

  /** Encoding what was decoded and decoding again is the identity. */
  lemma DecodeEncodeDecode(data: seq<byte>)
    requires Decode(data).Ok?
    ensures Decode(Encode(Decode(data).value.value)) == Ok(Parsed(Decode(data).value.value, []))
  {
    var v := Decode(data).value.value;
    DecodeCanonical(data);
    RoundTrip(v, []);
    assert Encode(v) + [] == Encode(v);
  }

  /** The encoding does not depend on the order in which entries are stored. */
  lemma {:induction false} EncodeCanon(v: Bencode)
    ensures Encode(Canon(v)) == Encode(v)
    decreases Depth(v), 0
  {
    match v
    case Bytes(_) =>
    case Integer(_) =>
    case List(items) =>
      EncodeCanonItems(items);
    case Dict(entries) =>
      SortDepth(entries);
      SortCanon(entries);
      KeyOrder();
      SortSorted(CanonEntries(entries), KeyLeq);
      SortFixes(SortBy(CanonEntries(entries), KeyLeq), KeyLeq);
      EncodeCanonEntries(SortBy(entries, KeyLeq));
  }

  lemma {:induction false} EncodeCanonItems(items: seq<Bencode>)
    ensures EncodeItems(CanonItems(items)) == EncodeItems(items)
    decreases ItemsDepth(items), |items| + 1
  {
    if items != [] {
      EncodeCanon(items[0]);
      EncodeCanonItems(items[1..]);
      assert CanonItems(items)[1..] == CanonItems(items[1..]);
    }
  }

  lemma {:induction false} EncodeCanonEntries(entries: seq<Entry>)
    ensures EncodeEntries(CanonEntries(entries)) == EncodeEntries(entries)
    decreases EntriesDepth(entries), |entries| + 1
  {
    if entries != [] {
      EncodeCanon(entries[0].value);
      EncodeCanonEntries(entries[1..]);
      assert CanonEntries(entries)[1..] == CanonEntries(entries[1..]);
    }
  }
}
