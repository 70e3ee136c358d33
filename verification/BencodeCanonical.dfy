/** Exactly when the decoder's input is the encoding of what it decodes to. */
module BencodeCanonical {
  import opened Prelude
  import opened Decimal
  import opened StableSort
  import opened Bencode
  import opened BencodeTheorems
  import Utf8

  // ---------------------------------------------------------------- the condition on the bytes

  /** The items of a list in file order, as far as they decode. */
  function ItemsOf(rest: seq<byte>): seq<Bencode>
    decreases |rest|
  {
    if rest == [] || rest[0] == END then []
    else
      match Decode(rest)
      case Err(_) => []
      case Ok(p) => [p.value] + ItemsOf(p.rest)
  }

  /** The entries of a dictionary in file order, as far as they decode. */
  function EntriesOf(rest: seq<byte>): seq<Entry>
    decreases |rest|
  {
    if rest == [] || rest[0] == END then []
    else
      match Decode(rest)
      case Err(_) => []
      case Ok(k) =>
        if !k.value.Bytes? then []
        else
          match Decode(k.rest)
          case Err(_) => []
          case Ok(v) => [Entry(k.value.bytes, v.value)] + EntriesOf(v.rest)
  }

  predicate Ascending(entries: seq<Entry>) {
    forall i, j :: 0 <= i < j < |entries| ==>
      LexLeq(entries[i].key, entries[j].key) && entries[i].key != entries[j].key
  }

  /** No integer at any level has a plus sign, and the keys of every dictionary rise strictly. */
  predicate Strict(data: seq<byte>)
    decreases |data|, 1
  {
    if data == [] then true
    else if data[0] == INT then |data| > 1 && data[1] != PLUS
    else if data[0] == LIST then StrictItems(data[1..])
    else if data[0] == DICT then Ascending(EntriesOf(data[1..])) && StrictValues(data[1..])
    else true
  }

  predicate StrictItems(rest: seq<byte>)
    decreases |rest|, 2
  {
    rest == [] || rest[0] == END ||
    (match Decode(rest)
     case Err(_) => false
     case Ok(p) => Strict(rest) && StrictItems(p.rest))
  }

  predicate StrictValues(rest: seq<byte>)
    decreases |rest|, 2
  {
    rest == [] || rest[0] == END ||
    (match Decode(rest)
     case Err(_) => false
     case Ok(k) =>
       match Decode(k.rest)
       case Err(_) => false
       case Ok(v) => Strict(k.rest) && StrictValues(v.rest))
  }

  // ---------------------------------------------------------------- numbers

  lemma {:induction false} ValuePositive(s: seq<byte>)
    requires AllDigits(s) && s != [] && s[0] != ZERO
    ensures Value(s) > 0
  {
    if |s| > 1 {
      ValuePositive(s[..|s| - 1]);
    }
  }

  /** Digits without a leading zero are what their value prints as. */
  lemma {:induction false} DigitsOfValue(s: seq<byte>)
    requires AllDigits(s) && s != [] && (|s| > 1 ==> s[0] != ZERO)
    ensures Digits(Value(s)) == s
  {
    var init := s[..|s| - 1];
    assert s == init + [s[|s| - 1]];
    if |s| > 1 {
      ValuePositive(init);
      DigitsOfValue(init);
    } else {
      assert Value(init) == 0;
    }
  }

  /** What the integer checks accept is printed back, unless it has a plus sign. */
  lemma BodyPrints(num: seq<byte>)
    requires IntegerBody(num).Ok?
    ensures num != [] && (Print(IntegerBody(num).value) == num <==> num[0] != PLUS)
  {
    var v: int := IntegerBody(num).value;
    if num[0] == MINUS {
      ValuePositive(num[1..]);
      DigitsOfValue(num[1..]);
    } else if num[0] == PLUS {
      assert v >= 0 && IsDigit(Digits(v)[0]);
    } else {
      DigitsOfValue(num);
    }
  }

  lemma IntegerParts(data: seq<byte>) returns (num: seq<byte>, v: i64, rest: seq<byte>)
    requires data != [] && data[0] == INT && Decode(data).Ok?
    ensures Decode(data) == Ok(Parsed(Integer(v), rest)) && IntegerBody(num) == Ok(v)
    ensures num != [] && |data| > 1 && num[0] == data[1]
    ensures data == [INT] + num + [END] + rest
  {
    var end := Position(data, END).value;
    num, rest := data[1..end], data[end + 1..];
    v := IntegerBody(num).value;
    BodyNotEmpty(num);
    hide Position, IntegerBody;
    assert data[end] == END && num[0] == data[1];
    Framing(data, end);
  }

  lemma BodyNotEmpty(num: seq<byte>)
    requires IntegerBody(num).Ok?
    ensures num != []
  {}

  lemma Framing(data: seq<byte>, end: nat)
    requires 1 <= end < |data|
    ensures data == [data[0]] + data[1..end] + [data[end]] + data[end + 1..]
  {
    CutAround(data, 0, end - 1);
    assert data[end..] == [data[end]] + data[end + 1..];
    Assoc([data[0]] + data[1..end], [data[end]], data[end + 1..]);
  }

  lemma IntegerExact(data: seq<byte>)
    requires data != [] && data[0] == INT && Decode(data).Ok?
    ensures data == Encode(Decode(data).value.value) + Decode(data).value.rest <==> Strict(data)
  {
    hide Decode, IntegerBody, Print, Strict;
    var num, v, rest := IntegerParts(data);
    BodyPrints(num);
    StrictInteger(data);
    SameMiddle(INT, num, Print(v), END, rest);
  }

  lemma StrictInteger(data: seq<byte>)
    requires |data| > 1 && data[0] == INT
    ensures Strict(data) <==> data[1] != PLUS
  {}

  lemma SameMiddle(a: byte, x: seq<byte>, y: seq<byte>, b: byte, rest: seq<byte>)
    ensures [a] + x + [b] + rest == [a] + y + [b] + rest <==> x == y
  {
    if [a] + x + [b] + rest == [a] + y + [b] + rest {
      var l, r := [a] + x + [b] + rest, [a] + y + [b] + rest;
      assert l[1..|l| - |rest| - 1] == x && r[1..|r| - |rest| - 1] == y;
    }
  }

  lemma CutAround(data: seq<byte>, at: nat, len: nat)
    requires at + 1 + len <= |data|
    ensures data == data[..at] + [data[at]] + data[at + 1..at + 1 + len] + data[at + 1 + len..]
  {
    assert data[at..] == [data[at]] + data[at + 1..];
  }

  /** Every accepted string is printed back. */
  lemma StringExact(data: seq<byte>)
    requires ParseString(data).Ok?
    ensures data == EncodeBytes(ParseString(data).value.value.bytes) + ParseString(data).value.rest
  {
    var colon := Position(data, COLON).value;
    var lenStr := data[..colon];
    DecimalExact(lenStr);
    DigitsOfValue(lenStr);
    var len := DecimalU64(lenStr).value;
    assert ParseString(data).value == Parsed(Bytes(data[colon + 1..colon + 1 + len]), data[colon + 1 + len..]);
    hide ParseString, DecimalU64, Digits, Position;
    CutAround(data, colon, len);
  }

  // ---------------------------------------------------------------- lists and dictionaries

  /** An encoded value in front is the only way to read that value and rest. */
  lemma EncodedFront(data: seq<byte>, tail: seq<byte>)
    requires Decode(data).Ok?
    ensures var p := Decode(data).value;
            data == Encode(p.value) + tail <==> data == Encode(p.value) + p.rest && p.rest == tail
  {
    var v := Decode(data).value.value;
    DecodeCanonical(data);
    if data == Encode(v) + tail {
      RoundTrip(v, tail);
    }
  }

  /** One turn of the list loop. */
  lemma ItemTurn(data: seq<byte>, acc: seq<Bencode>) returns (v: Bencode, more: seq<byte>)
    requires ParseItems(data, acc).Ok? && data[0] != END
    ensures Decode(data) == Ok(Parsed(v, more)) && |more| < |data|
    ensures ParseItems(data, acc) == ParseItems(more, acc + [v])
    ensures ItemsOf(data) == [v] + ItemsOf(more)
    ensures StrictItems(data) <==> Strict(data) && StrictItems(more)
  {
    v, more := Decode(data).value.value, Decode(data).value.rest;
    hide Decode, Strict;
  }

  lemma ItemsEndTurn(data: seq<byte>, acc: seq<Bencode>)
    requires ParseItems(data, acc).Ok? && data[0] == END
    ensures ParseItems(data, acc) == Ok(Parsed(List(acc), data[1..]))
    ensures ItemsOf(data) == [] && StrictItems(data)
    ensures data == EncodeItems([]) + ([END] + data[1..])
  {
    assert data == [] + ([END] + data[1..]);
  }

  lemma {:induction false} ParsesItemsOf(data: seq<byte>, acc: seq<Bencode>)
    requires ParseItems(data, acc).Ok?
    ensures ParseItems(data, acc).value.value == List(acc + ItemsOf(data))
    decreases |data|
  {
    hide Decode;
    if data[0] == END {
      ItemsEndTurn(data, acc);
      hide ParseItems, ItemsOf;
      assert acc + [] == acc;
    } else {
      var v, more := ItemTurn(data, acc);
      hide ParseItems, ItemsOf;
      ParsesItemsOf(more, acc + [v]);
      Assoc(acc, [v], ItemsOf(more));
    }
  }

  lemma {:induction false} ItemsExact(data: seq<byte>, acc: seq<Bencode>)
    requires ParseItems(data, acc).Ok?
    ensures var rest := ParseItems(data, acc).value.rest;
            data == EncodeItems(ItemsOf(data)) + ([END] + rest) <==> StrictItems(data)
    decreases |data|, 2
  {
    hide Decode, Encode, EncodeItems, Strict;
    if data[0] == END {
      ItemsEndTurn(data, acc);
    } else {
      var v, more := ItemTurn(data, acc);
      DecodeExact(data);
      ItemsExact(more, acc + [v]);
      hide ParseItems, ItemsOf, StrictItems;
      ItemInFront(data, v, more, ItemsOf(more), [END] + ParseItems(data, acc).value.rest);
    }
  }

  /** The item in front is printed as it stands exactly when it is strict, and the rest likewise. */
  lemma ItemInFront(data: seq<byte>, v: Bencode, more: seq<byte>, items: seq<Bencode>, end: seq<byte>)
    requires Decode(data) == Ok(Parsed(v, more))
    ensures data == EncodeItems([v] + items) + end
       <==> data == Encode(v) + more && more == EncodeItems(items) + end
  {
    EncodedFront(data, EncodeItems(items) + end);
    FirstItem(v, items, end);
    hide Decode, Encode, EncodeItems;
  }

  lemma FirstItem(v: Bencode, items: seq<Bencode>, end: seq<byte>)
    ensures EncodeItems([v] + items) + end == Encode(v) + (EncodeItems(items) + end)
  {
    assert ([v] + items)[1..] == items;
    Assoc(Encode(v), EncodeItems(items), end);
  }

  /** The entry in front of `data`, when the dictionary loop accepts it. */
  ghost predicate FrontEntry(data: seq<byte>, valTail: seq<byte>, e: Entry, more: seq<byte>) {
    && Decode(data) == Ok(Parsed(Bytes(e.key), valTail))
    && Decode(valTail) == Ok(Parsed(e.value, more))
  }

  /** One turn of the dictionary loop. */
  lemma EntryTurn(data: seq<byte>, acc: seq<Entry>) returns (valTail: seq<byte>, e: Entry, more: seq<byte>)
    requires ParseEntries(data, acc).Ok? && data[0] != END
    ensures FrontEntry(data, valTail, e, more) && |more| < |valTail| < |data|
    ensures ParseEntries(data, acc) == ParseEntries(more, acc + [e]) && !HasKey(acc, e.key)
    ensures EntriesOf(data) == [e] + EntriesOf(more)
    ensures StrictValues(data) <==> Strict(valTail) && StrictValues(more)
  {
    var k := Decode(data).value;
    var v := Decode(k.rest).value;
    valTail, e, more := k.rest, Entry(k.value.bytes, v.value), v.rest;
    hide Decode, Strict, HasKey;
  }

  lemma EndTurn(data: seq<byte>, acc: seq<Entry>)
    requires ParseEntries(data, acc).Ok? && data[0] == END
    ensures ParseEntries(data, acc) == Ok(Parsed(Dict(SortBy(acc, KeyLeq)), data[1..]))
    ensures EntriesOf(data) == [] && StrictValues(data)
  {}

  lemma DecodedEntry(data: seq<byte>, valTail: seq<byte>, e: Entry, more: seq<byte>)
    requires FrontEntry(data, valTail, e, more)
    ensures |e.key| <= U64_MAX && Decoded(e.value)
  {
    DecodeCanonical(data);
    DecodeCanonical(valTail);
  }

  /** The dictionary loop collects these entries, without a repeated key, and sorts them. */
  lemma {:induction false} ParsesEntriesOf(data: seq<byte>, acc: seq<Entry>)
    requires ParseEntries(data, acc).Ok? && DistinctKeys(acc)
    ensures ParseEntries(data, acc).value.value == Dict(SortBy(acc + EntriesOf(data), KeyLeq))
    ensures DistinctKeys(acc + EntriesOf(data))
    decreases |data|
  {
    hide DistinctKeys, FrontEntry, SortBy, Decode;
    if data[0] == END {
      EndTurn(data, acc);
      hide ParseEntries, EntriesOf;
      assert acc + [] == acc;
    } else {
      var valTail, e, more := EntryTurn(data, acc);
      hide ParseEntries, EntriesOf, HasKey;
      DistinctSnoc(acc, e);
      ParsesEntriesOf(more, acc + [e]);
      Assoc(acc, [e], EntriesOf(more));
    }
  }

  lemma {:induction false} EntriesOfDecoded(data: seq<byte>, acc: seq<Entry>)
    requires ParseEntries(data, acc).Ok?
    ensures EntriesDecoded(EntriesOf(data))
    decreases |data|
  {
    hide FrontEntry, Decoded, Decode;
    if data[0] != END {
      var valTail, e, more := EntryTurn(data, acc);
      DecodedEntry(data, valTail, e, more);
      hide ParseEntries, EntriesOf;
      EntriesOfDecoded(more, acc + [e]);
    }
  }

  /** Entry by entry, in file order, the bytes are those of the entries exactly when the values are. */
  lemma {:induction false} ValuesExact(data: seq<byte>, acc: seq<Entry>)
    requires ParseEntries(data, acc).Ok?
    ensures var rest := ParseEntries(data, acc).value.rest;
            data == EncodeEntries(EntriesOf(data)) + ([END] + rest) <==> StrictValues(data)
    decreases |data|, 2
  {
    var rest := ParseEntries(data, acc).value.rest;
    if data[0] == END {
      EndTurn(data, acc);
      assert data == EncodeEntries([]) + ([END] + rest);
    } else {
      var valTail, e, more := EntryTurn(data, acc);
      DecodeExact(valTail);
      ValuesExact(more, acc + [e]);
      hide ParseEntries, StrictValues, Strict, EntriesOf, Decode, Encode, EncodeEntries;
      EntryInFront(data, valTail, e, more, EntriesOf(more), [END] + rest);
    }
  }

  /** The entry in front is printed as it stands exactly when its value is, and the rest likewise. */
  lemma EntryInFront(data: seq<byte>, valTail: seq<byte>, e: Entry, more: seq<byte>, entries: seq<Entry>, end: seq<byte>)
    requires FrontEntry(data, valTail, e, more)
    ensures data == EncodeEntries([e] + entries) + end
       <==> valTail == Encode(e.value) + more && more == EncodeEntries(entries) + end
  {
    var tail := EncodeEntries(entries) + end;
    StringFirst(data);
    EncodedFront(valTail, tail);
    FirstEntry(e, entries, end);
    hide Decode, Encode, EncodeEntries, EncodeBytes;
    SameTail(EncodeBytes(e.key), valTail, Encode(e.value) + tail);
  }

  lemma FirstEntry(e: Entry, entries: seq<Entry>, end: seq<byte>)
    ensures EncodeEntries([e] + entries) + end
         == EncodeBytes(e.key) + (Encode(e.value) + (EncodeEntries(entries) + end))
  {
    assert ([e] + entries)[1..] == entries;
    Assoc(EncodeBytes(e.key) + Encode(e.value), EncodeEntries(entries), end);
    Assoc(EncodeBytes(e.key), Encode(e.value), EncodeEntries(entries) + end);
  }

  lemma StringFirst(data: seq<byte>)
    requires Decode(data).Ok? && Decode(data).value.value.Bytes?
    ensures data == EncodeBytes(Decode(data).value.value.bytes) + Decode(data).value.rest
  {
    if data[0] == LIST {
      ParsesItemsOf(data[1..], []);
    } else if data[0] == DICT {
      ParsesEntriesOf(data[1..], []);
    } else if IsDigit(data[0]) {
      StringExact(data);
    }
  }

  lemma SameTail(front: seq<byte>, x: seq<byte>, y: seq<byte>)
    ensures front + x == front + y <==> x == y
  {
    if front + x == front + y {
      assert (front + x)[|front|..] == x && (front + y)[|front|..] == y;
    }
  }

  lemma PutInFront(data: seq<byte>, valTail: seq<byte>, e: Entry, more: seq<byte>)
    requires FrontEntry(data, valTail, e, more) && data != [] && data[0] != END
    ensures EntriesOf(data) == [e] + EntriesOf(more)
  {
    hide Decode;
  }

  lemma EncodedEntryFront(e: Entry, tail: seq<byte>)
    requires |e.key| <= U64_MAX && Decoded(e.value)
    ensures FrontEntry(EncodeBytes(e.key) + (Encode(e.value) + tail), Encode(e.value) + tail, e, tail)
    ensures EncodeBytes(e.key) != [] && EncodeBytes(e.key)[0] != END
  {
    KeyNotEnd(e.key);
    StringRoundTrip(e.key, Encode(e.value) + tail);
    RoundTrip(e.value, tail);
    hide Decode;
  }

  /** Printed entries are read back in the order they were printed. */
  lemma {:induction false} EntriesOfEncoded(entries: seq<Entry>, rest: seq<byte>)
    requires EntriesDecoded(entries)
    ensures EntriesOf(EncodeEntries(entries) + ([END] + rest)) == entries
  {
    if entries == [] {
      assert EncodeEntries(entries) + ([END] + rest) == [END] + rest;
    } else {
      var e, tail := entries[0], EncodeEntries(entries[1..]) + ([END] + rest);
      assert forall i :: 0 < i < |entries| ==> entries[i] == entries[1..][i - 1];
      EntriesOfEncoded(entries[1..], rest);
      assert entries == [e] + entries[1..];
      FirstEntry(e, entries[1..], [END] + rest);
      EncodedEntryFront(e, tail);
      hide Decode, Encode, EncodeBytes, EncodeEntries, EntriesOf, FrontEntry;
      PutInFront(EncodeBytes(e.key) + (Encode(e.value) + tail), Encode(e.value) + tail, e, tail);
    }
  }

  lemma SortedAscends(entries: seq<Entry>)
    requires DistinctKeys(entries)
    ensures SortBy(entries, KeyLeq) == entries <==> Ascending(entries)
  {
    KeyOrder();
    if SortBy(entries, KeyLeq) == entries {
      SortSorted(entries, KeyLeq);
      DistinctApart(entries);
    } else if Ascending(entries) {
      SortFixes(entries, KeyLeq);
    }
  }

  lemma {:induction false} DistinctApart(entries: seq<Entry>)
    requires DistinctKeys(entries)
    ensures forall i, j :: 0 <= i < j < |entries| ==> entries[i].key != entries[j].key
  {
    if entries != [] {
      var tail := entries[1..];
      DistinctApart(tail);
      forall i, j | 0 <= i < j < |entries|
        ensures entries[i].key != entries[j].key
      {
        assert entries[j] == tail[j - 1];
        if i > 0 {
          assert entries[i] == tail[i - 1];
        }
      }
    }
  }

  lemma EntriesExact(data: seq<byte>)
    requires ParseEntries(data, []).Ok?
    ensures var rest, entries := ParseEntries(data, []).value.rest, EntriesOf(data);
            data == EncodeEntries(SortBy(entries, KeyLeq)) + ([END] + rest)
            <==> Ascending(entries) && StrictValues(data)
    decreases |data|, 3
  {
    var rest, entries := ParseEntries(data, []).value.rest, EntriesOf(data);
    var sorted := SortBy(entries, KeyLeq);
    ParsesEntriesOf(data, []);
    EntriesOfDecoded(data, []);
    ValuesExact(data, []);
    assert [] + entries == entries;
    SortedAscends(entries);
    SortedDecoded(entries);
    hide ParseEntries, EntriesOf, StrictValues, Ascending, SortBy, DistinctKeys, EntriesDecoded, EncodeEntries;
    if data == EncodeEntries(sorted) + ([END] + rest) {
      EntriesOfEncoded(sorted, rest);
    }
  }

  lemma Framed(open: byte, data: seq<byte>, body: seq<byte>, rest: seq<byte>)
    requires data != [] && data[0] == open
    ensures data == [open] + body + [END] + rest <==> data[1..] == body + ([END] + rest)
  {
    assert data == [open] + data[1..];
    assert [open] + body + [END] + rest == [open] + (body + ([END] + rest));
    SameTail([open], data[1..], body + ([END] + rest));
  }

  /** The accepted bytes are the encoding of their value exactly when they are strict. */
  lemma {:induction false} DecodeExact(data: seq<byte>)
    requires Decode(data).Ok?
    ensures var p := Decode(data).value;
            data == Encode(p.value) + p.rest <==> Strict(data)
    decreases |data|, 1
  {
    var p := Decode(data).value;
    if IsDigit(data[0]) {
      StringExact(data);
    } else if data[0] == INT {
      IntegerExact(data);
    } else if data[0] == LIST {
      ParsesItemsOf(data[1..], []);
      ItemsExact(data[1..], []);
      assert [] + ItemsOf(data[1..]) == ItemsOf(data[1..]);
      Framed(LIST, data, EncodeItems(ItemsOf(data[1..])), p.rest);
    } else {
      DictExact(data);
    }
  }

  lemma {:induction false} DictExact(data: seq<byte>)
    requires data != [] && data[0] == DICT && Decode(data).Ok?
    ensures var p := Decode(data).value;
            data == Encode(p.value) + p.rest <==> Strict(data)
    decreases |data|, 0
  {
    hide Decode, ParseEntries, Encode, EncodeEntries, EntriesOf, SortBy, Strict, StrictValues, Ascending, DistinctKeys;
    var entries := EntriesOf(data[1..]);
    DictParts(data);
    ParsesEntriesOf(data[1..], []);
    EntriesExact(data[1..]);
    assert [] + entries == entries;
    EncodeSorted(entries);
    Framed(DICT, data, EncodeEntries(SortBy(entries, KeyLeq)), Decode(data).value.rest);
  }

  lemma DictParts(data: seq<byte>)
    requires data != [] && data[0] == DICT
    ensures Decode(data) == ParseEntries(data[1..], [])
    ensures Strict(data) <==> Ascending(EntriesOf(data[1..])) && StrictValues(data[1..])
    ensures DistinctKeys([])
  {}

  lemma EncodeSorted(entries: seq<Entry>)
    ensures Encode(Dict(SortBy(entries, KeyLeq))) == [DICT] + EncodeEntries(SortBy(entries, KeyLeq)) + [END]
  {
    SortTwice(entries);
  }

  lemma SortTwice(entries: seq<Entry>)
    ensures SortBy(SortBy(entries, KeyLeq), KeyLeq) == SortBy(entries, KeyLeq)
  {
    KeyOrder();
    SortSorted(entries, KeyLeq);
    SortFixes(SortBy(entries, KeyLeq), KeyLeq);
  }

  /** Encoding a decoded value gives the consumed bytes back if and only if no integer in
      them has a plus sign and the keys of every dictionary rise strictly. */
  lemma EncodeDecodeExact(data: seq<byte>)
    requires Decode(data).Ok?
    ensures var p := Decode(data).value;
            Encode(p.value) == Consumed(data, p.rest) <==> Strict(data)
  {
    var p := Decode(data).value;
    DecodeExact(data);
    hide Decode, Encode, Strict;
    assert data == Consumed(data, p.rest) + p.rest;
    if data == Encode(p.value) + p.rest {
      assert (Encode(p.value) + p.rest)[..|Encode(p.value)|] == Encode(p.value);
    }
  }

  /** Two inputs with one value: a plus sign is dropped. */
  lemma PlusSignLost()
    ensures var five, plus := [INT, 53, END], [INT, PLUS, 53, END];
            Decode(five) == Decode(plus) == Ok(Parsed(Integer(5), [])) && Strict(five) && !Strict(plus)
  {
    var five: seq<byte>, plus: seq<byte> := [53], [PLUS, 53];
    assert Value([]) == 0 && five[..0] == [] && Value(five) == 5;
    assert plus[1..] == five;
    Utf8.AsciiValid(five);
    Utf8.AsciiValid(plus);
    assert IntegerBody(five) == Ok(5) && IntegerBody(plus) == Ok(5);
    IntegerFrame(five, []);
    IntegerFrame(plus, []);
    assert [INT] + five + [END] + [] == [INT, 53, END];
    assert [INT] + plus + [END] + [] == [INT, PLUS, 53, END];
  }
}
