/** The raw info scan agrees with the parser, and `.torrent` printing round trips. */
module MetainfoTheorems {
  import opened Prelude
  import opened StableSort
  import opened Bencode
  import opened BencodeTheorems
  import opened Metainfo

  // ---------------------------------------------------------------- lookup

  lemma {:induction false} LookupInsert(e: Entry, s: seq<Entry>, k: seq<byte>)
    ensures Lookup(Insert(e, s, KeyLeq), k) == if e.key == k then Some(e.value) else Lookup(s, k)
  {
    if s == [] || KeyLeq(e, s[0]) {
      assert ([e] + s)[1..] == s;
    } else {
      LookupInsert(e, s[1..], k);
      LexTotal(e.key, s[0].key);
      assert ([s[0]] + Insert(e, s[1..], KeyLeq))[1..] == Insert(e, s[1..], KeyLeq);
    }
  }

  /** Sorting the entries does not change what a key maps to. */
  lemma {:induction false} LookupSort(s: seq<Entry>, k: seq<byte>)
    ensures Lookup(SortBy(s, KeyLeq), k) == Lookup(s, k)
  {
    if s != [] {
      LookupSort(s[1..], k);
      LookupInsert(s[0], SortBy(s[1..], KeyLeq), k);
    }
  }

  lemma {:induction false} LookupConcat(a: seq<Entry>, b: seq<Entry>, k: seq<byte>)
    ensures Lookup(a + b, k) == if Lookup(a, k).Some? then Lookup(a, k) else Lookup(b, k)
  {
    if a == [] {
      assert a + b == b;
    } else {
      LookupConcat(a[1..], b, k);
      assert (a + b)[1..] == a[1..] + b;
    }
  }

  lemma LookupSnoc(s: seq<Entry>, e: Entry, k: seq<byte>)
    ensures Lookup(s + [e], k)
         == if Lookup(s, k).Some? then Lookup(s, k) else if e.key == k then Some(e.value) else None
  {
    LookupConcat(s, [e], k);
    assert [e][1..] == [];
  }

  // ---------------------------------------------------------------- the scan agrees

  /** What the loop has read stays in the dictionary it returns. */
  lemma {:induction false} EntriesKept(data: seq<byte>, acc: seq<Entry>, k: seq<byte>)
    requires ParseEntries(data, acc).Ok?
    ensures ParseEntries(data, acc).value.value.Dict?
    ensures Lookup(acc, k).Some? ==> DictGet(ParseEntries(data, acc).value.value, k) == Lookup(acc, k)
    decreases |data|
  {
    if data[0] == END {
      LookupSort(acc, k);
    } else {
      var key := Decode(data).value;
      var v := Decode(key.rest).value;
      hide Decode;
      var e := Entry(key.value.bytes, v.value);
      LookupSnoc(acc, e, k);
      EntriesKept(v.rest, acc + [e], k);
    }
  }

  /** The bytes `a..b` of the file, which decode completely to `v`. */
  ghost predicate IsSpan(data: seq<byte>, span: seq<byte>, v: Bencode) {
    && (exists a, b | 0 <= a <= b <= |data| :: data[a..b] == span)
    && Decode(span) == Ok(Parsed(v, []))
  }

  /** What one successful decode consumed, decodes to the same value alone. */
  lemma ConsumedDecodes(data: seq<byte>)
    requires Decode(data).Ok?
    ensures Decode(Consumed(data, Decode(data).value.rest)) == Ok(Parsed(Decode(data).value.value, []))
  {
    DecodeLocal(data, []);
    hide Decode;
    assert Consumed(data, Decode(data).value.rest) + [] == Consumed(data, Decode(data).value.rest);
  }

  /** One turn of a successful dictionary loop, and the same turn of the scan. */
  lemma EntryRead(data: seq<byte>, acc: seq<Entry>)
    requires ParseEntries(data, acc).Ok? && data[0] != END
    ensures Decode(data).Ok? && Decode(data).value.value.Bytes? && Decode(Decode(data).value.rest).Ok?
    ensures var k := Decode(data).value;
            var v := Decode(k.rest).value;
            && ParseEntries(data, acc) == ParseEntries(v.rest, acc + [Entry(k.value.bytes, v.value)])
            && ScanEntries(data)
            == if k.value.bytes == INFO then Ok(Consumed(k.rest, v.rest)) else ScanEntries(v.rest)
  {
    hide Decode;
  }

  lemma EndRead(data: seq<byte>, acc: seq<Entry>, k: seq<byte>)
    requires data != [] && data[0] == END
    ensures ParseEntries(data, acc).Ok? && ParseEntries(data, acc).value.value.Dict?
    ensures DictGet(ParseEntries(data, acc).value.value, k) == Lookup(acc, k)
    ensures ScanEntries(data) == Err(MetainfoMissingField)
  {
    LookupSort(acc, k);
    assert Decode(data) == Err(BencodeInvalidSyntax);
  }

  lemma {:induction false} ScanAgreesFrom(data: seq<byte>, acc: seq<Entry>)
    requires ParseEntries(data, acc).Ok? && Lookup(acc, INFO).None?
    ensures ParseEntries(data, acc).value.value.Dict?
    ensures match DictGet(ParseEntries(data, acc).value.value, INFO)
            case None => ScanEntries(data) == Err(MetainfoMissingField)
            case Some(v) => ScanEntries(data).Ok? && Decode(ScanEntries(data).value) == Ok(Parsed(v, []))
    decreases |data|
  {
    hide Decode, Lookup, DictGet;
    if data[0] == END {
      EndRead(data, acc, INFO);
    } else {
      EntryRead(data, acc);
      var k := Decode(data).value;
      var v := Decode(k.rest).value;
      var e := Entry(k.value.bytes, v.value);
      hide ParseEntries, ScanEntries;
      LookupSnoc(acc, e, INFO);
      if e.key == INFO {
        EntriesKept(v.rest, acc + [e], INFO);
        ConsumedDecodes(k.rest);
      } else {
        ScanAgreesFrom(v.rest, acc + [e]);
      }
    }
  }

  /** The scan only ever returns a contiguous part of the file. */
  lemma {:induction false} ScanContiguous(data: seq<byte>, pos: nat)
    requires pos <= |data| && ScanEntries(data[pos..]).Ok?
    ensures exists a, b | 0 <= a <= b <= |data| :: data[a..b] == ScanEntries(data[pos..]).value
    decreases |data| - pos
  {
    hide Decode;
    var k := Decode(data[pos..]).value;
    var v := Decode(k.rest).value;
    SuffixAt(data, pos, k.rest);
    var a, b := |data| - |k.rest|, |data| - |v.rest|;
    SuffixAt(data, a, v.rest);
    if k.value == Bytes(INFO) {
      assert data[a..b] == Consumed(k.rest, v.rest);
    } else {
      ScanContiguous(data, b);
    }
  }

  /** On every input whose root decodes to a dictionary, the scan finds raw info
      bytes exactly when the dictionary has an `info` key, and then they are a
      contiguous span that decodes completely to the value under that key. */
  lemma ScanAgrees(data: seq<byte>)
    requires Decode(data).Ok? && Decode(data).value.value.Dict?
    ensures match DictGet(Decode(data).value.value, INFO)
            case None => FindRawInfo(data) == Err(MetainfoMissingField)
            case Some(v) => FindRawInfo(data).Ok? && IsSpan(data, FindRawInfo(data).value, v)
  {
    DictRoot(data);
    hide Decode, ScanEntries;
    ScanAgreesFrom(data[1..], []);
    if FindRawInfo(data).Ok? {
      ScanContiguous(data, 1);
    }
  }

  lemma DictRoot(data: seq<byte>)
    requires Decode(data).Ok? && Decode(data).value.value.Dict?
    ensures data[0] == DICT && ParseEntries(data[1..], []) == Decode(data)
  {
    if data[0] == LIST {
      ItemsList(data[1..], []);
    }
  }

  lemma {:induction false} ItemsList(data: seq<byte>, items: seq<Bencode>)
    requires ParseItems(data, items).Ok?
    ensures ParseItems(data, items).value.value.List?
    decreases |data|
  {
    if data[0] != END {
      var p := Decode(data).value;
      hide Decode;
      ItemsList(p.rest, items + [p.value]);
    }
  }

  /** The info value, raw bytes and parsed info of an accepted file belong together. */
  lemma AcceptedInfo(data: seq<byte>)
    requires FromBytes(data).Ok?
    ensures var m := FromBytes(data).value;
            && Decode(data).Ok? && DictGet(Decode(data).value.value, INFO).Some?
            && m.info.rawInfo.Raw?
            && IsSpan(data, m.info.rawInfo.bytes, DictGet(Decode(data).value.value, INFO).value)
            && ParseInfo(DictGet(Decode(data).value.value, INFO).value, m.info.rawInfo.bytes) == Ok(m.info)
  {
    hide Decode;
    ScanAgrees(data);
  }

  // ---------------------------------------------------------------- printed roots

  lemma KeysDiffer()
    ensures |ANNOUNCE| == 8 && ANNOUNCE[0] == 97
    ensures |ANNOUNCE_LIST| == 13 && ANNOUNCE_LIST[0] == 97
    ensures |CREATION_DATE| == 13 && CREATION_DATE[0] == 99
    ensures |COMMENT| == 7 && COMMENT[0] == 99
    ensures |CREATED_BY| == 10 && CREATED_BY[0] == 99
    ensures |ENCODING| == 8 && ENCODING[0] == 101
    ensures |INFO| == 4 && INFO[0] == 105
    ensures |URL_LIST| == 8 && URL_LIST[0] == 117
    ensures |HTTPSEEDS| == 9
  {}

  lemma LookupField(key: seq<byte>, v: Option<Bencode>, k: seq<byte>)
    ensures Lookup(Field(key, v), k) == if key == k then v else None
    ensures Keys(Field(key, v)) <= {key} && DistinctKeys(Field(key, v))
  {
    if v.Some? {
      assert Field(key, v)[1..] == [];
      assert Keys([]) == {};
    }
  }

  ghost function AnnounceListValue(m: Metainfo): Option<Bencode> {
    if m.announceList == [] then None else Some(List(TierItems(m.announceList)))
  }

  ghost function DateValue(m: Metainfo): Option<Bencode> {
    if m.creationDate.Some? then Some(Integer(m.creationDate.value)) else None
  }

  /** What each key maps to in a printed root. */
  ghost function RootValue(m: Metainfo, iv: Bencode, k: seq<byte>): Option<Bencode> {
    if k == ANNOUNCE then Some(Bytes(m.announce))
    else if k == ANNOUNCE_LIST then AnnounceListValue(m)
    else if k == CREATION_DATE then DateValue(m)
    else if k == COMMENT then TextValue(m.comment)
    else if k == CREATED_BY then TextValue(m.createdBy)
    else if k == ENCODING then TextValue(m.encoding)
    else if k == INFO then Some(iv)
    else None
  }

  lemma RootLookup(m: Metainfo, iv: Bencode, k: seq<byte>)
    ensures Lookup(RootEntries(m) + [Entry(INFO, iv)], k) == RootValue(m, iv, k)
  {
    KeysDiffer();
    var a := Field(ANNOUNCE, Some(Bytes(m.announce)));
    var b := Field(ANNOUNCE_LIST, AnnounceListValue(m));
    var c := Field(CREATION_DATE, DateValue(m));
    var d := Field(COMMENT, TextValue(m.comment));
    var e := Field(CREATED_BY, TextValue(m.createdBy));
    var f := Field(ENCODING, TextValue(m.encoding));
    LookupField(ANNOUNCE, Some(Bytes(m.announce)), k);
    LookupField(ANNOUNCE_LIST, AnnounceListValue(m), k);
    LookupField(CREATION_DATE, DateValue(m), k);
    LookupField(COMMENT, TextValue(m.comment), k);
    LookupField(CREATED_BY, TextValue(m.createdBy), k);
    LookupField(ENCODING, TextValue(m.encoding), k);
    LookupConcat(a, b, k);
    LookupConcat(a + b, c, k);
    LookupConcat(a + b + c, d, k);
    LookupConcat(a + b + c + d, e, k);
    LookupConcat(a + b + c + d + e, f, k);
    LookupSnoc(RootEntries(m), Entry(INFO, iv), k);
  }

  lemma {:induction false} AddKey(s: seq<Entry>, key: seq<byte>, v: Option<Bencode>)
    requires DistinctKeys(s) && key !in Keys(s)
    ensures DistinctKeys(s + Field(key, v))
    ensures Keys(s + Field(key, v)) <= Keys(s) + {key}
  {
    if v.Some? {
      KeysSnoc(s, Entry(key, v.value));
      assert !HasKey(s, key);
      DistinctSnoc(s, Entry(key, v.value));
    } else {
      assert s + Field(key, v) == s;
    }
  }

  lemma RootKeys(m: Metainfo)
    ensures DistinctKeys(RootEntries(m))
    ensures Keys(RootEntries(m)) <= {ANNOUNCE, ANNOUNCE_LIST, CREATION_DATE, COMMENT, CREATED_BY, ENCODING}
  {
    KeysDiffer();
    hide Keys, DistinctKeys, Field;
    var a := Field(ANNOUNCE, Some(Bytes(m.announce)));
    var b := a + Field(ANNOUNCE_LIST, AnnounceListValue(m));
    var c := b + Field(CREATION_DATE, DateValue(m));
    var d := c + Field(COMMENT, TextValue(m.comment));
    var e := d + Field(CREATED_BY, TextValue(m.createdBy));
    LookupField(ANNOUNCE, Some(Bytes(m.announce)), []);
    AddKey(a, ANNOUNCE_LIST, AnnounceListValue(m));
    AddKey(b, CREATION_DATE, DateValue(m));
    AddKey(c, COMMENT, TextValue(m.comment));
    AddKey(d, CREATED_BY, TextValue(m.createdBy));
    AddKey(e, ENCODING, TextValue(m.encoding));
  }

  lemma {:induction false} TextItemsDecoded(texts: seq<Text>)
    requires ItemsFit(TextItems(texts))
    ensures Decoded(List(TextItems(texts)))
    ensures Strings(TextItems(texts)) == texts
  {
    ListDecoded(TextItems(texts));
    if texts != [] {
      assert TextItems(texts)[1..] == TextItems(texts[1..]);
      assert forall i :: 0 < i < |texts| ==> TextItems(texts)[i] == TextItems(texts[1..])[i - 1];
      TextItemsDecoded(texts[1..]);
    }
  }

  function NonEmptyTiers(tiers: seq<seq<Text>>): seq<seq<Text>> {
    if tiers == [] then []
    else (if tiers[0] == [] then [] else [tiers[0]]) + NonEmptyTiers(tiers[1..])
  }

  lemma {:induction false} TierItemsDecoded(tiers: seq<seq<Text>>)
    requires ItemsFit(TierItems(tiers))
    ensures AllDecoded(TierItems(tiers))
    ensures Tiers(TierItems(tiers)) == NonEmptyTiers(tiers)
  {
    if tiers != [] {
      assert TierItems(tiers)[0] == List(TextItems(tiers[0]));
      TextItemsDecoded(tiers[0]);
      assert TierItems(tiers)[1..] == TierItems(tiers[1..]);
      assert forall i :: 0 < i < |tiers| ==> TierItems(tiers)[i] == TierItems(tiers[1..])[i - 1];
      TierItemsDecoded(tiers[1..]);
    }
  }

  lemma {:induction false} NonEmptyTiersExact(tiers: seq<seq<Text>>)
    ensures NonEmptyTiers(tiers) == tiers <==> [] !in tiers
  {
    if tiers != [] {
      NonEmptyTiersExact(tiers[1..]);
      assert tiers == [tiers[0]] + tiers[1..];
      NonEmptyTiersShorter(tiers[1..]);
    }
  }

  lemma {:induction false} NonEmptyTiersShorter(tiers: seq<seq<Text>>)
    ensures |NonEmptyTiers(tiers)| <= |tiers|
  {
    if tiers != [] {
      NonEmptyTiersShorter(tiers[1..]);
    }
  }

  /** Every string `to_bytes` prints has a length that a u64 can hold. */
  ghost predicate InMemory(m: Metainfo) {
    EntriesFit(RootEntries(m))
  }

  lemma FieldDecoded(key: seq<byte>, v: Option<Bencode>)
    requires EntriesFit(Field(key, v)) && (v.Some? && Fits(v.value) ==> Decoded(v.value))
    ensures EntriesDecoded(Field(key, v))
  {
    if v.Some? {
      assert Field(key, v)[0] == Entry(key, v.value);
    }
  }

  lemma DecodedConcat(a: seq<Entry>, b: seq<Entry>)
    requires EntriesDecoded(a) && EntriesDecoded(b)
    ensures EntriesDecoded(a + b)
  {}

  lemma FitConcat(a: seq<Entry>, b: seq<Entry>)
    requires EntriesFit(a + b)
    ensures EntriesFit(a) && EntriesFit(b)
  {
    assert forall i :: 0 <= i < |a| ==> a[i] == (a + b)[i];
    assert forall i :: 0 <= i < |b| ==> b[i] == (a + b)[|a| + i];
  }

  /** Everything `to_bytes` prints is in canonical form already. */
  lemma RootDecoded(m: Metainfo)
    requires InMemory(m)
    ensures EntriesDecoded(RootEntries(m))
  {
    hide EntriesFit, EntriesDecoded;
    var a := Field(ANNOUNCE, Some(Bytes(m.announce)));
    var b := Field(ANNOUNCE_LIST, AnnounceListValue(m));
    var c := Field(CREATION_DATE, DateValue(m));
    var d := Field(COMMENT, TextValue(m.comment));
    var e := Field(CREATED_BY, TextValue(m.createdBy));
    var f := Field(ENCODING, TextValue(m.encoding));
    FitConcat(a + b + c + d + e, f);
    FitConcat(a + b + c + d, e);
    FitConcat(a + b + c, d);
    FitConcat(a + b, c);
    FitConcat(a, b);
    FieldDecoded(ANNOUNCE, Some(Bytes(m.announce)));
    if m.announceList != [] && ItemsFit(TierItems(m.announceList)) {
      TierItemsDecoded(m.announceList);
      ListDecoded(TierItems(m.announceList));
    }
    FieldDecoded(ANNOUNCE_LIST, AnnounceListValue(m));
    FieldDecoded(CREATION_DATE, DateValue(m));
    FieldDecoded(COMMENT, TextValue(m.comment));
    FieldDecoded(CREATED_BY, TextValue(m.createdBy));
    FieldDecoded(ENCODING, TextValue(m.encoding));
    DecodedConcat(a, b);
    DecodedConcat(a + b, c);
    DecodedConcat(a + b + c, d);
    DecodedConcat(a + b + c + d, e);
    DecodedConcat(a + b + c + d + e, f);
  }

  /** The raw info bytes are complete bencode, and parse to the info fields. */
  ghost predicate InfoMatches(m: Metainfo) {
    && m.info.rawInfo.Raw?
    && Decode(m.info.rawInfo.bytes).Ok?
    && Decode(m.info.rawInfo.bytes).value.rest == []
    && ParseInfo(InfoValue(m), m.info.rawInfo.bytes) == Ok(m.info)
  }

  ghost function InfoValue(m: Metainfo): Bencode
    requires m.info.rawInfo.Raw? && Decode(m.info.rawInfo.bytes).Ok?
  {
    Decode(m.info.rawInfo.bytes).value.value
  }

  /** The part of the printed file from the `info` key on. */
  ghost function InfoTail(raw: seq<byte>): seq<byte> {
    EncodeBytes(INFO) + (raw + [END])
  }

  lemma RawInfoThenEnd(raw: seq<byte>)
    requires Decode(raw).Ok? && Decode(raw).value.rest == []
    ensures Decode(raw + [END]) == Ok(Parsed(Decode(raw).value.value, [END]))
  {
    DecodeLocal(raw, [END]);
    hide Decode;
    assert Consumed(raw, []) == raw;
  }

  lemma InfoKeyThen(rest: seq<byte>)
    ensures Decode(EncodeBytes(INFO) + rest) == Ok(Parsed(Bytes(INFO), rest))
    ensures (EncodeBytes(INFO) + rest)[0] != END
  {
    StringRoundTrip(INFO, rest);
    EncodeNotEnd(Bytes(INFO));
    assert EncodeBytes(INFO) == Encode(Bytes(INFO));
  }

  lemma InfoTailParsed(raw: seq<byte>, acc: seq<Entry>)
    requires Decode(raw).Ok? && Decode(raw).value.rest == []
    requires !HasKey(acc, INFO)
    ensures ParseEntries(InfoTail(raw), acc)
         == Ok(Parsed(Dict(SortBy(acc + [Entry(INFO, Decode(raw).value.value)], KeyLeq)), []))
  {
    RawInfoThenEnd(raw);
    InfoKeyThen(raw + [END]);
    EntryStep(InfoTail(raw), acc, INFO, raw + [END]);
    DictEnd(acc + [Entry(INFO, Decode(raw).value.value)], []);
    assert [END] + [] == [END];
  }

  lemma NoInfoKey(m: Metainfo)
    ensures !HasKey(SortBy(RootEntries(m), KeyLeq), INFO)
    ensures DistinctKeys(SortBy(RootEntries(m), KeyLeq))
  {
    KeysDiffer();
    RootKeys(m);
    SortKeys(RootEntries(m));
    var s := SortBy(RootEntries(m), KeyLeq);
    assert INFO !in Keys(s);
    assert forall i :: 0 <= i < |s| ==> s[i].key in Keys(s);
  }

  lemma PrintedShape(m: Metainfo)
    requires m.info.rawInfo.Raw?
    ensures ToBytes(m).Some?
    ensures var out := ToBytes(m).value;
            out != [] && out[0] == DICT
            && out[1..] == EncodeEntries(SortBy(RootEntries(m), KeyLeq)) + InfoTail(m.info.rawInfo.bytes)
  {
    var s := EncodeEntries(SortBy(RootEntries(m), KeyLeq));
    assert ToBytes(m).value == [DICT] + (s + InfoTail(m.info.rawInfo.bytes));
  }

  /** The root the decoder reads back from a printed file. */
  ghost function PrintedRoot(m: Metainfo, iv: Bencode): Bencode {
    Dict(SortBy(SortBy(RootEntries(m), KeyLeq) + [Entry(INFO, iv)], KeyLeq))
  }

  lemma DecodePrinted(m: Metainfo)
    requires InMemory(m) && m.info.rawInfo.Raw?
    requires Decode(m.info.rawInfo.bytes).Ok? && Decode(m.info.rawInfo.bytes).value.rest == []
    ensures Decode(ToBytes(m).value) == Ok(Parsed(PrintedRoot(m, InfoValue(m)), []))
  {
    var sorted, raw := SortBy(RootEntries(m), KeyLeq), m.info.rawInfo.bytes;
    PrintedShape(m);
    PrintedEntries(m);
    NoInfoKey(m);
    EntriesRoundTrip(sorted, [], InfoTail(raw));
    assert [] + sorted == sorted;
    InfoTailParsed(raw, sorted);
    DecodeDict(ToBytes(m).value);
  }

  lemma DecodeDict(data: seq<byte>)
    requires data != [] && data[0] == DICT
    ensures Decode(data) == ParseEntries(data[1..], [])
  {}

  lemma PrintedEntries(m: Metainfo)
    requires InMemory(m)
    ensures var sorted := SortBy(RootEntries(m), KeyLeq);
            EntriesFit(sorted) && EntriesKeyed(sorted) && CanonEntries(sorted) == sorted
  {
    RootDecoded(m);
    SortedDecoded(RootEntries(m));
    CanonOfEntries(SortBy(RootEntries(m), KeyLeq));
  }

  lemma PrintedLookup(m: Metainfo, iv: Bencode, k: seq<byte>)
    ensures DictGet(PrintedRoot(m, iv), k) == RootValue(m, iv, k)
  {
    var info := Entry(INFO, iv);
    LookupSort(SortBy(RootEntries(m), KeyLeq) + [info], k);
    LookupSnoc(SortBy(RootEntries(m), KeyLeq), info, k);
    LookupSort(RootEntries(m), k);
    LookupSnoc(RootEntries(m), info, k);
    RootLookup(m, iv, k);
  }

  /** The scan passes over encoded entries that have other keys. */
  lemma {:induction false} ScanOverEntries(entries: seq<Entry>, tail: seq<byte>)
    requires EntriesFit(entries) && EntriesKeyed(entries) && !HasKey(entries, INFO)
    ensures ScanEntries(EncodeEntries(entries) + tail) == ScanEntries(tail)
  {
    hide ScanEntries;
    if entries == [] {
      assert EncodeEntries(entries) + tail == tail;
    } else {
      var e, rest := entries[0], entries[1..];
      assert e.key != INFO;
      assert !HasKey(rest, INFO) by {
        assert forall i :: 0 <= i < |rest| ==> rest[i] == entries[i + 1];
      }
      EntriesSplit(entries);
      EntriesCons(entries, [], tail);
      ScanOverEntry(e, EncodeEntries(rest) + tail);
      ScanOverEntries(rest, tail);
    }
  }

  lemma ScanStep(rest: seq<byte>, k: Parsed, v: Parsed)
    requires rest != [] && Decode(rest) == Ok(k) && Decode(k.rest) == Ok(v)
    ensures ScanEntries(rest)
         == if k.value == Bytes(INFO) then Ok(Consumed(k.rest, v.rest)) else ScanEntries(v.rest)
  {
    hide Decode;
  }

  lemma ScanOverEntry(e: Entry, next: seq<byte>)
    requires |e.key| <= U64_MAX && Fits(e.value) && WellKeyed(e.value) && e.key != INFO
    ensures ScanEntries(EncodeEntry(e) + next) == ScanEntries(next)
  {
    var valTail := Encode(e.value) + next;
    StringRoundTrip(e.key, valTail);
    RoundTrip(e.value, next);
    assert EncodeEntry(e) + next == EncodeBytes(e.key) + valTail;
    hide Decode, Encode, ScanEntries;
    ScanStep(EncodeEntry(e) + next, Parsed(Bytes(e.key), valTail), Parsed(Canon(e.value), next));
  }

  lemma ScanInfoTail(raw: seq<byte>)
    requires Decode(raw).Ok? && Decode(raw).value.rest == []
    ensures ScanEntries(InfoTail(raw)) == Ok(raw)
  {
    InfoKeyThen(raw + [END]);
    RawInfoThenEnd(raw);
    hide Decode, ScanEntries;
    ScanStep(InfoTail(raw), Parsed(Bytes(INFO), raw + [END]), Parsed(Decode(raw).value.value, [END]));
    assert Consumed(raw + [END], [END]) == raw;
  }

  lemma ScanPrinted(m: Metainfo)
    requires InMemory(m) && m.info.rawInfo.Raw?
    requires Decode(m.info.rawInfo.bytes).Ok? && Decode(m.info.rawInfo.bytes).value.rest == []
    ensures ToBytes(m).Some? && FindRawInfo(ToBytes(m).value) == Ok(m.info.rawInfo.bytes)
  {
    hide Decode, ScanEntries;
    PrintedShape(m);
    PrintedEntries(m);
    NoInfoKey(m);
    ScanOverEntries(SortBy(RootEntries(m), KeyLeq), InfoTail(m.info.rawInfo.bytes));
    ScanInfoTail(m.info.rawInfo.bytes);
  }

  // ---------------------------------------------------------------- printing, then parsing

  /** What survives printing: neither web seeds nor empty tiers do. */
  function Reprinted(m: Metainfo): Metainfo {
    m.(announceList := NonEmptyTiers(m.announceList), urlList := [], httpSeeds := [])
  }

  lemma PrintedFields(m: Metainfo, iv: Bencode)
    requires InMemory(m)
    ensures WithFields(PrintedRoot(m, iv), m.info) == Reprinted(m)
  {
    KeysDiffer();
    PrintedLookup(m, iv, ANNOUNCE);
    PrintedLookup(m, iv, ANNOUNCE_LIST);
    PrintedLookup(m, iv, CREATION_DATE);
    PrintedLookup(m, iv, COMMENT);
    PrintedLookup(m, iv, CREATED_BY);
    PrintedLookup(m, iv, ENCODING);
    PrintedLookup(m, iv, URL_LIST);
    PrintedLookup(m, iv, HTTPSEEDS);
    if m.announceList != [] {
      TiersFit(m);
      TierItemsDecoded(m.announceList);
    }
  }

  lemma TiersFit(m: Metainfo)
    requires InMemory(m) && m.announceList != []
    ensures ItemsFit(TierItems(m.announceList))
  {
    var e := Entry(ANNOUNCE_LIST, List(TierItems(m.announceList)));
    assert RootEntries(m)[1] == e;
    assert Fits(e.value);
  }

  /** Printing and parsing again gives the file back, up to the parts that are
      not printed; the raw info bytes, and with them the info hash, are kept. */
  lemma PrintParse(m: Metainfo)
    requires InMemory(m) && InfoMatches(m)
    ensures ToBytes(m).Some? && FromBytes(ToBytes(m).value) == Ok(Reprinted(m))
  {
    KeysDiffer();
    DecodePrinted(m);
    ScanPrinted(m);
    hide Decode, ToBytes, PrintedRoot;
    PrintedLookup(m, InfoValue(m), INFO);
    PrintedFields(m, InfoValue(m));
    assert PrintedRoot(m, InfoValue(m)).Dict? by {
      PrintedIsDict(m, InfoValue(m));
    }
  }

  lemma PrintedIsDict(m: Metainfo, iv: Bencode)
    ensures PrintedRoot(m, iv).Dict?
  {}

  /** Exactly when a file survives printing and parsing unchanged. */
  lemma PrintParseExact(m: Metainfo)
    requires InMemory(m) && m.info.rawInfo.Raw?
    ensures ToBytes(m).Some?
    ensures FromBytes(ToBytes(m).value) == Ok(m)
       <==> InfoMatches(m) && [] !in m.announceList && m.urlList == [] && m.httpSeeds == []
  {
    PrintedShape(m);
    hide Decode, ToBytes, FromBytes;
    NonEmptyTiersExact(m.announceList);
    if FromBytes(ToBytes(m).value) == Ok(m) {
      AcceptedInfo(ToBytes(m).value);
    }
    if InfoMatches(m) {
      PrintParse(m);
    }
  }

  // ---------------------------------------------------------------- canonical output

  lemma {:induction false} SortAppendLast(s: seq<Entry>, x: Entry)
    requires forall i :: 0 <= i < |s| ==> KeyLeq(s[i], x)
    ensures SortBy(s + [x], KeyLeq) == SortBy(s, KeyLeq) + [x]
  {
    if s == [] {
      assert s + [x] == [x];
    } else {
      assert (s + [x])[1..] == s[1..] + [x];
      SortAppendLast(s[1..], x);
      InsertBeforeLast(s[0], SortBy(s[1..], KeyLeq), x);
    }
  }

  lemma {:induction false} InsertBeforeLast(e: Entry, s: seq<Entry>, x: Entry)
    requires KeyLeq(e, x)
    ensures Insert(e, s + [x], KeyLeq) == Insert(e, s, KeyLeq) + [x]
  {
    if s != [] && !KeyLeq(e, s[0]) {
      assert (s + [x])[1..] == s[1..] + [x];
      InsertBeforeLast(e, s[1..], x);
    }
  }

  lemma {:induction false} EncodeEntriesConcat(a: seq<Entry>, b: seq<Entry>)
    ensures EncodeEntries(a + b) == EncodeEntries(a) + EncodeEntries(b)
  {
    hide EncodeEntry;
    if a == [] {
      assert a + b == b;
    } else {
      assert (a + b)[1..] == a[1..] + b;
      EncodeEntriesConcat(a[1..], b);
    }
  }

  /** Although `info` is spliced in behind the sorted entries, the keys come out
      in order: the file is the canonical encoding of its root dictionary,
      exactly when the raw info bytes are the canonical encoding of the info value. */
  lemma PrintedCanonical(m: Metainfo, iv: Bencode)
    requires m.info.rawInfo.Raw?
    ensures ToBytes(m) == Some(Encode(Dict(RootEntries(m) + [Entry(INFO, iv)])))
       <==> m.info.rawInfo.bytes == Encode(iv)
  {
    var es, info, raw := RootEntries(m), Entry(INFO, iv), m.info.rawInfo.bytes;
    var front := EncodeEntries(SortBy(es, KeyLeq));
    InfoSortsLast(m, iv);
    SortAppendLast(es, info);
    EncodeEntriesConcat(SortBy(es, KeyLeq), [info]);
    assert [info][1..] == [];
    assert EncodeEntries([info]) == EncodeEntry(info);
    assert EncodeEntry(info) == EncodeBytes(INFO) + Encode(iv);
    EncodeDictForm(es + [info]);
    hide Encode, EncodeEntries, RootEntries, SortBy;
    var p := [DICT] + front + EncodeBytes(INFO);
    Assoc(front, EncodeBytes(INFO), Encode(iv));
    Assoc([DICT], front + EncodeBytes(INFO), Encode(iv));
    Assoc([DICT], front, EncodeBytes(INFO));
    assert ToBytes(m).value == p + raw + [END];
    SameMiddle(p, raw, Encode(iv), [END]);
  }

  lemma EncodeDictForm(es: seq<Entry>)
    ensures Encode(Dict(es)) == [DICT] + EncodeEntries(SortBy(es, KeyLeq)) + [END]
  {}

  lemma SameMiddle(p: seq<byte>, x: seq<byte>, y: seq<byte>, q: seq<byte>)
    ensures p + x + q == p + y + q <==> x == y
  {
    if p + x + q == p + y + q {
      assert |x| == |y|;
      assert x == (p + x + q)[|p|..|p| + |x|];
      assert y == (p + y + q)[|p|..|p| + |y|];
    }
  }

  lemma InfoSortsLast(m: Metainfo, iv: Bencode)
    ensures forall i :: 0 <= i < |RootEntries(m)| ==> KeyLeq(RootEntries(m)[i], Entry(INFO, iv))
  {
    KeysDiffer();
    RootKeys(m);
    var es := RootEntries(m);
    assert forall i :: 0 <= i < |es| ==> es[i].key in Keys(es);
  }
}
