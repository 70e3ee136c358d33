/** Which magnet URIs come back from printing and parsing. */
module MagnetTheorems {
  import opened Prelude
  import opened Encodings
  import opened Magnet
  import Decimal
  import Metainfo
  import Utf8

  // ---------------------------------------------------------------- parameters are found again

  lemma SplitParam(m: MagnetUri, key: seq<byte>, value: seq<byte>)
    requires EQUALS !in key
    ensures ParseParam(m, Param(key, value)) == SetField(m, FieldOf(key), value)
  {
    var p := Param(key, value);
    hide SetField, FieldOf;
    assert p[..|key|] == key && p[|key| + 1..] == value;
    PositionUnique(p, EQUALS, |key|);
  }

  lemma Keys()
    ensures FieldOf(XT) == Xt && FieldOf(DN) == Dn && FieldOf(TR) == Tr && FieldOf(WS) == Ws && FieldOf(XS) == Xs
    ensures FieldOf(AS) == As && FieldOf(KT) == Kt && FieldOf(MT) == Mt && FieldOf(PE) == Pe && FieldOf(XL) == Xl
  {
    FrontKeys();
    BackKeys();
    hide FieldOf;
  }

  lemma FrontKeys()
    ensures FieldOf(XT) == Xt && FieldOf(DN) == Dn && FieldOf(TR) == Tr && FieldOf(WS) == Ws && FieldOf(XS) == Xs
  {
    assert XT[0] == 120 && XT[1] == 116 && DN[0] == 100 && TR[0] == 116 && WS[0] == 119;
    assert XS[0] == 120 && XS[1] == 115;
  }

  lemma BackKeys()
    ensures FieldOf(AS) == As && FieldOf(KT) == Kt && FieldOf(MT) == Mt && FieldOf(PE) == Pe && FieldOf(XL) == Xl
  {
    assert XT[0] == 120 && XT[1] == 116 && DN[0] == 100 && TR[0] == 116 && WS[0] == 119 && XS[1] == 115;
    assert AS[0] == 97 && KT[0] == 107 && MT[0] == 109 && XL[0] == 120 && XL[1] == 108 && PE[1] == 46;
  }

  lemma ParamsSnoc(m: MagnetUri, params: seq<seq<byte>>, p: seq<byte>)
    ensures ParseParams(m, params + [p]) == ParseParam(ParseParams(m, params), p)
  {
    assert (params + [p])[..|params|] == params;
  }

  lemma {:induction false} ParamsAppend(m: MagnetUri, a: seq<seq<byte>>, b: seq<seq<byte>>)
    ensures ParseParams(m, a + b) == ParseParams(ParseParams(m, a), b)
  {
    if b == [] {
      assert a + b == a;
    } else {
      var front, last := b[..|b| - 1], b[|b| - 1];
      assert a + b == (a + front) + [last];
      ParamsAppend(m, a, front);
      ParamsSnoc(m, a + front, last);
    }
  }

  lemma TextComesBack(t: Utf8.Text)
    ensures Decoded(UrlEncode(t)) == t
  {
    UrlRoundTrip(t);
  }

  ghost predicate DecodesAsWritten(h: InfoHash) {
    DecodeHash(h.raw) == Some(h.bytes)
  }

  ghost predicate AllDecode(hashes: seq<InfoHash>) {
    forall i :: 0 <= i < |hashes| ==> DecodesAsWritten(hashes[i])
  }

  ghost function AddHashes(m: MagnetUri, hashes: seq<InfoHash>): MagnetUri {
    m.(infoHashes := m.infoHashes + hashes)
  }

  lemma XtComesBack(h: InfoHash)
    requires DecodesAsWritten(h)
    ensures ParseXt(URN + h.raw) == Some(h)
  {
    assert (URN + h.raw)[|URN|..] == h.raw;
  }

  lemma {:induction false} XtFold(m: MagnetUri, hashes: seq<InfoHash>)
    requires AllDecode(hashes)
    ensures ParseParams(m, XtParams(hashes)) == AddHashes(m, hashes)
  {
    if hashes == [] {
      assert m.infoHashes + [] == m.infoHashes;
    } else {
      var front, last := hashes[..|hashes| - 1], hashes[|hashes| - 1];
      assert XtParams(hashes) == XtParams(front) + [Param(XT, URN + last.raw)];
      assert DecodesAsWritten(last) && AllDecode(front) && hashes == front + [last];
      hide XtParams, ParseParam, ParseParams, DecodesAsWritten, AllDecode, Param, AddHashes;
      XtFold(m, front);
      XtFoldStep(m, front, last);
    }
  }

  lemma XtFoldStep(m: MagnetUri, front: seq<InfoHash>, last: InfoHash)
    requires DecodesAsWritten(last) && ParseParams(m, XtParams(front)) == AddHashes(m, front)
    ensures ParseParams(m, XtParams(front) + [Param(XT, URN + last.raw)]) == AddHashes(m, front + [last])
  {
    hide XtParams, ParseParam, ParseParams, DecodesAsWritten, Param, AddHashes;
    ParamsSnoc(m, XtParams(front), Param(XT, URN + last.raw));
    XtStep(AddHashes(m, front), last);
    MoreHashes(m, front, last);
  }

  lemma MoreHashes(m: MagnetUri, front: seq<InfoHash>, last: InfoHash)
    ensures AddHashes(AddHashes(m, front), [last]) == AddHashes(m, front + [last])
  {
    assert (m.infoHashes + front) + [last] == m.infoHashes + (front + [last]);
  }

  lemma XtStep(m: MagnetUri, h: InfoHash)
    requires DecodesAsWritten(h)
    ensures ParseParam(m, Param(XT, URN + h.raw)) == AddHashes(m, [h])
  {
    hide ParseParam, ParseXt, DecodesAsWritten, Param, FieldOf;
    Keys();
    SplitParam(m, XT, URN + h.raw);
    XtComesBack(h);
  }

  /** The URI with texts added to a list field. */
  ghost function AddTo(m: MagnetUri, field: Field, texts: seq<Text>): MagnetUri {
    if field == Tr then m.(trackers := m.trackers + texts)
    else if field == Ws then m.(webSeeds := m.webSeeds + texts)
    else m.(peers := m.peers + texts)
  }

  lemma AddStep(m: MagnetUri, field: Field, key: seq<byte>, text: Text)
    requires FieldOf(key) == field && EQUALS !in key && (field == Tr || field == Ws || field == Pe)
    ensures ParseParam(m, Param(key, UrlEncode(text))) == AddTo(m, field, [text])
  {
    hide ParseParam, Param, FieldOf, UrlEncode, Decoded;
    SplitParam(m, key, UrlEncode(text));
    TextComesBack(text);
  }

  lemma AddMore(m: MagnetUri, field: Field, front: seq<Text>, last: Text)
    ensures AddTo(AddTo(m, field, front), field, [last]) == AddTo(m, field, front + [last])
  {
    if field == Tr {
      assert (m.trackers + front) + [last] == m.trackers + (front + [last]);
    } else if field == Ws {
      assert (m.webSeeds + front) + [last] == m.webSeeds + (front + [last]);
    } else {
      assert (m.peers + front) + [last] == m.peers + (front + [last]);
    }
  }

  lemma AddNothing(m: MagnetUri, field: Field)
    ensures AddTo(m, field, []) == m
  {
    assert m.trackers + [] == m.trackers && m.webSeeds + [] == m.webSeeds && m.peers + [] == m.peers;
  }

  lemma {:induction false} EachFold(m: MagnetUri, field: Field, key: seq<byte>, texts: seq<Text>)
    requires FieldOf(key) == field && EQUALS !in key && (field == Tr || field == Ws || field == Pe)
    ensures ParseParams(m, Each(key, texts)) == AddTo(m, field, texts)
  {
    if texts == [] {
      AddNothing(m, field);
    } else {
      var front, last := texts[..|texts| - 1], texts[|texts| - 1];
      assert Each(key, texts) == Each(key, front) + [Param(key, UrlEncode(last))];
      assert texts == front + [last];
      hide Each, ParseParam, ParseParams, Param, UrlEncode, FieldOf, AddTo;
      EachFold(m, field, key, front);
      EachStep(m, field, key, front, last);
    }
  }

  lemma EachStep(m: MagnetUri, field: Field, key: seq<byte>, front: seq<Text>, last: Text)
    requires FieldOf(key) == field && EQUALS !in key && (field == Tr || field == Ws || field == Pe)
    requires ParseParams(m, Each(key, front)) == AddTo(m, field, front)
    ensures ParseParams(m, Each(key, front) + [Param(key, UrlEncode(last))]) == AddTo(m, field, front + [last])
  {
    hide Each, ParseParam, ParseParams, Param, UrlEncode, FieldOf, AddTo;
    ParamsSnoc(m, Each(key, front), Param(key, UrlEncode(last)));
    AddStep(AddTo(m, field, front), field, key, last);
    AddMore(m, field, front, last);
  }

  lemma TrackersFold(m: MagnetUri, texts: seq<Text>)
    ensures ParseParams(m, Each(TR, texts)) == AddTo(m, Tr, texts)
  {
    Keys();
    hide ParseParams, Each, FieldOf, AddTo;
    EachFold(m, Tr, TR, texts);
  }

  lemma WebSeedsFold(m: MagnetUri, texts: seq<Text>)
    ensures ParseParams(m, Each(WS, texts)) == AddTo(m, Ws, texts)
  {
    Keys();
    hide ParseParams, Each, FieldOf, AddTo;
    EachFold(m, Ws, WS, texts);
  }

  lemma PeersFold(m: MagnetUri, texts: seq<Text>)
    ensures ParseParams(m, Each(PE, texts)) == AddTo(m, Pe, texts)
  {
    Keys();
    hide ParseParams, Each, FieldOf, AddTo;
    EachFold(m, Pe, PE, texts);
  }

  /** The URI with an optional text field set, if there is a text. */
  ghost function Put(m: MagnetUri, field: Field, text: Option<Text>): MagnetUri {
    if text.None? then m
    else if field == Dn then m.(displayName := text)
    else if field == Xs then m.(exactSource := text)
    else if field == As then m.(acceptableSource := text)
    else if field == Kt then m.(keywordTopic := text)
    else m.(manifestTopic := text)
  }

  lemma PutStep(m: MagnetUri, field: Field, key: seq<byte>, text: Text)
    requires FieldOf(key) == field && EQUALS !in key
    requires field == Dn || field == Xs || field == As || field == Kt || field == Mt
    ensures ParseParam(m, Param(key, UrlEncode(text))) == Put(m, field, Some(text))
  {
    hide ParseParam, Param, FieldOf, UrlEncode, Decoded;
    SplitParam(m, key, UrlEncode(text));
    TextComesBack(text);
  }

  lemma OneParam(m: MagnetUri, p: seq<byte>)
    ensures ParseParams(m, [p]) == ParseParam(m, p) && ParseParams(m, []) == m
  {
    assert [] + [p] == [p];
    ParamsSnoc(m, [], p);
  }

  lemma OneFold(m: MagnetUri, field: Field, key: seq<byte>, text: Option<Text>)
    requires FieldOf(key) == field && EQUALS !in key
    requires field == Dn || field == Xs || field == As || field == Kt || field == Mt
    ensures ParseParams(m, AtMostOne(key, text)) == Put(m, field, text)
  {
    OneParam(m, if text.Some? then Param(key, UrlEncode(text.value)) else []);
    hide ParseParam, ParseParams, Param, UrlEncode, FieldOf;
    if text.Some? {
      PutStep(m, field, key, text.value);
    }
  }

  lemma OptionalFolds(m: MagnetUri, text: Option<Text>)
    ensures ParseParams(m, AtMostOne(DN, text)) == Put(m, Dn, text)
    ensures ParseParams(m, AtMostOne(XS, text)) == Put(m, Xs, text)
    ensures ParseParams(m, AtMostOne(AS, text)) == Put(m, As, text)
    ensures ParseParams(m, AtMostOne(KT, text)) == Put(m, Kt, text)
    ensures ParseParams(m, AtMostOne(MT, text)) == Put(m, Mt, text)
  {
    Keys();
    hide ParseParams, AtMostOne, FieldOf, Put;
    OneFold(m, Dn, DN, text);
    OneFold(m, Xs, XS, text);
    OneFold(m, As, AS, text);
    OneFold(m, Kt, KT, text);
    OneFold(m, Mt, MT, text);
  }

  lemma Then(m0: MagnetUri, a: seq<seq<byte>>, m1: MagnetUri, b: seq<seq<byte>>, m2: MagnetUri)
    requires ParseParams(m0, a) == m1 && ParseParams(m1, b) == m2
    ensures ParseParams(m0, a + b) == m2
  {
    ParamsAppend(m0, a, b);
  }

  lemma LengthFold(m: MagnetUri, n: Option<u64>)
    requires m.exactLength.None?
    ensures ParseParams(m, LengthParam(n)) == m.(exactLength := n)
  {
    OneParam(m, if n.Some? then Param(XL, Decimal.Digits(n.value)) else []);
    hide ParseParam, ParseParams, Param, FieldOf;
    if n.Some? {
      Keys();
      SplitParam(m, XL, Decimal.Digits(n.value));
      DigitsParse(n.value);
    }
  }

  lemma DigitsParse(n: u64)
    ensures Decimal.ParseU64(Decimal.Digits(n)) == Some(n)
  {
    Decimal.ValueOfDigits(n);
    var d := Decimal.Digits(n);
    assert Decimal.IsDigit(d[0]);
  }

  ghost function HeadOnly(m: MagnetUri): MagnetUri {
    EMPTY_URI.(infoHashes := m.infoHashes, displayName := m.displayName, trackers := m.trackers)
  }

  lemma HeadOnlySteps(m: MagnetUri)
    ensures AddTo(Put(AddHashes(EMPTY_URI, m.infoHashes), Dn, m.displayName), Tr, m.trackers) == HeadOnly(m)
  {
    assert [] + m.infoHashes == m.infoHashes && [] + m.trackers == m.trackers;
  }

  /** Parsing all parameters of a printed URI rebuilds it field by field. */
  lemma HeadFold(m: MagnetUri)
    requires AllDecode(m.infoHashes)
    ensures ParseParams(EMPTY_URI, Head(m)) == HeadOnly(m)
  {
    hide ParseParams, XtParams, AtMostOne, Each, AddHashes, Put, AddTo, HeadOnly, AllDecode;
    HeadOnlySteps(m);
    XtFold(EMPTY_URI, m.infoHashes);
    var m1 := AddHashes(EMPTY_URI, m.infoHashes);
    OptionalFolds(m1, m.displayName);
    var m2 := Put(m1, Dn, m.displayName);
    Then(EMPTY_URI, XtParams(m.infoHashes), m1, AtMostOne(DN, m.displayName), m2);
    TrackersFold(m2, m.trackers);
    Then(EMPTY_URI, XtParams(m.infoHashes) + AtMostOne(DN, m.displayName), m2, Each(TR, m.trackers), HeadOnly(m));
  }

  /** The state after web seeds, exact and acceptable source. */
  ghost function HalfTail(m: MagnetUri): MagnetUri {
    Put(Put(AddTo(HeadOnly(m), Ws, m.webSeeds), Xs, m.exactSource), As, m.acceptableSource)
  }

  lemma HalfTailFold(m: MagnetUri)
    ensures ParseParams(HeadOnly(m), Each(WS, m.webSeeds) + AtMostOne(XS, m.exactSource) + AtMostOne(AS, m.acceptableSource))
         == HalfTail(m)
  {
    hide ParseParams, Each, AtMostOne, Put, AddTo, HeadOnly;
    var m0 := HeadOnly(m);
    var m1 := AddTo(m0, Ws, m.webSeeds);
    var m2 := Put(m1, Xs, m.exactSource);
    WebSeedsFold(m0, m.webSeeds);
    OptionalFolds(m1, m.exactSource);
    Then(m0, Each(WS, m.webSeeds), m1, AtMostOne(XS, m.exactSource), m2);
    OptionalFolds(m2, m.acceptableSource);
    Then(m0, Each(WS, m.webSeeds) + AtMostOne(XS, m.exactSource), m2, AtMostOne(AS, m.acceptableSource), HalfTail(m));
  }

  lemma TailSteps(m: MagnetUri)
    ensures var m6 := AddTo(Put(Put(HalfTail(m), Kt, m.keywordTopic), Mt, m.manifestTopic), Pe, m.peers);
            m6.exactLength.None? && m6.(exactLength := m.exactLength) == m
  {
    assert [] + m.webSeeds == m.webSeeds && [] + m.peers == m.peers;
  }

  lemma TailFold(m: MagnetUri)
    ensures ParseParams(HeadOnly(m), Tail(m)) == m
  {
    HalfTailFold(m);
    TailSteps(m);
    hide ParseParams, Each, AtMostOne, LengthParam, Put, AddTo, HeadOnly, HalfTail;
    var m0, m3 := HeadOnly(m), HalfTail(m);
    var m4 := Put(m3, Kt, m.keywordTopic);
    var m5 := Put(m4, Mt, m.manifestTopic);
    var m6 := AddTo(m5, Pe, m.peers);
    var p3 := Each(WS, m.webSeeds) + AtMostOne(XS, m.exactSource) + AtMostOne(AS, m.acceptableSource);
    var p4 := p3 + AtMostOne(KT, m.keywordTopic);
    var p5 := p4 + AtMostOne(MT, m.manifestTopic);
    OptionalFolds(m3, m.keywordTopic);
    Then(m0, p3, m3, AtMostOne(KT, m.keywordTopic), m4);
    OptionalFolds(m4, m.manifestTopic);
    Then(m0, p4, m4, AtMostOne(MT, m.manifestTopic), m5);
    PeersFold(m5, m.peers);
    Then(m0, p5, m5, Each(PE, m.peers), m6);
    LengthFold(m6, m.exactLength);
    Then(m0, p5 + Each(PE, m.peers), m6, LengthParam(m.exactLength), m);
  }

  // ---------------------------------------------------------------- separators are found again

  lemma SplitAt(s: seq<byte>, sep: byte, k: nat)
    requires k < |s| && s[k] == sep && sep !in s[..k]
    ensures Split(s, sep) == [s[..k]] + Split(s[k + 1..], sep)
  {
    PositionUnique(s, sep, k);
  }

  lemma CutInside(a: seq<byte>, tail: seq<byte>, k: nat)
    requires k < |a|
    ensures (a + tail)[..k] == a[..k] && (a + tail)[k + 1..] == a[k + 1..] + tail && (a + tail)[k] == a[k]
  {}

  lemma {:induction false} SplitAppend(a: seq<byte>, p: seq<byte>, sep: byte)
    requires sep !in p
    ensures Split(a + [sep] + p, sep) == Split(a, sep) + [p]
  {
    hide Split;
    var s := a + [sep] + p;
    var i := Position(a, sep);
    Assoc(a, [sep], p);
    if i.None? {
      assert s[..|a|] == a && s[|a| + 1..] == p;
      SplitAt(s, sep, |a|);
      SplitNone(p, sep);
      SplitNone(a, sep);
    } else {
      var k := i.value;
      var rest := a[k + 1..];
      CutInside(a, [sep] + p, k);
      SplitAt(a, sep, k);
      SplitAt(s, sep, k);
      Assoc(rest, [sep], p);
      SplitAppend(rest, p, sep);
    }
  }

  lemma SplitNone(p: seq<byte>, sep: byte)
    requires sep !in p
    ensures Split(p, sep) == [p]
  {}

  lemma JoinedLast(params: seq<seq<byte>>)
    requires params != []
    ensures |params| == 1 ==> Joined(params) == params[0]
    ensures |params| > 1 ==> Joined(params) == Joined(params[..|params| - 1]) + [AMPERSAND] + params[|params| - 1]
  {
    if |params| == 1 {
      assert params[..0] == [] && [] + [] + params[0] == params[0];
    }
  }

  lemma {:induction false} SplitJoined(params: seq<seq<byte>>)
    requires params != [] && forall i :: 0 <= i < |params| ==> AMPERSAND !in params[i]
    ensures Split(Joined(params), AMPERSAND) == params
  {
    hide Split, Joined;
    JoinedLast(params);
    var n := |params| - 1;
    if n == 0 {
      SplitNone(params[0], AMPERSAND);
    } else {
      SplitJoined(params[..n]);
      SplitAppend(Joined(params[..n]), params[n], AMPERSAND);
      assert params == params[..n] + [params[n]];
    }
  }

  lemma {:induction false} JoinedPrefixed(head: seq<seq<byte>>, tail: seq<seq<byte>>)
    requires head != []
    ensures Joined(head) + Prefixed(tail) == Joined(head + tail)
  {
    if tail == [] {
      assert head + tail == head && Joined(head) + [] == Joined(head);
    } else {
      var n := |tail| - 1;
      assert Prefixed(tail) == Prefixed(tail[..n]) + [AMPERSAND] + tail[n];
      hide Prefixed, Joined;
      JoinedPrefixed(head, tail[..n]);
      JoinedLast(head + tail);
      assert (head + tail)[..|head + tail| - 1] == head + tail[..n];
      assert (head + tail)[|head + tail| - 1] == tail[n];
      Assoc(Joined(head), Prefixed(tail[..n]) + [AMPERSAND], tail[n]);
      Assoc(Joined(head), Prefixed(tail[..n]), [AMPERSAND]);
    }
  }

  /** Printable, without ampersands, and not empty: every printed parameter. */
  ghost predicate Printed(p: seq<byte>) {
    p != [] && forall i :: 0 <= i < |p| ==> 32 < p[i] < 127 && p[i] != AMPERSAND
  }

  ghost predicate AllPrinted(params: seq<seq<byte>>) {
    forall i :: 0 <= i < |params| ==> Printed(params[i])
  }

  lemma ParamPrinted(key: seq<byte>, value: seq<byte>)
    requires Printed(key) && forall i :: 0 <= i < |value| ==> 32 < value[i] < 127 && value[i] != AMPERSAND
    ensures Printed(Param(key, value))
  {}

  lemma {:induction false} EachPrinted(key: seq<byte>, texts: seq<Text>)
    requires Printed(key)
    ensures AllPrinted(Each(key, texts))
  {
    if texts != [] {
      EachPrinted(key, texts[..|texts| - 1]);
      EncodedIsPlain(texts[|texts| - 1]);
      ParamPrinted(key, UrlEncode(texts[|texts| - 1]));
    }
  }

  lemma OnePrinted(key: seq<byte>, text: Option<Text>)
    requires Printed(key)
    ensures AllPrinted(AtMostOne(key, text))
  {
    if text.Some? {
      EncodedIsPlain(text.value);
      ParamPrinted(key, UrlEncode(text.value));
    }
  }

  lemma {:induction false} XtPrinted(hashes: seq<InfoHash>)
    requires AllDecode(hashes)
    ensures AllPrinted(XtParams(hashes)) && |XtParams(hashes)| == |hashes|
  {
    if hashes != [] {
      var last := hashes[|hashes| - 1];
      XtPrinted(hashes[..|hashes| - 1]);
      assert DecodesAsWritten(last);
      ParamPrinted(XT, URN + last.raw);
    }
  }

  lemma LengthPrinted(n: Option<u64>)
    ensures AllPrinted(LengthParam(n))
  {
    if n.Some? {
      var d := Decimal.Digits(n.value);
      assert forall i :: 0 <= i < |d| ==> Decimal.IsDigit(d[i]);
      ParamPrinted(XL, d);
    }
  }

  lemma AllPrintedAppend(a: seq<seq<byte>>, b: seq<seq<byte>>)
    requires AllPrinted(a) && AllPrinted(b)
    ensures AllPrinted(a + b)
  {}

  lemma HeadTailPrinted(m: MagnetUri)
    requires AllDecode(m.infoHashes)
    ensures AllPrinted(Head(m) + Tail(m)) && |Head(m)| >= |m.infoHashes|
  {
    XtPrinted(m.infoHashes);
    OnePrinted(DN, m.displayName);
    EachPrinted(TR, m.trackers);
    EachPrinted(WS, m.webSeeds);
    OnePrinted(XS, m.exactSource);
    OnePrinted(AS, m.acceptableSource);
    OnePrinted(KT, m.keywordTopic);
    OnePrinted(MT, m.manifestTopic);
    EachPrinted(PE, m.peers);
    LengthPrinted(m.exactLength);
    hide AllPrinted, XtParams, Each, AtMostOne, LengthParam;
    AllPrintedAppend(XtParams(m.infoHashes), AtMostOne(DN, m.displayName));
    AllPrintedAppend(XtParams(m.infoHashes) + AtMostOne(DN, m.displayName), Each(TR, m.trackers));
    var p1 := Each(WS, m.webSeeds);
    var p2 := p1 + AtMostOne(XS, m.exactSource);
    var p3 := p2 + AtMostOne(AS, m.acceptableSource);
    var p4 := p3 + AtMostOne(KT, m.keywordTopic);
    var p5 := p4 + AtMostOne(MT, m.manifestTopic);
    AllPrintedAppend(p1, AtMostOne(XS, m.exactSource));
    AllPrintedAppend(p2, AtMostOne(AS, m.acceptableSource));
    AllPrintedAppend(p3, AtMostOne(KT, m.keywordTopic));
    AllPrintedAppend(p4, AtMostOne(MT, m.manifestTopic));
    AllPrintedAppend(p5, Each(PE, m.peers));
    AllPrintedAppend(p5 + Each(PE, m.peers), LengthParam(m.exactLength));
    AllPrintedAppend(Head(m), Tail(m));
  }

  // ---------------------------------------------------------------- nothing is trimmed

  lemma NothingTrimmed(s: seq<byte>)
    requires s != [] && 32 < s[0] < 127 && 32 < s[|s| - 1] < 127
    ensures Trim(s) == s
  {
    var n := |s|;
    assert s[n - 1..][0] == s[n - 1];
    if n >= 2 {
      assert s[n - 2..][1] == s[n - 1];
    }
    if n >= 3 {
      assert s[n - 3..][2] == s[n - 1];
    }
  }

  lemma {:induction false} JoinedEnds(params: seq<seq<byte>>)
    requires params != [] && AllPrinted(params)
    ensures var j := Joined(params);
            j != [] && 32 < j[|j| - 1] < 127
  {
    var last := params[|params| - 1];
    assert Printed(last);
    var j := Joined(params);
    assert j[|j| - 1] == last[|last| - 1];
  }

  // ---------------------------------------------------------------- the round trip

  lemma DisplayJoined(m: MagnetUri)
    requires Head(m) != []
    ensures Display(m) == SCHEME + ([QUESTION] + Joined(Head(m) + Tail(m)))
  {
    hide Head, Tail;
    JoinedPrefixed(Head(m), Tail(m));
    hide Joined, Prefixed;
    Assoc(SCHEME + [QUESTION], Joined(Head(m)), Prefixed(Tail(m)));
    Assoc(SCHEME, [QUESTION], Joined(Head(m) + Tail(m)));
  }

  lemma NoAmpersand(params: seq<seq<byte>>)
    requires AllPrinted(params)
    ensures forall i :: 0 <= i < |params| ==> AMPERSAND !in params[i]
  {
    forall i | 0 <= i < |params|
      ensures AMPERSAND !in params[i]
    {
      assert Printed(params[i]);
    }
  }

  lemma ParsePrefixed(body: seq<byte>)
    requires body != [] && 32 < body[|body| - 1] < 127
    ensures Parse(SCHEME + body) == Done(ParseBody(body))
  {
    var s := SCHEME + body;
    NothingTrimmed(s);
    hide Trim, ParseBody;
    assert SCHEME <= s && s[7..] == body;
  }

  /** What parsing returns always has a hash, and every hash decodes to its bytes. */
  lemma ParsedHashes(text: seq<byte>)
    ensures Parse(text).Done? && Parse(text).result.Ok? ==>
              var m := Parse(text).result.value;
              m.infoHashes != [] && AllDecode(m.infoHashes)
  {
    var s := Trim(text);
    hide Trim;
    if !SliceFails(s) && AfterScheme(s).Some? {
      var body := AfterScheme(s).value;
      if body != [] {
        ParamsHashes(Split(body[1..], AMPERSAND));
      }
    }
  }

  lemma {:induction false} ParamsHashes(params: seq<seq<byte>>)
    ensures AllDecode(ParseParams(EMPTY_URI, params).infoHashes)
  {
    if params != [] {
      var front, last := params[..|params| - 1], params[|params| - 1];
      ParamsHashes(front);
      FieldHashes(ParseParams(EMPTY_URI, front), last);
      hide ParseParam, DecodesAsWritten;
    }
  }

  lemma FieldHashes(m: MagnetUri, param: seq<byte>)
    requires AllDecode(m.infoHashes)
    ensures AllDecode(ParseParam(m, param).infoHashes)
  {
    hide FieldOf, Decoded;
  }

  /** Printing and parsing gives the URI back exactly when it has a hash and every hash
      was written in a form that decodes to its bytes. */
  lemma MagnetRoundTrip(m: MagnetUri)
    ensures Parse(Display(m)) == Done(Ok(m))
       <==> m.infoHashes != [] && AllDecode(m.infoHashes)
  {
    ParsedHashes(Display(m));
    hide AllDecode, Display, Parse;
    if m.infoHashes != [] && AllDecode(m.infoHashes) {
      GoodUriComesBack(m);
    }
  }

  lemma GoodUriComesBack(m: MagnetUri)
    requires m.infoHashes != [] && AllDecode(m.infoHashes)
    ensures Parse(Display(m)) == Done(Ok(m))
  {
    var params := Head(m) + Tail(m);
    var body := [QUESTION] + Joined(params);
    HeadTailPrinted(m);
    assert Head(m) != [] && params != [];
    hide Display, Head, Tail, Joined, Split, ParseParams, AllDecode, AllPrinted, Parse, HeadOnly;
    DisplayJoined(m);
    JoinedEnds(params);
    assert body[|body| - 1] == Joined(params)[|Joined(params)| - 1];
    ParsePrefixed(body);
    BodyComesBack(m, params);
  }

  lemma BodyComesBack(m: MagnetUri, params: seq<seq<byte>>)
    requires m.infoHashes != [] && AllDecode(m.infoHashes)
    requires params == Head(m) + Tail(m) && params != [] && AllPrinted(params)
    ensures ParseBody([QUESTION] + Joined(params)) == Ok(m)
  {
    hide Head, Tail, Joined, Split, ParseParams, AllDecode, AllPrinted, HeadOnly;
    NoAmpersand(params);
    SplitJoined(params);
    HeadFold(m);
    TailFold(m);
    ParamsAppend(EMPTY_URI, Head(m), Tail(m));
    var body := [QUESTION] + Joined(params);
    assert body[1..] == Joined(params);
  }

  /** The URI of every torrent comes back from print and parse. */
  lemma TorrentMagnetRoundTrip(meta: Metainfo.Metainfo, sha1: seq<byte> -> Hash)
    ensures Parse(Display(FromMetainfo(meta, sha1))) == Done(Ok(FromMetainfo(meta, sha1)))
  {
    var hash := Metainfo.InfoHash(meta, sha1);
    HashText(hash);
    var m := FromMetainfo(meta, sha1);
    assert DecodesAsWritten(m.infoHashes[0]) && m.infoHashes != [] && AllDecode(m.infoHashes);
    hide FromMetainfo, AllDecode, Parse, Display;
    MagnetRoundTrip(m);
  }

  lemma {:induction false} TrimStartValid(s: seq<byte>)
    requires Utf8.Valid(s)
    ensures Utf8.Valid(TrimStart(s))
    decreases |s|
  {
    var n := SpaceAt(s);
    if n > 0 {
      assert Utf8.Head(s) == Utf8.Good(n);
      TrimStartValid(s[n..]);
    }
  }

  lemma {:induction false} TrimEndValid(s: seq<byte>)
    requires Utf8.Valid(s)
    ensures Utf8.Valid(TrimEnd(s))
    decreases |s|
  {
    var n := SpaceBefore(s);
    if n > 0 {
      SpaceStarts(s);
      Utf8.CutExact(s, |s| - n);
      TrimEndValid(s[..|s| - n]);
    }
  }

  lemma SpaceStarts(s: seq<byte>)
    requires SpaceBefore(s) > 0
    ensures !Utf8.Continuation(s[|s| - SpaceBefore(s)])
  {
    var n := SpaceBefore(s);
    assert SpaceAt(s[|s| - n..]) == n && s[|s| - n..][0] == s[|s| - n];
  }

  /** Parsing a string panics exactly when, after trimming, it does not start with the
      lower-case scheme, is longer than that, and does not fall into two strings at byte 7. */
  lemma PanicsExactly(text: Text)
    ensures var s := Trim(text);
            && Utf8.Valid(s)
            && (Parse(text).Panics?
                <==> !(SCHEME <= s) && |s| > 7 && !(Utf8.Valid(s[..7]) && Utf8.Valid(s[7..])))
  {
    var s := Trim(text);
    TrimStartValid(text);
    TrimEndValid(TrimStart(text));
    if |s| > 7 {
      Utf8.CutExact(s, 7);
    }
    hide AfterScheme, ParseBody, Utf8.Valid, TrimStart, TrimEnd;
  }

  /** It can: six letters followed by a two-byte character. */
  lemma PanicExample()
    ensures Utf8.Valid([109, 97, 103, 110, 101, 116, 0xC3, 0xA9])
    ensures Parse([109, 97, 103, 110, 101, 116, 0xC3, 0xA9]).Panics?
  {
    var s: seq<byte> := [109, 97, 103, 110, 101, 116, 0xC3, 0xA9];
    var letters: seq<byte> := [109, 97, 103, 110, 101, 116];
    assert s == letters + [0xC3, 0xA9];
    assert Utf8.Valid([0xC3, 0xA9]);
    Utf8Append(letters, [0xC3, 0xA9]);
    PanicTrim(s);
    assert SCHEME[6] != s[6];
    assert SliceFails(s);
    hide SliceFails, Trim, Utf8.Valid;
  }

  lemma PanicTrim(s: seq<byte>)
    requires |s| == 8 && s[0] == 109 && s[5] == 116 && s[6] == 0xC3 && s[7] == 0xA9
    ensures Trim(s) == s
  {
    assert SpaceAt(s) == 0;
    var a, b, c := s[7..], s[6..], s[5..];
    assert a[0] == 0xA9 && b[0] == 0xC3 && c[0] == 116;
    assert SpaceAt(a) == 0 && SpaceAt(b) == 0 && SpaceAt(c) == 0;
    assert SpaceBefore(s) == 0;
    hide SpaceAt, SpaceBefore;
  }

  lemma {:induction false} Utf8Append(ascii: seq<byte>, rest: seq<byte>)
    requires (forall i :: 0 <= i < |ascii| ==> ascii[i] < 0x80) && Utf8.Valid(rest)
    ensures Utf8.Valid(ascii + rest)
  {
    if ascii == [] {
      assert ascii + rest == rest;
    } else {
      Utf8Append(ascii[1..], rest);
      assert (ascii + rest)[1..] == ascii[1..] + rest;
    }
  }
}
