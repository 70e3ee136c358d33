/** Percent-encoding (RFC 3986, section 2.1), hexadecimal and base32 (RFC 4648, section 6). */
module Encodings {
  import opened Prelude
  import Utf8

  const PERCENT: byte := 37
  const AMPERSAND: byte := 38
  const EQUALS: byte := 61

  // ---------------------------------------------------------------- hexadecimal

  /** `hex_val`: either case. */
  function HexVal(b: byte): Option<nat> {
    var v := b as int;
    if 48 <= v <= 57 then Some(v - 48)
    else if 97 <= v <= 102 then Some(v - 87)
    else if 65 <= v <= 70 then Some(v - 55)
    else None
  }

  function HexDigit(v: nat, upper: bool): byte
    requires v < 16
  {
    (if v < 10 then v + 48 else if upper then v + 55 else v + 87) as byte
  }

  /** The byte that two digits write. */
  function HexByte(hi: byte, lo: byte): Option<byte> {
    var h, l := HexVal(hi), HexVal(lo);
    if h.Some? && l.Some? then Some((h.value * 16 + l.value) as byte) else None
  }

  /** Two digits per byte; None when a digit is bad. */
  function HexPairs(s: seq<byte>): Option<seq<byte>>
    requires |s| % 2 == 0
  {
    if s == [] then Some([])
    else
      var n := |s| - 2;
      var front, last := HexPairs(s[..n]), HexByte(s[n], s[n + 1]);
      if front.Some? && last.Some? then Some(front.value + [last.value]) else None
  }

  function HexEncode(bytes: seq<byte>): (s: seq<byte>)
    ensures |s| == 2 * |bytes|
  {
    if bytes == [] then []
    else
      var last := bytes[|bytes| - 1] as nat;
      HexEncode(bytes[..|bytes| - 1]) + [HexDigit(last / 16, false), HexDigit(last % 16, false)]
  }

  function HexDecode(s: seq<byte>): Option<seq<byte>> {
    if |s| != 40 then None else HexPairs(s)
  }

  /** Every digit of a good string is good, and it has one byte per two digits. */
  lemma {:induction false} HexPairsGood(s: seq<byte>)
    requires |s| % 2 == 0 && HexPairs(s).Some?
    ensures 2 * |HexPairs(s).value| == |s|
    ensures forall i :: 0 <= i < |s| ==> HexVal(s[i]).Some?
  {
    if s != [] {
      HexPairsGood(s[..|s| - 2]);
      assert forall i :: 0 <= i < |s| - 2 ==> s[..|s| - 2][i] == s[i];
    }
  }

  method HexDecodeBytes(s: seq<byte>) returns (r: Option<seq<byte>>)
    ensures r == HexDecode(s)
  {
    if |s| != 40 {
      return None;
    }
    var out: seq<byte> := [];
    hide HexVal;
    for i := 0 to 20
      invariant HexPairs(s[..2 * i]) == Some(out)
    {
      ghost var t := s[..2 * i + 2];
      assert t[..2 * i] == s[..2 * i];
      var b := HexByte(s[2 * i], s[2 * i + 1]);
      if b.None? {
        BadPair(s, i);
        return None;
      }
      out := out + [b.value];
    }
    assert s[..40] == s;
    return Some(out);
  }

  lemma {:induction false} BadPair(s: seq<byte>, i: nat)
    requires |s| % 2 == 0 && 2 * i + 1 < |s| && HexByte(s[2 * i], s[2 * i + 1]).None?
    ensures HexPairs(s).None?
  {
    if 2 * i + 2 < |s| {
      BadPair(s[..|s| - 2], i);
    }
  }

  lemma HexDigitVal(v: nat, upper: bool)
    requires v < 16
    ensures HexVal(HexDigit(v, upper)) == Some(v)
  {}

  lemma HexByteOf(b: byte, upper: bool)
    ensures HexByte(HexDigit(b as nat / 16, upper), HexDigit(b as nat % 16, upper)) == Some(b)
  {
    HexDigitVal(b as nat / 16, upper);
    HexDigitVal(b as nat % 16, upper);
  }

  /** Decoding inverts encoding. */
  lemma {:induction false} HexRoundTrip(bytes: seq<byte>)
    ensures HexPairs(HexEncode(bytes)) == Some(bytes)
  {
    if bytes != [] {
      var n := |bytes| - 1;
      HexRoundTrip(bytes[..n]);
      HexByteOf(bytes[n], false);
      assert HexEncode(bytes)[..2 * n] == HexEncode(bytes[..n]);
      assert bytes == bytes[..n] + [bytes[n]];
    }
  }

  // ---------------------------------------------------------------- base32

  function Base32Val(c: byte): Option<nat> {
    var v := c as int;
    if 65 <= v <= 90 then Some(v - 65)
    else if 97 <= v <= 122 then Some(v - 97)
    else if 50 <= v <= 55 then Some(v - 24)
    else None
  }

  /** The number that base32 characters write, most significant first. */
  function Base32Number(s: seq<byte>): Option<nat> {
    if s == [] then Some(0)
    else
      var front, last := Base32Number(s[..|s| - 1]), Base32Val(s[|s| - 1]);
      if front.Some? && last.Some? then Some(front.value * 32 + last.value) else None
  }

  /** The number that bytes write, most significant first. */
  function ByteNumber(s: seq<byte>): nat {
    if s == [] then 0 else ByteNumber(s[..|s| - 1]) * 256 + s[|s| - 1] as nat
  }

  /** The low `8n` bits of the buffer as `n` bytes, most significant first. */
  function BytesOf(buf: nat, n: nat): (r: seq<byte>)
    ensures |r| == n
  {
    if n == 0 then [] else BytesOf(buf / 256, n - 1) + [(buf % 256) as byte]
  }

  /** The five bytes as the code shifts them out of the 40-bit buffer. */
  function Shifted(buf: nat): seq<byte> {
    [(buf / 0x1_0000_0000 % 256) as byte, (buf / 0x100_0000 % 256) as byte, (buf / 0x1_0000 % 256) as byte,
     (buf / 0x100 % 256) as byte, (buf % 256) as byte]
  }

  /** The first `g` groups of eight characters become groups of five bytes. */
  function Base32Groups(s: seq<byte>, g: nat): Option<seq<byte>>
    requires 8 * g <= |s|
  {
    if g == 0 then Some([])
    else
      var front, group := Base32Groups(s, g - 1), Base32Number(s[8 * g - 8..8 * g]);
      if front.Some? && group.Some? then Some(front.value + BytesOf(group.value, 5)) else None
  }

  function Base32Decode(s: seq<byte>): Option<seq<byte>> {
    if |s| != 32 then None else Base32Groups(s, 4)
  }

  method Base32DecodeBytes(s: seq<byte>) returns (r: Option<seq<byte>>)
    ensures r == Base32Decode(s)
  {
    if |s| != 32 {
      return None;
    }
    r := DecodeGroups(s, 4);
  }

  /** The loop over groups. */
  method DecodeGroups(s: seq<byte>, groups: nat) returns (r: Option<seq<byte>>)
    requires 8 * groups <= |s|
    ensures r == Base32Groups(s, groups)
  {
    var out: seq<byte> := [];
    hide BytesOf, Shifted, Base32Number;
    for chunk := 0 to groups
      invariant Base32Groups(s, chunk) == Some(out)
    {
      var buf := Base32Buffer(s, 8 * chunk);
      if buf.None? {
        BadGroup(s, chunk, groups);
        return None;
      }
      FiveBytes(buf.value);
      out := out + Shifted(buf.value);
    }
    return Some(out);
  }

  /** The 40-bit buffer of one group. */
  method Base32Buffer(s: seq<byte>, offset: nat) returns (r: Option<nat>)
    requires offset + 8 <= |s|
    ensures r == Base32Number(s[offset..offset + 8])
  {
    var buf := 0;
    ghost var all := s[offset..offset + 8];
    for j := 0 to 8
      invariant Base32Number(all[..j]) == Some(buf)
    {
      assert all[..j + 1][..j] == all[..j] && all[j] == s[offset + j];
      var val := Base32Val(s[offset + j]);
      if val.None? {
        Base32BadNumber(all, j);
        return None;
      }
      buf := buf * 32 + val.value;
    }
    assert all[..8] == all;
    return Some(buf);
  }

  /** One bad group spoils the whole string. */
  lemma {:induction false} BadGroup(s: seq<byte>, k: nat, g: nat)
    requires k < g && 8 * g <= |s| && Base32Number(s[8 * k..8 * k + 8]).None?
    ensures Base32Groups(s, g).None?
  {
    hide Base32Number;
    if k < g - 1 {
      BadGroup(s, k, g - 1);
    }
  }

  lemma {:induction false} Base32BadNumber(s: seq<byte>, i: nat)
    requires i < |s| && Base32Val(s[i]).None?
    ensures Base32Number(s).None?
  {
    if i < |s| - 1 {
      Base32BadNumber(s[..|s| - 1], i);
    }
  }

  /** The five shifts of the buffer are its five bytes. */
  lemma FiveBytes(buf: nat)
    ensures BytesOf(buf, 5) == Shifted(buf)
  {
    var a := buf / 0x100;
    var b := a / 0x100;
    var c := b / 0x100;
    var d := c / 0x100;
    assert b == buf / 0x1_0000 && c == buf / 0x100_0000 && d == buf / 0x1_0000_0000;
    assert BytesOf(d, 1) == [(d % 256) as byte] by {
      assert BytesOf(d / 256, 0) == [];
    }
    assert BytesOf(c, 2) == BytesOf(d, 1) + [(c % 256) as byte];
    assert BytesOf(b, 3) == BytesOf(c, 2) + [(b % 256) as byte];
    assert BytesOf(a, 4) == BytesOf(b, 3) + [(a % 256) as byte];
  }

  function Power(base: nat, n: nat): nat {
    if n == 0 then 1 else base * Power(base, n - 1)
  }

  lemma {:induction false} Base32NumberBound(s: seq<byte>)
    requires Base32Number(s).Some?
    ensures Base32Number(s).value < Power(32, |s|)
  {
    if s != [] {
      Base32NumberBound(s[..|s| - 1]);
    }
  }

  /** The bytes of a buffer write its number behind what was there. */
  lemma {:induction false} BytesNumber(front: seq<byte>, buf: nat, n: nat)
    requires buf < Power(256, n)
    ensures ByteNumber(front + BytesOf(buf, n)) == ByteNumber(front) * Power(256, n) + buf
    decreases n
  {
    if n == 0 {
      assert front + [] == front;
    } else {
      var high := BytesOf(buf / 256, n - 1);
      BytesNumber(front, buf / 256, n - 1);
      Assoc(front, high, [(buf % 256) as byte]);
      var s := front + BytesOf(buf, n);
      assert s[..|s| - 1] == front + high;
      Regroup(ByteNumber(front), Power(256, n - 1), buf);
    }
  }

  lemma Regroup(x: nat, p: nat, buf: nat)
    ensures (x * p + buf / 256) * 256 + buf % 256 == x * (256 * p) + buf
  {}

  lemma {:induction false} Base32NumberSplit(a: seq<byte>, b: seq<byte>)
    requires Base32Number(a).Some? && Base32Number(b).Some?
    ensures Base32Number(a + b) == Some(Base32Number(a).value * Power(32, |b|) + Base32Number(b).value)
  {
    if b == [] {
      assert a + b == a;
    } else {
      var front := b[..|b| - 1];
      assert (a + b)[..|a + b| - 1] == a + front;
      Base32NumberSplit(a, front);
      Distribute(Base32Number(a).value, Power(32, |front|), Base32Number(front).value);
    }
  }

  lemma Distribute(x: nat, p: nat, y: nat)
    ensures (x * p + y) * 32 == x * (32 * p) + y * 32
  {}

  /** Eight characters hold as many bits as five bytes. */
  lemma SamePower()
    ensures Power(32, 8) == Power(256, 5)
  {
    assert Power(32, 4) == 0x10_0000 && Power(32, 6) == 0x4000_0000 && Power(32, 8) == 0x100_0000_0000;
    assert Power(256, 2) == 0x1_0000 && Power(256, 4) == 0x1_0000_0000 && Power(256, 5) == 0x100_0000_0000;
  }

  lemma NoGroups(s: seq<byte>)
    ensures Base32Groups(s, 0) == Some([]) && ByteNumber([]) == 0 && Base32Number(s[..0]) == Some(0)
  {
    assert s[..0] == [];
  }

  lemma GroupTurn(s: seq<byte>, g: nat)
    requires 8 * g <= |s| && g > 0 && Base32Groups(s, g).Some?
    ensures Base32Groups(s, g - 1).Some? && Base32Number(s[8 * g - 8..8 * g]).Some?
    ensures Base32Groups(s, g).value
         == Base32Groups(s, g - 1).value + BytesOf(Base32Number(s[8 * g - 8..8 * g]).value, 5)
  {
    hide Base32Number, BytesOf;
  }

  lemma NextGroup(s: seq<byte>, at: nat)
    requires at + 8 <= |s|
    ensures s[..at + 8] == s[..at] + s[at..at + 8]
  {}

  /** Base32 decoding keeps the number that the characters write. */
  lemma {:induction false} Base32SameNumber(s: seq<byte>, g: nat)
    requires 8 * g <= |s| && Base32Groups(s, g).Some?
    ensures Base32Number(s[..8 * g]).Some?
    ensures ByteNumber(Base32Groups(s, g).value) == Base32Number(s[..8 * g]).value
  {
    hide Base32Groups, Base32Number, BytesOf, ByteNumber;
    if g == 0 {
      NoGroups(s);
    } else {
      GroupTurn(s, g);
      Base32SameNumber(s, g - 1);
      NextGroup(s, 8 * g - 8);
      GroupSameNumber(s[..8 * g - 8], s[8 * g - 8..8 * g], Base32Groups(s, g - 1).value);
    }
  }

  lemma GroupSameNumber(front: seq<byte>, group: seq<byte>, bytes: seq<byte>)
    requires Base32Number(front).Some? && Base32Number(group).Some? && |group| == 8
    requires ByteNumber(bytes) == Base32Number(front).value
    ensures Base32Number(front + group).Some?
    ensures ByteNumber(bytes + BytesOf(Base32Number(group).value, 5)) == Base32Number(front + group).value
  {
    hide Base32Number, BytesOf, ByteNumber, Power;
    Base32NumberSplit(front, group);
    Base32NumberBound(group);
    SamePower();
    BytesNumber(bytes, Base32Number(group).value, 5);
  }

  /** Every character of a good string is good, and eight make five bytes. */
  lemma {:induction false} Base32GroupsGood(s: seq<byte>, g: nat)
    requires 8 * g <= |s| && Base32Groups(s, g).Some?
    ensures |Base32Groups(s, g).value| == 5 * g
    ensures forall b :: b in s[..8 * g] ==> Base32Val(b).Some?
  {
    if g > 0 {
      Base32GroupsGood(s, g - 1);
      Base32Good(s[8 * g - 8..8 * g]);
      hide Base32Number, Base32Val, BytesOf;
      assert s[..8 * g] == s[..8 * g - 8] + s[8 * g - 8..8 * g];
    }
  }

  lemma {:induction false} Base32Good(s: seq<byte>)
    requires Base32Number(s).Some?
    ensures forall b :: b in s ==> Base32Val(b).Some?
  {
    if s != [] {
      Base32Good(s[..|s| - 1]);
      assert s == s[..|s| - 1] + [s[|s| - 1]];
    }
  }

  // ---------------------------------------------------------------- percent-encoding

  predicate Unreserved(b: byte) {
    var v := b as int;
    65 <= v <= 90 || 97 <= v <= 122 || 48 <= v <= 57 || v == 45 || v == 46 || v == 95 || v == 126
  }

  function EncodeByte(b: byte): seq<byte> {
    if Unreserved(b) then [b] else [PERCENT, HexDigit(b as nat / 16, true), HexDigit(b as nat % 16, true)]
  }

  function UrlEncode(s: seq<byte>): seq<byte> {
    if s == [] then [] else UrlEncode(s[..|s| - 1]) + EncodeByte(s[|s| - 1])
  }

  /** The byte buffer of `url_decode`: a percent sign without two hex digits stands for itself. */
  function PercentDecode(s: seq<byte>): seq<byte>
    decreases |s|
  {
    if s == [] then []
    else if s[0] == PERCENT && |s| > 2 && HexByte(s[1], s[2]).Some? then
      [HexByte(s[1], s[2]).value] + PercentDecode(s[3..])
    else [s[0]] + PercentDecode(s[1..])
  }

  function UrlDecode(s: seq<byte>): seq<byte> {
    Utf8.Lossy(PercentDecode(s))
  }

  method UrlEncodeText(s: seq<byte>) returns (result: seq<byte>)
    ensures result == UrlEncode(s)
  {
    result := [];
    for i := 0 to |s|
      invariant result == UrlEncode(s[..i])
    {
      assert s[..i + 1][..i] == s[..i];
      if Unreserved(s[i]) {
        result := result + [s[i]];
      } else {
        result := result + [PERCENT, HexDigit(s[i] as nat / 16, true), HexDigit(s[i] as nat % 16, true)];
      }
    }
    assert s[..|s|] == s;
  }

  method UrlDecodeText(bytes: seq<byte>) returns (r: Utf8.Text)
    ensures r == UrlDecode(bytes)
  {
    var buf: seq<byte> := [];
    var i := 0;
    hide HexByte;
    assert bytes[0..] == bytes;
    while i < |bytes|
      invariant i <= |bytes|
      invariant buf + PercentDecode(bytes[i..]) == PercentDecode(bytes)
    {
      ghost var rest := bytes[i..];
      if bytes[i] == PERCENT && i + 2 < |bytes| {
        var b := HexByte(bytes[i + 1], bytes[i + 2]);
        if b.Some? {
          assert rest[3..] == bytes[i + 3..];
          assert buf + ([b.value] + PercentDecode(rest[3..])) == (buf + [b.value]) + PercentDecode(rest[3..]);
          buf := buf + [b.value];
          i := i + 3;
          continue;
        }
      }
      assert rest[1..] == bytes[i + 1..];
      assert buf + ([rest[0]] + PercentDecode(rest[1..])) == (buf + [rest[0]]) + PercentDecode(rest[1..]);
      buf := buf + [bytes[i]];
      i := i + 1;
    }
    assert bytes[|bytes|..] == [] && buf + [] == buf;
    Utf8.LossyExact(buf);
    r := Utf8.Lossy(buf);
  }

  lemma DecodeOne(b: byte, t: seq<byte>)
    ensures PercentDecode(EncodeByte(b) + t) == [b] + PercentDecode(t)
  {
    HexByteOf(b, true);
    var s := EncodeByte(b) + t;
    if Unreserved(b) {
      assert s[1..] == t;
    } else {
      assert s[3..] == t;
    }
  }

  lemma {:induction false} PercentRoundTrip(s: seq<byte>, t: seq<byte>)
    ensures PercentDecode(UrlEncode(s) + t) == s + PercentDecode(t)
  {
    if s == [] {
      assert [] + t == t && [] + PercentDecode(t) == PercentDecode(t);
    } else {
      var front, last := s[..|s| - 1], s[|s| - 1];
      assert UrlEncode(s) == UrlEncode(front) + EncodeByte(last);
      hide PercentDecode, EncodeByte, UrlEncode;
      PercentRoundTrip(front, EncodeByte(last) + t);
      DecodeOne(last, t);
      Assoc(UrlEncode(front), EncodeByte(last), t);
      Assoc(front, [last], PercentDecode(t));
      assert s == front + [last];
    }
  }

  /** Decoding inverts encoding on every string. */
  lemma UrlRoundTrip(s: Utf8.Text)
    ensures UrlDecode(UrlEncode(s)) == s
  {
    PercentRoundTrip(s, []);
    assert UrlEncode(s) + [] == UrlEncode(s) && s + PercentDecode([]) == s;
    Utf8.LossyExact(s);
  }

  /** A character that can stand in a parameter value: printable ASCII, not a separator. */
  predicate Plain(b: byte) {
    32 < b < 127 && b != AMPERSAND && b != EQUALS
  }

  /** Encoded text is printable ASCII without separators. */
  lemma {:induction false} EncodedIsPlain(s: seq<byte>)
    ensures forall i :: 0 <= i < |UrlEncode(s)| ==> Plain(UrlEncode(s)[i])
  {
    if s != [] {
      EncodedIsPlain(s[..|s| - 1]);
      var e := EncodeByte(s[|s| - 1]);
      assert forall i :: 0 <= i < |e| ==> Plain(e[i]);
    }
  }

  /** So is every string that decodes as a hash. */
  lemma DigitsArePlain(s: seq<byte>)
    requires HexDecode(s).Some? || Base32Decode(s).Some?
    ensures forall i :: 0 <= i < |s| ==> Plain(s[i])
  {
    if HexDecode(s).Some? {
      HexPairsGood(s);
    } else {
      Base32GroupsGood(s, 4);
      assert s[..32] == s;
      assert forall i :: 0 <= i < |s| ==> s[i] in s;
    }
  }
}
