/** UTF-8 validity (Unicode Standard, table 3-7) and Rust's lossy decoding. */
module Utf8 {
  import opened Prelude

  /** What the first bytes of a string are: a well-formed character, or a
      maximal ill-formed part; `len` is the number of bytes of either. */
  datatype Chunk = Good(len: nat) | Bad(len: nat)

  predicate Cont(s: seq<byte>, i: nat, lo: byte, hi: byte) {
    i < |s| && lo <= s[i] <= hi
  }

  function Head(s: seq<byte>): (c: Chunk)
    requires s != []
    ensures 1 <= c.len <= 4 && c.len <= |s|
  {
    var b := s[0];
    if b < 0x80 then Good(1)
    else if 0xC2 <= b <= 0xDF then
      if Cont(s, 1, 0x80, 0xBF) then Good(2) else Bad(1)
    else if 0xE0 <= b <= 0xEF then
      var lo: byte := if b == 0xE0 then 0xA0 else 0x80;
      var hi: byte := if b == 0xED then 0x9F else 0xBF;
      if !Cont(s, 1, lo, hi) then Bad(1)
      else if !Cont(s, 2, 0x80, 0xBF) then Bad(2)
      else Good(3)
    else if 0xF0 <= b <= 0xF4 then
      var lo: byte := if b == 0xF0 then 0x90 else 0x80;
      var hi: byte := if b == 0xF4 then 0x8F else 0xBF;
      if !Cont(s, 1, lo, hi) then Bad(1)
      else if !Cont(s, 2, 0x80, 0xBF) then Bad(2)
      else if !Cont(s, 3, 0x80, 0xBF) then Bad(3)
      else Good(4)
    else Bad(1)
  }

  predicate Valid(s: seq<byte>)
    decreases |s|
  {
    s == [] || (Head(s).Good? && Valid(s[Head(s).len..]))
  }

  /** A Rust `String`, as its bytes. */
  type Text = s: seq<byte> | Valid(s)

  const REPLACEMENT: seq<byte> := [0xEF, 0xBF, 0xBD]

  /** `String::from_utf8_lossy`. */
  function Lossy(s: seq<byte>): seq<byte>
    decreases |s|
  {
    if s == [] then []
    else
      var c := Head(s);
      (if c.Good? then s[..c.len] else REPLACEMENT) + Lossy(s[c.len..])
  }

  lemma {:induction false} HeadLocal(s: seq<byte>, t: seq<byte>)
    requires s != [] && Head(s).Good?
    ensures Head(s[..Head(s).len] + t) == Head(s)
  {
    var p := s[..Head(s).len] + t;
    assert forall i :: 0 <= i < Head(s).len ==> p[i] == s[i];
  }

  /** Lossy decoding always gives a string, and changes exactly the invalid ones. */
  lemma {:induction false} LossyExact(s: seq<byte>)
    ensures Valid(Lossy(s))
    ensures Lossy(s) == s <==> Valid(s)
    decreases |s|
  {
    if s != [] {
      var c := Head(s);
      var t := Lossy(s[c.len..]);
      LossyExact(s[c.len..]);
      assert s == s[..c.len] + s[c.len..];
      if c.Good? {
        HeadLocal(s, t);
        assert (s[..c.len] + t)[c.len..] == t;
      } else {
        assert (REPLACEMENT + t)[3..] == t;
        assert Head(REPLACEMENT + t) == Good(3);
      }
    }
  }

  /** A byte inside a character. */
  predicate Continuation(b: byte) {
    0x80 <= b <= 0xBF
  }

  /** A cut leaves two strings exactly when it is not inside a character. */
  lemma {:induction false} CutExact(s: seq<byte>, k: nat)
    requires Valid(s) && k <= |s|
    ensures Valid(s[..k]) && Valid(s[k..]) <==> k == |s| || !Continuation(s[k])
    decreases k
  {
    if k == 0 {
      assert s[0..] == s;
    } else {
      var c := Head(s).len;
      if k < c {
        assert s[k..][0] == s[k];
      } else {
        var rest := s[c..];
        CutExact(rest, k - c);
        assert s[..k] == s[..c] + rest[..k - c] && s[..k][c..] == rest[..k - c];
        HeadLocal(s, rest[..k - c]);
        assert s[k..] == rest[k - c..];
      }
    }
  }

  lemma {:induction false} AsciiValid(s: seq<byte>)
    requires forall i :: 0 <= i < |s| ==> s[i] < 0x80
    ensures Valid(s)
  {
    if s != [] {
      AsciiValid(s[1..]);
    }
  }
}
