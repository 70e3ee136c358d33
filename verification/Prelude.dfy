/** Types shared by every module: machine integers, results and byte strings. */
module Prelude {
  newtype byte = x: int | 0 <= x < 256

  const U64_MAX: nat := 0xFFFF_FFFF_FFFF_FFFF
  const U32_MAX: nat := 0xFFFF_FFFF

  type i64 = x: int | -0x8000_0000_0000_0000 <= x < 0x8000_0000_0000_0000
  type u64 = x: int | 0 <= x <= 0xFFFF_FFFF_FFFF_FFFF
  type u32 = x: int | 0 <= x <= 0xFFFF_FFFF
  type u16 = x: int | 0 <= x <= 0xFFFF

  datatype Option<+T> = None | Some(value: T)

  /** The error kinds of the crate that the modelled operations return. */
  datatype ErrorKind =
    | BencodeInvalidSyntax
    | BencodeUnexpectedEof
    | BencodeInvalidInteger
    | BencodeIntegerOverflow
    | MetainfoInvalidField
    | MetainfoMissingField
    | MetainfoInvalidPieces
    | InvalidInput
    | PeerUtpInvalidHeader
    | PeerUtpProtocolError
    | PeerUtpConnectionFailed
    | Io

  datatype Result<+T> = Ok(value: T) | Err(error: ErrorKind) {
    predicate IsFailure() { Err? }

    function PropagateFailure<U>(): Result<U>
      requires Err?
    {
      Err(error)
    }

    function Extract(): T
      requires Ok?
    {
      value
    }
  }

  datatype SocketAddr = V4(ip: seq<byte>, port: u16) | V6(ip: seq<byte>, port: u16)

  function Min(a: int, b: int): int {
    if a <= b then a else b
  }

  function Max(a: int, b: int): int {
    if a <= b then b else a
  }

  function Pow2(n: nat): nat {
    if n == 0 then 1 else 2 * Pow2(n - 1)
  }

  /** Number of blocks of size `d` that cover `n` units. */
  function DivCeil(n: nat, d: nat): nat
    requires d > 0
  {
    (n + d - 1) / d
  }

  /** Lexicographic order of byte strings (Rust's `Ord` on slices). */
  predicate LexLeq(a: seq<byte>, b: seq<byte>) {
    a == [] || (b != [] && (a[0] < b[0] || (a[0] == b[0] && LexLeq(a[1..], b[1..]))))
  }

  lemma {:induction false} LexTotal(a: seq<byte>, b: seq<byte>)
    ensures LexLeq(a, b) || LexLeq(b, a)
    ensures LexLeq(a, b) && LexLeq(b, a) <==> a == b
  {
    if a != [] && b != [] && a[0] == b[0] {
      LexTotal(a[1..], b[1..]);
      assert a == [a[0]] + a[1..] && b == [b[0]] + b[1..];
    }
    if a == b && a != [] {
      LexTotal(a[1..], a[1..]);
    }
  }

  lemma {:induction false} LexTransitive(a: seq<byte>, b: seq<byte>, c: seq<byte>)
    requires LexLeq(a, b) && LexLeq(b, c)
    ensures LexLeq(a, c)
  {
    if a != [] && a[0] == b[0] == c[0] {
      LexTransitive(a[1..], b[1..], c[1..]);
    }
  }

  /** `rest` is what is left of `data` after a non-empty prefix was read. */
  predicate ProperSuffix<T(==)>(rest: seq<T>, data: seq<T>) {
    |rest| < |data| && data[|data| - |rest|..] == rest
  }

  /** The part of `data` in front of its suffix `rest`. */
  function Consumed<T>(data: seq<T>, rest: seq<T>): seq<T>
    requires |rest| <= |data|
  {
    data[..|data| - |rest|]
  }

  /** `r` with `done` in front, if it is a success. */
  ghost function InFront<T>(done: seq<T>, r: Result<seq<T>>): Result<seq<T>> {
    if r.Ok? then Ok(done + r.value) else r
  }

  lemma SubsetSize<T>(a: set<T>, b: set<T>)
    requires a <= b
    ensures |a| <= |b|
    ensures a != b ==> |a| < |b|
  {
    assert b == a + (b - a);
    assert a != b ==> b - a != {};
  }

  lemma Assoc<T>(a: seq<T>, b: seq<T>, c: seq<T>)
    ensures (a + b) + c == a + (b + c)
  {}

  lemma SuffixAt<T>(data: seq<T>, pos: nat, rest: seq<T>)
    requires pos <= |data| && ProperSuffix(rest, data[pos..])
    ensures pos < |data| - |rest| <= |data| && data[|data| - |rest|..] == rest
  {}

  lemma ConsumedSplit<T>(data: seq<T>, mid: seq<T>, rest: seq<T>, x: seq<T>)
    requires ProperSuffix(mid, data) && |rest| <= |mid|
    requires mid[|mid| - |rest|..] == rest
    ensures Consumed(data, rest) + x == Consumed(data, mid) + (Consumed(mid, rest) + x)
  {}

  /** Index of the first occurrence of `b`. */
  function Position(s: seq<byte>, b: byte): (r: Option<nat>)
    ensures r.Some? ==> r.value < |s| && s[r.value] == b && b !in s[..r.value]
    ensures r.None? ==> b !in s
  {
    if s == [] then None
    else if s[0] == b then Some(0)
    else
      match Position(s[1..], b)
      case None => None
      case Some(i) =>
        assert s[..i + 1] == [s[0]] + s[1..][..i];
        Some(i + 1)
  }

  /** The first occurrence only depends on the bytes up to it. */
  lemma PositionUnique(s: seq<byte>, b: byte, i: nat)
    requires i < |s| && s[i] == b && b !in s[..i]
    ensures Position(s, b) == Some(i)
  {
    assert s[i] in s;
    var k := Position(s, b).value;
    assert forall j | 0 <= j < i :: s[..i][j] != b;
    assert forall j | 0 <= j < k :: s[..k][j] != b;
  }
}
