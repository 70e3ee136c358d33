/** Decimal numbers as Rust prints (`to_string`) and parses them. */
module Decimal {
  import opened Prelude

  const PLUS: byte := 43
  const MINUS: byte := 45
  const ZERO: byte := 48
  const NINE: byte := 57

  predicate IsDigit(b: byte) {
    ZERO <= b <= NINE
  }

  predicate AllDigits(s: seq<byte>) {
    forall i :: 0 <= i < |s| ==> IsDigit(s[i])
  }

  /** The number a digit string denotes. */
  function Value(s: seq<byte>): nat
    requires AllDigits(s)
  {
    if s == [] then 0 else 10 * Value(s[..|s| - 1]) + (s[|s| - 1] as int - ZERO as int)
  }

  /** `n.to_string()` for an unsigned `n`. */
  function Digits(n: nat): (s: seq<byte>)
    ensures s != [] && AllDigits(s)
    ensures |s| > 1 ==> s[0] != ZERO
    ensures n > 0 ==> s[0] != ZERO
  {
    if n < 10 then [(n + ZERO as int) as byte]
    else Digits(n / 10) + [(n % 10 + ZERO as int) as byte]
  }

  /** `i.to_string()` for a signed `i`. */
  function Print(i: int): (s: seq<byte>)
  {
    if i < 0 then [MINUS] + Digits(-i) else Digits(i)
  }

  lemma {:induction false} ValueOfDigits(n: nat)
    ensures Value(Digits(n)) == n
  {
    if n >= 10 {
      ValueOfDigits(n / 10);
      assert Digits(n)[..|Digits(n)| - 1] == Digits(n / 10);
    } else {
      assert Digits(n)[..0] == [];
    }
  }

  /** The digit loop of `parse_decimal_u64`, from an accumulated `val` on. */
  function DecimalFrom(s: seq<byte>, val: u64): Result<u64> {
    if s == [] then Ok(val)
    else if !IsDigit(s[0]) then Err(BencodeInvalidInteger)
    else
      var next := val * 10 + (s[0] as int - ZERO as int);
      if next > U64_MAX then Err(BencodeIntegerOverflow)
      else DecimalFrom(s[1..], next)
  }

  function DecimalU64(s: seq<byte>): Result<u64> {
    if s == [] then Err(BencodeInvalidInteger) else DecimalFrom(s, 0)
  }

  method ParseDecimalU64(s: seq<byte>) returns (r: Result<u64>)
    ensures r == DecimalU64(s)
    ensures r.Ok? <==> s != [] && AllDigits(s) && Value(s) <= U64_MAX
    ensures r.Ok? ==> r.value == Value(s)
  {
    DecimalExact(s);
    if s == [] {
      return Err(BencodeInvalidInteger);
    }
    var val: u64 := 0;
    for i := 0 to |s|
      invariant DecimalFrom(s, 0) == DecimalFrom(s[i..], val)
    {
      assert s[i..][1..] == s[i + 1..];
      if !IsDigit(s[i]) {
        return Err(BencodeInvalidInteger);
      }
      var next := val * 10 + (s[i] as int - ZERO as int);
      if next > U64_MAX {
        return Err(BencodeIntegerOverflow);
      }
      val := next;
    }
    return Ok(val);
  }

  lemma {:induction false} ValueMonotone(s: seq<byte>, k: nat)
    requires AllDigits(s) && k <= |s|
    ensures Value(s[..k]) <= Value(s)
  {
    if k < |s| {
      ValueMonotone(s[..|s| - 1], k);
      assert s[..|s| - 1][..k] == s[..k];
    } else {
      assert s[..k] == s;
    }
  }

  /** The loop accepts exactly the digit strings whose value fits in 64 bits,
      although it checks for overflow digit by digit. */
  lemma {:induction false} DecimalExact(s: seq<byte>)
    ensures DecimalU64(s).Ok? <==> s != [] && AllDigits(s) && Value(s) <= U64_MAX
    ensures DecimalU64(s).Ok? ==> DecimalU64(s).value == Value(s)
  {
    if s != [] {
      DecimalExactFrom(s, 0);
    }
  }

  lemma {:induction false} DecimalExactFrom(s: seq<byte>, k: nat)
    requires k <= |s| && AllDigits(s[..k]) && Value(s[..k]) <= U64_MAX
    ensures DecimalFrom(s[k..], Value(s[..k])).Ok? <==> AllDigits(s) && Value(s) <= U64_MAX
    ensures DecimalFrom(s[k..], Value(s[..k])).Ok? ==> DecimalFrom(s[k..], Value(s[..k])).value == Value(s)
    decreases |s| - k
  {
    if k == |s| {
      assert s[..k] == s;
    } else if IsDigit(s[k]) {
      var p := s[..k + 1];
      assert p[..k] == s[..k] && s[k..][1..] == s[k + 1..];
      if Value(p) <= U64_MAX {
        DecimalExactFrom(s, k + 1);
      } else if AllDigits(s) {
        ValueMonotone(s, k + 1);
      }
    }
  }

  /** `str::parse::<i64>`: an optional sign, then at least one digit, in range. */
  function ParseI64(s: seq<byte>): Option<i64> {
    if s == [] then None
    else
      var digits := if s[0] == MINUS || s[0] == PLUS then s[1..] else s;
      if digits == [] || !AllDigits(digits) then None
      else
        var v := if s[0] == MINUS then -(Value(digits) as int) else Value(digits);
        if -0x8000_0000_0000_0000 <= v < 0x8000_0000_0000_0000 then Some(v) else None
  }

  /** `str::parse::<u64>`: an optional plus sign, then at least one digit, in range. */
  function ParseU64(s: seq<byte>): Option<u64> {
    if s == [] then None
    else
      var digits := if s[0] == PLUS then s[1..] else s;
      if digits == [] || !AllDigits(digits) || Value(digits) > U64_MAX then None
      else Some(Value(digits))
  }

  /** Printing then parsing gives the number back. */
  lemma PrintParse(i: i64)
    ensures ParseI64(Print(i)) == Some(i)
    ensures i >= 0 ==> ParseU64(Print(i)) == Some(i) && DecimalU64(Print(i)) == Ok(i)
  {
    var n: int := i;
    if n < 0 {
      ValueOfDigits(-n);
      assert Print(n)[1..] == Digits(-n);
    } else {
      ValueOfDigits(i);
      assert IsDigit(Print(i)[0]);
      DecimalExact(Digits(i));
    }
  }
}
