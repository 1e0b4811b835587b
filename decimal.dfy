/** Decimal integers as Rust writes and reads them: `Display` for unsigned values and
    `str::parse` (`from_str_radix` with radix 10) for unsigned and signed types. */
module Decimal {
  import opened Wrappers

  /** `core::num::IntErrorKind`, the reason a parse fails. */
  datatype ParseIntError = Empty | InvalidDigit | PosOverflow | NegOverflow

  /** `usize::MAX` and the `isize` range on a 64-bit target. */
  const USIZE_MAX: nat := 0xFFFF_FFFF_FFFF_FFFF
  const ISIZE_MAX: nat := 0x7FFF_FFFF_FFFF_FFFF
  const ISIZE_MIN: int := -0x8000_0000_0000_0000

  predicate IsDigit(c: char) {
    '0' <= c <= '9'
  }

  predicate AllDigits(s: string) {
    forall i :: 0 <= i < |s| ==> IsDigit(s[i])
  }

  function DigitValue(c: char): (d: nat)
    requires IsDigit(c)
    ensures d < 10
  {
    (c as int) - ('0' as int)
  }

  function DigitChar(d: nat): (c: char)
    requires d < 10
    ensures IsDigit(c) && DigitValue(c) == d
  {
    (('0' as int) + d) as char
  }

  /** The numeric value of a string of digits, most significant first. */
  function Value(s: string): nat
    requires AllDigits(s)
  {
    if s == [] then 0 else Value(s[..|s| - 1]) * 10 + DigitValue(s[|s| - 1])
  }

  /** `n.to_string()`: the digits of `n`, without leading zeros, whose value is `n`. */
  function Show(n: nat): (s: string)
    ensures s != [] && AllDigits(s) && Value(s) == n
    ensures s[0] == '0' ==> n == 0
    decreases n
  {
    if n < 10 then
      [DigitChar(n)]
    else
      var p := Show(n / 10);
      var s := p + [DigitChar(n % 10)];
      assert s[..|s| - 1] == p;
      s
  }

  /** One turn of the digit loop of `from_str_radix`: an earlier error stands, a
      non-digit is `InvalidDigit`, and an accumulated value above `bound` is
      `overflow`. */
  function Step(acc: Result<nat, ParseIntError>, c: char, bound: nat, overflow: ParseIntError): Result<nat, ParseIntError> {
    match acc
    case Err(e) => Err(e)
    case Ok(v) =>
      if !IsDigit(c) then Err(InvalidDigit)
      else if v * 10 + DigitValue(c) > bound then Err(overflow)
      else Ok(v * 10 + DigitValue(c))
  }

  /** The digit loop of `from_str_radix` over all of `s`, left to right: the first
      failing character decides the error. */
  function Scan(s: string, bound: nat, overflow: ParseIntError): Result<nat, ParseIntError> {
    if s == [] then Ok(0) else Step(Scan(s[..|s| - 1], bound, overflow), s[|s| - 1], bound, overflow)
  }

  /** The digit loop succeeds exactly on digit strings whose value fits the bound, and
      then yields that value. */
  lemma {:induction false} ScanOk(s: string, bound: nat, overflow: ParseIntError)
    ensures Scan(s, bound, overflow).Ok? <==> AllDigits(s) && Value(s) <= bound
    ensures Scan(s, bound, overflow).Ok? ==> Scan(s, bound, overflow).value == Value(s)
    decreases |s|
  {
    if s != [] {
      var p := s[..|s| - 1];
      ScanOk(p, bound, overflow);
      if AllDigits(s) {
        assert AllDigits(p);
      }
    }
  }

  /** A failing digit loop reports either a bad digit or the given overflow kind. */
  lemma {:induction false} ScanErr(s: string, bound: nat, overflow: ParseIntError)
    ensures Scan(s, bound, overflow).Err? ==> Scan(s, bound, overflow).error in {InvalidDigit, overflow}
    decreases |s|
  {
    if s != [] {
      ScanErr(s[..|s| - 1], bound, overflow);
    }
  }

  /** `s.parse::<uN>()` for an unsigned type whose maximum is `max`. */
  function ParseUnsigned(s: string, max: nat): Result<nat, ParseIntError> {
    if s == [] then Err(Empty)
    else if s == "+" || s == "-" then Err(InvalidDigit)
    else if s[0] == '+' then Scan(s[1..], max, PosOverflow)
    else Scan(s, max, PosOverflow)
  }

  /** `s.parse::<iN>()` for a signed type with range `min..=max`. */
  function ParseSigned(s: string, min: int, max: nat): Result<int, ParseIntError> {
    if s == [] then Err(Empty)
    else if s == "+" || s == "-" then Err(InvalidDigit)
    else if s[0] == '+' then
      match Scan(s[1..], max, PosOverflow)
      case Ok(v) => Ok(v)
      case Err(e) => Err(e)
    else if s[0] == '-' then
      match Scan(s[1..], if min <= 0 then -min else 0, NegOverflow)
      case Ok(v) => Ok(0 - v)
      case Err(e) => Err(e)
    else
      match Scan(s, max, PosOverflow)
      case Ok(v) => Ok(v)
      case Err(e) => Err(e)
  }

  /** A parsed unsigned value fits the type. */
  lemma ParseUnsignedBound(s: string, max: nat)
    ensures ParseUnsigned(s, max).Ok? ==> ParseUnsigned(s, max).value <= max
  {
    ScanOk(s, max, PosOverflow);
    if s != [] { ScanOk(s[1..], max, PosOverflow); }
  }

  /** A parsed signed value fits the type. */
  lemma ParseSignedBound(s: string, min: int, max: nat)
    requires min <= 0
    ensures ParseSigned(s, min, max).Ok? ==> min <= ParseSigned(s, min, max).value <= max
  {
    ScanOk(s, max, PosOverflow);
    if s != [] {
      ScanOk(s[1..], max, PosOverflow);
      ScanOk(s[1..], -min, NegOverflow);
    }
  }

  /** Reading back what `Show` writes gives the number, for every value that fits. */
  lemma ParseUnsignedShow(n: nat, max: nat)
    requires n <= max
    ensures ParseUnsigned(Show(n), max) == Ok(n)
  {
    var s := Show(n);
    ScanOk(s, max, PosOverflow);
    assert s != "+" && s != "-" && s[0] != '+' by { assert IsDigit(s[0]); }
  }

  lemma ParseSignedShow(n: nat, min: int, max: nat)
    requires min <= 0 && n <= max
    ensures ParseSigned(Show(n), min, max) == Ok(n)
  {
    var s := Show(n);
    ScanOk(s, max, PosOverflow);
    assert s != "+" && s != "-" && s[0] != '+' && s[0] != '-' by { assert IsDigit(s[0]); }
  }

  /** The unsigned parse accepts exactly an optional `+` followed by a non-empty digit
      string whose value fits. */
  lemma ParseUnsignedOk(s: string, max: nat)
    ensures ParseUnsigned(s, max).Ok? <==>
      (s != [] && s[0] == '+' && s[1..] != [] && AllDigits(s[1..]) && Value(s[1..]) <= max) ||
      (s != [] && AllDigits(s) && Value(s) <= max)
  {
    ScanOk(s, max, PosOverflow);
    if s != [] {
      ScanOk(s[1..], max, PosOverflow);
      if s == "+" || s == "-" {
        assert !IsDigit(s[0]);
      }
      if s[0] == '+' {
        assert !AllDigits(s) by { assert !IsDigit(s[0]); }
      }
    }
  }
}
