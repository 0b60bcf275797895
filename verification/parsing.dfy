/**
 * The `str::parse` conversions the request handlers apply to query
 * parameters: `bool`, `i64` and `u32` as the Rust standard library reads
 * them, and the decimal rendering they invert.
 */
module Parsing {
  import opened Wrappers
  import opened Types

  /** `"true"` and `"false"` are the only spellings `bool::from_str` accepts. */
  function ParseBool(s: string): (r: Option<bool>)
    ensures r == Some(true) <==> s == "true"
    ensures r == Some(false) <==> s == "false"
  {
    if s == "true" then Some(true)
    else if s == "false" then Some(false)
    else None
  }

  predicate IsDigit(c: char) {
    '0' <= c <= '9'
  }

  predicate AllDigits(s: string) {
    forall i | 0 <= i < |s| :: IsDigit(s[i])
  }

  function DigitValue(c: char): (r: nat)
    requires IsDigit(c)
    ensures r < 10
  {
    c as int - '0' as int
  }

  function Digit(n: nat): (c: char)
    requires n < 10
    ensures IsDigit(c) && DigitValue(c) == n
  {
    ('0' as int + n) as char
  }

  /** The value of a string of decimal digits, most significant first (leading zeros allowed). */
  function DecimalValue(s: string): (r: nat)
    requires AllDigits(s)
  {
    if s == [] then 0 else 10 * DecimalValue(s[..|s| - 1]) + DigitValue(s[|s| - 1])
  }

  /** The shortest decimal rendering of `n`. */
  function ShowNat(n: nat): (s: string)
    ensures |s| > 0 && AllDigits(s)
  {
    if n < 10 then [Digit(n)] else ShowNat(n / 10) + [Digit(n % 10)]
  }

  /** `to_string` of a signed integer. */
  function ShowInt(x: int): (s: string)
  {
    if x < 0 then "-" + ShowNat(-x) else ShowNat(x)
  }

  lemma {:induction false} DecimalValueShowNat(n: nat)
    ensures DecimalValue(ShowNat(n)) == n
  {
    if n >= 10 {
      var s := ShowNat(n);
      DecimalValueShowNat(n / 10);
      assert s[..|s| - 1] == ShowNat(n / 10);
    }
  }

  /**
   * `i64::from_str`: an optional `+` or `-`, then at least one decimal digit,
   * the value within range.
   */
  function ParseI64(s: string): (r: Option<i64>)
    ensures r.Some? ==> |s| > 0
  {
    if s == [] || ((s[0] == '+' || s[0] == '-') && |s| == 1) then None
    else
      var negative := s[0] == '-';
      var digits := if s[0] == '+' || s[0] == '-' then s[1..] else s;
      if !AllDigits(digits) then None
      else
        var v: int := if negative then -(DecimalValue(digits) as int) else DecimalValue(digits);
        if I64_MIN <= v < I64_LIMIT then Some(v) else None
  }

  /** `u32::from_str`: an optional `+`, then at least one decimal digit, the value within range; `-` is not a digit. */
  function ParseU32(s: string): (r: Option<u32>)
    ensures r.Some? ==> |s| > 0 && s[0] != '-'
  {
    if s == [] || (s[0] == '+' && |s| == 1) then None
    else
      var digits := if s[0] == '+' then s[1..] else s;
      if !AllDigits(digits) then None
      else
        var v := DecimalValue(digits);
        if v < U32_LIMIT then Some(v) else None
  }

  /** Every `i64` reads back from its decimal rendering. */
  lemma ParseShowI64(x: i64)
    ensures ParseI64(ShowInt(x)) == Some(x)
  {
    var s := ShowInt(x);
    if x < 0 {
      var n: nat := -(x as int);
      DecimalValueShowNat(n);
      assert s[0] == '-' && |s| > 1;
      assert s[1..] == ShowNat(n);
    } else {
      DecimalValueShowNat(x);
      assert s == ShowNat(x) && IsDigit(s[0]);
    }
  }

  /** Every `u32` reads back from its decimal rendering. */
  lemma ParseShowU32(x: u32)
    ensures ParseU32(ShowNat(x)) == Some(x)
  {
    DecimalValueShowNat(x);
  }

  /** A value that parses is the value of its digits, so the decimal rendering is the one canonical spelling. */
  lemma ParsedI64Value(s: string)
    requires ParseI64(s).Some?
    ensures var digits := if s[0] == '+' || s[0] == '-' then s[1..] else s;
      && |digits| > 0 && AllDigits(digits)
      && ParseI64(s).value == (if s[0] == '-' then -(DecimalValue(digits) as int) else DecimalValue(digits))
  {
  }

  /** Outside the range of `i64` nothing parses. */
  lemma ParseI64Range(x: int)
    requires x < I64_MIN || x >= I64_LIMIT
    ensures ParseI64(ShowInt(x)) == None
  {
    var s := ShowInt(x);
    if x < 0 {
      DecimalValueShowNat(-x);
      assert s[1..] == ShowNat(-x);
    } else {
      DecimalValueShowNat(x);
    }
  }

  lemma ParseU32Range(x: nat)
    requires x >= U32_LIMIT
    ensures ParseU32(ShowNat(x)) == None
  {
    DecimalValueShowNat(x);
  }

  /** A sign with no digit after it, or no text at all, does not parse. */
  lemma ParseRejectsBareSign()
    ensures ParseI64("") == None && ParseI64("+") == None && ParseI64("-") == None
    ensures ParseU32("") == None && ParseU32("+") == None && ParseU32("-") == None
    ensures ParseU32("-1") == None
  {
    assert !AllDigits("-1") by {
      assert !IsDigit("-1"[0]);
    }
  }
}
