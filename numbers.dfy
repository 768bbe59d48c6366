/**
 * Integer and float recognition with the grammar of Rust's `FromStr`
 * implementations for `u16`, `u32`, `i8`, `i32` and `f32`, which the
 * backend relies on for ports, type arguments and cell validation.
 */
module Numbers {
  import opened Wrappers
  import Text

  const U16_MAX: int := 0xFFFF
  const U32_MAX: int := 0xFFFF_FFFF
  const I8_MIN: int := -0x80
  const I8_MAX: int := 0x7F
  const I32_MIN: int := -0x8000_0000
  const I32_MAX: int := 0x7FFF_FFFF

  predicate IsDigit(c: char) {
    '0' <= c <= '9'
  }

  predicate AllDigits(s: string) {
    forall i :: 0 <= i < |s| ==> IsDigit(s[i])
  }

  function DigitValue(c: char): (d: nat)
    requires IsDigit(c)
    ensures d < 10
  {
    (c as int) - ('0' as int)
  }

  function DigitChar(d: nat): (c: char)
    requires d < 10
    ensures IsDigit(c) && DigitValue(c) == d
  {
    (('0' as int) + d) as char
  }

  /** The value of a string of decimal digits, most significant first. */
  function DecimalValue(s: string): nat
    requires AllDigits(s)
  {
    if |s| == 0 then 0 else 10 * DecimalValue(s[..|s| - 1]) + DigitValue(s[|s| - 1])
  }

  /** The shortest decimal rendering of `n`. */
  function ToDecimal(n: nat): (s: string)
    ensures |s| >= 1 && AllDigits(s)
    ensures DecimalValue(s) == n
  {
    if n < 10 then [DigitChar(n)]
    else
      var s := ToDecimal(n / 10) + [DigitChar(n % 10)];
      assert s[..|s| - 1] == ToDecimal(n / 10);
      s
  }

  /**
   * Rust's `from_str` for a primitive integer type whose range is
   * `min..=max`: one optional `+` (or `-` for a signed type), then one or
   * more ASCII digits and nothing else, with the value in range.
   */
  function ParseInteger(s: string, signed: bool, min: int, max: int): (r: Option<int>)
    ensures r.Some? ==> min <= r.value <= max
    ensures r.Some? ==> |s| >= 1 && (IsDigit(s[0]) || s[0] == '+' || (signed && s[0] == '-'))
  {
    if |s| == 0 then None
    else if (s[0] == '+' || s[0] == '-') && |s| == 1 then None
    else
      var negative := signed && s[0] == '-';
      var digits := if s[0] == '+' || negative then s[1..] else s;
      if !AllDigits(digits) then None
      else
        var magnitude: int := DecimalValue(digits);
        var v := if negative then -magnitude else magnitude;
        if min <= v <= max then Some(v) else None
  }

  /** `str::parse::<u16>`: a value in `0..=65535`, never written with a `-`. */
  function ParseU16(s: string): (r: Option<int>)
    ensures r.Some? ==> 0 <= r.value <= U16_MAX && |s| >= 1 && s[0] != '-'
  {
    ParseInteger(s, false, 0, U16_MAX)
  }

  /** `str::parse::<u32>`: a value in `0..=4294967295`, never written with a `-`. */
  function ParseU32(s: string): (r: Option<int>)
    ensures r.Some? ==> 0 <= r.value <= U32_MAX && |s| >= 1 && s[0] != '-'
  {
    ParseInteger(s, false, 0, U32_MAX)
  }

  /** `str::parse::<i8>`: a value in `-128..=127`. */
  function ParseI8(s: string): (r: Option<int>)
    ensures r.Some? ==> I8_MIN <= r.value <= I8_MAX
  {
    ParseInteger(s, true, I8_MIN, I8_MAX)
  }

  /** `str::parse::<i32>`: a value in `-2147483648..=2147483647`. */
  function ParseI32(s: string): (r: Option<int>)
    ensures r.Some? ==> I32_MIN <= r.value <= I32_MAX
  {
    ParseInteger(s, true, I32_MIN, I32_MAX)
  }

  function Pow10(w: nat): (p: nat)
    ensures p >= 1
  {
    if w == 0 then 1 else 10 * Pow10(w - 1)
  }

  /** A digit string without a leading zero is at least 10 to the power of its length minus one. */
  lemma {:induction false} LeadingDigitBound(s: string)
    requires |s| >= 1 && AllDigits(s) && s[0] != '0'
    ensures DecimalValue(s) >= Pow10(|s| - 1)
  {
    if |s| > 1 {
      LeadingDigitBound(s[..|s| - 1]);
    }
  }

  /** A digit string is read as its value exactly when that value is in range, leading zeros and all. */
  lemma ParseDigits(s: string, signed: bool, min: int, max: int)
    requires |s| >= 1 && AllDigits(s)
    ensures ParseInteger(s, signed, min, max) == if min <= DecimalValue(s) <= max then Some(DecimalValue(s)) else None
  {
  }

  /** For a signed type, `-` and a digit string is read as the negated value exactly when that is in range. */
  lemma ParseNegative(s: string, min: int, max: int)
    requires |s| >= 2 && s[0] == '-' && AllDigits(s[1..])
    ensures ParseInteger(s, true, min, max) ==
      if min <= -(DecimalValue(s[1..]) as int) <= max then Some(-(DecimalValue(s[1..]) as int)) else None
  {
  }

  /** `+` and a digit string is read as the value of the digits exactly when that is in range. */
  lemma ParsePlus(s: string, signed: bool, min: int, max: int)
    requires |s| >= 2 && s[0] == '+' && AllDigits(s[1..])
    ensures ParseInteger(s, signed, min, max) == if min <= DecimalValue(s[1..]) <= max then Some(DecimalValue(s[1..])) else None
  {
  }

  /**
   * Only a sign followed by digits is accepted: an accepted text, without
   * its `+` (or, for a signed type, its `-`), is a non-empty digit string,
   * and the value is that of the digits, negated after a `-`.
   */
  lemma ParseAcceptsOnlyDigits(s: string, signed: bool, min: int, max: int)
    requires ParseInteger(s, signed, min, max).Some?
    ensures var negative := signed && s[0] == '-';
      var digits := if s[0] == '+' || negative then s[1..] else s;
      && |digits| >= 1 && AllDigits(digits)
      && ParseInteger(s, signed, min, max).value == if negative then -(DecimalValue(digits) as int) else DecimalValue(digits)
  {
  }

  /** Every in-range value's decimal rendering parses back to it. */
  lemma DecimalRoundTrip(n: nat, signed: bool, min: int, max: int)
    requires min <= n <= max
    ensures ParseInteger(ToDecimal(n), signed, min, max) == Some(n)
  {
  }

  /** A negative in-range value written with a leading `-` parses back to it for a signed type. */
  lemma NegativeRoundTrip(n: nat, min: int, max: int)
    requires n > 0 && min <= -(n as int) <= max
    ensures ParseInteger("-" + ToDecimal(n), true, min, max) == Some(-(n as int))
  {
  }

  /** Widening the accepted range never loses a text or changes its value. */
  lemma ParseWidens(s: string, signed: bool, min: int, max: int, min': int, max': int)
    requires min' <= min && max <= max'
    requires ParseInteger(s, signed, min, max).Some?
    ensures ParseInteger(s, signed, min', max') == ParseInteger(s, signed, min, max)
  {
  }

  /** Every text that is a valid `i8` is a valid `i32` with the same value. */
  lemma I8WithinI32(s: string)
    requires ParseI8(s).Some?
    ensures ParseI32(s) == ParseI8(s)
  {
    ParseWidens(s, true, I8_MIN, I8_MAX, I32_MIN, I32_MAX);
  }

  // ---------------------------------------------------------------------
  // Floats: syntax of Rust's `f32::from_str`.  Acceptance does not depend
  // on magnitude (out-of-range values become infinities), so it is a
  // property of the text alone.

  function ToLower(c: char): char {
    if 'A' <= c <= 'Z' then ((c as int) + 32) as char else c
  }

  function LowerAscii(s: string): (r: string)
    ensures |r| == |s|
  {
    if |s| == 0 then [] else [ToLower(s[0])] + LowerAscii(s[1..])
  }

  /** `inf`, `infinity` and `nan`, in any letter case. */
  predicate IsSpecialFloat(s: string) {
    var l := LowerAscii(s);
    l == "inf" || l == "infinity" || l == "nan"
  }

  /** Digits with at most one `.` among them and at least one digit overall. */
  predicate IsMantissa(m: string) {
    match Text.Find(m, '.')
    case None => |m| >= 1 && AllDigits(m)
    case Some(d) => |m| >= 2 && AllDigits(m[..d]) && AllDigits(m[d + 1..])
  }

  /** An optional sign followed by one or more digits. */
  predicate IsExponent(x: string) {
    var digits := if |x| > 0 && (x[0] == '+' || x[0] == '-') then x[1..] else x;
    |digits| >= 1 && AllDigits(digits)
  }

  /** The index of the first `e` or `E`. */
  function ExponentMark(s: string): (r: Option<nat>)
    ensures r.Some? ==> r.value < |s| && (s[r.value] == 'e' || s[r.value] == 'E')
    ensures r.Some? ==> forall i :: 0 <= i < r.value ==> s[i] != 'e' && s[i] != 'E'
    ensures r.None? ==> forall i :: 0 <= i < |s| ==> s[i] != 'e' && s[i] != 'E'
  {
    if |s| == 0 then None
    else if s[0] == 'e' || s[0] == 'E' then Some(0)
    else match ExponentMark(s[1..])
      case None => None
      case Some(i) => Some(i + 1)
  }

  predicate IsDecimalNumber(s: string) {
    match ExponentMark(s)
    case None => IsMantissa(s)
    case Some(e) => IsMantissa(s[..e]) && IsExponent(s[e + 1..])
  }

  /**
   * Whether Rust's `str::parse::<f32>` accepts `s`: never the empty text,
   * and every digit string, signed or not.
   */
  predicate IsFloatText(s: string)
    ensures IsFloatText(s) ==> |s| >= 1
    ensures |s| >= 1 && AllDigits(s) ==> IsFloatText(s)
    ensures |s| >= 2 && (s[0] == '+' || s[0] == '-') && AllDigits(s[1..]) ==> IsFloatText(s)
  {
    var body := if |s| > 0 && (s[0] == '+' || s[0] == '-') then s[1..] else s;
    IsSpecialFloat(body) || IsDecimalNumber(body)
  }

  /** A digit string with a `.` somewhere inside it is float text. */
  lemma DottedDigitsAreFloat(whole: string, frac: string)
    requires AllDigits(whole) && AllDigits(frac) && |whole| + |frac| >= 1
    ensures IsFloatText(whole + "." + frac)
  {
  }
}
