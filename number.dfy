/**
 * The two number conversions the token codec uses: `String(n)` for an integer-valued number and
 * `Number(s)` on a string (StringToNumber, section 7.1.4.1.1 of ECMA-262).
 */
module JsNumber {
  import opened Common
  import opened Text

  /** A JavaScript number; finite values are kept exact (no rounding to binary64). */
  datatype NumberValue = NaN | Infinity(negative: bool) | Finite(value: real)

  /** `Number.isFinite(v)`. */
  predicate IsFinite(v: NumberValue) { v.Finite? }

  /**
   * Magnitudes from here up round to an infinity when read as a binary64 number: 2^1024 - 2^970,
   * the midpoint between the largest finite double and 2^1024.
   */
  const OVERFLOW: real := 179769313486231580793728971405303415079934132710037826936173778980444968292764750946649017977587207096330286416692887910946555547851940402630657488671505820681908902000708383676273854845817711531764475730270069855571366959622842914819860834936475292719074168444365510704342711559699508093042880177904174497792.0

  /** The number a literal of exact value `v` denotes. */
  function Round(v: real): NumberValue
  {
    if v >= OVERFLOW then Infinity(false)
    else if v <= -(OVERFLOW) then Infinity(true)
    else Finite(v)
  }

  // ---------------------------------------------------------------------------
  // Number(s)
  // ---------------------------------------------------------------------------

  /** The value of a digit of base 2, 8, 10 or 16, or -1. */
  function DigitIn(c: char, base: nat): int
  {
    var d := if '0' <= c <= '9' then c as int - 48
             else if 'a' <= c <= 'f' then c as int - 97 + 10
             else if 'A' <= c <= 'F' then c as int - 65 + 10
             else -1;
    if d < base then d else -1
  }

  predicate AllDigitsIn(s: string, base: nat)
  {
    forall i :: 0 <= i < |s| ==> DigitIn(s[i], base) >= 0
  }

  function ValueIn(s: string, base: nat): nat
    requires AllDigitsIn(s, base)
  {
    if s == [] then 0 else ValueIn(s[..|s| - 1], base) * base + DigitIn(s[|s| - 1], base)
  }

  /** The base a `0x`, `0o` or `0b` prefix announces, or 0. */
  function PrefixBase(t: string): nat
  {
    if |t| >= 2 && t[0] == '0' then
      if t[1] == 'x' || t[1] == 'X' then 16
      else if t[1] == 'o' || t[1] == 'O' then 8
      else if t[1] == 'b' || t[1] == 'B' then 2
      else 0
    else 0
  }

  /** The index of the first `e` or `E`, or `|s|`. */
  function ExponentAt(s: string): (k: nat)
    ensures k <= |s| && forall i :: 0 <= i < k ==> s[i] != 'e' && s[i] != 'E'
    ensures k < |s| ==> s[k] == 'e' || s[k] == 'E'
  {
    if s == [] || s[0] == 'e' || s[0] == 'E' then 0 else 1 + ExponentAt(s[1..])
  }

  /** A SignedInteger of an ExponentPart. */
  function ParseExponent(s: string): Option<int>
  {
    if |s| > 0 && (s[0] == '+' || s[0] == '-') then
      var digits := s[1..];
      if digits != [] && AllDigits(digits) then
        Some(if s[0] == '-' then -(DigitsValue(digits) as int) else DigitsValue(digits))
      else None
    else if s != [] && AllDigits(s) then Some(DigitsValue(s))
    else None
  }

  /** The exact value of `x * 10^e`. */
  function Scaled(x: real, e: int): real
    decreases if e >= 0 then e else -e
  {
    if e == 0 then x
    else if e > 0 then 10.0 * Scaled(x, e - 1)
    else Scaled(x, e + 1) / 10.0
  }

  /** `u` is the word `Infinity`. */
  predicate IsInfinityWord(u: string)
  {
    |u| == 8 && u[0] == 'I' && u[1] == 'n' && u[2] == 'f' && u[3] == 'i' && u[4] == 'n' && u[5] == 'i' && u[6] == 't' && u[7] == 'y'
  }

  /** A StrUnsignedDecimalLiteral: `Infinity`, or digits with an optional fraction and exponent. */
  function ParseUnsigned(u: string, negative: bool): NumberValue
  {
    if IsInfinityWord(u) then Infinity(negative)
    else
      var k := ExponentAt(u);
      ParseMantissa(u[..k], if k < |u| then ParseExponent(u[k + 1..]) else Some(0), negative)
  }

  /**
   * The digits before an exponent: a whole part, optionally `.` and a fraction. The two digit runs
   * together may not be empty, and each fraction digit lowers the exponent by one.
   */
  function ParseMantissa(mantissa: string, exponent: Option<int>, negative: bool): NumberValue
  {
    var parts := Split(mantissa, '.');
    if exponent.None? || |parts| > 2 then NaN
    else
      var digits := if |parts| == 2 then parts[0] + parts[1] else parts[0];
      var scale := if |parts| == 2 then exponent.value - |parts[1]| else exponent.value;
      if digits == [] || !AllDigits(digits) then NaN else DecimalValue(digits, scale, negative)
  }

  /** The digits read as a natural number, times ten to the `exponent`, with the sign applied. */
  function DecimalValue(digits: string, exponent: int, negative: bool): NumberValue
    requires AllDigits(digits)
  {
    var v := Scaled(DigitsValue(digits) as real, exponent);
    Round(if negative then -v else v)
  }

  /** `Number(s)`: a blank string reads as 0, and a finite result is within the binary64 range. */
  function StringToNumber(s: string): (r: NumberValue)
    ensures Trim(s) == [] ==> r == Finite(0.0)
    ensures r.Finite? ==> -OVERFLOW < r.value < OVERFLOW
  {
    LiteralInRange(Trim(s));
    NumericLiteral(Trim(s))
  }

  /** Every finite value a literal denotes has passed through `Round`, or is 0. */
  lemma LiteralInRange(t: string)
    ensures NumericLiteral(t).Finite? ==> -OVERFLOW < NumericLiteral(t).value < OVERFLOW
  {
    if t != [] && PrefixBase(t) == 0 {
      var u := if t[0] == '+' || t[0] == '-' then t[1..] else t;
      UnsignedInRange(u, t[0] == '-');
    }
  }

  lemma UnsignedInRange(u: string, negative: bool)
    ensures ParseUnsigned(u, negative).Finite? ==> -OVERFLOW < ParseUnsigned(u, negative).value < OVERFLOW
  {
    if !IsInfinityWord(u) {
      var k := ExponentAt(u);
      MantissaInRange(u[..k], if k < |u| then ParseExponent(u[k + 1..]) else Some(0), negative);
    }
  }

  lemma MantissaInRange(mantissa: string, exponent: Option<int>, negative: bool)
    ensures ParseMantissa(mantissa, exponent, negative).Finite? ==>
      -OVERFLOW < ParseMantissa(mantissa, exponent, negative).value < OVERFLOW
  {
  }

  /** A StringNumericLiteral without its surrounding white space. */
  function NumericLiteral(t: string): NumberValue
  {
    if t == [] then Finite(0.0)
    else if PrefixBase(t) != 0 then
      var digits := t[2..];
      if digits != [] && AllDigitsIn(digits, PrefixBase(t)) then Round(ValueIn(digits, PrefixBase(t)) as real)
      else NaN
    else if t[0] == '+' then ParseUnsigned(t[1..], false)
    else if t[0] == '-' then ParseUnsigned(t[1..], true)
    else ParseUnsigned(t, false)
  }

  // ---------------------------------------------------------------------------
  // String(n)
  // ---------------------------------------------------------------------------

  /** `String(n)` for an integer below 10^21 in magnitude, the range printed without an exponent. */
  function IntToString(n: int): (s: string)
    ensures |s| > 0
  {
    if n < 0 then "-" + NatToDecimal(-n) else NatToDecimal(n)
  }

  /** `String(n)` never contains a separator character of the token format. */
  lemma IntToStringChars(n: int)
    ensures forall i :: 0 <= i < |IntToString(n)| ==> IntToString(n)[i] == '-' || IsDigit(IntToString(n)[i])
  {
  }

  /** A numeral made of digits has no exponent marker and no decimal point. */
  lemma PlainDigits(d: string)
    requires AllDigits(d)
    ensures ExponentAt(d) == |d|
    ensures Split(d, '.') == [d]
  {
    SplitWithoutSeparator(d, '.');
  }

  /** A digit string read as a decimal literal. */
  lemma DigitsLiteral(d: string, negative: bool)
    requires |d| > 0 && AllDigits(d)
    ensures ParseUnsigned(d, negative) == Round(if negative then -(DigitsValue(d) as real) else DigitsValue(d) as real)
  {
    PlainDigits(d);
    DigitsUnsigned(d, negative);
    DigitsMantissa(d, negative);
    DigitsDecimal(d, negative);
  }

  lemma DigitsUnsigned(d: string, negative: bool)
    requires |d| > 0 && AllDigits(d) && ExponentAt(d) == |d|
    ensures ParseUnsigned(d, negative) == ParseMantissa(d, Some(0), negative)
  {
    assert !IsInfinityWord(d) by { assert IsDigit(d[0]); }
    assert d[..|d|] == d;
  }

  lemma DigitsMantissa(d: string, negative: bool)
    requires |d| > 0 && AllDigits(d) && Split(d, '.') == [d]
    ensures ParseMantissa(d, Some(0), negative) == DecimalValue(d, 0, negative)
  {
  }

  lemma DigitsDecimal(d: string, negative: bool)
    requires AllDigits(d)
    ensures DecimalValue(d, 0, negative) == Round(if negative then -(DigitsValue(d) as real) else DigitsValue(d) as real)
  {
  }

  /** A string that starts with a digit or a sign and ends with a digit has nothing to trim. */
  lemma TrimNumeral(s: string)
    requires |s| > 0 && IsDigit(s[|s| - 1]) && (IsDigit(s[0]) || s[0] == '-')
    ensures Trim(s) == s
  {
    TrimOfTrimmed(s);
  }

  /** An optional `-` and digits: a decimal literal without a base prefix. */
  lemma SignedDigits(d: string, negative: bool)
    requires |d| > 0 && AllDigits(d)
    ensures NumericLiteral(if negative then "-" + d else d) == ParseUnsigned(d, negative)
  {
    var t := if negative then "-" + d else d;
    assert IsDigit(d[0]);
    if negative {
      assert t[1..] == d;
      assert PrefixBase(t) == 0;
    } else {
      assert PrefixBase(t) == 0 by {
        if |t| >= 2 { assert IsDigit(t[1]); }
      }
    }
  }

  /** `Number(String(n))` is `n`, for every integer of less than 2^1024 - 2^970 in magnitude. */
  lemma IntRoundTrip(n: int)
    requires -OVERFLOW < n as real < OVERFLOW
    ensures StringToNumber(IntToString(n)) == Finite(n as real)
  {
    var m: nat := if n < 0 then -n else n;
    var d := NatToDecimal(m);
    DecimalRoundTrip(m);
    DigitsLiteral(d, n < 0);
    SignedDigits(d, n < 0);
    assert IsDigit(d[0]) && IsDigit(d[|d| - 1]);
    TrimNumeral(IntToString(n));
  }

  lemma BlankIsZero()
    ensures StringToNumber("") == Finite(0.0)
    ensures StringToNumber(" ") == Finite(0.0)
  {
    assert TrimStart(" ") == "";
  }

  /** A string that starts with a lower-case letter other than `e` is no numeric literal and reads as NaN. */
  lemma LetterLedIsNaN(w: string)
    requires |w| > 0 && IsLower(w[0]) && w[0] != 'e' && !IsJsSpace(w[|w| - 1])
    ensures StringToNumber(w) == NaN
  {
    TrimOfTrimmed(w);
    LetterLedLiteral(w);
    LetterLedUnsigned(w);
  }

  lemma LetterLedLiteral(w: string)
    requires |w| > 0 && IsLower(w[0])
    ensures !IsInfinityWord(w)
    ensures NumericLiteral(w) == ParseUnsigned(w, false)
  {
  }

  lemma LetterLedUnsigned(w: string)
    requires |w| > 0 && IsLower(w[0]) && w[0] != 'e' && !IsInfinityWord(w)
    ensures ParseUnsigned(w, false) == NaN
  {
    var k := ExponentAt(w);
    assert k > 0;
    var exponent := if k < |w| then ParseExponent(w[k + 1..]) else Some(0);
    LetterLedMantissa(w[..k], exponent);
  }

  lemma LetterLedMantissa(m: string, exponent: Option<int>)
    requires |m| > 0 && IsLower(m[0])
    ensures ParseMantissa(m, exponent, false) == NaN
  {
    var parts := Split(m, '.');
    SplitHead(m, '.');
    assert !IsDigit(parts[0][0]);
  }
}
