/**
 * Numeric lexing and the clamps of the colour converter: Int32 literals
 * (int.TryParse / StringParser.ToInt), decimal literals (StringParser.ToDouble
 * and ToFloatAny, read exactly as rationals), Math.Round with ties to even,
 * the Clamp helpers, ClampHue, and the two-digit hexadecimal bytes of '#' colours.
 */
module Numbers {
  import opened Wrappers
  import opened Text

  const Int32Min: int := -0x8000_0000
  const Int32Max: int := 0x7FFF_FFFF

  predicate IsDigit(c: char) {
    '0' <= c <= '9'
  }

  predicate AllDigits(s: string) {
    forall i :: 0 <= i < |s| ==> IsDigit(s[i])
  }

  function DigitValue(c: char): (d: nat)
    requires IsDigit(c)
    ensures d < 10
  {
    c as int - '0' as int
  }

  function Pow10(n: nat): (p: nat)
    ensures p >= 1
  {
    if n == 0 then 1 else 10 * Pow10(n - 1)
  }

  /** The value of a string of decimal digits, most significant first; it has fewer digits than the value needs only if it has leading zeros. */
  function DigitsValue(s: string): (v: nat)
    requires AllDigits(s)
    ensures v < Pow10(|s|)
  {
    if s == [] then 0 else 10 * DigitsValue(s[..|s| - 1]) + DigitValue(s[|s| - 1])
  }

  /** The digit character for a value below ten. */
  function DigitChar(d: nat): (c: char)
    requires d < 10
    ensures IsDigit(c) && DigitValue(c) == d
  {
    ('0' as int + d) as char
  }

  /** The shortest decimal rendering of a natural number. */
  function Decimal(n: nat): (s: string)
    ensures s != [] && AllDigits(s)
  {
    if n < 10 then [DigitChar(n)] else Decimal(n / 10) + [DigitChar(n % 10)]
  }

  /** Reading back a rendered number gives the number. */
  lemma {:induction false} DigitsValueOfDecimal(n: nat)
    ensures DigitsValue(Decimal(n)) == n
  {
    if n >= 10 {
      DigitsValueOfDecimal(n / 10);
      var s := Decimal(n);
      assert s[..|s| - 1] == Decimal(n / 10);
    }
  }

  /** The leading sign of a number literal, if any: whether it is '-', and what follows it. */
  function SplitSign(s: string): (bool, string)
  {
    if |s| > 0 && (s[0] == '-' || s[0] == '+') then (s[0] == '-', s[1..]) else (false, s)
  }

  /** The white space the .NET number parsers skip around a literal: U+0009..U+000D and SPACE. */
  predicate IsNumberWhite(c: char) {
    c == ' ' || '\t' <= c <= '\r'
  }

  /** Drops leading number white space. */
  function SkipLeadingWhite(s: string): (r: string)
    ensures |r| <= |s|
  {
    if |s| > 0 && IsNumberWhite(s[0]) then SkipLeadingWhite(s[1..]) else s
  }

  /** Drops trailing number white space. */
  function SkipTrailingWhite(s: string): (r: string)
    ensures |r| <= |s|
  {
    if |s| > 0 && IsNumberWhite(s[|s| - 1]) then SkipTrailingWhite(s[..|s| - 1]) else s
  }

  /**
   * The part of a text that int.TryParse with NumberStyles.Integer reads: the parser skips
   * white space before the literal and, after it, white space followed by any run of '\0'.
   */
  function LiteralBody(s: string): (r: string)
    ensures |r| <= |s|
    ensures (s == [] || (!IsNumberWhite(s[0]) && !IsNumberWhite(s[|s| - 1]) && s[|s| - 1] != '\0')) ==> r == s
  {
    LiteralBodyOfPlainText(s);
    SkipTrailingWhite(SkipLeadingWhite(TrimEndChar(s, '\0')))
  }

  /** A text with nothing to skip at either end is read whole. */
  lemma LiteralBodyOfPlainText(s: string)
    ensures s != [] && !IsNumberWhite(s[0]) && !IsNumberWhite(s[|s| - 1]) && s[|s| - 1] != '\0' ==>
      SkipTrailingWhite(SkipLeadingWhite(TrimEndChar(s, '\0'))) == s
  {
    if s != [] && !IsNumberWhite(s[0]) && !IsNumberWhite(s[|s| - 1]) && s[|s| - 1] != '\0' {
      assert TrimEndChar(s, '\0') == s;
      assert SkipLeadingWhite(s) == s;
    }
  }

  /**
   * int.TryParse(s, NumberStyles.Integer, CultureInfo.InvariantCulture): optional white
   * space, an optional sign, decimal digits whose value fits in 32 bits, then optional
   * white space and '\0' characters.
   */
  function ParseInt32(s: string): (r: Option<int>)
    ensures r.Some? ==> Int32Min <= r.value <= Int32Max
  {
    var (negative, body) := SplitSign(LiteralBody(s));
    if body == [] || !AllDigits(body) then None
    else
      var v := if negative then -(DigitsValue(body) as int) else DigitsValue(body);
      if Int32Min <= v <= Int32Max then Some(v) else None
  }

  /** Skipping trailing white space never reaches a first character that is not white. */
  lemma {:induction false} SkipTrailingWhiteKeepsFirst(s: string)
    requires s != [] && !IsNumberWhite(s[0])
    ensures SkipTrailingWhite(s) != [] && SkipTrailingWhite(s)[0] == s[0]
  {
    if |s| > 1 && IsNumberWhite(s[|s| - 1]) {
      SkipTrailingWhiteKeepsFirst(s[..|s| - 1]);
    }
  }

  /** A text read as an integer starts with a digit, a sign or number white space. */
  lemma ParseInt32FirstCharacter(s: string)
    requires ParseInt32(s).Some?
    ensures s != [] && (IsDigit(s[0]) || s[0] == '-' || s[0] == '+' || IsNumberWhite(s[0]))
  {
    var t := TrimEndChar(s, '\0');
    if t != [] && !IsNumberWhite(s[0]) {
      assert t[0] == s[0];
      assert SkipLeadingWhite(t) == t;
      SkipTrailingWhiteKeepsFirst(t);
      assert LiteralBody(s)[0] == s[0];
    }
  }

  /** The invariant-culture text of a 32-bit integer. */
  function Int32Text(v: int): string {
    if v < 0 then "-" + Decimal(-v) else Decimal(v)
  }

  /** The text of an integer has nothing the integer parser skips. */
  lemma Int32TextIsPlain(v: int)
    ensures LiteralBody(Int32Text(v)) == Int32Text(v)
  {
    var text := Int32Text(v);
    var digits := if v < 0 then Decimal(-v) else Decimal(v);
    assert text[|text| - 1] == digits[|digits| - 1];
    assert IsDigit(digits[|digits| - 1]);
    assert v >= 0 ==> IsDigit(text[0]);
  }

  /** Every 32-bit integer is read back from its own text. */
  lemma ParseInt32OfText(v: int)
    requires Int32Min <= v <= Int32Max
    ensures ParseInt32(Int32Text(v)) == Some(v)
  {
    var text := Int32Text(v);
    Int32TextIsPlain(v);
    if v < 0 {
      DigitsValueOfDecimal(-v);
      assert text[1..] == Decimal(-v);
    } else {
      DigitsValueOfDecimal(v);
    }
  }

  /** Trailing '\0' characters after the literal are skipped: "12\0" reads as 12. */
  lemma ParseInt32SkipsTrailingNuls(s: string, n: nat)
    ensures ParseInt32(s + seq(n, _ => '\0')) == ParseInt32(s)
  {
    var t := s + seq(n, _ => '\0');
    assert TrimEndChar(t, '\0') == TrimEndChar(s, '\0') by {
      TrimEndCharOfPadding(s, n);
    }
  }

  /**
   * StringParser.ToDouble / ToFloatAny, read exactly: an optional sign, digits, and
   * an optional '.' with more digits; at least one digit in all.
   */
  function ParseDecimal(s: string): (r: Option<real>)
  {
    var (negative, body) := SplitSign(s);
    var dot := DotIndex(body);
    var whole := if dot < 0 then body else body[..dot];
    var fraction := if dot < 0 then [] else body[dot + 1..];
    if |whole| + |fraction| == 0 || !AllDigits(whole) || !AllDigits(fraction) then None
    else
      var magnitude := DecimalValue(whole, fraction);
      Some(if negative then -magnitude else magnitude)
  }

  /** The value of a decimal literal's digits: the whole part plus the fraction scaled down by its number of digits. */
  function DecimalValue(whole: string, fraction: string): (v: real)
    requires AllDigits(whole) && AllDigits(fraction)
    ensures v >= 0.0
  {
    DigitsValue(whole) as real + DigitsValue(fraction) as real / Pow10(|fraction|) as real
  }

  /** A run of digits reads as its value. */
  lemma ParseDecimalOfDigits(digits: string)
    requires AllDigits(digits) && digits != []
    ensures ParseDecimal(digits) == Some(DigitsValue(digits) as real)
  {
    assert DotIndex(digits) < 0 by {
      assert forall i :: 0 <= i < |digits| ==> digits[i] != '.';
    }
  }

  /** Digits, a '.' and more digits read as the whole part plus the fraction scaled by its number of digits. */
  lemma ParseDecimalWithPoint(whole: string, fraction: string)
    requires AllDigits(whole) && AllDigits(fraction) && |whole| + |fraction| > 0
    ensures ParseDecimal(whole + "." + fraction) == Some(DecimalValue(whole, fraction))
  {
    var body := whole + "." + fraction;
    assert SplitSign(body) == (false, body) by {
      assert body[0] == '.' || IsDigit(body[0]);
    }
    var dot := DotIndex(body);
    assert dot == |whole| by {
      assert body[|whole|] == '.';
      assert forall i :: 0 <= i < |whole| ==> body[i] == whole[i] && body[i] != '.';
    }
    assert body[..dot] == whole && body[dot + 1..] == fraction;
  }

  /** A leading '-' before an unsigned literal negates what it reads as, and refuses what it refuses. */
  lemma ParseDecimalNegated(s: string)
    requires s == [] || (s[0] != '-' && s[0] != '+')
    ensures ParseDecimal("-" + s).Some? == ParseDecimal(s).Some?
    ensures ParseDecimal(s).Some? ==> ParseDecimal("-" + s).value == -ParseDecimal(s).value
  {
    assert SplitSign("-" + s) == (true, s);
    assert SplitSign(s) == (false, s);
  }

  /** The position of the first '.', or -1. */
  function DotIndex(s: string): (r: int)
    ensures -1 <= r < |s|
    ensures r >= 0 ==> s[r] == '.' && forall i :: 0 <= i < r ==> s[i] != '.'
    ensures r < 0 ==> forall i :: 0 <= i < |s| ==> s[i] != '.'
  {
    if s == [] then -1
    else if s[0] == '.' then 0
    else var k := DotIndex(s[1..]); if k < 0 then -1 else k + 1
  }

  /** The literal an Int32 is read from reads as the same number when read as a decimal. */
  lemma ParseDecimalOfInteger(s: string)
    requires ParseInt32(s).Some?
    ensures ParseDecimal(LiteralBody(s)) == Some(ParseInt32(s).value as real)
  {
    var (negative, body) := SplitSign(LiteralBody(s));
    assert AllDigits(body);
    assert DotIndex(body) < 0;
  }

  /** Math.Round(x): the nearest integer, and the even one of two equally near. */
  function RoundHalfEven(x: real): (r: int)
    ensures x - 0.5 <= r as real <= x + 0.5
    ensures (r as real == x - 0.5 || r as real == x + 0.5) ==> r % 2 == 0
  {
    var f := x.Floor;
    var d := x - f as real;
    if d < 0.5 then f
    else if d > 0.5 then f + 1
    else if f % 2 == 0 then f
    else f + 1
  }

  /** Rounding an integer gives that integer. */
  lemma RoundHalfEvenOfInteger(n: int)
    ensures RoundHalfEven(n as real) == n
  {
  }

  /** ClampInt: Math.Min(Math.Max(value, min), max). */
  function ClampInt(value: int, min: int, max: int): (r: int)
    ensures r <= max
    ensures min <= max ==> min <= r
    ensures min <= value <= max ==> r == value
    ensures value > max ==> r == max
    ensures value < min <= max ==> r == min
  {
    var atLeast := if value > min then value else min;
    if atLeast < max then atLeast else max
  }

  /** ClampFloat and ClampDouble, over exact reals: Math.Min(Math.Max(value, min), max). */
  function ClampReal(value: real, min: real, max: real): (r: real)
    ensures r <= max
    ensures min <= max ==> min <= r
    ensures min <= value <= max ==> r == value
    ensures value > max ==> r == max
    ensures value < min <= max ==> r == min
  {
    var atLeast := if value > min then value else min;
    if atLeast < max then atLeast else max
  }

  /** Truncation toward zero, the rounding C# applies in `%` on doubles. */
  function Truncate(x: real): (r: int)
    ensures 0.0 <= x ==> r as real <= x < r as real + 1.0
    ensures x < 0.0 ==> r as real - 1.0 < x <= r as real
  {
    if x >= 0.0 then x.Floor else -((-x).Floor)
  }

  /** The difference is a whole number of turns of 360 degrees. */
  predicate IsWholeTurns(d: real) {
    (d / 360.0).Floor as real == d / 360.0
  }

  /** Whole turns are closed under negation and under adding one turn. */
  lemma WholeTurnsClosed(d: real)
    requires IsWholeTurns(d)
    ensures IsWholeTurns(-d) && IsWholeTurns(d + 360.0)
  {
    var k := (d / 360.0).Floor;
    assert d == 360.0 * k as real;
    assert -d / 360.0 == (-k) as real;
    assert ((-k) as real).Floor == -k;
    assert (d + 360.0) / 360.0 == (k + 1) as real;
    assert ((k + 1) as real).Floor == k + 1;
  }

  /** The C# `%` by 360.0 on doubles, exact: x - 360 * Truncate(x / 360), which takes the sign of `x`. */
  function Rem360(x: real): (r: real)
    ensures x >= 0.0 ==> 0.0 <= r < 360.0
    ensures IsWholeTurns(x - r)
  {
    var q := Truncate(x / 360.0);
    assert (x - (x - 360.0 * q as real)) / 360.0 == q as real;
    x - 360.0 * q as real
  }

  /**
   * ClampHue: a hue above 360 degrees becomes its remainder modulo 360, a negative hue
   * becomes 360 minus the remainder of its magnitude; the result lies in [0, 360] and
   * differs from the hue by a whole number of turns.
   */
  function ClampHue(h: real): (r: real)
    ensures 0.0 <= r <= 360.0
    ensures IsWholeTurns(r - h)
    ensures 0.0 <= h <= 360.0 ==> r == h
    ensures r == 360.0 ==> h == 360.0 || h < 0.0
  {
    var wrapped := if h > 360.0 then Rem360(h) else h;
    if wrapped < 0.0 then
      var rest := Rem360(-wrapped);
      WholeTurnsClosed(-h - rest);
      assert 360.0 - rest - h == (-h - rest) + 360.0;
      360.0 - rest
    else
      if h > 360.0 then
        WholeTurnsClosed(h - wrapped);
        assert wrapped - h == -(h - wrapped);
        wrapped
      else
        assert IsWholeTurns(0.0);
        wrapped
  }

  /** A hue above 360 is reduced to its remainder, which lies below 360. */
  lemma ClampHueAbove(h: real)
    requires h > 360.0
    ensures ClampHue(h) == Rem360(h) && ClampHue(h) < 360.0
  {
  }

  /** A negative whole number of turns is clamped to 360, not to 0. */
  lemma ClampHueOfNegativeTurns(k: nat)
    requires k > 0
    ensures ClampHue(-360.0 * k as real) == 360.0
  {
    var h := -360.0 * k as real;
    assert (-h) / 360.0 == k as real;
    assert Truncate((-h) / 360.0) == k;
  }

  predicate IsHexDigit(c: char) {
    '0' <= c <= '9' || 'a' <= c <= 'f' || 'A' <= c <= 'F'
  }

  function HexDigitValue(c: char): (d: nat)
    requires IsHexDigit(c)
    ensures d < 16
    ensures IsDigit(c) ==> d == DigitValue(c)
  {
    if '0' <= c <= '9' then c as int - '0' as int
    else if 'a' <= c <= 'f' then c as int - 'a' as int + 10
    else c as int - 'A' as int + 10
  }

  /**
   * int.Parse(span, NumberStyles.AllowHexSpecifier) on a two-character span: the first
   * character must be a hex digit; the second is a hex digit or a '\0', which the parser
   * skips as it skips every trailing '\0'. Anything else is a format error.
   */
  function ParseHexPair(high: char, low: char): (r: Option<int>)
    ensures r.Some? <==> IsHexDigit(high) && (IsHexDigit(low) || low == '\0')
    ensures r.Some? ==> 0 <= r.value <= 255
    ensures r.Some? && IsHexDigit(low) ==> r.value / 16 == HexDigitValue(high) && r.value % 16 == HexDigitValue(low)
    ensures r.Some? && low == '\0' ==> r.value == HexDigitValue(high)
  {
    if !IsHexDigit(high) then None
    else if IsHexDigit(low) then Some(16 * HexDigitValue(high) + HexDigitValue(low))
    else if low == '\0' then Some(HexDigitValue(high))
    else None
  }
}
