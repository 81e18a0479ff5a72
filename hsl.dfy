/**
 * The hsl() functional notation: a hue in degrees, then a saturation and a
 * lightness that must be percentages. The three values are brought to fractions
 * and handed to the HSL-to-RGB conversion, which is not part of this model.
 */
module HslNotation {
  import opened Wrappers
  import opened Text
  import opened Numbers

  /** The arguments of Hsl2Rgb: hue, saturation and lightness, each a fraction. */
  datatype HslFractions = HslFractions(h: real, s: real, l: real) {
    predicate InUnitRange() {
      0.0 <= h <= 1.0 && 0.0 <= s <= 1.0 && 0.0 <= l <= 1.0
    }
  }

  /** The hue token: degrees passed through ClampHue, then divided by 360. */
  function HueFraction(token: string): (r: Option<real>)
    ensures r.Some? <==> ParseDecimal(token).Some?
    ensures r.Some? ==> 0.0 <= r.value <= 1.0
    ensures r.Some? ==> IsWholeTurns(360.0 * r.value - ParseDecimal(token).value)
  {
    match ParseDecimal(token)
    case None => None
    case Some(degrees) => Some(ClampHue(degrees) / 360.0)
  }

  /** A saturation or lightness token: it must be a percentage; the value is clamped to 0..100 and divided by 100. */
  function PercentFraction(token: string): (r: Option<real>)
    ensures r.Some? ==> IsPercentage(token)
    ensures r.Some? ==> 0.0 <= r.value <= 1.0
  {
    if !IsPercentage(token) then None
    else
      match ParseDecimal(TrimEndChar(token, '%'))
      case None => None
      case Some(p) => Some(ClampReal(p, 0.0, 100.0) / 100.0)
  }

  /** What token `i` contributes: hue, saturation, lightness; a fourth token is refused. */
  function HslTokenValue(tokens: seq<string>, i: nat): (r: Option<real>)
    requires i < |tokens|
    ensures r.Some? ==> i < 3 && 0.0 <= r.value <= 1.0
    ensures r.Some? && i > 0 ==> IsPercentage(tokens[i])
  {
    if i == 0 then HueFraction(tokens[0])
    else if i < 3 then PercentFraction(tokens[i])
    else None
  }

  /** The fraction token `i` gave, or 0 when there is no token `i`. */
  function FractionOrZero(tokens: seq<string>, i: nat): real
    requires i < |tokens| ==> HslTokenValue(tokens, i).Some?
  {
    if i < |tokens| then HslTokenValue(tokens, i).value else 0.0
  }

  /** The fractions an argument list denotes: every token accepted in its position, missing ones 0. */
  function HslValue(tokens: seq<string>): (r: Option<HslFractions>)
    ensures r.Some? ==> r.value.InUnitRange()
    ensures r.Some? ==> |tokens| <= 3
  {
    if forall i :: 0 <= i < |tokens| ==> HslTokenValue(tokens, i).Some? then
      assert |tokens| > 3 ==> HslTokenValue(tokens, 3).None?;
      Some(HslFractions(FractionOrZero(tokens, 0), FractionOrZero(tokens, 1), FractionOrZero(tokens, 2)))
    else None
  }

  /** The token loop of the hsl branch; a refused token ends it with no value, reported as an invalid format. */
  method DecodeHsl(tokens: seq<string>) returns (fractions: Option<HslFractions>)
    ensures fractions == HslValue(tokens)
  {
    var count := 0;
    var h, s, l := 0.0, 0.0, 0.0;
    while count < |tokens|
      invariant 0 <= count <= |tokens| && count <= 3
      invariant forall i :: 0 <= i < count ==> HslTokenValue(tokens, i).Some?
      invariant h == (if count > 0 then HslTokenValue(tokens, 0).value else 0.0)
      invariant s == (if count > 1 then HslTokenValue(tokens, 1).value else 0.0)
      invariant l == (if count > 2 then HslTokenValue(tokens, 2).value else 0.0)
    {
      var part := tokens[count];
      var value: Option<real>;
      if count == 0 {
        value := HueFraction(part);
      } else if count < 3 {
        value := PercentFraction(part);
      } else {
        value := None;
      }
      if value.None? {
        assert HslTokenValue(tokens, count).None?;
        return None;
      }
      if count == 0 {
        h := value.value;
      } else if count == 1 {
        s := value.value;
      } else {
        l := value.value;
      }
      count := count + 1;
    }
    fractions := Some(HslFractions(h, s, l));
  }

  /** A fourth token (an hsla alpha, say) makes the argument list invalid. */
  lemma FourthTokenRefused(tokens: seq<string>)
    requires |tokens| > 3
    ensures HslValue(tokens) == None
  {
    assert HslTokenValue(tokens, 3).None?;
  }

  /** Saturation and lightness that are not percentages make the argument list invalid. */
  lemma SaturationLightnessArePercentages(tokens: seq<string>, i: nat)
    requires 1 <= i < 3 && i < |tokens|
    requires !IsPercentage(tokens[i])
    ensures HslValue(tokens) == None
  {
    assert HslTokenValue(tokens, i).None?;
  }

  /** The hue handed on is the clamped hue over 360; it reaches 1 for a hue of 360 or a negative whole number of turns. */
  lemma HueHandedOn(tokens: seq<string>)
    requires |tokens| > 0 && HslValue(tokens).Some?
    ensures ParseDecimal(tokens[0]).Some?
    ensures HslValue(tokens).value.h == ClampHue(ParseDecimal(tokens[0]).value) / 360.0
  {
    assert HslTokenValue(tokens, 0).Some?;
  }

  /** Fewer than three tokens are not refused: the missing fractions are 0. */
  lemma MissingHslTokensAreZero(tokens: seq<string>)
    requires HslValue(tokens).Some?
    ensures |tokens| < 2 ==> HslValue(tokens).value.s == 0.0
    ensures |tokens| < 3 ==> HslValue(tokens).value.l == 0.0
    ensures |tokens| == 0 ==> HslValue(tokens) == Some(HslFractions(0.0, 0.0, 0.0))
  {
  }
}
