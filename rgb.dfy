/**
 * The rgb()/rgba() functional notation: the tokens of the argument list are
 * read in order as red, green, blue and an optional alpha. The red token fixes
 * whether the colour channels are percentages; green and blue must follow it.
 */
module RgbNotation {
  import opened Wrappers
  import opened Text
  import opened Numbers
  import opened Colours

  /** A percentage channel: Math.Round(255 * Clamp(p, 0, 100) / 100). */
  function PercentToByte(p: real): (r: int)
    ensures 0 <= r <= 255
    ensures 0.0 <= p <= 100.0 ==> r == RoundHalfEven(255.0 * p / 100.0)
    ensures p <= 0.0 ==> r == 0
    ensures p >= 100.0 ==> r == 255
  {
    RoundHalfEven(255.0 * ClampReal(p, 0.0, 100.0) / 100.0)
  }

  /**
   * A colour channel token, when the red token has put the notation in percentage
   * mode (`percent`) or not: a token of the other kind is refused; an integer is
   * clamped to 0..255; a percentage is scaled to 0..255.
   */
  function ChannelValue(token: string, percent: bool): (r: Option<int>)
    ensures r.Some? ==> 0 <= r.value <= 255
    ensures r.Some? ==> IsPercentage(token) == percent
    ensures !percent && !IsPercentage(token) && ParseInt32(token).Some? ==> r == Some(ClampInt(ParseInt32(token).value, 0, 255))
  {
    if IsPercentage(token) then
      if !percent then None
      else
        match ParseDecimal(TrimEndChar(token, '%'))
        case None => None
        case Some(p) => Some(PercentToByte(p))
    else if percent then None
    else
      match ParseInt32(token)
      case None => None
      case Some(v) => Some(ClampInt(v, 0, 255))
  }

  /** An alpha at most 1 is a fraction of 255; a larger one is already on the 0..255 scale. */
  function AlphaToByte(a: real): (r: int)
    ensures 0 <= r <= 255
    ensures 0.0 <= a <= 1.0 ==> r == RoundHalfEven(a * 255.0)
    ensures 1.0 < a <= 255.0 ==> r == RoundHalfEven(a)
    ensures a <= 0.0 ==> r == 0
    ensures a >= 255.0 ==> r == 255
  {
    if a <= 1.0 then RoundHalfEven(ClampReal(a, 0.0, 1.0) * 255.0)
    else RoundHalfEven(ClampReal(a, 0.0, 255.0))
  }

  /** The alpha token: a decimal number, never a percentage. */
  function AlphaValue(token: string): (r: Option<int>)
    ensures r.Some? ==> 0 <= r.value <= 255
    ensures r.Some? <==> ParseDecimal(token).Some?
  {
    match ParseDecimal(token)
    case None => None
    case Some(a) => Some(AlphaToByte(a))
  }

  /** What token `i` of the argument list contributes: red, green, blue, alpha; a fifth token is refused. */
  function TokenValue(tokens: seq<string>, i: nat): (r: Option<int>)
    requires i < |tokens|
    ensures r.Some? ==> 0 <= r.value <= 255
    ensures r.Some? ==> i < 4
  {
    if i < 3 then ChannelValue(tokens[i], IsPercentage(tokens[0]))
    else if i == 3 then AlphaValue(tokens[3])
    else None
  }

  /** The value token `i` gave, or `default` when there is no token `i`. */
  function ValueOr(tokens: seq<string>, i: nat, default: int): int
    requires i < |tokens| ==> TokenValue(tokens, i).Some?
  {
    if i < |tokens| then TokenValue(tokens, i).value else default
  }

  /**
   * The colour an argument list denotes: every token must be accepted in its
   * position; channels without a token are 0 and a missing alpha is 255.
   */
  function RgbValue(tokens: seq<string>): (r: Option<Argb>)
    ensures r.Some? ==> r.value.InRange()
    ensures r.Some? ==> |tokens| <= 4
    ensures r.Some? && |tokens| < 4 ==> r.value.a == 255
  {
    if forall i :: 0 <= i < |tokens| ==> TokenValue(tokens, i).Some? then
      assert |tokens| > 4 ==> TokenValue(tokens, 4).None?;
      Some(Argb(ValueOr(tokens, 3, 255), ValueOr(tokens, 0, 0), ValueOr(tokens, 1, 0), ValueOr(tokens, 2, 0)))
    else None
  }

  /**
   * The token loop of the rgb branch: `count` is the position, `isDecimal` the mode
   * the red token fixed. A refused token ends the loop with no colour, which the
   * caller reports as an invalid format.
   */
  method DecodeRgb(tokens: seq<string>) returns (colour: Option<Argb>)
    ensures colour == RgbValue(tokens)
  {
    var count := 0;
    var alpha, red, green, blue := 255, 0, 0, 0;
    var isDecimal := false;
    while count < |tokens|
      invariant 0 <= count <= |tokens| && count <= 4
      invariant forall i :: 0 <= i < count ==> TokenValue(tokens, i).Some?
      invariant isDecimal == (count > 0 && IsPercentage(tokens[0]))
      invariant red == (if count > 0 then TokenValue(tokens, 0).value else 0)
      invariant green == (if count > 1 then TokenValue(tokens, 1).value else 0)
      invariant blue == (if count > 2 then TokenValue(tokens, 2).value else 0)
      invariant alpha == (if count > 3 then TokenValue(tokens, 3).value else 255)
    {
      var part := tokens[count];
      var value: Option<int>;
      if count == 0 {
        isDecimal := IsPercentage(part);
        value := ChannelValue(part, isDecimal);
      } else if count < 3 {
        value := ChannelValue(part, isDecimal);
      } else if count == 3 {
        value := AlphaValue(part);
      } else {
        value := None;
      }
      assert value == TokenValue(tokens, count);
      if value.None? {
        return None;
      }
      if count == 0 {
        red := value.value;
      } else if count == 1 {
        green := value.value;
      } else if count == 2 {
        blue := value.value;
      } else {
        alpha := value.value;
      }
      count := count + 1;
    }
    colour := FromArgb(alpha, red, green, blue);
  }

  /** Green or blue of the other kind than red (percentage or integer) makes the argument list invalid. */
  lemma MixedModeRefused(tokens: seq<string>, i: nat)
    requires 1 <= i < 3 && i < |tokens|
    requires IsPercentage(tokens[i]) != IsPercentage(tokens[0])
    ensures RgbValue(tokens) == None
  {
    assert TokenValue(tokens, i).None?;
  }

  /** More than four tokens make the argument list invalid. */
  lemma FifthTokenRefused(tokens: seq<string>)
    requires |tokens| > 4
    ensures RgbValue(tokens) == None
  {
    assert TokenValue(tokens, 4).None?;
  }

  /**
   * An argument list is accepted exactly when it has at most four tokens, green and
   * blue are of red's kind, and each token reads as a number in its position.
   */
  lemma RgbAccepted(tokens: seq<string>)
    ensures RgbValue(tokens).Some? <==>
      |tokens| <= 4
      && (forall i :: 0 <= i < |tokens| && i < 3 ==> IsPercentage(tokens[i]) == IsPercentage(tokens[0]))
      && (forall i :: 0 <= i < |tokens| && i < 3 ==> ChannelValue(tokens[i], IsPercentage(tokens[0])).Some?)
      && (|tokens| == 4 ==> ParseDecimal(tokens[3]).Some?)
  {
    if RgbValue(tokens).Some? {
      forall i | 0 <= i < |tokens| && i < 3
        ensures IsPercentage(tokens[i]) == IsPercentage(tokens[0])
        ensures ChannelValue(tokens[i], IsPercentage(tokens[0])).Some?
      {
        assert TokenValue(tokens, i).Some?;
      }
      if |tokens| == 4 {
        assert TokenValue(tokens, 3).Some?;
      }
    } else if |tokens| <= 4 {
      var i :| 0 <= i < |tokens| && TokenValue(tokens, i).None?;
      assert i < 3 ==> ChannelValue(tokens[i], IsPercentage(tokens[0])).None?;
      assert i == 3 ==> ParseDecimal(tokens[3]).None?;
    }
  }

  /**
   * Fewer than three tokens are not refused: the missing channels are 0, and the
   * alpha is 255 whenever there is no fourth token.
   */
  lemma MissingChannelsAreZero(tokens: seq<string>)
    requires RgbValue(tokens).Some?
    ensures |tokens| < 2 ==> RgbValue(tokens).value.g == 0
    ensures |tokens| < 3 ==> RgbValue(tokens).value.b == 0
    ensures |tokens| == 0 ==> RgbValue(tokens) == Some(Argb(255, 0, 0, 0))
  {
  }

  /** Integer channels are the Int32 value clamped to 0..255. */
  lemma IntegerChannelsClamped(tokens: seq<string>, i: nat)
    requires i < 3 && i < |tokens|
    requires RgbValue(tokens).Some? && !IsPercentage(tokens[0])
    ensures ParseInt32(tokens[i]).Some?
    ensures var c := RgbValue(tokens).value;
      ClampInt(ParseInt32(tokens[i]).value, 0, 255) == (if i == 0 then c.r else if i == 1 then c.g else c.b)
  {
    assert TokenValue(tokens, i).Some?;
  }

  /** The fourth token decides alpha: a fraction of 255 when at most 1, else clamped to 255. */
  lemma AlphaFromFourthToken(tokens: seq<string>)
    requires |tokens| == 4 && RgbValue(tokens).Some?
    ensures ParseDecimal(tokens[3]).Some?
    ensures RgbValue(tokens).value.a == AlphaToByte(ParseDecimal(tokens[3]).value)
  {
    assert TokenValue(tokens, 3).Some?;
  }
}
