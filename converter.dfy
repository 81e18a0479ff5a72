/**
 * SvgColourConverter.Parse and its neighbours: the trimmed text is tried, in a fixed
 * order, as rgb(), hsl(), a '#' colour, a system-colour keyword and an integer; a
 * trailing "grey" is respelt "gray"; anything else goes to the library's named-colour
 * conversion untouched. ConvertTo's post-processing of the library's HTML name closes
 * the module.
 */
module ColourConverter {
  import opened Wrappers
  import opened Text
  import opened Numbers
  import opened Colours
  import opened SystemColours
  import opened RgbNotation
  import opened HslNotation

  /** Why a text could not be converted. */
  datatype ParseError =
    | InvalidFormat(text: string)   // SvgException "Colour is in an invalid format", naming the trimmed text
    | HexFormat                     // FormatException from int.Parse on a '#' colour

  /** What Parse returns, or throws. */
  datatype Outcome =
    | Rgba(colour: Argb)              // a Color built from four channels
    | HslColour(hsl: HslFractions)    // the fractions handed to Hsl2Rgb
    | System(system: SystemColour)    // a SystemColors property
    | NotSet                          // SvgPaintServer.NotSet
    | Named(name: string)             // the text handed to the library's named-colour conversion
    | Delegated                       // a value that is not a string, handed to the library as it is
    | Failure(error: ParseError)

  /** The argument list of a functional notation: what lies after the first '(' (or from the start) up to the first ')'; none when the slice would have a negative length. */
  function FunctionArguments(span: string): (r: Option<string>)
    ensures r.Some? <==> ')' in span && IndexOf(span, '(') < IndexOf(span, ')')
    ensures r.Some? ==> ')' !in r.value && |r.value| < |span|
  {
    var start := IndexOf(span, '(') + 1;
    var length := IndexOf(span, ')') - start;
    if length < 0 then None
    else
      var args := span[start..start + length];
      assert args == span[..start + length][start..];
      Some(args)
  }

  /** The rgb branch: a slice that cannot be taken or an argument list that is refused is an invalid format. */
  function RgbOutcome(span: string): (r: Outcome)
    ensures r.Rgba? || r == Failure(InvalidFormat(span))
    ensures r.Rgba? ==> r.colour.InRange()
  {
    match FunctionArguments(span)
    case None => Failure(InvalidFormat(span))
    case Some(args) =>
      match RgbValue(Tokens(args))
      case None => Failure(InvalidFormat(span))
      case Some(c) => Rgba(c)
  }

  /** The hsl branch, built like the rgb branch. */
  function HslOutcome(span: string): (r: Outcome)
    ensures r.HslColour? || r == Failure(InvalidFormat(span))
    ensures r.HslColour? ==> r.hsl.InUnitRange()
  {
    match FunctionArguments(span)
    case None => Failure(InvalidFormat(span))
    case Some(args) =>
      match HslValue(Tokens(args))
      case None => Failure(InvalidFormat(span))
      case Some(f) => HslColour(f)
  }

  /**
   * The '#' branch for a text of four or seven characters: the three digits of #rgb
   * are each doubled, the six of #rrggbb are read in pairs; alpha is always 255.
   */
  /**
   * The digits int.Parse with AllowHexSpecifier accepts: every one hexadecimal, except that
   * in #rrggbb the low digit of a pair may be '\0', which the parser skips as trailing.
   */
  predicate HexDigitsAccepted(span: string)
    requires |span| == 4 || |span| == 7
  {
    if |span| == 4 then IsHexDigit(span[1]) && IsHexDigit(span[2]) && IsHexDigit(span[3])
    else
      && IsHexDigit(span[1]) && (IsHexDigit(span[2]) || span[2] == '\0')
      && IsHexDigit(span[3]) && (IsHexDigit(span[4]) || span[4] == '\0')
      && IsHexDigit(span[5]) && (IsHexDigit(span[6]) || span[6] == '\0')
  }

  function HexOutcome(span: string): (r: Outcome)
    requires |span| == 4 || |span| == 7
    ensures r.Rgba? || r == Failure(HexFormat)
    ensures r.Rgba? ==> r.colour.InRange() && r.colour.a == 255
  {
    var (hr, lr, hg, lg, hb, lb) :=
      if |span| == 4 then (span[1], span[1], span[2], span[2], span[3], span[3])
      else (span[1], span[2], span[3], span[4], span[5], span[6]);
    match (ParseHexPair(hr, lr), ParseHexPair(hg, lg), ParseHexPair(hb, lb))
    case (Some(red), Some(green), Some(blue)) => Rgba(Argb(255, red, green, blue))
    case _ => Failure(HexFormat)
  }

  /** The '#' branch gives a colour exactly when int.Parse accepts all three pairs. */
  lemma HexOutcomeAccepts(span: string)
    requires |span| == 4 || |span| == 7
    ensures HexOutcome(span).Rgba? <==> HexDigitsAccepted(span)
  {
  }

  /** The 32-character stack buffer of the grey check, zero-filled, holding the lower-cased text when it fits. */
  function GreyBuffer(span: string): (r: seq<char>)
    ensures |r| == 32
    ensures |span| <= 32 ==> r[..|span|] == AsciiLower(span) && forall i :: |span| <= i < 32 ==> r[i] == '\0'
    ensures |span| > 32 ==> forall i :: 0 <= i < 32 ==> r[i] == '\0'
  {
    if |span| <= 32 then AsciiLower(span) + seq(32 - |span|, _ => '\0') else seq(32, _ => '\0')
  }

  /**
   * The grey check: when the text holds "grey" in any case and the first "grey" of the
   * buffer ends the text, the text up to it followed by "Gray" (when that "grey" began
   * with 'G') or "gray" is what the library is given.
   */
  function GreyName(span: string): Option<string> {
    if IndexOfSeq(AsciiLower(span), "grey") < 0 then None
    else
      var index := IndexOfSeq(GreyBuffer(span), "grey");
      if index >= 0 && index + 4 == |span| then
        Some(span[..index] + (if span[index] == 'G' then "Gray" else "gray"))
      else None
  }

  /** The grey check as the source runs it: lower-case into a zeroed buffer of 32 characters, search it. */
  method GreyRewrite(span: string) returns (name: Option<string>)
    ensures name == GreyName(span)
  {
    if IndexOfSeq(AsciiLower(span), "grey") < 0 {
      return None;
    }
    var lowerInvariant := new char[32](_ => '\0');
    if |span| <= lowerInvariant.Length {
      ToLowerAscii(span, lowerInvariant);
      assert lowerInvariant[..] == lowerInvariant[..|span|] + lowerInvariant[|span|..];
    }
    assert lowerInvariant[..] == GreyBuffer(span);
    var index := IndexOfSeq(lowerInvariant[..], "grey");
    if index >= 0 && index + 4 == |span| {
      name := Some(span[..index] + (if span[index] == 'G' then "Gray" else "gray"));
    } else {
      name := None;
    }
  }

  /** The rules after the '#' colours: a system keyword, an integer, a trailing grey; none when all of them pass the text by. */
  function LaterRules(span: string): (r: Option<Outcome>)
    ensures r.Some? ==> r.value.System? || r.value == NotSet || r.value.Named?
  {
    match SystemColourOf(span)
    case Some(system) => Some(System(system))
    case None =>
      if ParseInt32(span).Some? then Some(NotSet)
      else
        match GreyName(span)
        case Some(name) => Some(Named(name))
        case None => None
  }

  /** The trimmed text is a '#' colour of four or seven characters. */
  predicate IsHexShaped(span: string) {
    IndexOf(span, '#') == 0 && (|span| == 4 || |span| == 7)
  }

  /** What the rules, tried in their fixed order, make of the trimmed text; none when every rule passes it by. */
  function Rules(span: string): (r: Option<Outcome>)
    ensures r.Some? && r.value.Rgba? ==> r.value.colour.InRange()
  {
    if IndexOfSeq(span, "rgb") == 0 then Some(RgbOutcome(span))
    else if IndexOfSeq(span, "hsl") == 0 then Some(HslOutcome(span))
    else if IsHexShaped(span) then Some(HexOutcome(span))
    else LaterRules(span)
  }

  /** What Parse makes of a string: the outcome of the rules on the trimmed text, or else the text as it came, for the library. */
  function Interpret(colour: string): Outcome {
    match Rules(Trim(colour))
    case Some(outcome) => outcome
    case None => Named(colour)
  }

  /** Parse: trim, then try each rule in turn; the token loops, the keyword lookup and the grey check run as the source runs them. */
  method Parse(colour: string) returns (result: Outcome)
    ensures result == Interpret(colour)
  {
    var span := Trim(colour);
    if IndexOfSeq(span, "rgb") == 0 {
      var args := FunctionArguments(span);
      if args.None? {
        return Failure(InvalidFormat(span));
      }
      var rgba := DecodeRgb(Tokens(args.value));
      if rgba.None? {
        return Failure(InvalidFormat(span));
      }
      return Rgba(rgba.value);
    }
    if IndexOfSeq(span, "hsl") == 0 {
      var args := FunctionArguments(span);
      if args.None? {
        return Failure(InvalidFormat(span));
      }
      var hsl := DecodeHsl(Tokens(args.value));
      if hsl.None? {
        return Failure(InvalidFormat(span));
      }
      return HslColour(hsl.value);
    }
    if IsHexShaped(span) {
      return HexOutcome(span);
    }
    var systemColor := TryToGetSystemColor(span);
    if systemColor.Some? {
      return System(systemColor.value);
    }
    if ParseInt32(span).Some? {
      return NotSet;
    }
    var grey := GreyRewrite(span);
    if grey.Some? {
      return Named(grey.value);
    }
    return Named(colour);
  }

  /** The values ConvertFrom can be given: a string, or anything else. */
  datatype Value = StringValue(text: string) | OtherValue

  /** ConvertFrom: a string is parsed; any other value goes to the library. */
  method ConvertFrom(value: Value) returns (result: Outcome)
    ensures value.StringValue? ==> result == Interpret(value.text)
    ensures value.OtherValue? ==> result == Delegated
  {
    match value
    case StringValue(colour) =>
      result := Parse(colour);
    case OtherValue =>
      result := Delegated;
  }

  /** ConvertTo a string: "LightGrey" respelt "LightGray" in the library's HTML text, then lower case unless it begins with '#'. */
  function SerialisedName(html: string): (r: string)
    ensures |r| == |html|
    ensures |html| > 0 && html[0] == '#' ==> r[0] == '#'
    ensures !(|html| > 0 && html[0] == '#') ==> NoAsciiUpper(r)
  {
    var colorString := Replace(html, "LightGrey", "LightGray");
    ReplaceKeepsHead(html, "LightGrey", "LightGray");
    AsciiLowerMeaning(colorString);
    if |colorString| > 0 && colorString[0] == '#' then colorString else AsciiLower(colorString)
  }

  // Properties of the rules and of their order.

  /** A text that is neither rgb, nor hsl, nor a '#' colour of four or seven characters is left to the later rules. */
  lemma LaterRulesApply(span: string)
    requires IndexOfSeq(span, "rgb") != 0 && IndexOfSeq(span, "hsl") != 0 && !IsHexShaped(span)
    ensures Rules(span) == LaterRules(span)
  {
  }

  /** In particular a text whose first character is not 'r', 'h' or '#' is left to the later rules. */
  lemma FirstCharacterSkipsEarlierRules(span: string)
    requires |span| > 0 && span[0] != 'r' && span[0] != 'h' && span[0] != '#'
    ensures Rules(span) == LaterRules(span)
  {
    NotPrefixByFirstChar(span, "rgb");
    NotPrefixByFirstChar(span, "hsl");
  }

  /** Every invalid-format error names the trimmed text, and only the rgb and hsl branches raise it. */
  lemma InvalidFormatNamesTrimmedText(colour: string, text: string)
    requires Interpret(colour) == Failure(InvalidFormat(text))
    ensures text == Trim(colour)
    ensures IndexOfSeq(Trim(colour), "rgb") == 0 || IndexOfSeq(Trim(colour), "hsl") == 0
  {
    var span := Trim(colour);
    if IndexOfSeq(span, "rgb") != 0 && IndexOfSeq(span, "hsl") != 0 {
      if !IsHexShaped(span) {
        LaterRulesApply(span);
      }
    }
  }

  /** In an rgb colour, a green or blue token of the other kind than red makes Parse fail with an invalid format. */
  lemma RgbMixedModeFails(colour: string, i: nat)
    requires IndexOfSeq(Trim(colour), "rgb") == 0
    requires FunctionArguments(Trim(colour)).Some?
    requires var tokens := Tokens(FunctionArguments(Trim(colour)).value);
      1 <= i < 3 && i < |tokens| && IsPercentage(tokens[i]) != IsPercentage(tokens[0])
    ensures Interpret(colour) == Failure(InvalidFormat(Trim(colour)))
  {
    MixedModeRefused(Tokens(FunctionArguments(Trim(colour)).value), i);
  }

  /** In an rgb colour, a fifth token makes Parse fail with an invalid format. */
  lemma RgbFifthTokenFails(colour: string)
    requires IndexOfSeq(Trim(colour), "rgb") == 0
    requires FunctionArguments(Trim(colour)).Some?
    requires |Tokens(FunctionArguments(Trim(colour)).value)| > 4
    ensures Interpret(colour) == Failure(InvalidFormat(Trim(colour)))
  {
    FifthTokenRefused(Tokens(FunctionArguments(Trim(colour)).value));
  }

  /** An rgb or hsl text without a ')' after its first '(' fails with an invalid format. */
  lemma UnclosedArgumentsFail(colour: string)
    requires IndexOfSeq(Trim(colour), "rgb") == 0 || IndexOfSeq(Trim(colour), "hsl") == 0
    requires ')' !in Trim(colour) || IndexOf(Trim(colour), ')') < IndexOf(Trim(colour), '(')
    ensures Interpret(colour) == Failure(InvalidFormat(Trim(colour)))
  {
  }

  /** The hsl branch needs percentages for saturation and lightness and refuses a fourth (alpha) token. */
  lemma HslStructure(colour: string)
    requires IndexOfSeq(Trim(colour), "hsl") == 0
    requires FunctionArguments(Trim(colour)).Some?
    requires var tokens := Tokens(FunctionArguments(Trim(colour)).value);
      |tokens| > 3 || (|tokens| > 1 && !IsPercentage(tokens[1])) || (|tokens| > 2 && !IsPercentage(tokens[2]))
    ensures Interpret(colour) == Failure(InvalidFormat(Trim(colour)))
  {
    var span := Trim(colour);
    var tokens := Tokens(FunctionArguments(span).value);
    assert HslValue(tokens) == None by {
      if |tokens| > 3 {
        FourthTokenRefused(tokens);
      } else if |tokens| > 1 && !IsPercentage(tokens[1]) {
        SaturationLightnessArePercentages(tokens, 1);
      } else {
        SaturationLightnessArePercentages(tokens, 2);
      }
    }
    HslRules(span);
  }

  /** A text starting with "hsl" is taken by the hsl rule. */
  lemma HslRules(span: string)
    requires IndexOfSeq(span, "hsl") == 0
    ensures Rules(span) == Some(HslOutcome(span))
  {
    IndexOfSeqZero(span, "hsl");
    NotPrefixByFirstChar(span, "rgb");
  }

  /**
   * What Parse can return for a string: never the non-string delegation; an error is the
   * '#' format error or the invalid-format error naming the trimmed text; hsl fractions
   * lie in [0, 1]; a name for the library is the text itself or a respelt grey.
   */
  lemma InterpretOutcomes(colour: string)
    ensures Interpret(colour) != Delegated
    ensures Interpret(colour).Failure? ==>
      Interpret(colour).error == HexFormat || Interpret(colour).error == InvalidFormat(Trim(colour))
    ensures Interpret(colour).HslColour? ==> Interpret(colour).hsl.InUnitRange()
    ensures Interpret(colour).Named? ==>
      Interpret(colour).name == colour || GreyName(Trim(colour)) == Some(Interpret(colour).name)
  {
    RulesOutcomes(Trim(colour));
  }

  /** The rules' outcomes, on the trimmed text. */
  lemma RulesOutcomes(span: string)
    ensures Rules(span).Some? ==> Rules(span).value != Delegated
    ensures Rules(span).Some? && Rules(span).value.Failure? ==>
      Rules(span).value.error == HexFormat || Rules(span).value.error == InvalidFormat(span)
    ensures Rules(span).Some? && Rules(span).value.HslColour? ==> Rules(span).value.hsl.InUnitRange()
    ensures Rules(span).Some? && Rules(span).value.Named? ==> GreyName(span) == Some(Rules(span).value.name)
  {
  }

  /** Every colour Parse builds from channels has all four channels in 0..255. */
  lemma ChannelsInRange(colour: string)
    requires Interpret(colour).Rgba?
    ensures Interpret(colour).colour.InRange()
  {
  }

  /** A '#' colour of four or seven characters gives a colour with alpha 255 exactly when all its digits are hexadecimal, and a format error otherwise. */
  lemma HexColours(colour: string)
    requires IsHexShaped(Trim(colour))
    ensures Interpret(colour) == HexOutcome(Trim(colour))
    ensures Interpret(colour).Rgba? <==> HexDigitsAccepted(Trim(colour))
    ensures Interpret(colour).Rgba? ==> Interpret(colour).colour.a == 255
    ensures !Interpret(colour).Rgba? ==> Interpret(colour) == Failure(HexFormat)
  {
    var span := Trim(colour);
    NotPrefixByFirstChar(span, "rgb");
    NotPrefixByFirstChar(span, "hsl");
    HexOutcomeAccepts(span);
  }

  /** #rgb reads each digit twice: every channel is 17 times the digit's value. */
  lemma ShortHexDoublesDigits(span: string)
    requires |span| == 4 && forall i :: 1 <= i < 4 ==> IsHexDigit(span[i])
    ensures HexOutcome(span) == Rgba(Argb(255, 17 * HexDigitValue(span[1]), 17 * HexDigitValue(span[2]), 17 * HexDigitValue(span[3])))
  {
  }

  /** #rrggbb reads the digits in pairs, the first of each pair the high one. */
  lemma LongHexReadsPairs(span: string)
    requires |span| == 7
    requires IsHexDigit(span[1]) && IsHexDigit(span[2]) && IsHexDigit(span[3])
    requires IsHexDigit(span[4]) && IsHexDigit(span[5]) && IsHexDigit(span[6])
    ensures HexOutcome(span) == Rgba(Argb(255,
      16 * HexDigitValue(span[1]) + HexDigitValue(span[2]),
      16 * HexDigitValue(span[3]) + HexDigitValue(span[4]),
      16 * HexDigitValue(span[5]) + HexDigitValue(span[6])))
  {
  }

  /** #rgb is #rrggbb: "#fb0" and "#ffbb00" are the same colour, each channel 17 times its digit. */
  lemma ShortHexIsLongHex(short: string, long: string)
    requires |short| == 4 && |long| == 7 && short[0] == '#' && long[0] == '#'
    requires forall i :: 1 <= i < 4 ==> IsHexDigit(short[i])
    requires long[1] == long[2] == short[1] && long[3] == long[4] == short[2] && long[5] == long[6] == short[3]
    ensures Interpret(short) == Interpret(long)
    ensures Interpret(short) == Rgba(Argb(255, 17 * HexDigitValue(short[1]), 17 * HexDigitValue(short[2]), 17 * HexDigitValue(short[3])))
  {
    ShortHexOutcomeIsLong(short, long);
    HexWithoutSpaces(short);
    HexWithoutSpaces(long);
  }

  /** The '#' branch reads #rgb and the #rrggbb that doubles each digit as the same colour. */
  lemma ShortHexOutcomeIsLong(short: string, long: string)
    requires |short| == 4 && |long| == 7
    requires forall i :: 1 <= i < 4 ==> IsHexDigit(short[i])
    requires long[1] == long[2] == short[1] && long[3] == long[4] == short[2] && long[5] == long[6] == short[3]
    ensures HexOutcome(short) == HexOutcome(long)
    ensures HexOutcome(short) == Rgba(Argb(255, 17 * HexDigitValue(short[1]), 17 * HexDigitValue(short[2]), 17 * HexDigitValue(short[3])))
  {
    ShortHexDoublesDigits(short);
    LongHexReadsPairs(long);
  }

  /** A '#' colour whose last character is a hex digit needs no trimming, so Parse reads it with the '#' rule. */
  lemma HexWithoutSpaces(span: string)
    requires (|span| == 4 || |span| == 7) && span[0] == '#' && IsHexDigit(span[|span| - 1])
    ensures Interpret(span) == HexOutcome(span)
  {
    TrimKeeps(span);
    HexColours(span);
  }

  /** A pair cut short by a trailing '\0' reads as its one digit: "#aabbc\0" is red 0xaa, green 0xbb, blue 0x0c. */
  lemma LongHexTrailingNul(span: string)
    requires |span| == 7 && span[0] == '#' && span[6] == '\0'
    requires forall i :: 1 <= i < 6 ==> IsHexDigit(span[i])
    ensures Interpret(span) == Rgba(Argb(255,
      16 * HexDigitValue(span[1]) + HexDigitValue(span[2]),
      16 * HexDigitValue(span[3]) + HexDigitValue(span[4]),
      HexDigitValue(span[5])))
  {
    TrimKeeps(span);
    HexColours(span);
  }

  /** A '#' text of any other length is not an error: it falls through to the later rules. */
  lemma OtherHexLengthsFallThrough(colour: string)
    requires |Trim(colour)| > 0 && Trim(colour)[0] == '#'
    requires |Trim(colour)| != 4 && |Trim(colour)| != 7
    ensures Rules(Trim(colour)) == LaterRules(Trim(colour))
  {
    var span := Trim(colour);
    NotPrefixByFirstChar(span, "rgb");
    NotPrefixByFirstChar(span, "hsl");
  }

  /** The functional prefixes are compared case-sensitively: "RGB(...)" and "HSL(...)" are not functional notations. */
  lemma UpperCasePrefixesAreNotFunctional(colour: string)
    requires |Trim(colour)| >= 3 && (Trim(colour)[..3] == "RGB" || Trim(colour)[..3] == "HSL")
    ensures Rules(Trim(colour)) == LaterRules(Trim(colour))
  {
    var span := Trim(colour);
    assert span[0] == 'R' || span[0] == 'H' by {
      assert span[0] == span[..3][0];
    }
    FirstCharacterSkipsEarlierRules(span);
  }

  /**
   * A trimmed text that is an Int32 literal and not taken for a system keyword gives
   * NotSet: it never reaches the grey check or the library.
   */
  lemma IntegersAreNotSet(colour: string)
    requires ParseInt32(Trim(colour)).Some?
    requires SystemColourOf(Trim(colour)).None?
    ensures Interpret(colour) == NotSet
  {
    IntegerRules(Trim(colour));
  }

  /** The rules give NotSet for an Int32 literal that the keyword lookup passes by. */
  lemma IntegerRules(span: string)
    requires ParseInt32(span).Some?
    requires SystemColourOf(span).None?
    ensures Rules(span) == Some(NotSet)
  {
    ParseInt32FirstCharacter(span);
    FirstCharacterSkipsEarlierRules(span);
    assert LaterRules(span) == Some(NotSet);
  }

  /** The grey check fires exactly when the text fits the buffer and its first "grey", in any case, ends it. */
  lemma GreyNameMeaning(span: string)
    ensures GreyName(span).Some? <==>
      4 <= |span| <= 32 && IndexOfSeq(AsciiLower(span), "grey") == |span| - 4
    ensures GreyName(span).Some? ==>
      GreyName(span).value == span[..|span| - 4] + (if span[|span| - 4] == 'G' then "Gray" else "gray")
  {
    var lower, buffer := AsciiLower(span), GreyBuffer(span);
    if |span| > 32 {
      forall k ensures !OccursAt(buffer, "grey", k) {
        if 0 <= k && k + 4 <= |buffer| {
          assert buffer[k..k + 4][0] == '\0';
        }
      }
    } else {
      forall k ensures OccursAt(buffer, "grey", k) <==> OccursAt(lower, "grey", k) {
        if 0 <= k && k + 4 <= |span| {
          assert buffer[k..k + 4] == lower[k..k + 4];
        } else if 0 <= k && k + 4 <= 32 {
          assert buffer[k..k + 4][3] == '\0';
        }
      }
      IndexOfSeqSameOccurrences(buffer, lower, "grey");
    }
  }

  /** The "grey" that ends a text starts with 'g' or 'G', and a four-character such text is "grey" in some case. */
  lemma GreyTextStartsWithItsLetters(span: string)
    requires 4 <= |span| && IndexOfSeq(AsciiLower(span), "grey") == |span| - 4
    ensures |span| == 4 ==> AsciiLower(span) == "grey"
    ensures LowerChar(span[|span| - 4]) == 'g'
  {
    var lower := AsciiLower(span);
    assert OccursAt(lower, "grey", |span| - 4);
    assert lower[|span| - 4..|span|] == "grey";
    assert lower[|span| - 4] == lower[|span| - 4..|span|][0];
  }

  /** After the keywords and the integers, a text whose first "grey" ends it is handed to the library respelt with "gray". */
  lemma GreyRespelt(colour: string)
    requires var span := Trim(colour);
      IndexOfSeq(span, "rgb") != 0 && IndexOfSeq(span, "hsl") != 0 && !IsHexShaped(span)
      && SystemColourOf(span).None? && ParseInt32(span).None?
      && 4 <= |span| <= 32 && IndexOfSeq(AsciiLower(span), "grey") == |span| - 4
    ensures var span := Trim(colour);
      Interpret(colour) == Named(span[..|span| - 4] + (if span[|span| - 4] == 'G' then "Gray" else "gray"))
  {
    var span := Trim(colour);
    GreyNameMeaning(span);
    LaterRulesApply(span);
  }

  /** Whatever no rule claims reaches the library as the original, untrimmed text. */
  lemma FallbackIsUntrimmed(colour: string)
    requires var span := Trim(colour);
      IndexOfSeq(span, "rgb") != 0 && IndexOfSeq(span, "hsl") != 0 && !IsHexShaped(span)
      && SystemColourOf(span).None? && ParseInt32(span).None? && GreyName(span).None?
    ensures Interpret(colour) == Named(colour)
  {
    LaterRulesApply(Trim(colour));
  }

  /** No keyword starts with 'r' or '#', and those starting with 'h' continue with 'i': none starts with "rgb", "hsl" or '#'. */
  lemma KeywordsAvoidEarlierRules(keyword: string)
    requires KeywordColour(keyword).Some?
    ensures |keyword| >= 4 && keyword[0] != 'r' && keyword[0] != '#'
    ensures keyword[0] == 'h' ==> keyword[1] == 'i'
  {
  }

  /** A text the keyword lookup recognises is taken by the first of the later rules. */
  lemma SystemColourFirst(span: string)
    requires SystemColourOf(span).Some?
    ensures LaterRules(span) == Some(System(SystemColourOf(span).value))
  {
  }

  /** A keyword, in any ASCII case, is neither an rgb or hsl notation nor a '#' colour. */
  lemma KeywordsSkipEarlierRules(span: string)
    requires KeywordColour(AsciiLower(span)).Some?
    ensures Rules(span) == LaterRules(span)
  {
    KeywordsAvoidEarlierRules(AsciiLower(span));
    LowerShapeSkipsEarlierRules(span);
  }

  /** A text whose lower-case form is at least four long, starts with neither 'r' nor '#', and has 'i' after a leading 'h' is left to the later rules. */
  lemma LowerShapeSkipsEarlierRules(span: string)
    requires |AsciiLower(span)| >= 4
    requires AsciiLower(span)[0] != 'r' && AsciiLower(span)[0] != '#'
    requires AsciiLower(span)[0] == 'h' ==> AsciiLower(span)[1] == 'i'
    ensures Rules(span) == LaterRules(span)
  {
    var lower := AsciiLower(span);
    assert lower[0] == LowerChar(span[0]) && lower[1] == LowerChar(span[1]);
    IndexOfSeqZero(span, "rgb");
    IndexOfSeqZero(span, "hsl");
    LaterRulesApply(span);
  }

  /** The rules turn a keyword, in any ASCII case, into its SystemColors property. */
  lemma KeywordRules(span: string)
    requires KeywordColour(AsciiLower(span)).Some?
    ensures Rules(span) == Some(System(KeywordColour(AsciiLower(span)).value))
  {
    KeywordsSkipEarlierRules(span);
    KeywordsRecognised(span);
    SystemColourFirst(span);
  }

  /** Every keyword the switch stands for, in any ASCII case and with any surrounding white space, gives its SystemColors property. */
  lemma SystemKeywordsRecognised(colour: string)
    requires KeywordColour(AsciiLower(Trim(colour))).Some?
    ensures Interpret(colour) == System(KeywordColour(AsciiLower(Trim(colour))).value)
  {
    KeywordRules(Trim(colour));
  }

  /** Surrounding white space matters only to the final fallback, which keeps the text as it came. */
  lemma OnlyFallbackSeesWhiteSpace(a: string, b: string)
    requires Trim(a) == Trim(b)
    ensures Interpret(a) == Interpret(b) || (Interpret(a) == Named(a) && Interpret(b) == Named(b))
  {
  }

  /** '#' outputs of ConvertTo are the replaced text as it is; any other output is the replaced text lower-cased, with no ASCII capital. */
  lemma SerialisedNameCase(html: string)
    ensures var s := Replace(html, "LightGrey", "LightGray");
      (|html| > 0 && html[0] == '#') ==> SerialisedName(html) == s
    ensures var s := Replace(html, "LightGrey", "LightGray");
      !(|html| > 0 && html[0] == '#') ==> SerialisedName(html) == AsciiLower(s)
    ensures !(|html| > 0 && html[0] == '#') ==> NoAsciiUpper(SerialisedName(html))
  {
    var s := Replace(html, "LightGrey", "LightGray");
    ReplaceKeepsHead(html, "LightGrey", "LightGray");
    AsciiLowerMeaning(s);
  }

  /** A name without "LightGrey" and not starting with '#' is written in ASCII lower case. */
  lemma NamesAreLowered(html: string)
    requires !(|html| > 0 && html[0] == '#')
    requires forall k :: !OccursAt(html, "LightGrey", k)
    ensures SerialisedName(html) == AsciiLower(html)
  {
    ReplaceAbsent(html, "LightGrey", "LightGray");
  }

  /** "LightGrey" has no proper suffix that is also its prefix, so its occurrences never overlap. */
  lemma LightGreyUnbordered()
    ensures Unbordered("LightGrey")
  {
    var pat := "LightGrey";
    forall d | 0 < d < |pat|
      ensures pat[d..] != pat[..|pat| - d]
    {
      assert pat[d..][0] != pat[..|pat| - d][0];
    }
  }

  /**
   * ConvertTo character by character: every "LightGrey" in the library's name is
   * written "LightGray" ('#' names) or "lightgray" (all others), and every other
   * character is kept ('#' names) or ASCII lower-cased (all others).
   */
  lemma SerialisedNameMeaning(html: string)
    ensures |SerialisedName(html)| == |html|
    ensures forall k :: OccursAt(html, "LightGrey", k) ==>
      SerialisedName(html)[k..k + 9] == (if |html| > 0 && html[0] == '#' then "LightGray" else "lightgray")
    ensures forall i :: 0 <= i < |html| && Uncovered(html, "LightGrey", i) ==>
      SerialisedName(html)[i] == (if |html| > 0 && html[0] == '#' then html[i] else LowerChar(html[i]))
  {
    var s := Replace(html, "LightGrey", "LightGray");
    var hex := |html| > 0 && html[0] == '#';
    LightGreyUnbordered();
    ReplaceMeaning(html, "LightGrey", "LightGray");
    SerialisedNameCase(html);
    assert SerialisedName(html) == if hex then s else AsciiLower(s);
    forall k | OccursAt(html, "LightGrey", k)
      ensures SerialisedName(html)[k..k + 9] == (if hex then "LightGray" else "lightgray")
    {
      assert s[k..k + 9] == "LightGray";
      if !hex {
        LowerLightGray(s, k);
      }
    }
    forall i | 0 <= i < |html| && Uncovered(html, "LightGrey", i)
      ensures SerialisedName(html)[i] == (if hex then html[i] else LowerChar(html[i]))
    {
      assert s[i] == html[i];
    }
  }

  /** Lower-casing turns a "LightGray" inside a text into "lightgray". */
  lemma LowerLightGray(s: string, k: int)
    requires 0 <= k && k + 9 <= |s| && s[k..k + 9] == "LightGray"
    ensures AsciiLower(s)[k..k + 9] == "lightgray"
  {
    forall m | 0 <= m < 9
      ensures AsciiLower(s)[k..k + 9][m] == "lightgray"[m]
    {
      assert AsciiLower(s)[k + m] == LowerChar(s[k..k + 9][m]);
    }
  }

  /** A '#' text without "LightGrey" comes back from ConvertTo unchanged. */
  lemma HexNamesUnchanged(html: string)
    requires |html| > 0 && html[0] == '#'
    requires forall k :: !OccursAt(html, "LightGrey", k)
    ensures SerialisedName(html) == html
  {
    ReplaceAbsent(html, "LightGrey", "LightGray");
  }

  /** The library's "LightGrey" is written "lightgray". */
  lemma LightGreyIsWrittenLightGray()
    ensures SerialisedName("LightGrey") == "lightgray"
  {
    assert Replace("LightGrey", "LightGrey", "LightGray") == "LightGray";
  }
}
