# SVG colour converter, modelled in Dafny

This project models `SvgColourConverter`, the type converter of the SVG rendering library. It turns the text of an SVG colour attribute into a colour and writes a colour back as text. The model covers:

- **Parse**. It trims the text and tries a fixed sequence of rules:
  1. the `rgb(...)`/`rgba(...)` notation;
  2. the `hsl(...)` notation;
  3. a `#rgb` or `#rrggbb` colour;
  4. one of the 27 keywords of the switch (the CSS2 system colours without ThreeDShadow), found through a 32-bit FNV-1a hash of its ASCII lower-case form;
  5. a plain Int32 literal, which means "not set";
  6. a trailing `grey`, respelt `gray`.

  Whatever no rule claims goes to the library's named-colour conversion.
- **ConvertFrom**. A string goes to Parse; any other value goes to the library.
- **ConvertTo**. For a string destination, the library's HTML name is post-processed.

The modules follow the converter's structure:

| file | module | what it holds |
|---|---|---|
| `text.dfy` | `Text` | span trimming and searching, ASCII lower-casing, the ',' / ' ' token split, ordinal replace |
| `numbers.dfy` | `Numbers` | Int32 and decimal literals, `Math.Round`, `ClampInt`/`ClampFloat`/`ClampDouble`, `ClampHue`, hex digit pairs |
| `colours.dfy` | `Colours` | the four-channel colour and `Color.FromArgb` |
| `system_colours.dfy` | `SystemColours` | `ToLowerAscii`, `ComputeStringHash`, `TryToGetSystemColor` and the keyword-to-hash proofs |
| `rgb.dfy` | `RgbNotation` | the rgb token loop and the colour it denotes |
| `hsl.dfy` | `HslNotation` | the hsl token loop and the fractions it denotes |
| `converter.dfy` | `ColourConverter` | the rule order of Parse, the hex and grey branches, ConvertFrom and the ConvertTo post-processing |

The four loops of the source are methods, each proved against a function that says what it computes:

- the rgb token loop (`DecodeRgb` against `RgbValue`);
- the hsl token loop (`DecodeHsl` against `HslValue`);
- the ASCII lower-casing loop, which writes into an `array` in place (`ToLowerAscii` against `AsciiLower`);
- the FNV-1a loop (`ComputeStringHash` against `Fnv1a`).

The grey check lower-cases into a zeroed 32-character array (`GreyRewrite`). `Parse` runs these methods in the source's order and is proved equal to the function `Interpret`, and the lemmas about parsing are stated over `Interpret`.

Behaviour of the code that the model keeps, where the CSS colour syntax that SVG refers to (CSS Color Module Level 3) reads differently. In each case the model follows the code.

- An rgb argument list with fewer than three tokens is accepted. Missing channels are 0 and a missing alpha is 255.
- An hsl argument list with fewer than three tokens is accepted as well. A fourth (hsla alpha) token is an error.
- `ClampHue` keeps 360, and it maps a negative whole number of turns (such as -360) to 360, not to 0.
- The grey check uses the *first* case-insensitive `grey`. It lower-cases into a 32-character buffer, so a longer text is never respelt.
- The `rgb` and `hsl` prefixes are compared ordinally and case-sensitively. A text such as `RGB(1,2,3)` falls through to the later rules.
- A `#` text of a length other than 4 or 7 falls through to the later rules. A bad hex digit throws a format error, which is not the converter's own invalid-format error.
- The switch has no case for ThreeDShadow, one of the 28 CSS2 system colours (nor has the legacy lookup of lines 597-740). `threedshadow` is not taken by the keyword rule and goes on to the later rules.
- The keyword switch compares hashes only. There are 27 case constants for 26 distinct colours: buttonhighlight and threedlightshadow both give ControlLightLight.
- The final fallback receives the original, untrimmed text.
- ConvertTo writes the library's `LightGrey` as `lightgray`.
- The integer test uses `int.TryParse` with `NumberStyles.Integer`, which skips white space around the literal and any '\0' characters after it: `12\0` gives NotSet.
- `int.Parse` with `AllowHexSpecifier` skips trailing '\0' characters too, so the low digit of a `#rrggbb` pair may be '\0': `#aabbc\0` is red 0xaa, green 0xbb, blue 0x0c.

## Model

| member | source | states |
|---|---|---|
| Numbers.ClampInt | Source/Painting/SvgColourConverter.cs:17-20 | the result is never above max, never below min when min <= max, and equals the value inside the range, max above it and min below it |
| Numbers.ClampReal | Source/Painting/SvgColourConverter.cs:22-30 | ClampFloat and ClampDouble over exact reals: the same bounds and cases as ClampInt |
| Numbers.Truncate | Source/Painting/SvgColourConverter.cs:37-41 | the quotient used by C# `%` on doubles rounds toward zero: within one of x, on the side of zero |
| Numbers.Rem360 | Source/Painting/SvgColourConverter.cs:36-42 | `x % 360.0` lies in [0, 360) for non-negative x and differs from x by a whole number of turns |
| Numbers.WholeTurnsClosed | Source/Painting/SvgColourConverter.cs:39-42 | a whole number of turns stays whole when negated or when one turn is added |
| Numbers.ClampHue | Source/Painting/SvgColourConverter.cs:32-45 | the hue lies in [0, 360], differs from the input by whole turns, is unchanged inside [0, 360], and is 360 only for an input of 360 or a negative one |
| Numbers.ClampHueAbove | Source/Painting/SvgColourConverter.cs:34-37 | a hue above 360 becomes its remainder modulo 360, which is below 360 |
| Numbers.ClampHueOfNegativeTurns | Source/Painting/SvgColourConverter.cs:39-42 | -360·k for k > 0 becomes 360, not 0 |
| Numbers.ParseInt32 | Source/Painting/SvgColourConverter.cs:300-311 | an accepted integer literal lies in the Int32 range |
| Numbers.LiteralBody | Source/Painting/SvgColourConverter.cs:302 | the part of the text the integer parser reads is never longer than the text, and is the whole text when nothing at either end is skippable |
| Numbers.ParseInt32FirstCharacter | Source/Painting/SvgColourConverter.cs:302 | a text read as an integer starts with a digit, a sign or number white space |
| Numbers.ParseInt32SkipsTrailingNuls | Source/Painting/SvgColourConverter.cs:302 | '\0' characters appended to a text do not change how it reads as an integer |
| Numbers.ParseInt32OfText | Source/Painting/SvgColourConverter.cs:302 | every Int32 is read back from its own invariant-culture text |
| Numbers.DigitsValueOfDecimal | Source/Painting/SvgColourConverter.cs:302 | reading back the decimal digits of a natural number gives the number |
| Numbers.DotIndex | Source/Painting/SvgColourConverter.cs:196 | the position of the first '.', or -1 when there is none |
| Numbers.ParseDecimalOfInteger | Source/Painting/SvgColourConverter.cs:196 | the literal part of a text that reads as an Int32 reads as the same number when read as a decimal |
| Numbers.DecimalValue | Source/Painting/SvgColourConverter.cs:196 | the value of a decimal literal's digits is never negative |
| Numbers.ParseDecimalOfDigits | Source/Painting/SvgColourConverter.cs:196 | a run of digits reads as its decimal value |
| Numbers.ParseDecimalWithPoint | Source/Painting/SvgColourConverter.cs:196 | digits, a '.' and digits read as the whole part plus the fraction over the matching power of ten |
| Numbers.ParseDecimalNegated | Source/Painting/SvgColourConverter.cs:196 | a leading '-' negates the value of an unsigned literal and refuses exactly what the literal refuses |
| Numbers.RoundHalfEven | Source/Painting/SvgColourConverter.cs:147-157 | Math.Round gives an integer within one half of x, and the even one at a tie |
| Numbers.RoundHalfEvenOfInteger | Source/Painting/SvgColourConverter.cs:147-157 | rounding an integer leaves it unchanged |
| Numbers.HexDigitValue | Source/Painting/SvgColourConverter.cs:260-262 | a hex digit's value is below 16 and agrees with the decimal value on '0'..'9' |
| Numbers.ParseHexPair | Source/Painting/SvgColourConverter.cs:260-262 | a pair parses exactly when the first character is a hex digit and the second a hex digit or a trailing '\0'; the value is a byte whose nibbles are the two digits, or the first digit alone before '\0' |
| Colours.FromArgb | Source/Painting/SvgColourConverter.cs:166-168 | Color.FromArgb succeeds exactly when all four channels lie in 0..255, and keeps them |
| Text.TrimStart | Source/Painting/SvgColourConverter.cs:49 | the result is a suffix of the input; everything removed is white space and the result does not start with white space |
| Text.TrimEnd | Source/Painting/SvgColourConverter.cs:49 | the result is a prefix of the input; everything removed is white space and the result does not end with white space |
| Text.Trim | Source/Painting/SvgColourConverter.cs:49 | the trimmed span neither starts nor ends with white space and is no longer than the input |
| Text.TrimIsSlice | Source/Painting/SvgColourConverter.cs:49 | the trimmed span is a slice of the input, and everything cut off before and after it is white space |
| Text.TrimKeeps | Source/Painting/SvgColourConverter.cs:49 | a text with no white space at either end is its own trimmed form |
| Text.TrimIdempotent | Source/Painting/SvgColourConverter.cs:49 | trimming twice is trimming once |
| Text.IndexOf | Source/Painting/SvgColourConverter.cs:57-58 | the first position of a character, or -1 exactly when it does not occur |
| Text.IndexOfSeq | Source/Painting/SvgColourConverter.cs:52 | the first position where a pattern occurs, or -1 exactly when it occurs nowhere |
| Text.OccursShift | Source/Painting/SvgColourConverter.cs:321 | the occurrences of a pattern in a text without its first character are those of the text moved by one |
| Text.IndexOfSeqSameOccurrences | Source/Painting/SvgColourConverter.cs:321 | two texts in which a pattern occurs at the same positions give the same first occurrence |
| Text.IndexOfSeqZero | Source/Painting/SvgColourConverter.cs:52 | `IndexOf(pattern) == 0` holds exactly when the text starts with the pattern |
| Text.NotPrefixByFirstChar | Source/Painting/SvgColourConverter.cs:177 | a text whose first character differs from the pattern's does not start with it |
| Text.TrimEndChar | Source/Painting/SvgColourConverter.cs:72-74 | TrimEnd('%') removes exactly the trailing run of that character |
| Text.PercentageShape | Source/Painting/SvgColourConverter.cs:72-74 | a token counts as a percentage exactly when it has one '%', at its end, and TrimEnd then removes only that '%' |
| Text.LowerChar | Source/Painting/SvgColourConverter.cs:368-396 | 'A'..'Z' map to 'a'..'z'; every other character is copied |
| Text.AsciiLower | Source/Painting/SvgColourConverter.cs:364-400 | the length is kept and every position is lower-cased on its own |
| Text.AsciiLowerMeaning | Source/Painting/SvgColourConverter.cs:364-400 | the result has no ASCII capital, non-capitals are unchanged, and a text with no capital is its own lower case |
| Text.AsciiLowerIdempotent | Source/Painting/SvgColourConverter.cs:364-400 | lower-casing twice is lower-casing once |
| Text.RunLength | Source/Painting/SvgColourConverter.cs:59 | the length of the leading run of characters that are neither ',' nor ' ' |
| Text.Tokens | Source/Painting/SvgColourConverter.cs:59 | every token of the split is non-empty and holds no separator |
| Text.WithoutSeparatorsAppend | Source/Painting/SvgColourConverter.cs:59 | removing separators distributes over concatenation |
| Text.WithoutSeparatorsOfWord | Source/Painting/SvgColourConverter.cs:59 | a text without separators is unchanged by removing them |
| Text.TokensCover | Source/Painting/SvgColourConverter.cs:59 | the tokens, joined in order, are the argument list with its separators removed: the split loses nothing else |
| Text.TokensOfWord | Source/Painting/SvgColourConverter.cs:59 | a text with no separator is one token |
| Text.TokensSplitAtSeparator | Source/Painting/SvgColourConverter.cs:59 | a separator splits the list: the tokens around it are those before it followed by those after it |
| Text.Replace | Source/Painting/SvgColourConverter.cs:766 | replacing a pattern by one of the same length keeps the length of the text |
| Text.ReplaceAbsent | Source/Painting/SvgColourConverter.cs:766 | replacing a pattern that does not occur changes nothing |
| Text.UnborderedOccurrencesApart | Source/Painting/SvgColourConverter.cs:766 | two occurrences of a pattern with no proper suffix that is also its prefix never overlap |
| Text.ReplaceKeepsUncovered | Source/Painting/SvgColourConverter.cs:766 | a same-length replacement keeps every character that no occurrence of the pattern covers |
| Text.ReplaceAtOccurrence | Source/Painting/SvgColourConverter.cs:766 | an occurrence that no earlier occurrence overlaps becomes the replacement |
| Text.ReplaceMeaning | Source/Painting/SvgColourConverter.cs:766 | for a pattern whose occurrences cannot overlap, replacing keeps the length, turns every occurrence into the replacement and keeps every other character |
| Text.ReplaceKeepsHead | Source/Painting/SvgColourConverter.cs:766-768 | replacing "LightGrey" by "LightGray" keeps emptiness and the first character, so the '#' test sees the library's first character |
| RgbNotation.PercentToByte | Source/Painting/SvgColourConverter.cs:72-78 | a percentage channel is Math.Round(255·p/100) of the clamped value, in 0..255, 0 at or below 0 % and 255 at or above 100 % |
| RgbNotation.ChannelValue | Source/Painting/SvgColourConverter.cs:70-135 | a channel token of the other kind than red's is refused; an accepted channel lies in 0..255, and an integer token gives ClampInt(value, 0, 255) |
| RgbNotation.AlphaToByte | Source/Painting/SvgColourConverter.cs:146-157 | an alpha of at most 1 scales by 255 after clamping to [0, 1]; a larger one is clamped to 255; the result is a byte |
| RgbNotation.AlphaValue | Source/Painting/SvgColourConverter.cs:137-157 | the alpha token is accepted exactly when it reads as a decimal number, and gives a byte |
| RgbNotation.TokenValue | Source/Painting/SvgColourConverter.cs:68-162 | tokens 0..2 are channels, token 3 is alpha, any later token is refused; every accepted value is a byte |
| RgbNotation.RgbValue | Source/Painting/SvgColourConverter.cs:61-168 | an accepted argument list has at most four tokens and gives an in-range colour, with alpha 255 when there is no fourth token |
| RgbNotation.DecodeRgb | Source/Painting/SvgColourConverter.cs:61-168 | the token loop, with its position counter and percentage flag, returns exactly the colour RgbValue describes, or nothing |
| RgbNotation.MixedModeRefused | Source/Painting/SvgColourConverter.cs:87-135 | a green or blue token of the other kind than red makes the list invalid |
| RgbNotation.FifthTokenRefused | Source/Painting/SvgColourConverter.cs:159-161 | a fifth token makes the list invalid |
| RgbNotation.RgbAccepted | Source/Painting/SvgColourConverter.cs:61-168 | a list is accepted if and only if it has at most four tokens, green and blue share red's kind, each channel reads and a fourth token is a decimal |
| RgbNotation.MissingChannelsAreZero | Source/Painting/SvgColourConverter.cs:60-64 | missing green and blue channels are 0, and an empty list gives opaque black |
| RgbNotation.IntegerChannelsClamped | Source/Painting/SvgColourConverter.cs:80-84 | in integer mode every channel is its Int32 value clamped to 0..255 |
| RgbNotation.AlphaFromFourthToken | Source/Painting/SvgColourConverter.cs:137-157 | with four tokens, alpha is the fourth token's decimal value brought to a byte |
| HslNotation.HueFraction | Source/Painting/SvgColourConverter.cs:194-199 | the hue token is accepted exactly when it reads as a decimal; the fraction lies in [0, 1], and 360 times it differs from the hue by whole turns |
| HslNotation.PercentFraction | Source/Painting/SvgColourConverter.cs:200-228 | saturation and lightness must be percentages; the fraction lies in [0, 1] |
| HslNotation.HslTokenValue | Source/Painting/SvgColourConverter.cs:192-232 | token 0 is the hue, tokens 1 and 2 percentages, a later token is refused; every accepted value is a fraction |
| HslNotation.HslValue | Source/Painting/SvgColourConverter.cs:186-238 | an accepted list has at most three tokens and gives three fractions in [0, 1] |
| HslNotation.DecodeHsl | Source/Painting/SvgColourConverter.cs:186-238 | the token loop returns exactly the fractions HslValue describes, or nothing |
| HslNotation.FourthTokenRefused | Source/Painting/SvgColourConverter.cs:229-232 | a fourth token makes the list invalid |
| HslNotation.SaturationLightnessArePercentages | Source/Painting/SvgColourConverter.cs:200-228 | a saturation or lightness that is not a percentage makes the list invalid |
| HslNotation.HueHandedOn | Source/Painting/SvgColourConverter.cs:194-199 | the hue handed on is ClampHue of the token's value divided by 360 |
| HslNotation.MissingHslTokensAreZero | Source/Painting/SvgColourConverter.cs:185-188 | missing saturation and lightness are 0 |
| SystemColours.CodeUnits | Source/Painting/SvgColourConverter.cs:354 | one 32-bit code per character |
| SystemColours.FnvOfCodesAppend | Source/Painting/SvgColourConverter.cs:350-358 | hashing a concatenation continues the hash of the first part with the second |
| SystemColours.CodeUnitsAppend | Source/Painting/SvgColourConverter.cs:354 | the codes of a concatenation are the concatenated codes |
| SystemColours.Fnv1aSteps | Source/Painting/SvgColourConverter.cs:341-362 | FNV-1a by its definition: the empty text hashes to the offset basis, and each further character is one xor-and-multiply round |
| SystemColours.ComputeStringHash | Source/Painting/SvgColourConverter.cs:341-362 | the goto loop computes the 32-bit FNV-1a hash of the text, with wrap-around multiplication |
| SystemColours.ToLowerAscii | Source/Painting/SvgColourConverter.cs:364-400 | the buffer's first cells become the ASCII lower case of the text and the rest of the buffer is untouched |
| SystemColours.TryToGetSystemColor | Source/Painting/SvgColourConverter.cs:402-439 | the answer is the switch applied to the FNV-1a hash of the lower-cased text |
| SystemColours.ThreeDShadowNotRecognised | Source/Painting/SvgColourConverter.cs:407-436 | "threedshadow", in any ASCII case, hashes to 0x9fc3ba81, which no case has, so the lookup finds no system colour |
| SystemColours.ColourForHashCases | Source/Painting/SvgColourConverter.cs:407-436 | neither 0 nor the offset basis is a case, and ControlLightLight is selected by exactly the two hashes of buttonhighlight and threedlightshadow |
| SystemColours.EmptyNamesNoSystemColour | Source/Painting/SvgColourConverter.cs:402-439 | the empty text is no keyword |
| SystemColours.SystemColourIgnoresCase | Source/Painting/SvgColourConverter.cs:402-439 | texts with the same ASCII lower case get the same answer |
| SystemColours.SystemColourOfLowered | Source/Painting/SvgColourConverter.cs:402-439 | a text and its ASCII lower case get the same answer |
| SystemColours.SwitchCasesAreHashes | Source/Painting/SvgColourConverter.cs:409-435 | for each of the 27 keywords, the case constant beside it is its FNV-1a hash |
| SystemColours.SwitchCasesSelectKeywords | Source/Painting/SvgColourConverter.cs:409-435 | each keyword's case constant selects the property the keyword names |
| SystemColours.KeywordsRecognised | Source/Painting/SvgColourConverter.cs:402-439 | every keyword, in any ASCII case, is recognised as its SystemColors property |
| SystemColours.HashOf_activeborder | Source/Painting/SvgColourConverter.cs:409 | the FNV-1a hash of "activeborder" is the case constant written beside it |
| SystemColours.HashOf_activecaption | Source/Painting/SvgColourConverter.cs:410 | the FNV-1a hash of "activecaption" is the case constant written beside it |
| SystemColours.HashOf_appworkspace | Source/Painting/SvgColourConverter.cs:411 | the FNV-1a hash of "appworkspace" is the case constant written beside it |
| SystemColours.HashOf_background | Source/Painting/SvgColourConverter.cs:412 | the FNV-1a hash of "background" is the case constant written beside it |
| SystemColours.HashOf_buttonface | Source/Painting/SvgColourConverter.cs:413 | the FNV-1a hash of "buttonface" is the case constant written beside it |
| SystemColours.HashOf_buttonhighlight | Source/Painting/SvgColourConverter.cs:414 | the FNV-1a hash of "buttonhighlight" is the case constant written beside it |
| SystemColours.HashOf_buttonshadow | Source/Painting/SvgColourConverter.cs:415 | the FNV-1a hash of "buttonshadow" is the case constant written beside it |
| SystemColours.HashOf_buttontext | Source/Painting/SvgColourConverter.cs:416 | the FNV-1a hash of "buttontext" is the case constant written beside it |
| SystemColours.HashOf_captiontext | Source/Painting/SvgColourConverter.cs:417 | the FNV-1a hash of "captiontext" is the case constant written beside it |
| SystemColours.HashOf_graytext | Source/Painting/SvgColourConverter.cs:418 | the FNV-1a hash of "graytext" is the case constant written beside it |
| SystemColours.HashOf_highlight | Source/Painting/SvgColourConverter.cs:419 | the FNV-1a hash of "highlight" is the case constant written beside it |
| SystemColours.HashOf_highlighttext | Source/Painting/SvgColourConverter.cs:420 | the FNV-1a hash of "highlighttext" is the case constant written beside it |
| SystemColours.HashOf_inactiveborder | Source/Painting/SvgColourConverter.cs:421 | the FNV-1a hash of "inactiveborder" is the case constant written beside it |
| SystemColours.HashOf_inactivecaption | Source/Painting/SvgColourConverter.cs:422 | the FNV-1a hash of "inactivecaption" is the case constant written beside it |
| SystemColours.HashOf_inactivecaptiontext | Source/Painting/SvgColourConverter.cs:423 | the FNV-1a hash of "inactivecaptiontext" is the case constant written beside it |
| SystemColours.HashOf_infobackground | Source/Painting/SvgColourConverter.cs:424 | the FNV-1a hash of "infobackground" is the case constant written beside it |
| SystemColours.HashOf_infotext | Source/Painting/SvgColourConverter.cs:425 | the FNV-1a hash of "infotext" is the case constant written beside it |
| SystemColours.HashOf_menu | Source/Painting/SvgColourConverter.cs:426 | the FNV-1a hash of "menu" is the case constant written beside it |
| SystemColours.HashOf_menutext | Source/Painting/SvgColourConverter.cs:427 | the FNV-1a hash of "menutext" is the case constant written beside it |
| SystemColours.HashOf_scrollbar | Source/Painting/SvgColourConverter.cs:428 | the FNV-1a hash of "scrollbar" is the case constant written beside it |
| SystemColours.HashOf_threeddarkshadow | Source/Painting/SvgColourConverter.cs:429 | the FNV-1a hash of "threeddarkshadow" is the case constant written beside it |
| SystemColours.HashOf_threedface | Source/Painting/SvgColourConverter.cs:430 | the FNV-1a hash of "threedface" is the case constant written beside it |
| SystemColours.HashOf_threedhighlight | Source/Painting/SvgColourConverter.cs:431 | the FNV-1a hash of "threedhighlight" is the case constant written beside it |
| SystemColours.HashOf_threedlightshadow | Source/Painting/SvgColourConverter.cs:432 | the FNV-1a hash of "threedlightshadow" is the case constant written beside it |
| SystemColours.HashOf_window | Source/Painting/SvgColourConverter.cs:433 | the FNV-1a hash of "window" is the case constant written beside it |
| SystemColours.HashOf_windowframe | Source/Painting/SvgColourConverter.cs:434 | the FNV-1a hash of "windowframe" is the case constant written beside it |
| SystemColours.HashOf_windowtext | Source/Painting/SvgColourConverter.cs:435 | the FNV-1a hash of "windowtext" is the case constant written beside it |
| ColourConverter.FunctionArguments | Source/Painting/SvgColourConverter.cs:57-59 | the slice exists exactly when there is a ')' after the first '('; it holds no ')' and is shorter than the text |
| ColourConverter.RgbOutcome | Source/Painting/SvgColourConverter.cs:52-174 | the rgb branch gives an in-range colour or the invalid-format error naming the trimmed text |
| ColourConverter.HslOutcome | Source/Painting/SvgColourConverter.cs:177-245 | the hsl branch gives fractions in [0, 1] or the invalid-format error naming the trimmed text |
| ColourConverter.HexOutcome | Source/Painting/SvgColourConverter.cs:248-286 | the '#' branch gives a colour with alpha 255 and byte channels, or the format error |
| ColourConverter.HexOutcomeAccepts | Source/Painting/SvgColourConverter.cs:248-286 | the '#' branch gives a colour exactly when int.Parse accepts all three pairs: every digit hexadecimal, except that a #rrggbb low digit may be '\0' |
| ColourConverter.GreyBuffer | Source/Painting/SvgColourConverter.cs:317-319 | the zeroed 32-character buffer holds the lower-cased text when it fits and only zeros when it does not |
| ColourConverter.GreyRewrite | Source/Painting/SvgColourConverter.cs:314-335 | the grey check, run on a zeroed 32-character array, gives the name GreyName describes |
| ColourConverter.LaterRules | Source/Painting/SvgColourConverter.cs:293-335 | the keyword, integer and grey rules give only a system colour, NotSet or a name for the library |
| ColourConverter.Rules | Source/Painting/SvgColourConverter.cs:49-335 | every colour the rules build from channels has byte channels |
| ColourConverter.RulesOutcomes | Source/Painting/SvgColourConverter.cs:49-335 | the rules never delegate; their errors are the format error or the invalid-format error naming the text; hsl fractions lie in [0, 1]; a name comes only from the grey check |
| ColourConverter.InterpretOutcomes | Source/Painting/SvgColourConverter.cs:47-339 | Parse never delegates; its errors are the format error or the invalid-format error naming the trimmed text; hsl fractions lie in [0, 1]; a name is the text itself or the grey check's respelling |
| ColourConverter.Parse | Source/Painting/SvgColourConverter.cs:47-339 | Parse, running the loops and the lookup as the source does, returns exactly what Interpret says |
| ColourConverter.ConvertFrom | Source/Painting/SvgColourConverter.cs:454-462 | a string is parsed; any other value is handed to the library |
| ColourConverter.SerialisedName | Source/Painting/SvgColourConverter.cs:762-772 | the name keeps its length; a '#' name still starts with '#'; any other name has no ASCII capital |
| ColourConverter.LaterRulesApply | Source/Painting/SvgColourConverter.cs:52-248 | a text that is not rgb, not hsl and not a 4- or 7-character '#' colour is left to the later rules |
| ColourConverter.FirstCharacterSkipsEarlierRules | Source/Painting/SvgColourConverter.cs:52-248 | a text not starting with 'r', 'h' or '#' is left to the later rules |
| ColourConverter.InvalidFormatNamesTrimmedText | Source/Painting/SvgColourConverter.cs:170-173 | every invalid-format error names the trimmed text and comes from the rgb or hsl branch |
| ColourConverter.RgbMixedModeFails | Source/Painting/SvgColourConverter.cs:87-135 | a green or blue token of the other kind than red makes Parse fail with the invalid-format error |
| ColourConverter.RgbFifthTokenFails | Source/Painting/SvgColourConverter.cs:159-173 | a fifth rgb token makes Parse fail with the invalid-format error |
| ColourConverter.UnclosedArgumentsFail | Source/Painting/SvgColourConverter.cs:170-173 | an rgb or hsl text without a ')' after its first '(' fails with the invalid-format error |
| ColourConverter.HslStructure | Source/Painting/SvgColourConverter.cs:200-244 | a fourth hsl token, or a saturation or lightness that is not a percentage, makes Parse fail with the invalid-format error |
| ColourConverter.HslRules | Source/Painting/SvgColourConverter.cs:177 | a text starting with "hsl" is taken by the hsl branch |
| ColourConverter.ChannelsInRange | Source/Painting/SvgColourConverter.cs:166-168 | every colour Parse builds from channels has all four channels in 0..255 |
| ColourConverter.HexColours | Source/Painting/SvgColourConverter.cs:248-286 | a 4- or 7-character '#' text gives a colour with alpha 255 exactly when int.Parse accepts its digits (hexadecimal, or '\0' as a #rrggbb low digit), and the format error otherwise |
| ColourConverter.ShortHexDoublesDigits | Source/Painting/SvgColourConverter.cs:252-268 | #rgb gives each channel 17 times its digit's value |
| ColourConverter.LongHexReadsPairs | Source/Painting/SvgColourConverter.cs:271-285 | #rrggbb reads three byte pairs, the first digit of each the high one |
| ColourConverter.ShortHexIsLongHex | Source/Painting/SvgColourConverter.cs:252-285 | #rgb and #rrggbb with doubled digits are the same colour, as "#fb0" and "#ffbb00" |
| ColourConverter.ShortHexOutcomeIsLong | Source/Painting/SvgColourConverter.cs:252-285 | the '#' branch reads #rgb and the #rrggbb with each digit doubled as the same colour, each channel 17 times its digit |
| ColourConverter.LongHexTrailingNul | Source/Painting/SvgColourConverter.cs:271-285 | a #rrggbb text ending in '\0' parses, its blue channel the last digit's value alone, as "#aabbc\0" gives blue 0x0c |
| ColourConverter.HexWithoutSpaces | Source/Painting/SvgColourConverter.cs:248-268 | a '#' colour ending in a hex digit needs no trimming and is read by the '#' branch |
| ColourConverter.OtherHexLengthsFallThrough | Source/Painting/SvgColourConverter.cs:248-291 | a '#' text of any other length is not an error but goes on to the later rules |
| ColourConverter.UpperCasePrefixesAreNotFunctional | Source/Painting/SvgColourConverter.cs:52 | "RGB" and "HSL" prefixes are not functional notations |
| ColourConverter.IntegersAreNotSet | Source/Painting/SvgColourConverter.cs:293-311 | an Int32 literal that is not taken for a keyword gives NotSet and never reaches the grey check or the library |
| ColourConverter.IntegerRules | Source/Painting/SvgColourConverter.cs:300-311 | the rules give NotSet for an Int32 literal that the keyword lookup passes by |
| ColourConverter.GreyNameMeaning | Source/Painting/SvgColourConverter.cs:314-335 | the grey check fires if and only if the text fits in 32 characters and its first case-insensitive "grey" ends it; the name is the text before it followed by "Gray" or "gray", after that "grey"'s first letter |
| ColourConverter.GreyTextStartsWithItsLetters | Source/Painting/SvgColourConverter.cs:321-325 | the "grey" that ends the text starts with a 'g' or 'G', and a four-character text is "grey" itself |
| ColourConverter.GreyRespelt | Source/Painting/SvgColourConverter.cs:313-335 | after the keywords and integers, a text whose first "grey" ends it goes to the library respelt with "gray" |
| ColourConverter.FallbackIsUntrimmed | Source/Painting/SvgColourConverter.cs:337-338 | what no rule claims goes to the library as the original, untrimmed text |
| ColourConverter.KeywordsAvoidEarlierRules | Source/Painting/SvgColourConverter.cs:409-435 | no keyword starts with 'r' or '#', and those starting with 'h' continue with 'i' |
| ColourConverter.SystemColourFirst | Source/Painting/SvgColourConverter.cs:293-297 | a text the keyword lookup recognises is taken by the keyword rule before the integer and grey rules |
| ColourConverter.KeywordsSkipEarlierRules | Source/Painting/SvgColourConverter.cs:409-435 | a keyword, in any ASCII case, is neither an rgb or hsl notation nor a '#' colour |
| ColourConverter.LowerShapeSkipsEarlierRules | Source/Painting/SvgColourConverter.cs:52-248 | a text whose lower case starts with neither 'r' nor '#', and has 'i' after a leading 'h', is left to the later rules |
| ColourConverter.KeywordRules | Source/Painting/SvgColourConverter.cs:293-297 | the rules turn a keyword, in any ASCII case, into its SystemColors property |
| ColourConverter.SystemKeywordsRecognised | Source/Painting/SvgColourConverter.cs:402-439 | every keyword, in any ASCII case and with any surrounding white space, parses as its SystemColors property |
| ColourConverter.OnlyFallbackSeesWhiteSpace | Source/Painting/SvgColourConverter.cs:338 | two texts with the same trimmed form parse alike, unless both reach the fallback, which keeps each text as it came |
| ColourConverter.SerialisedNameCase | Source/Painting/SvgColourConverter.cs:762-768 | a '#' name is returned after the replacement only; any other name is the replaced text in ASCII lower case, with no ASCII capital |
| ColourConverter.NamesAreLowered | Source/Painting/SvgColourConverter.cs:766-768 | a name without "LightGrey" that does not start with '#' is written in ASCII lower case |
| ColourConverter.LightGreyUnbordered | Source/Painting/SvgColourConverter.cs:766 | occurrences of "LightGrey" cannot overlap, so the replacement reaches every one |
| ColourConverter.SerialisedNameMeaning | Source/Painting/SvgColourConverter.cs:762-772 | character by character: every "LightGrey" becomes "LightGray" in a '#' name and "lightgray" in any other; every other character is kept in a '#' name and ASCII lower-cased in any other |
| ColourConverter.HexNamesUnchanged | Source/Painting/SvgColourConverter.cs:766-768 | a '#' name without "LightGrey" comes back unchanged |
| ColourConverter.LightGreyIsWrittenLightGray | Source/Painting/SvgColourConverter.cs:766-768 | the library's "LightGrey" is written "lightgray" |

## Left out

- `Hsl2Rgb` (lines 782-839) is double-precision arithmetic. The hsl branch's outcome is the three fractions handed to it, not the resulting colour.
- Floating point. `float` and `double` values are exact reals. `Math.Round` is round-half-to-even on reals. Rounding error of `ToFloatAny`, `ToDouble` and the `/ 100f` scaling is not modelled.
- `StringParser.ToInt`, `ToFloatAny` and `ToDouble` are not part of this model. `ToInt` is taken to read a token as `int.TryParse` with `NumberStyles.Integer` does (`ParseInt32`): white space, an optional sign, decimal digits in the Int32 range, then white space and trailing '\0' characters. The other two are taken to read an optional sign, digits and at most one '.', with no exponent, no NaN or infinity, and no white space or '\0' around the literal.
- `StringSplitEnumerator` is not part of this model. It is taken to split on ',' and ' ' and drop empty entries, as the older `Parse_OLD` does with `Split(..., RemoveEmptyEntries)`.
- `base.ConvertFrom` and `ColorTranslator.ToHtml` are calls into System.Drawing. The outcome `Named` is the text handed to the named-colour conversion; `Delegated` stands for a non-string value handed on. `SerialisedName` takes the HTML name as its input.
- `SystemColors` values are platform theme colours. A recognised keyword gives the name of the property, not its colour.
- Culture-aware comparisons are ASCII here. This covers `Contains(..., InvariantCultureIgnoreCase)`, `ToLowerInvariant` in the grey check and in ConvertTo, and the culture of `StartsWith("#")`. A non-ASCII letter with an invariant lower case, or an ignorable character, can behave differently in .NET.
- SystemColours.KeywordsRecognised: recognition is proved for the 27 keywords in any ASCII case. Other texts whose hash collides with a case constant are also accepted by the switch. The model keeps that behaviour but does not enumerate those texts.
- ComputeStringHash: the `text != null` test of line 344 is made on the stack buffer of line 404. Whether an empty buffer compares equal to null, which would give the hash 0 instead of the offset basis, is not modelled: the model always starts from the offset basis. Neither value is a case constant (SystemColours.ColourForHashCases), so the lookup's answer is none either way.
- `Parse_OLD` and `TryToGetSystemColor_OLD` (lines 464-740) are a legacy variant that nothing in the converter calls.
- `CanConvertFrom` and `CanConvertTo` (lines 742-760) are type tests over .NET types.
- ConvertTo to destinations other than `string` is delegated to the base class.
- The context and culture parameters are not used by the modelled code paths and are left out.
- CodeUnits: a Dafny `char` is a Unicode scalar value, not a UTF-16 code unit. A character outside the Basic Multilingual Plane is one `char` here but two surrogate code units in .NET, so the model hashes it as one code where the source hashes two (this applies to Fnv1a and ComputeStringHash as well). A lone surrogate cannot be represented at all. Texts of Basic Multilingual Plane characters are modelled exactly.
- GreyBuffer: for the same reason a character outside the Basic Multilingual Plane counts once here, and twice in .NET, against the 32-character buffer of the grey check; likewise for the 4- and 7-character tests of the '#' branch and every other length and position.
- Trim: its own contract states only the two ends and the length. That the result is the slice left after cutting the white space at both ends is the separate lemma Text.TrimIsSlice, so that the proofs about Parse do not carry an existential.
- Tokens: its own contract states that every token is non-empty and free of separators. Where the split falls is stated by Text.TokensCover, Text.TokensOfWord and Text.TokensSplitAtSeparator.
