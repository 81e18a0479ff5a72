/**
 * The system-colour keywords: the text is lower-cased (ASCII only) into a buffer,
 * hashed with 32-bit FNV-1a, and the hash selects one of the SystemColors
 * properties. Only the hash is compared, never the text.
 */
module SystemColours {
  import opened Wrappers
  import opened Text

  /** The System.Drawing.SystemColors properties a keyword can name. */
  datatype SystemColour =
    | ActiveBorder | ActiveCaption | ActiveCaptionText | AppWorkspace | ButtonFace
    | Control | ControlDark | ControlDarkDark | ControlLight | ControlLightLight | ControlText
    | Desktop | GrayText | Highlight | HighlightText
    | InactiveBorder | InactiveCaption | InactiveCaptionText | Info | InfoText
    | Menu | MenuText | ScrollBar | Window | WindowFrame | WindowText

  const FnvOffsetBasis: bv32 := 2166136261
  const FnvPrime: bv32 := 16777619

  /** One round of FNV-1a: xor the word into the hash, multiply by the prime modulo 2^32. */
  function FnvRound(hash: bv32, code: bv32): bv32 {
    (code ^ hash) * FnvPrime
  }

  /** The code of each character of a text, widened to 32 bits as `text[i] ^ hashCode` does. */
  function CodeUnits(text: seq<char>): (r: seq<bv32>)
    ensures |r| == |text|
  {
    seq(|text|, i requires 0 <= i < |text| => text[i] as bv32)
  }

  /** FNV-1a over a run of words, starting from `hash`: one round per word, first to last. */
  function FnvOfCodes(hash: bv32, codes: seq<bv32>): bv32
    decreases |codes|
  {
    if |codes| == 0 then hash else FnvOfCodes(FnvRound(hash, codes[0]), codes[1..])
  }

  /** The 32-bit FNV-1a hash of a text: the offset basis, then one round per character. */
  function Fnv1a(text: seq<char>): bv32 {
    FnvOfCodes(FnvOffsetBasis, CodeUnits(text))
  }

  /** Hashing two runs of words one after the other is hashing the second from the hash of the first. */
  lemma {:induction false} FnvOfCodesAppend(hash: bv32, a: seq<bv32>, b: seq<bv32>)
    ensures FnvOfCodes(hash, a + b) == FnvOfCodes(FnvOfCodes(hash, a), b)
    decreases |a|
  {
    if |a| == 0 {
      assert a + b == b;
    } else {
      assert (a + b)[1..] == a[1..] + b;
      FnvOfCodesAppend(FnvRound(hash, a[0]), a[1..], b);
    }
  }

  /** The codes of a concatenation are those of its parts, concatenated. */
  lemma CodeUnitsAppend(a: seq<char>, b: seq<char>)
    ensures CodeUnits(a + b) == CodeUnits(a) + CodeUnits(b)
  {
    var joined, parts := CodeUnits(a + b), CodeUnits(a) + CodeUnits(b);
    forall i | 0 <= i < |joined|
      ensures joined[i] == parts[i]
    {
      if i < |a| {
        assert (a + b)[i] == a[i];
      } else {
        assert (a + b)[i] == b[i - |a|];
      }
    }
  }

  /** FNV-1a read from its definition: the empty text hashes to the offset basis, and each further character is one round. */
  lemma Fnv1aSteps(text: seq<char>, c: char)
    ensures Fnv1a([]) == FnvOffsetBasis
    ensures Fnv1a(text + [c]) == FnvRound(Fnv1a(text), c as bv32)
  {
    var h := Fnv1a(text);
    assert CodeUnits(text + [c]) == CodeUnits(text) + [c as bv32] by {
      CodeUnitsAppend(text, [c]);
      assert CodeUnits([c]) == [c as bv32];
    }
    FnvOfCodesAppend(FnvOffsetBasis, CodeUnits(text), [c as bv32]);
    assert FnvOfCodes(h, [c as bv32]) == FnvOfCodes(FnvRound(h, c as bv32), []);
  }

  /** ComputeStringHash: the goto loop of the source, one FNV-1a round per character. */
  method ComputeStringHash(text: seq<char>) returns (hashCode: bv32)
    ensures hashCode == Fnv1a(text)
  {
    hashCode := FnvOffsetBasis;
    var i := 0;
    while i < |text|
      invariant 0 <= i <= |text|
      invariant hashCode == Fnv1a(text[..i])
    {
      assert text[..i + 1] == text[..i] + [text[i]];
      CodeUnitsAppend(text[..i], [text[i]]);
      FnvOfCodesAppend(FnvOffsetBasis, CodeUnits(text[..i]), CodeUnits([text[i]]));
      hashCode := FnvRound(hashCode, text[i] as bv32);
      i := i + 1;
    }
    assert text[..i] == text;
  }

  /**
   * ToLowerAscii: writes the ASCII lower-case of `colour` into the first |colour|
   * cells of `buffer`, one cell per iteration, and leaves the rest untouched.
   */
  method ToLowerAscii(colour: seq<char>, buffer: array<char>)
    requires buffer.Length >= |colour|
    modifies buffer
    ensures buffer[..|colour|] == AsciiLower(colour)
    ensures buffer[|colour|..] == old(buffer[|colour|..])
  {
    var i := 0;
    while i < |colour|
      invariant 0 <= i <= |colour|
      invariant forall k :: 0 <= k < i ==> buffer[k] == LowerChar(colour[k])
      invariant forall k :: i <= k < buffer.Length ==> buffer[k] == old(buffer[k])
    {
      var c := colour[i];
      if 'A' <= c <= 'Z' {
        buffer[i] := (c as int + 32) as char;
      } else {
        buffer[i] := c;
      }
      i := i + 1;
    }
  }

  /** The switch of TryToGetSystemColor: the 27 hash constants and the property each selects (the keyword it stands for beside it). */
  function ColourForHash(hash: bv32): Option<SystemColour> {
    match hash
    case 0x96b1f469 => Some(ActiveBorder)                // activeborder
    case 0x2cc5885f => Some(ActiveCaption)               // activecaption
    case 0xb4f0f429 => Some(AppWorkspace)                // appworkspace
    case 0x4babd89d => Some(Desktop)                     // background
    case 0xb8a66038 => Some(ButtonFace)                  // buttonface
    case 0x9050ce9b => Some(ControlLightLight)           // buttonhighlight
    case 0x6ceea1b5 => Some(ControlDark)                 // buttonshadow
    case 0xb6b04242 => Some(ControlText)                 // buttontext
    case 0xf29413de => Some(ActiveCaptionText)           // captiontext
    case 0x9642ba91 => Some(GrayText)                    // graytext
    case 0x1c9ff127 => Some(Highlight)                   // highlight
    case 0x635b6be0 => Some(HighlightText)               // highlighttext
    case 0xa59d8bc6 => Some(InactiveBorder)              // inactiveborder
    case 0xba88bd1a => Some(InactiveCaption)             // inactivecaption
    case 0xcb67dc11 => Some(InactiveCaptionText)         // inactivecaptiontext
    case 0x9c8c4bdd => Some(Info)                        // infobackground
    case 0xb164837e => Some(InfoText)                    // infotext
    case 0x99e4dd3a => Some(Menu)                        // menu
    case 0x4c924831 => Some(MenuText)                    // menutext
    case 0xd5b6c079 => Some(ScrollBar)                   // scrollbar
    case 0xffa62901 => Some(ControlDarkDark)             // threeddarkshadow
    case 0x77fd6efc => Some(Control)                     // threedface
    case 0xd4724bc7 => Some(ControlLight)                // threedhighlight
    case 0x238bb757 => Some(ControlLightLight)           // threedlightshadow
    case 0xa172b7dd => Some(Window)                      // window
    case 0x6f554c7e => Some(WindowFrame)                 // windowframe
    case 0xe477b746 => Some(WindowText)                  // windowtext
    case _ => None
  }

  /**
   * Neither 0 (the hash of a null span) nor the offset basis (the hash of an empty one)
   * is a case, and ControlLightLight is reached by exactly two cases.
   */
  lemma ColourForHashCases(hash: bv32)
    ensures hash == 0 ==> ColourForHash(hash).None?
    ensures hash == FnvOffsetBasis ==> ColourForHash(hash).None?
    ensures ColourForHash(hash) == Some(ControlLightLight) <==> hash == 0x9050ce9b || hash == 0x238bb757
  {
  }

  /** The system colour a text names: decided by the FNV-1a hash of its ASCII lower-case form alone. */
  function SystemColourOf(colour: string): Option<SystemColour> {
    ColourForHash(Fnv1a(AsciiLower(colour)))
  }

  /** TryToGetSystemColor: lower-case into a fresh buffer of the text's length, hash it, look the hash up. */
  method TryToGetSystemColor(colour: seq<char>) returns (systemColour: Option<SystemColour>)
    ensures systemColour == SystemColourOf(colour)
  {
    var buffer := new char[|colour|];
    ToLowerAscii(colour, buffer);
    assert buffer[..] == buffer[..|colour|];
    var stringHash := ComputeStringHash(buffer[..]);
    systemColour := ColourForHash(stringHash);
  }

  /** The empty text names no system colour. */
  lemma EmptyNamesNoSystemColour()
    ensures SystemColourOf([]) == None
  {
    assert AsciiLower([]) == [];
    Fnv1aSteps([], 'a');
    ColourForHashCases(FnvOffsetBasis);
  }

  /** Texts with the same ASCII lower-case form get the same answer. */
  lemma SystemColourIgnoresCase(a: string, b: string)
    requires AsciiLower(a) == AsciiLower(b)
    ensures SystemColourOf(a) == SystemColourOf(b)
  {
  }

  /** In particular a text and its ASCII lower-case form get the same answer. */
  lemma SystemColourOfLowered(s: string)
    ensures SystemColourOf(AsciiLower(s)) == SystemColourOf(s)
  {
    AsciiLowerIdempotent(s);
  }

  /** The codes of the lower-case letters the keywords are spelt with. */
  lemma KeywordLetterCodes()
    ensures 'a' as bv32 == 0x61
    ensures 'b' as bv32 == 0x62
    ensures 'c' as bv32 == 0x63
    ensures 'd' as bv32 == 0x64
    ensures 'e' as bv32 == 0x65
    ensures 'f' as bv32 == 0x66
    ensures 'g' as bv32 == 0x67
    ensures 'h' as bv32 == 0x68
    ensures 'i' as bv32 == 0x69
    ensures 'k' as bv32 == 0x6b
    ensures 'l' as bv32 == 0x6c
    ensures 'm' as bv32 == 0x6d
    ensures 'n' as bv32 == 0x6e
    ensures 'o' as bv32 == 0x6f
    ensures 'p' as bv32 == 0x70
    ensures 'r' as bv32 == 0x72
    ensures 's' as bv32 == 0x73
    ensures 't' as bv32 == 0x74
    ensures 'u' as bv32 == 0x75
    ensures 'v' as bv32 == 0x76
    ensures 'w' as bv32 == 0x77
    ensures 'x' as bv32 == 0x78
    ensures 'y' as bv32 == 0x79
  {
  }

  /** The keywords the switch stands for, in lower case, and the property each names. */
  function KeywordColour(keyword: string): Option<SystemColour> {
    match keyword
    case "activeborder" => Some(ActiveBorder)
    case "activecaption" => Some(ActiveCaption)
    case "appworkspace" => Some(AppWorkspace)
    case "background" => Some(Desktop)
    case "buttonface" => Some(ButtonFace)
    case "buttonhighlight" => Some(ControlLightLight)
    case "buttonshadow" => Some(ControlDark)
    case "buttontext" => Some(ControlText)
    case "captiontext" => Some(ActiveCaptionText)
    case "graytext" => Some(GrayText)
    case "highlight" => Some(Highlight)
    case "highlighttext" => Some(HighlightText)
    case "inactiveborder" => Some(InactiveBorder)
    case "inactivecaption" => Some(InactiveCaption)
    case "inactivecaptiontext" => Some(InactiveCaptionText)
    case "infobackground" => Some(Info)
    case "infotext" => Some(InfoText)
    case "menu" => Some(Menu)
    case "menutext" => Some(MenuText)
    case "scrollbar" => Some(ScrollBar)
    case "threeddarkshadow" => Some(ControlDarkDark)
    case "threedface" => Some(Control)
    case "threedhighlight" => Some(ControlLight)
    case "threedlightshadow" => Some(ControlLightLight)
    case "window" => Some(Window)
    case "windowframe" => Some(WindowFrame)
    case "windowtext" => Some(WindowText)
    case _ => None
  }

  /** The case constant the switch puts beside each keyword. */
  function SwitchCase(keyword: string): bv32 {
    match keyword
    case "activeborder" => 0x96b1f469
    case "activecaption" => 0x2cc5885f
    case "appworkspace" => 0xb4f0f429
    case "background" => 0x4babd89d
    case "buttonface" => 0xb8a66038
    case "buttonhighlight" => 0x9050ce9b
    case "buttonshadow" => 0x6ceea1b5
    case "buttontext" => 0xb6b04242
    case "captiontext" => 0xf29413de
    case "graytext" => 0x9642ba91
    case "highlight" => 0x1c9ff127
    case "highlighttext" => 0x635b6be0
    case "inactiveborder" => 0xa59d8bc6
    case "inactivecaption" => 0xba88bd1a
    case "inactivecaptiontext" => 0xcb67dc11
    case "infobackground" => 0x9c8c4bdd
    case "infotext" => 0xb164837e
    case "menu" => 0x99e4dd3a
    case "menutext" => 0x4c924831
    case "scrollbar" => 0xd5b6c079
    case "threeddarkshadow" => 0xffa62901
    case "threedface" => 0x77fd6efc
    case "threedhighlight" => 0xd4724bc7
    case "threedlightshadow" => 0x238bb757
    case "window" => 0xa172b7dd
    case "windowframe" => 0x6f554c7e
    case "windowtext" => 0xe477b746
    case _ => 0
  }

  // The hash of each keyword, computed over its character codes; long keywords are cut in two.

  lemma CodesOf_active()
    ensures CodeUnits("active") == [0x61, 0x63, 0x74, 0x69, 0x76, 0x65]
  {
    KeywordLetterCodes();
  }

  lemma CodesOf_border()
    ensures CodeUnits("border") == [0x62, 0x6f, 0x72, 0x64, 0x65, 0x72]
  {
    KeywordLetterCodes();
  }

  lemma HashOf_activeborder()
    ensures FnvOfCodes(FnvOffsetBasis, CodeUnits("activeborder")) == 0x96b1f469
  {
    assert "activeborder" == "active" + "border";
    CodeUnitsAppend("active", "border");
    CodesOf_active();
    CodesOf_border();
    FnvOfCodesAppend(FnvOffsetBasis, [0x61, 0x63, 0x74, 0x69, 0x76, 0x65], [0x62, 0x6f, 0x72, 0x64, 0x65, 0x72]);
  }

  lemma CodesOf_caption()
    ensures CodeUnits("caption") == [0x63, 0x61, 0x70, 0x74, 0x69, 0x6f, 0x6e]
  {
    KeywordLetterCodes();
  }

  lemma HashOf_activecaption()
    ensures FnvOfCodes(FnvOffsetBasis, CodeUnits("activecaption")) == 0x2cc5885f
  {
    assert "activecaption" == "active" + "caption";
    CodeUnitsAppend("active", "caption");
    CodesOf_active();
    CodesOf_caption();
    FnvOfCodesAppend(FnvOffsetBasis, [0x61, 0x63, 0x74, 0x69, 0x76, 0x65], [0x63, 0x61, 0x70, 0x74, 0x69, 0x6f, 0x6e]);
  }

  lemma CodesOf_appwor()
    ensures CodeUnits("appwor") == [0x61, 0x70, 0x70, 0x77, 0x6f, 0x72]
  {
    KeywordLetterCodes();
  }

  lemma CodesOf_kspace()
    ensures CodeUnits("kspace") == [0x6b, 0x73, 0x70, 0x61, 0x63, 0x65]
  {
    KeywordLetterCodes();
  }

  lemma HashOf_appworkspace()
    ensures FnvOfCodes(FnvOffsetBasis, CodeUnits("appworkspace")) == 0xb4f0f429
  {
    assert "appworkspace" == "appwor" + "kspace";
    CodeUnitsAppend("appwor", "kspace");
    CodesOf_appwor();
    CodesOf_kspace();
    FnvOfCodesAppend(FnvOffsetBasis, [0x61, 0x70, 0x70, 0x77, 0x6f, 0x72], [0x6b, 0x73, 0x70, 0x61, 0x63, 0x65]);
  }

  lemma HashOf_background()
    ensures FnvOfCodes(FnvOffsetBasis, CodeUnits("background")) == 0x4babd89d
  {
    KeywordLetterCodes();
    assert CodeUnits("background") == [0x62, 0x61, 0x63, 0x6b, 0x67, 0x72, 0x6f, 0x75, 0x6e, 0x64];
  }

  lemma HashOf_buttonface()
    ensures FnvOfCodes(FnvOffsetBasis, CodeUnits("buttonface")) == 0xb8a66038
  {
    KeywordLetterCodes();
    assert CodeUnits("buttonface") == [0x62, 0x75, 0x74, 0x74, 0x6f, 0x6e, 0x66, 0x61, 0x63, 0x65];
  }

  lemma CodesOf_buttonh()
    ensures CodeUnits("buttonh") == [0x62, 0x75, 0x74, 0x74, 0x6f, 0x6e, 0x68]
  {
    KeywordLetterCodes();
  }

  lemma CodesOf_ighlight()
    ensures CodeUnits("ighlight") == [0x69, 0x67, 0x68, 0x6c, 0x69, 0x67, 0x68, 0x74]
  {
    KeywordLetterCodes();
  }

  lemma HashOf_buttonhighlight()
    ensures FnvOfCodes(FnvOffsetBasis, CodeUnits("buttonhighlight")) == 0x9050ce9b
  {
    assert "buttonhighlight" == "buttonh" + "ighlight";
    CodeUnitsAppend("buttonh", "ighlight");
    CodesOf_buttonh();
    CodesOf_ighlight();
    FnvOfCodesAppend(FnvOffsetBasis, [0x62, 0x75, 0x74, 0x74, 0x6f, 0x6e, 0x68], [0x69, 0x67, 0x68, 0x6c, 0x69, 0x67, 0x68, 0x74]);
  }

  lemma CodesOf_button()
    ensures CodeUnits("button") == [0x62, 0x75, 0x74, 0x74, 0x6f, 0x6e]
  {
    KeywordLetterCodes();
  }

  lemma CodesOf_shadow()
    ensures CodeUnits("shadow") == [0x73, 0x68, 0x61, 0x64, 0x6f, 0x77]
  {
    KeywordLetterCodes();
  }

  lemma HashOf_buttonshadow()
    ensures FnvOfCodes(FnvOffsetBasis, CodeUnits("buttonshadow")) == 0x6ceea1b5
  {
    assert "buttonshadow" == "button" + "shadow";
    CodeUnitsAppend("button", "shadow");
    CodesOf_button();
    CodesOf_shadow();
    FnvOfCodesAppend(FnvOffsetBasis, [0x62, 0x75, 0x74, 0x74, 0x6f, 0x6e], [0x73, 0x68, 0x61, 0x64, 0x6f, 0x77]);
  }

  lemma HashOf_buttontext()
    ensures FnvOfCodes(FnvOffsetBasis, CodeUnits("buttontext")) == 0xb6b04242
  {
    KeywordLetterCodes();
    assert CodeUnits("buttontext") == [0x62, 0x75, 0x74, 0x74, 0x6f, 0x6e, 0x74, 0x65, 0x78, 0x74];
  }

  lemma CodesOf_capti()
    ensures CodeUnits("capti") == [0x63, 0x61, 0x70, 0x74, 0x69]
  {
    KeywordLetterCodes();
  }

  lemma CodesOf_ontext()
    ensures CodeUnits("ontext") == [0x6f, 0x6e, 0x74, 0x65, 0x78, 0x74]
  {
    KeywordLetterCodes();
  }

  lemma HashOf_captiontext()
    ensures FnvOfCodes(FnvOffsetBasis, CodeUnits("captiontext")) == 0xf29413de
  {
    assert "captiontext" == "capti" + "ontext";
    CodeUnitsAppend("capti", "ontext");
    CodesOf_capti();
    CodesOf_ontext();
    FnvOfCodesAppend(FnvOffsetBasis, [0x63, 0x61, 0x70, 0x74, 0x69], [0x6f, 0x6e, 0x74, 0x65, 0x78, 0x74]);
  }

  lemma HashOf_graytext()
    ensures FnvOfCodes(FnvOffsetBasis, CodeUnits("graytext")) == 0x9642ba91
  {
    KeywordLetterCodes();
    assert CodeUnits("graytext") == [0x67, 0x72, 0x61, 0x79, 0x74, 0x65, 0x78, 0x74];
  }

  lemma HashOf_highlight()
    ensures FnvOfCodes(FnvOffsetBasis, CodeUnits("highlight")) == 0x1c9ff127
  {
    KeywordLetterCodes();
    assert CodeUnits("highlight") == [0x68, 0x69, 0x67, 0x68, 0x6c, 0x69, 0x67, 0x68, 0x74];
  }

  lemma CodesOf_highli()
    ensures CodeUnits("highli") == [0x68, 0x69, 0x67, 0x68, 0x6c, 0x69]
  {
    KeywordLetterCodes();
  }

  lemma CodesOf_ghttext()
    ensures CodeUnits("ghttext") == [0x67, 0x68, 0x74, 0x74, 0x65, 0x78, 0x74]
  {
    KeywordLetterCodes();
  }

  lemma HashOf_highlighttext()
    ensures FnvOfCodes(FnvOffsetBasis, CodeUnits("highlighttext")) == 0x635b6be0
  {
    assert "highlighttext" == "highli" + "ghttext";
    CodeUnitsAppend("highli", "ghttext");
    CodesOf_highli();
    CodesOf_ghttext();
    FnvOfCodesAppend(FnvOffsetBasis, [0x68, 0x69, 0x67, 0x68, 0x6c, 0x69], [0x67, 0x68, 0x74, 0x74, 0x65, 0x78, 0x74]);
  }

  lemma CodesOf_inactiv()
    ensures CodeUnits("inactiv") == [0x69, 0x6e, 0x61, 0x63, 0x74, 0x69, 0x76]
  {
    KeywordLetterCodes();
  }

  lemma CodesOf_eborder()
    ensures CodeUnits("eborder") == [0x65, 0x62, 0x6f, 0x72, 0x64, 0x65, 0x72]
  {
    KeywordLetterCodes();
  }

  lemma HashOf_inactiveborder()
    ensures FnvOfCodes(FnvOffsetBasis, CodeUnits("inactiveborder")) == 0xa59d8bc6
  {
    assert "inactiveborder" == "inactiv" + "eborder";
    CodeUnitsAppend("inactiv", "eborder");
    CodesOf_inactiv();
    CodesOf_eborder();
    FnvOfCodesAppend(FnvOffsetBasis, [0x69, 0x6e, 0x61, 0x63, 0x74, 0x69, 0x76], [0x65, 0x62, 0x6f, 0x72, 0x64, 0x65, 0x72]);
  }

  lemma CodesOf_ecaption()
    ensures CodeUnits("ecaption") == [0x65, 0x63, 0x61, 0x70, 0x74, 0x69, 0x6f, 0x6e]
  {
    KeywordLetterCodes();
  }

  lemma HashOf_inactivecaption()
    ensures FnvOfCodes(FnvOffsetBasis, CodeUnits("inactivecaption")) == 0xba88bd1a
  {
    assert "inactivecaption" == "inactiv" + "ecaption";
    CodeUnitsAppend("inactiv", "ecaption");
    CodesOf_inactiv();
    CodesOf_ecaption();
    FnvOfCodesAppend(FnvOffsetBasis, [0x69, 0x6e, 0x61, 0x63, 0x74, 0x69, 0x76], [0x65, 0x63, 0x61, 0x70, 0x74, 0x69, 0x6f, 0x6e]);
  }

  lemma CodesOf_inactivec()
    ensures CodeUnits("inactivec") == [0x69, 0x6e, 0x61, 0x63, 0x74, 0x69, 0x76, 0x65, 0x63]
  {
    KeywordLetterCodes();
  }

  lemma CodesOf_aptiontext()
    ensures CodeUnits("aptiontext") == [0x61, 0x70, 0x74, 0x69, 0x6f, 0x6e, 0x74, 0x65, 0x78, 0x74]
  {
    KeywordLetterCodes();
  }

  lemma HashOf_inactivecaptiontext()
    ensures FnvOfCodes(FnvOffsetBasis, CodeUnits("inactivecaptiontext")) == 0xcb67dc11
  {
    assert "inactivecaptiontext" == "inactivec" + "aptiontext";
    CodeUnitsAppend("inactivec", "aptiontext");
    CodesOf_inactivec();
    CodesOf_aptiontext();
    FnvOfCodesAppend(FnvOffsetBasis, [0x69, 0x6e, 0x61, 0x63, 0x74, 0x69, 0x76, 0x65, 0x63], [0x61, 0x70, 0x74, 0x69, 0x6f, 0x6e, 0x74, 0x65, 0x78, 0x74]);
  }

  lemma CodesOf_infobac()
    ensures CodeUnits("infobac") == [0x69, 0x6e, 0x66, 0x6f, 0x62, 0x61, 0x63]
  {
    KeywordLetterCodes();
  }

  lemma CodesOf_kground()
    ensures CodeUnits("kground") == [0x6b, 0x67, 0x72, 0x6f, 0x75, 0x6e, 0x64]
  {
    KeywordLetterCodes();
  }

  lemma HashOf_infobackground()
    ensures FnvOfCodes(FnvOffsetBasis, CodeUnits("infobackground")) == 0x9c8c4bdd
  {
    assert "infobackground" == "infobac" + "kground";
    CodeUnitsAppend("infobac", "kground");
    CodesOf_infobac();
    CodesOf_kground();
    FnvOfCodesAppend(FnvOffsetBasis, [0x69, 0x6e, 0x66, 0x6f, 0x62, 0x61, 0x63], [0x6b, 0x67, 0x72, 0x6f, 0x75, 0x6e, 0x64]);
  }

  lemma HashOf_infotext()
    ensures FnvOfCodes(FnvOffsetBasis, CodeUnits("infotext")) == 0xb164837e
  {
    KeywordLetterCodes();
    assert CodeUnits("infotext") == [0x69, 0x6e, 0x66, 0x6f, 0x74, 0x65, 0x78, 0x74];
  }

  lemma HashOf_menu()
    ensures FnvOfCodes(FnvOffsetBasis, CodeUnits("menu")) == 0x99e4dd3a
  {
    KeywordLetterCodes();
    assert CodeUnits("menu") == [0x6d, 0x65, 0x6e, 0x75];
  }

  lemma HashOf_menutext()
    ensures FnvOfCodes(FnvOffsetBasis, CodeUnits("menutext")) == 0x4c924831
  {
    KeywordLetterCodes();
    assert CodeUnits("menutext") == [0x6d, 0x65, 0x6e, 0x75, 0x74, 0x65, 0x78, 0x74];
  }

  lemma HashOf_scrollbar()
    ensures FnvOfCodes(FnvOffsetBasis, CodeUnits("scrollbar")) == 0xd5b6c079
  {
    KeywordLetterCodes();
    assert CodeUnits("scrollbar") == [0x73, 0x63, 0x72, 0x6f, 0x6c, 0x6c, 0x62, 0x61, 0x72];
  }

  lemma CodesOf_threedda()
    ensures CodeUnits("threedda") == [0x74, 0x68, 0x72, 0x65, 0x65, 0x64, 0x64, 0x61]
  {
    KeywordLetterCodes();
  }

  lemma CodesOf_rkshadow()
    ensures CodeUnits("rkshadow") == [0x72, 0x6b, 0x73, 0x68, 0x61, 0x64, 0x6f, 0x77]
  {
    KeywordLetterCodes();
  }

  lemma HashOf_threeddarkshadow()
    ensures FnvOfCodes(FnvOffsetBasis, CodeUnits("threeddarkshadow")) == 0xffa62901
  {
    assert "threeddarkshadow" == "threedda" + "rkshadow";
    CodeUnitsAppend("threedda", "rkshadow");
    CodesOf_threedda();
    CodesOf_rkshadow();
    FnvOfCodesAppend(FnvOffsetBasis, [0x74, 0x68, 0x72, 0x65, 0x65, 0x64, 0x64, 0x61], [0x72, 0x6b, 0x73, 0x68, 0x61, 0x64, 0x6f, 0x77]);
  }

  lemma HashOf_threedface()
    ensures FnvOfCodes(FnvOffsetBasis, CodeUnits("threedface")) == 0x77fd6efc
  {
    KeywordLetterCodes();
    assert CodeUnits("threedface") == [0x74, 0x68, 0x72, 0x65, 0x65, 0x64, 0x66, 0x61, 0x63, 0x65];
  }

  lemma CodesOf_threedh()
    ensures CodeUnits("threedh") == [0x74, 0x68, 0x72, 0x65, 0x65, 0x64, 0x68]
  {
    KeywordLetterCodes();
  }

  lemma HashOf_threedhighlight()
    ensures FnvOfCodes(FnvOffsetBasis, CodeUnits("threedhighlight")) == 0xd4724bc7
  {
    assert "threedhighlight" == "threedh" + "ighlight";
    CodeUnitsAppend("threedh", "ighlight");
    CodesOf_threedh();
    CodesOf_ighlight();
    FnvOfCodesAppend(FnvOffsetBasis, [0x74, 0x68, 0x72, 0x65, 0x65, 0x64, 0x68], [0x69, 0x67, 0x68, 0x6c, 0x69, 0x67, 0x68, 0x74]);
  }

  lemma CodesOf_threedli()
    ensures CodeUnits("threedli") == [0x74, 0x68, 0x72, 0x65, 0x65, 0x64, 0x6c, 0x69]
  {
    KeywordLetterCodes();
  }

  lemma CodesOf_ghtshadow()
    ensures CodeUnits("ghtshadow") == [0x67, 0x68, 0x74, 0x73, 0x68, 0x61, 0x64, 0x6f, 0x77]
  {
    KeywordLetterCodes();
  }

  lemma HashOf_threedlightshadow()
    ensures FnvOfCodes(FnvOffsetBasis, CodeUnits("threedlightshadow")) == 0x238bb757
  {
    assert "threedlightshadow" == "threedli" + "ghtshadow";
    CodeUnitsAppend("threedli", "ghtshadow");
    CodesOf_threedli();
    CodesOf_ghtshadow();
    FnvOfCodesAppend(FnvOffsetBasis, [0x74, 0x68, 0x72, 0x65, 0x65, 0x64, 0x6c, 0x69], [0x67, 0x68, 0x74, 0x73, 0x68, 0x61, 0x64, 0x6f, 0x77]);
  }

  lemma CodesOf_threed()
    ensures CodeUnits("threed") == [0x74, 0x68, 0x72, 0x65, 0x65, 0x64]
  {
    KeywordLetterCodes();
  }

  /** "threedshadow", a CSS2 system colour the switch has no case for. */
  lemma HashOf_threedshadow()
    ensures FnvOfCodes(FnvOffsetBasis, CodeUnits("threedshadow")) == 0x9fc3ba81
  {
    assert "threedshadow" == "threed" + "shadow";
    CodeUnitsAppend("threed", "shadow");
    CodesOf_threed();
    CodesOf_shadow();
    FnvOfCodesAppend(FnvOffsetBasis, [0x74, 0x68, 0x72, 0x65, 0x65, 0x64], [0x73, 0x68, 0x61, 0x64, 0x6f, 0x77]);
  }

  /** ThreeDShadow, the one CSS2 system colour missing from the switch, is not recognised in any ASCII case. */
  lemma ThreeDShadowNotRecognised(colour: string)
    requires AsciiLower(colour) == "threedshadow"
    ensures Fnv1a(AsciiLower(colour)) == 0x9fc3ba81
    ensures SystemColourOf(colour) == None
  {
    HashOf_threedshadow();
    NoCaseForThreeDShadow();
  }

  /** No case of the switch has the hash of "threedshadow". */
  lemma NoCaseForThreeDShadow()
    ensures ColourForHash(0x9fc3ba81) == None
  {
  }

  lemma HashOf_window()
    ensures FnvOfCodes(FnvOffsetBasis, CodeUnits("window")) == 0xa172b7dd
  {
    KeywordLetterCodes();
    assert CodeUnits("window") == [0x77, 0x69, 0x6e, 0x64, 0x6f, 0x77];
  }

  lemma CodesOf_windo()
    ensures CodeUnits("windo") == [0x77, 0x69, 0x6e, 0x64, 0x6f]
  {
    KeywordLetterCodes();
  }

  lemma CodesOf_wframe()
    ensures CodeUnits("wframe") == [0x77, 0x66, 0x72, 0x61, 0x6d, 0x65]
  {
    KeywordLetterCodes();
  }

  lemma HashOf_windowframe()
    ensures FnvOfCodes(FnvOffsetBasis, CodeUnits("windowframe")) == 0x6f554c7e
  {
    assert "windowframe" == "windo" + "wframe";
    CodeUnitsAppend("windo", "wframe");
    CodesOf_windo();
    CodesOf_wframe();
    FnvOfCodesAppend(FnvOffsetBasis, [0x77, 0x69, 0x6e, 0x64, 0x6f], [0x77, 0x66, 0x72, 0x61, 0x6d, 0x65]);
  }

  lemma HashOf_windowtext()
    ensures FnvOfCodes(FnvOffsetBasis, CodeUnits("windowtext")) == 0xe477b746
  {
    KeywordLetterCodes();
    assert CodeUnits("windowtext") == [0x77, 0x69, 0x6e, 0x64, 0x6f, 0x77, 0x74, 0x65, 0x78, 0x74];
  }

  /** Each case constant of the switch is the FNV-1a hash of the keyword beside it. */
  lemma SwitchCasesAreHashes(keyword: string)
    requires KeywordColour(keyword).Some?
    ensures Fnv1a(keyword) == SwitchCase(keyword)
  {
    match keyword
    case "activeborder" => HashOf_activeborder();
    case "activecaption" => HashOf_activecaption();
    case "appworkspace" => HashOf_appworkspace();
    case "background" => HashOf_background();
    case "buttonface" => HashOf_buttonface();
    case "buttonhighlight" => HashOf_buttonhighlight();
    case "buttonshadow" => HashOf_buttonshadow();
    case "buttontext" => HashOf_buttontext();
    case "captiontext" => HashOf_captiontext();
    case "graytext" => HashOf_graytext();
    case "highlight" => HashOf_highlight();
    case "highlighttext" => HashOf_highlighttext();
    case "inactiveborder" => HashOf_inactiveborder();
    case "inactivecaption" => HashOf_inactivecaption();
    case "inactivecaptiontext" => HashOf_inactivecaptiontext();
    case "infobackground" => HashOf_infobackground();
    case "infotext" => HashOf_infotext();
    case "menu" => HashOf_menu();
    case "menutext" => HashOf_menutext();
    case "scrollbar" => HashOf_scrollbar();
    case "threeddarkshadow" => HashOf_threeddarkshadow();
    case "threedface" => HashOf_threedface();
    case "threedhighlight" => HashOf_threedhighlight();
    case "threedlightshadow" => HashOf_threedlightshadow();
    case "window" => HashOf_window();
    case "windowframe" => HashOf_windowframe();
    case "windowtext" => HashOf_windowtext();
  }

  /** The case constant beside a keyword selects the property the keyword names. */
  lemma SwitchCasesSelectKeywords(keyword: string)
    requires KeywordColour(keyword).Some?
    ensures ColourForHash(SwitchCase(keyword)) == KeywordColour(keyword)
  {
  }

  /** Every keyword, in any mix of ASCII upper and lower case, is recognised as the property it names. */
  lemma KeywordsRecognised(colour: string)
    requires KeywordColour(AsciiLower(colour)).Some?
    ensures SystemColourOf(colour) == KeywordColour(AsciiLower(colour))
  {
    SwitchCasesAreHashes(AsciiLower(colour));
    SwitchCasesSelectKeywords(AsciiLower(colour));
  }
}
