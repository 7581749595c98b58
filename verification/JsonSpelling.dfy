/** Which of the texts that a reader takes for the same value `json.dumps` writes: the shortest spelling of every
    character, no white space outside strings, one line, and separators only between entries. */
module JsonSpelling {
  import opened Wrappers
  import opened Json
  import opened JsonRoundTrip
  import AsciiJson
  import Decimal
  import Text
  import Utf8

  // --- Characters -----------------------------------------------------------------------------------------

  /** Inside a string a reader takes the text for this one character. */
  predicate Spells(text: string, c: char)
  {
    ParseChars(text + "\"") == Got([c], "")
  }

  predicate HasUpperHex(text: string)
  {
    exists i | 0 <= i < |text| :: 'A' <= text[i] <= 'F'
  }

  /** A character is escaped if and only if a reader would not take it for itself. */
  lemma EscapingIsMinimal(c: char)
    ensures EscapeChar(c) == [c] <==> Spells([c], c)
  {
    var text := [c] + "\"";
    assert text[0] == c && text[1..] == "\"" && "\""[1..] == "" && [c] + "" == [c];
    assert ParseChars("\"") == Got("", "") && ParseChars("") == Fail;
    if c == '\\' {
      assert ParseEscape("\"") == Got('"', "");
    }
  }

  lemma EscapeSpells(c: char)
    ensures Spells(EscapeChar(c), c)
  {
    ParseEscapedChar(c, "\"");
    assert "\""[1..] == "" && [c] + "" == [c];
  }

  /** A spelling is one character, an escape of two, or at least six long. */
  lemma SpellingForms(text: string, c: char)
    requires Spells(text, c)
    ensures text != "" && (text[0] != '\\' ==> text[0] == c >= ' ' && c != '"' && text == [c])
    ensures text[0] == '\\' ==> |text| >= 2 && ParseEscape((text + "\"")[1..]) == Got(c, "\"")
  {
    var whole := text + "\"";
    assert text == "" ==> whole == "\"";
    var first := if whole[0] == '\\' then ParseEscape(whole[1..]) else Got(whole[0], whole[1..]);
    if first.Got? {
      OnlyCloses(first.rest);
      assert ([first.value] + "")[0] == first.value;
    }
  }

  lemma OnlyCloses(rest: string)
    ensures ParseChars(rest) == Got("", "") <==> rest == "\""
  {
  }

  /** An escape that is no short one has six characters at least, and exactly six only as one code unit. */
  lemma LongEscape(text: string, c: char)
    requires |text| >= 2 && text[0] == '\\' && ParseEscape((text + "\"")[1..]) == Got(c, "\"")
    requires c !in ['"', '\\', '/', 8 as char, 12 as char, '\n', '\r', '\t']
    ensures |text| >= 6 && text[1] == 'u'
    ensures |text| == 6 ==> Hex4(text[2..]) == Some(c as int)
    ensures c as int >= 0x10000 ==> |text| == 12
  {
    var after := (text + "\"")[1..];
    var hex := after[1..];
    assert after[0] == text[1] && hex == text[2..] + "\"";
    assert ParseUnicode(hex) == Got(c, "\"");
    assert Hex4(hex).Some?;
    if c as int >= 0x10000 {
      assert |hex[10..]| == 1;
    } else {
      assert |hex[4..]| == 1;
      assert text[2..] == hex[..4];
    }
  }

  /** The letter of a short escape is determined by the character. */
  lemma ShortLetter(letter: char, c: char)
    requires ParseEscape([letter] + "\"") == Got(c, "\"") && |EscapeChar(c)| == 2
    ensures EscapeChar(c) == ['\\', letter]
  {
    var after := [letter] + "\"";
    assert after[0] == letter && after[1..] == "\"";
    assert Hex4("\"") == None;
  }

  /** A lower-case digit is determined by its value. */
  lemma LowerDigit(x: char, n: nat)
    requires n < 16 && HexValue(x) == Some(n) && !('A' <= x <= 'F')
    ensures x == HexDigit(n) == "0123456789abcdef"[n]
  {
  }

  lemma LowerUnit(text: string, n: nat)
    requires |text| == 6 && text[0] == '\\' && text[1] == 'u' && Hex4(text[2..]) == Some(n) && n < 0x10000
    requires !HasUpperHex(text)
    ensures text == AsciiJson.Unit(n)
  {
    LowerDigits(text[2..], n);
    assert text == [text[0], text[1]] + text[2..];
  }

  lemma LowerDigits(hex: string, n: nat)
    requires |hex| == 4 && Hex4(hex) == Some(n) && n < 0x10000
    requires forall i | 0 <= i < 4 :: !('A' <= hex[i] <= 'F')
    ensures hex == AsciiJson.FourDigits(n)
  {
    var a, b, c, d := HexValue(hex[0]).value, HexValue(hex[1]).value, HexValue(hex[2]).value, HexValue(hex[3]).value;
    Quotients(a, b, c, d, n);
    LowerDigit(hex[0], a);
    LowerDigit(hex[1], b);
    LowerDigit(hex[2], c);
    LowerDigit(hex[3], d);
  }

  lemma Quotients(a: nat, b: nat, c: nat, d: nat, n: nat)
    requires a < 16 && b < 16 && c < 16 && d < 16 && n == a * 4096 + b * 256 + c * 16 + d
    ensures n / 4096 == a && n / 256 % 16 == b && n / 16 % 16 == c && n % 16 == d
  {
    Sixteen(a * 256 + b * 16 + c, d);
    Sixteen(a * 16 + b, c);
    Sixteen(a, b);
    assert n / 256 == n / 16 / 16;
    assert n / 4096 == n / 256 / 16;
  }

  lemma Sixteen(quotient: nat, rest: nat)
    requires rest < 16
    ensures (quotient * 16 + rest) / 16 == quotient && (quotient * 16 + rest) % 16 == rest
  {
  }

  /** A control character without a short escape is written as four digits, of which the first two are 0. */
  lemma ControlUnit(c: char)
    requires |EscapeChar(c)| == 6
    ensures EscapeChar(c) == AsciiJson.Unit(c as int)
  {
    assert HexDigit(0) == '0';
  }

  /** Each character gets the shortest spelling that a reader takes for it, and of those the one with lower-case
      digits: there is no other. */
  lemma EscapeIsShortest(text: string, c: char)
    requires Spells(text, c)
    ensures |EscapeChar(c)| <= |text|
    ensures |text| == |EscapeChar(c)| && (|text| == 1 || !HasUpperHex(text)) ==> text == EscapeChar(c)
  {
    SpellingForms(text, c);
    if text[0] == '\\' {
      if |EscapeChar(c)| == 2 {
        if |text| == 2 {
          assert (text + "\"")[1..] == [text[1]] + "\"" && text == [text[0], text[1]];
          ShortLetter(text[1], c);
        }
      } else if |EscapeChar(c)| == 6 {
        LongEscape(text, c);
        if |text| == 6 && !HasUpperHex(text) {
          LowerUnit(text, c as int);
          ControlUnit(c);
        }
      }
    } else {
      EscapingIsMinimal(c);
    }
  }

  // --- All spellings ------------------------------------------------------------------------------------------

  /** The two-character escapes of section 7 of RFC 8259. */
  predicate IsShort(letter: char, c: char)
  {
    match letter
    case '"' => c == '"'
    case '\\' => c == '\\'
    case '/' => c == '/'
    case 'b' => c as int == 8
    case 'f' => c as int == 12
    case 'n' => c as int == 10
    case 'r' => c as int == 13
    case 't' => c as int == 9
    case _ => false
  }

  lemma HexValueIff(c: char, n: nat)
    requires n < 16
    ensures HexValue(c) == Some(n) <==> c == "0123456789abcdef"[n] || c == "0123456789ABCDEF"[n]
  {
  }

  /** Two code units that spell a character beyond the first plane. */
  predicate IsPair(text: string, c: char)
  {
    && |text| == 12 && text[0] == text[6] == '\\' && text[1] == text[7] == 'u'
    && Hex4(text[2..6]).Some? && Hex4(text[8..12]).Some?
    && var high, low := Hex4(text[2..6]).value, Hex4(text[8..12]).value;
       && 0xD800 <= high < 0xDC00 && 0xDC00 <= low < 0xE000
       && c as int == 0x10000 + (high - 0xD800) * 1024 + (low - 0xDC00)
  }

  /** The spellings of a character by the grammar of section 7 of RFC 8259: itself, a short escape, a code unit in
      hexadecimal digits of either case, or a pair of them. */
  predicate IsSpelling(text: string, c: char)
  {
    || (text == [c] && c >= ' ' && c != '"' && c != '\\')
    || (|text| == 2 && text[0] == '\\' && IsShort(text[1], c))
    || (|text| == 6 && text[0] == '\\' && text[1] == 'u' && Hex4(text[2..6]) == Some(c as int))
    || IsPair(text, c)
  }

  lemma ShortIff(letter: char, rest: string, c: char)
    requires letter != 'u'
    ensures ParseEscape([letter] + rest) == Got(c, "\"") <==> IsShort(letter, c) && rest == "\""
  {
    assert ([letter] + rest)[1..] == rest;
  }

  lemma UnitIff(hex: string, c: char)
    requires c as int < 0x10000
    ensures ParseUnicode(hex) == Got(c, "\"")
       <==> |hex| == 5 && hex[4..] == "\"" && Hex4(hex[..4]) == Some(c as int)
  {
    if |hex| >= 4 {
      FirstFour(hex, hex[..4]);
    }
    assert Utf8.IsScalarValue(c as int);
  }

  lemma PairIff(hex: string, c: char)
    requires c as int >= 0x10000
    ensures ParseUnicode(hex) == Got(c, "\"")
       <==> |hex| == 11 && hex[10..] == "\"" && IsPair("\\u" + hex[..10], c)
  {
    if |hex| == 11 {
      var text := "\\u" + hex[..10];
      assert text[2..6] == hex[..4] && text[8..12] == hex[6..10] && text[6] == hex[4] && text[7] == hex[5];
      FirstFour(hex, text[2..6]);
      FirstFour(hex[6..], text[8..12]);
    }
    if ParseUnicode(hex) == Got(c, "\"") {
      PairRead(hex, c);
    }
  }

  /** A reader takes a text for a character exactly if it is one of that character's spellings. */
  lemma SpellsIff(text: string, c: char)
    ensures Spells(text, c) <==> IsSpelling(text, c)
  {
    var whole := text + "\"";
    if text != "" && text[0] == '\\' {
      EscapeSpellsIff(text, c);
    } else {
      PlainSpellsIff(text, c);
    }
  }

  lemma PlainSpellsIff(text: string, c: char)
    requires text == "" || text[0] != '\\'
    ensures Spells(text, c) <==> IsSpelling(text, c)
  {
    if Spells(text, c) {
      SpellingForms(text, c);
    } else if text == [c] && c >= ' ' && c != '"' && c != '\\' {
      EscapingIsMinimal(c);
    }
  }

  lemma EscapeSpellsIff(text: string, c: char)
    requires text != "" && text[0] == '\\'
    ensures Spells(text, c) <==> IsSpelling(text, c)
  {
    var after := (text + "\"")[1..];
    EscapeAlone(text, c);
    if |text| >= 2 && text[1] == 'u' {
      var hex := after[1..];
      assert after == ['u'] + hex && ParseEscape(after) == ParseUnicode(hex);
      assert hex == text[2..] + "\"";
      UnicodeSpellsIff(text, hex, c);
    } else if |text| >= 2 {
      assert after == [text[1]] + (text[2..] + "\"");
      ShortIff(text[1], text[2..] + "\"", c);
    }
  }

  lemma EscapeAlone(text: string, c: char)
    requires text != "" && text[0] == '\\'
    ensures Spells(text, c) <==> |text| >= 2 && ParseEscape((text + "\"")[1..]) == Got(c, "\"")
  {
    if Spells(text, c) {
      SpellingForms(text, c);
    }
    if ParseEscape((text + "\"")[1..]) == Got(c, "\"") {
      OnlyCloses("\"");
      assert [c] + "" == [c];
    }
  }

  lemma UnicodeSpellsIff(text: string, hex: string, c: char)
    requires |text| >= 2 && text[0] == '\\' && text[1] == 'u' && hex == text[2..] + "\""
    ensures ParseUnicode(hex) == Got(c, "\"") <==> IsSpelling(text, c)
  {
    if c as int < 0x10000 {
      UnitSpellsIff(text, hex, c);
    } else {
      PairSpellsIff(text, hex, c);
    }
  }

  lemma UnitSpellsIff(text: string, hex: string, c: char)
    requires |text| >= 2 && text[0] == '\\' && text[1] == 'u' && hex == text[2..] + "\"" && c as int < 0x10000
    ensures ParseUnicode(hex) == Got(c, "\"") <==> IsSpelling(text, c)
  {
    UnitIff(hex, c);
    assert !IsPair(text, c);
    if |text| == 6 {
      assert hex[..4] == text[2..6] && hex[4..] == "\"";
    }
  }

  lemma OnlyPairs(text: string, c: char)
    requires |text| >= 2 && text[1] == 'u' && c as int >= 0x10000
    ensures IsSpelling(text, c) <==> IsPair(text, c)
  {
    if |text| == 6 && Hex4(text[2..6]).Some? {
      assert Hex4(text[2..6]).value < 0x10000;
    }
  }

  lemma PairText(text: string, hex: string)
    requires |text| == 12 && text[0] == '\\' && text[1] == 'u' && hex == text[2..] + "\""
    ensures |hex| == 11 && text == "\\u" + hex[..10] && hex[10..] == "\""
  {
  }

  lemma PairSpellsIff(text: string, hex: string, c: char)
    requires |text| >= 2 && text[0] == '\\' && text[1] == 'u' && hex == text[2..] + "\"" && c as int >= 0x10000
    ensures ParseUnicode(hex) == Got(c, "\"") <==> IsSpelling(text, c)
  {
    OnlyPairs(text, c);
    PairIff(hex, c);
    if |text| == 12 {
      PairText(text, hex);
    }
  }

  // --- Characters in ASCII ----------------------------------------------------------------------------------

  /** How a reader takes a pair of code units. */
  lemma PairRead(hex: string, c: char)
    requires ParseUnicode(hex) == Got(c, "\"") && c as int >= 0x10000
    ensures |hex| == 11 && hex[4] == '\\' && hex[5] == 'u' && Hex4(hex).Some? && Hex4(hex[6..]).Some?
    ensures var high, low := Hex4(hex).value, Hex4(hex[6..]).value;
            && 0xD800 <= high < 0xDC00 && 0xDC00 <= low < 0xE000
            && c as int - 0x10000 == (high - 0xD800) * 1024 + (low - 0xDC00)
  {
    assert |hex[10..]| == 1;
  }

  lemma FirstFour(text: string, hex: string)
    requires |text| >= 4 && |hex| >= 4 && text[..4] == hex[..4]
    ensures Hex4(text) == Hex4(hex)
  {
    assert text[0] == text[..4][0] && text[1] == text[..4][1] && text[2] == text[..4][2] && text[3] == text[..4][3];
    assert hex[0] == hex[..4][0] && hex[1] == hex[..4][1] && hex[2] == hex[..4][2] && hex[3] == hex[..4][3];
  }

  lemma UnitAt(text: string, i: nat, whole: string, n: nat)
    requires i + 6 <= |text| && text <= whole && text[i] == '\\' && text[i + 1] == 'u'
    requires Hex4(whole[i + 2..]) == Some(n) && n < 0x10000 && !HasUpperHex(text)
    ensures text[i..i + 6] == AsciiJson.Unit(n)
  {
    var unit := text[i..i + 6];
    assert unit[2..][..4] == whole[i + 2..][..4];
    FirstFour(unit[2..], whole[i + 2..]);
    LowerUnit(unit, n);
  }

  lemma PairUnits(text: string, hex: string, c: char) returns (high: nat, low: nat)
    requires |text| == 12 && text[0] == '\\' && text[1] == 'u' && c as int >= 0x10000 && !HasUpperHex(text)
    requires text + "\"" == "\\u" + hex && ParseUnicode(hex) == Got(c, "\"")
    ensures 0xD800 <= high < 0xDC00 && 0xDC00 <= low < 0xE000
    ensures c as int - 0x10000 == (high - 0xD800) * 1024 + (low - 0xDC00)
    ensures text == AsciiJson.Unit(high) + AsciiJson.Unit(low)
  {
    var whole := text + "\"";
    PairRead(hex, c);
    assert whole[2..] == hex && hex[6..] == whole[8..] && hex[4] == whole[6] && hex[5] == whole[7];
    high, low := Hex4(hex).value, Hex4(hex[6..]).value;
    UnitAt(text, 0, whole, high);
    UnitAt(text, 6, whole, low);
    assert text == text[0..6] + text[6..12];
  }

  /** A character beyond the first plane has only pairs of code units for ASCII spellings, and only one pair
      without upper-case digits. */
  lemma PairEscape(text: string, hex: string, c: char)
    requires |text| == 12 && text[0] == '\\' && text[1] == 'u' && c as int >= 0x10000 && !HasUpperHex(text)
    requires text + "\"" == "\\u" + hex && ParseUnicode(hex) == Got(c, "\"")
    ensures text == AsciiJson.EscapeNonAscii(c)
  {
    var high, low := PairUnits(text, hex, c);
    PairParts(high, low, c as int - 0x10000);
  }

  lemma AfterBackslash(text: string, c: char)
    requires |text| >= 2 && text[0] == '\\' && text[1] == 'u'
    requires ParseEscape((text + "\"")[1..]) == Got(c, "\"")
    ensures text + "\"" == "\\u" + (text + "\"")[2..] && ParseUnicode((text + "\"")[2..]) == Got(c, "\"")
  {
    var after := (text + "\"")[1..];
    assert after[0] == 'u' && after[1..] == (text + "\"")[2..];
  }

  lemma PairParts(high: nat, low: nat, n: nat)
    requires 0xD800 <= high && 0xDC00 <= low < 0xE000 && n == (high - 0xD800) * 1024 + (low - 0xDC00)
    ensures high == 0xD800 + n / 1024 && low == 0xDC00 + n % 1024
  {
  }

  /** With ASCII escapes too each character gets the shortest printable ASCII spelling that a reader takes for it,
      and of those the one with lower-case digits. */
  lemma AsciiEscapeIsShortest(text: string, c: char)
    requires Spells(text, c) && forall i | 0 <= i < |text| :: ' ' <= text[i] <= '~'
    ensures |AsciiJson.EscapeOne(c)| <= |text|
    ensures |text| == |AsciiJson.EscapeOne(c)| && (|text| == 1 || !HasUpperHex(text)) ==> text == AsciiJson.EscapeOne(c)
  {
    SpellingForms(text, c);
    EscapeIsShortest(text, c);
    if text[0] == '\\' && |EscapeChar(c)| != 2 && !(' ' <= c <= '~') {
      NonAsciiEscape(text, c);
    }
  }

  /** The same for what has no short escape and is no printable ASCII. */
  lemma NonAsciiEscape(text: string, c: char)
    requires |text| >= 2 && text[0] == '\\' && ParseEscape((text + "\"")[1..]) == Got(c, "\"")
    requires |EscapeChar(c)| != 2 && !(' ' <= c <= '~')
    ensures |AsciiJson.EscapeNonAscii(c)| <= |text|
    ensures |text| == |AsciiJson.EscapeNonAscii(c)| && !HasUpperHex(text) ==> text == AsciiJson.EscapeNonAscii(c)
  {
    LongEscape(text, c);
    if c as int < 0x10000 {
      if |text| == 6 && !HasUpperHex(text) {
        LowerUnit(text, c as int);
      }
    } else if !HasUpperHex(text) {
      AfterBackslash(text, c);
      PairEscape(text, (text + "\"")[2..], c);
    }
  }

  // --- White space ------------------------------------------------------------------------------------------

  /** Where a character of a JSON text stands: outside strings, in one, or after a backslash in one. */
  datatype Place = Outside | Inside | Escaped

  function Next(place: Place, c: char): Place
  {
    match place
    case Outside => if c == '"' then Inside else Outside
    case Inside => if c == '"' then Outside else if c == '\\' then Escaped else Inside
    case Escaped => Inside
  }

  function Walk(text: string, place: Place): Place
  {
    if text == "" then place else Walk(text[1..], Next(place, text[0]))
  }

  /** The characters that stand outside strings. */
  function Bare(text: string, place: Place): string
  {
    if text == "" then ""
    else (if place == Outside then [text[0]] else "") + Bare(text[1..], Next(place, text[0]))
  }

  predicate NoSpace(text: string)
  {
    forall i | 0 <= i < |text| :: !IsSpace(text[i])
  }

  /** Strings are closed, and between them is no white space. */
  predicate Tight(text: string)
  {
    Walk(text, Outside) == Outside && NoSpace(Bare(text, Outside))
  }

  lemma {:induction false} WalkConcat(a: string, b: string, place: Place)
    ensures Walk(a + b, place) == Walk(b, Walk(a, place))
    ensures Bare(a + b, place) == Bare(a, place) + Bare(b, Walk(a, place))
    decreases |a|
  {
    if a == "" {
      assert a + b == b;
    } else {
      assert (a + b)[0] == a[0] && (a + b)[1..] == a[1..] + b;
      WalkConcat(a[1..], b, Next(place, a[0]));
    }
  }

  lemma TightConcat(a: string, b: string)
    requires Tight(a) && Tight(b)
    ensures Tight(a + b)
  {
    WalkConcat(a, b, Outside);
  }

  /** What has neither white space nor a quote is tight. */
  lemma {:induction false} TightToken(token: string)
    requires NoSpace(token) && '"' !in token
    ensures Tight(token)
    ensures Walk(token, Outside) == Outside && Bare(token, Outside) == token
    decreases |token|
  {
    if token != "" {
      assert token[0] != '"';
      TightToken(token[1..]);
    }
  }

  lemma {:induction false} PlainInside(text: string)
    requires '"' !in text && '\\' !in text
    ensures Walk(text, Inside) == Inside && Bare(text, Inside) == ""
    decreases |text|
  {
    if text != "" {
      assert text[0] != '"' && text[0] != '\\';
      PlainInside(text[1..]);
    }
  }

  lemma EscapeStaysInside(c: char)
    ensures Walk(EscapeChar(c), Inside) == Inside && Bare(EscapeChar(c), Inside) == ""
  {
    var text := EscapeChar(c);
    if text[0] == '\\' {
      assert text[1..][0] == text[1] && text[1..][1..] == text[2..];
      PlainInside(text[2..]);
    } else {
      PlainInside(text);
    }
  }

  lemma {:induction false} StaysInside(text: string)
    ensures Walk(Escape(text), Inside) == Inside && Bare(Escape(text), Inside) == ""
  {
    if text != "" {
      EscapeStaysInside(text[0]);
      StaysInside(text[1..]);
      WalkConcat(EscapeChar(text[0]), Escape(text[1..]), Inside);
    }
  }

  lemma TightQuote(text: string)
    ensures Tight(Quote(text))
  {
    StaysInside(text);
    WalkConcat("\"", Escape(text) + "\"", Outside);
    WalkConcat(Escape(text), "\"", Inside);
    assert Quote(text) == "\"" + (Escape(text) + "\"") && "\""[1..] == "";
  }

  /** Neither white space nor control characters nor quotes. */
  predicate IsWord(text: string)
  {
    forall i | 0 <= i < |text| :: text[i] > ' ' && text[i] != '"'
  }

  lemma IntIsWord(n: int)
    ensures IsWord(Decimal.OfInt(n))
  {
    var digits := Decimal.OfNat(if n < 0 then -n else n);
    forall i | 0 <= i < |digits| ensures digits[i] > ' ' && digits[i] != '"' {
      assert Decimal.IsDigit(digits[i]);
    }
  }

  lemma FloatIsWord(token: FloatToken)
    ensures IsWord(token)
  {
    assert AllNumberChars(token);
    forall i | 0 <= i < |token| ensures token[i] > ' ' && token[i] != '"' {
      assert IsNumberChar(token[i]);
    }
  }

  lemma ScalarIsWord(v: Json, style: Style)
    requires !v.Arr? && !v.Obj? && !v.Str?
    ensures IsWord(Render(v, style))
  {
    match v {
      case Int(n) => IntIsWord(n);
      case Float(token) => FloatIsWord(token);
      case _ =>
    }
  }

  lemma WordIsTight(word: string)
    requires IsWord(word)
    ensures Tight(word) && NoControl(word)
  {
    TightToken(word);
  }

  lemma TightMarks()
    ensures Tight("") && Tight(",") && Tight(":") && Tight("[") && Tight("]") && Tight("{") && Tight("}")
  {
    TightToken(",");
    TightToken(":");
    TightToken("[");
    TightToken("]");
    TightToken("{");
    TightToken("}");
  }

  /** A compact text has no white space outside its strings. */
  lemma {:induction false} CompactIsTight(v: Json)
    ensures Tight(Render(v, Compact))
    decreases v, 0
  {
    TightMarks();
    match v {
      case Str(text) =>
        TightQuote(text);
      case Arr(items) =>
        ItemsAreTight(items);
        TightConcat("[", RenderItems(items, Compact));
        TightConcat("[" + RenderItems(items, Compact), "]");
      case Obj(members) =>
        MembersAreTight(members);
        TightConcat("{", RenderMembers(members, Compact));
        TightConcat("{" + RenderMembers(members, Compact), "}");
      case _ =>
        ScalarIsWord(v, Compact);
        WordIsTight(Render(v, Compact));
    }
  }

  lemma {:induction false} ItemsAreTight(items: seq<Json>)
    ensures Tight(RenderItems(items, Compact))
    decreases items, 0
  {
    TightMarks();
    if items != [] {
      CompactIsTight(items[0]);
      ItemsAreTight(items[1..]);
      TightConcat(",", RenderItems(items[1..], Compact));
      TightConcat(Render(items[0], Compact), if |items| == 1 then "" else "," + RenderItems(items[1..], Compact));
    }
  }

  lemma {:induction false} MembersAreTight(members: seq<Member>)
    ensures Tight(RenderMembers(members, Compact))
    decreases members, 0
  {
    TightMarks();
    if members != [] {
      var key, value := Quote(members[0].key), Render(members[0].value, Compact);
      TightQuote(members[0].key);
      CompactIsTight(members[0].value);
      MembersAreTight(members[1..]);
      TightConcat(key, ":");
      TightConcat(key + ":", value);
      TightConcat(",", RenderMembers(members[1..], Compact));
      TightConcat(key + ":" + value, if |members| == 1 then "" else "," + RenderMembers(members[1..], Compact));
    }
  }

  // --- One line ---------------------------------------------------------------------------------------------

  predicate NoControl(text: string)
  {
    forall i | 0 <= i < |text| :: text[i] >= ' '
  }

  lemma NoControlInBoth(a: string, b: string)
    requires NoControl(a) && NoControl(b)
    ensures NoControl(a + b)
  {
  }

  lemma {:induction false} EscapedHasNoControl(text: string)
    ensures NoControl(Escape(text))
  {
    if text != "" {
      EscapedHasNoControl(text[1..]);
    }
  }

  /** A rendered value is one line: no control character is left in it. */
  lemma {:induction false} RenderHasNoControl(v: Json, style: Style)
    ensures NoControl(Render(v, style))
    decreases v, 0
  {
    match v {
      case Str(text) =>
        EscapedHasNoControl(text);
      case Arr(items) =>
        ItemsHaveNoControl(items, style);
      case Obj(members) =>
        MembersHaveNoControl(members, style);
      case _ =>
        ScalarIsWord(v, style);
        WordIsTight(Render(v, style));
    }
  }

  lemma {:induction false} ItemsHaveNoControl(items: seq<Json>, style: Style)
    ensures NoControl(RenderItems(items, style))
    decreases items, 0
  {
    if items != [] {
      RenderHasNoControl(items[0], style);
      ItemsHaveNoControl(items[1..], style);
    }
  }

  lemma {:induction false} MembersHaveNoControl(members: seq<Member>, style: Style)
    ensures NoControl(RenderMembers(members, style))
    decreases members, 0
  {
    if members != [] {
      var key, value := Quote(members[0].key), Render(members[0].value, style);
      EscapedHasNoControl(members[0].key);
      RenderHasNoControl(members[0].value, style);
      MembersHaveNoControl(members[1..], style);
      NoControlInBoth(key, Colon(style));
      NoControlInBoth(key + Colon(style), value);
      NoControlInBoth(Comma(style), RenderMembers(members[1..], style));
      NoControlInBoth(key + Colon(style) + value, Comma(style) + RenderMembers(members[1..], style));
    }
  }

  // --- Separators -------------------------------------------------------------------------------------------

  /** Values without parts. */
  lemma Words(style: Style)
    ensures Render(Null, style) == "null"
    ensures Render(Bool(true), style) == "true" && Render(Bool(false), style) == "false"
    ensures Render(NonFinite(NotANumber), style) == "NaN" && Render(NonFinite(Infinity), style) == "Infinity"
    ensures Render(NonFinite(MinusInfinity), style) == "-Infinity"
  {
  }

  function Items(items: seq<Json>, style: Style): (parts: seq<string>)
    ensures |parts| == |items| && forall i | 0 <= i < |items| :: parts[i] == Render(items[i], style)
  {
    seq(|items|, i requires 0 <= i < |items| => Render(items[i], style))
  }

  /** Key, colon and value of each entry, with a space after the colon unless the style is compact. */
  function Entries(members: seq<Member>, style: Style): (parts: seq<string>)
    ensures |parts| == |members|
    ensures forall i | 0 <= i < |members| ::
              parts[i] == Quote(members[i].key) + (if style.Compact? then ":" else ": ")
                          + Render(members[i].value, style)
  {
    seq(|members|, i requires 0 <= i < |members| =>
      Quote(members[i].key) + (if style.Compact? then ":" else ": ") + Render(members[i].value, style))
  }

  function Between(style: Style): string
  {
    if style.Compact? then "," else ", "
  }

  /** A list is its items, and a dictionary its entries, with `,` or `, ` between them. */
  lemma RenderIsJoined(items: seq<Json>, members: seq<Member>, style: Style)
    ensures Render(Arr(items), style) == "[" + Text.Joined(Items(items, style), Between(style)) + "]"
    ensures Render(Obj(members), style) == "{" + Text.Joined(Entries(members, style), Between(style)) + "}"
  {
    ItemsAreJoined(items, style);
    MembersAreJoined(members, style);
  }

  lemma ItemsFirst(items: seq<Json>, style: Style)
    requires items != []
    ensures Items(items, style) == [Render(items[0], style)] + Items(items[1..], style)
  {
  }

  lemma EntriesFirst(members: seq<Member>, style: Style)
    requires members != []
    ensures Entries(members, style)
         == [Quote(members[0].key) + (if style.Compact? then ":" else ": ") + Render(members[0].value, style)]
            + Entries(members[1..], style)
  {
  }

  lemma {:induction false} ItemsAreJoined(items: seq<Json>, style: Style)
    ensures RenderItems(items, style) == Text.Joined(Items(items, style), Between(style))
    decreases |items|
  {
    if items != [] {
      ItemsAreJoined(items[1..], style);
      ItemsFirst(items, style);
      Text.JoinedFirst(Items(items, style), Between(style), Render(items[0], style), Items(items[1..], style));
    }
  }

  lemma {:induction false} MembersAreJoined(members: seq<Member>, style: Style)
    ensures RenderMembers(members, style) == Text.Joined(Entries(members, style), Between(style))
    decreases |members|
  {
    if members != [] {
      var first := Entries(members, style)[0];
      MembersAreJoined(members[1..], style);
      EntriesFirst(members, style);
      Text.JoinedFirst(Entries(members, style), Between(style), first, Entries(members[1..], style));
    }
  }
}
