/** `json.dumps` with its default `ensure_ascii=True`, for dictionaries from texts to texts, and its round trip
    (section 7 of RFC 8259). */
module AsciiJson {
  import opened Wrappers
  import opened Json
  import opened JsonRoundTrip
  import Text

  // --- Writing ------------------------------------------------------------------------------------------

  function FourDigits(n: nat): (digits: string)
    requires n < 0x10000
    ensures |digits| == 4
  {
    [HexDigit(n / 4096), HexDigit(n / 256 % 16), HexDigit(n / 16 % 16), HexDigit(n % 16)]
  }

  function Unit(n: nat): string
    requires n < 0x10000
  {
    "\\u" + FourDigits(n)
  }

  /** What is not printable ASCII becomes one UTF-16 code unit, or a pair of surrogates. */
  function EscapeNonAscii(c: char): string
  {
    var n := c as int;
    if n < 0x10000 then Unit(n)
    else Unit(0xD800 + (n - 0x10000) / 1024) + Unit(0xDC00 + (n - 0x10000) % 1024)
  }

  function EscapeOne(c: char): string
  {
    if |EscapeChar(c)| == 2 || ' ' <= c <= '~' then EscapeChar(c) else EscapeNonAscii(c)
  }

  function EscapeAll(text: string): string
  {
    if text == "" then "" else EscapeOne(text[0]) + EscapeAll(text[1..])
  }

  /** A text after its opening quote, with what follows it. */
  function Closing(text: string, rest: string): string
  {
    EscapeAll(text) + "\"" + rest
  }

  /** Every value is a text. */
  predicate AllTexts(members: seq<Member>)
  {
    forall m | m in members :: m.value.Str?
  }

  /** One entry, with what follows it. */
  function PrintPair(key: string, value: string, after: string): string
  {
    "\"" + Closing(key, ":" + ("\"" + Closing(value, after)))
  }

  /** The rest of a non-empty dictionary after its opening brace: entries in order, compact separators. */
  function PrintPairs(members: seq<Member>, rest: string): string
    requires members != [] && AllTexts(members)
  {
    PrintPair(members[0].key, members[0].value.text,
              if |members| == 1 then "}" + rest else "," + PrintPairs(members[1..], rest))
  }

  function PrintDict(members: seq<Member>, rest: string): string
    requires AllTexts(members)
  {
    "{" + if members == [] then "}" + rest else PrintPairs(members, rest)
  }

  // --- Reading back -------------------------------------------------------------------------------------

  lemma ReadFourDigits(n: nat, tail: string)
    requires n < 0x10000
    ensures Hex4(FourDigits(n) + tail) == Some(n) && (FourDigits(n) + tail)[4..] == tail
  {
    var text := FourDigits(n) + tail;
    HexRoundTrip(n / 4096);
    HexRoundTrip(n / 256 % 16);
    HexRoundTrip(n / 16 % 16);
    HexRoundTrip(n % 16);
    assert text[0] == HexDigit(n / 4096) && text[1] == HexDigit(n / 256 % 16);
    assert text[2] == HexDigit(n / 16 % 16) && text[3] == HexDigit(n % 16);
    assert n / 256 == n / 4096 * 16 + n / 256 % 16 by { assert n / 256 / 16 == n / 4096; }
    assert n / 16 == n / 256 * 16 + n / 16 % 16 by { assert n / 16 / 16 == n / 256; }
  }

  lemma UnitParts(n: nat, tail: string)
    requires n < 0x10000
    ensures (Unit(n) + tail)[0] == '\\' && (Unit(n) + tail)[1..] == ['u'] + (FourDigits(n) + tail)
    ensures |Unit(n)| == 6
  {
  }

  lemma OpensUnicode(n: nat, tail: string)
    requires n < 0x10000
    ensures ParseEscape((Unit(n) + tail)[1..]) == ParseUnicode(FourDigits(n) + tail)
  {
    UnitParts(n, tail);
    assert (['u'] + (FourDigits(n) + tail))[1..] == FourDigits(n) + tail;
  }

  lemma ReadUnit(c: char, tail: string)
    requires c as int < 0x10000
    ensures ParseEscape((Unit(c as int) + tail)[1..]) == Got(c, tail)
  {
    OpensUnicode(c as int, tail);
    ReadFourDigits(c as int, tail);
  }

  lemma ReadPair(high: nat, low: nat, tail: string)
    requires 0xD800 <= high < 0xDC00 && 0xDC00 <= low < 0xE000
    ensures ParseUnicode(FourDigits(high) + (Unit(low) + tail))
         == Got((0x10000 + (high - 0xD800) * 1024 + (low - 0xDC00)) as char, tail)
  {
    var text := FourDigits(high) + (Unit(low) + tail);
    ReadFourDigits(high, Unit(low) + tail);
    UnitParts(low, tail);
    ReadFourDigits(low, tail);
    assert text[4..] == Unit(low) + tail;
    assert text[4] == '\\' && text[5] == 'u';
    assert text[6..] == text[4..][2..] == FourDigits(low) + tail;
    assert text[10..] == text[6..][4..];
  }

  lemma ReadSurrogates(c: char, tail: string)
    requires c as int >= 0x10000
    ensures (EscapeNonAscii(c) + tail)[0] == '\\'
    ensures ParseEscape((EscapeNonAscii(c) + tail)[1..]) == Got(c, tail)
  {
    var n := c as int - 0x10000;
    var high, low := 0xD800 + n / 1024, 0xDC00 + n % 1024;
    assert n == n / 1024 * 1024 + n % 1024;
    assert EscapeNonAscii(c) == Unit(high) + Unit(low);
    PairOfUnits(high, low, tail);
  }

  lemma PairOfUnits(high: nat, low: nat, tail: string)
    requires 0xD800 <= high < 0xDC00 && 0xDC00 <= low < 0xE000
    ensures (Unit(high) + Unit(low) + tail)[0] == '\\'
    ensures ParseEscape((Unit(high) + Unit(low) + tail)[1..])
         == Got((0x10000 + (high - 0xD800) * 1024 + (low - 0xDC00)) as char, tail)
  {
    assert Unit(high) + Unit(low) + tail == Unit(high) + (Unit(low) + tail);
    UnitParts(high, Unit(low) + tail);
    OpensUnicode(high, Unit(low) + tail);
    ReadPair(high, low, tail);
  }

  lemma ReadNonAscii(c: char, tail: string)
    ensures (EscapeNonAscii(c) + tail)[0] == '\\'
    ensures ParseEscape((EscapeNonAscii(c) + tail)[1..]) == Got(c, tail)
  {
    if c as int < 0x10000 {
      ReadUnit(c, tail);
    } else {
      ReadSurrogates(c, tail);
    }
  }

  lemma ReadEscapedOne(c: char, tail: string)
    ensures ParseChars(EscapeOne(c) + tail)
         == match ParseChars(tail)
            case Fail => Fail
            case Got(s, rest) => Got([c] + s, rest)
  {
    if |EscapeChar(c)| == 2 || ' ' <= c <= '~' {
      ParseEscapedChar(c, tail);
    } else {
      ReadNonAscii(c, tail);
    }
  }

  lemma {:induction false} ReadClosing(text: string, rest: string)
    ensures ParseChars(Closing(text, rest)) == Got(text, rest)
    decreases |text|
  {
    if text == "" {
      var s := "" + "\"" + rest;
      assert s[0] == '"' && s[1..] == rest;
    } else {
      ReadClosing(text[1..], rest);
      ReadEscapedOne(text[0], Closing(text[1..], rest));
      Text.Regroup(EscapeOne(text[0]), EscapeAll(text[1..]), "\"", rest);
      assert [text[0]] + text[1..] == text;
    }
  }

  lemma ReadText(text: string, rest: string)
    ensures ParseValue("\"" + Closing(text, rest)) == Got(Str(text), rest)
  {
    var whole := "\"" + Closing(text, rest);
    ReadClosing(text, rest);
    assert whole[0] == '"' && Skip(whole) == whole && whole[1..] == Closing(text, rest);
  }

  /** One entry, and what is known of what follows it. */
  lemma ReadEntry(key: string, value: string, after: string)
    requires after != "" && !IsSpace(after[0])
    ensures ParseMembers(PrintPair(key, value, after))
         == if after[0] == '}' then Got([Member(key, Str(value))], after[1..])
            else if after[0] != ',' then Fail
            else
              match ParseMembers(after[1..])
              case Fail => Fail
              case Got(pairs, left) => Got([Member(key, Str(value))] + pairs, left)
  {
    var second := "\"" + Closing(value, after);
    var colon := ":" + second;
    var text := "\"" + Closing(key, colon);
    assert text[0] == '"' && Skip(text) == text && text[1..] == Closing(key, colon);
    ReadClosing(key, colon);
    assert colon[0] == ':' && Skip(colon) == colon && colon[1..] == second;
    ReadText(value, after);
    assert Skip(after) == after;
  }

  lemma ReadOnlyPair(key: string, value: string, rest: string)
    ensures ParseMembers(PrintPair(key, value, "}" + rest))
         == Got([Member(key, Str(value))], rest)
  {
    ReadEntry(key, value, "}" + rest);
    assert ("}" + rest)[1..] == rest;
  }

  lemma ReadPairOfMany(key: string, value: string, more: string, others: seq<Member>, rest: string)
    requires ParseMembers(more) == Got(others, rest)
    ensures ParseMembers(PrintPair(key, value, "," + more))
         == Got([Member(key, Str(value))] + others, rest)
  {
    ReadEntry(key, value, "," + more);
    assert ("," + more)[1..] == more;
  }

  lemma {:induction false} ReadPairs(members: seq<Member>, rest: string)
    requires members != [] && AllTexts(members)
    ensures ParseMembers(PrintPairs(members, rest)) == Got(members, rest)
    decreases |members|
  {
    var first := members[0];
    if |members| == 1 {
      PrintOnly(members, rest);
      ReadOnlyPair(first.key, first.value.text, rest);
    } else {
      var others, more := members[1..], PrintPairs(members[1..], rest);
      ReadPairs(others, rest);
      PrintFirst(members, rest);
      ReadPairOfMany(first.key, first.value.text, more, others, rest);
    }
  }

  lemma PrintOnly(members: seq<Member>, rest: string)
    requires |members| == 1 && AllTexts(members)
    ensures PrintPairs(members, rest) == PrintPair(members[0].key, members[0].value.text, "}" + rest)
    ensures [Member(members[0].key, Str(members[0].value.text))] == members
  {
    assert members[0] in members;
  }

  lemma PrintFirst(members: seq<Member>, rest: string)
    requires |members| > 1 && AllTexts(members)
    ensures PrintPairs(members, rest)
         == PrintPair(members[0].key, members[0].value.text, "," + PrintPairs(members[1..], rest))
    ensures [Member(members[0].key, Str(members[0].value.text))] + members[1..] == members
  {
    assert members[0] in members;
  }

  /** Loading the printed dictionary gives it back, whatever characters its texts hold. */
  lemma LoadsOfPrinted(members: seq<Member>, space: string)
    requires DistinctKeys(members) && AllTexts(members)
    requires Skip(space) == ""
    ensures Loads(PrintDict(members, space)) == Some(Obj(members))
  {
    var inside := if members == [] then "}" + space else PrintPairs(members, space);
    OpensObject(inside);
    assert Skip(inside) == inside;
    if members == [] {
      assert inside[1..] == space;
    } else {
      assert inside[0] == '"';
      ReadPairs(members, space);
      ToDictOfDistinct(members);
    }
  }

  lemma OneIsAscii(c: char)
    ensures forall i | 0 <= i < |EscapeOne(c)| :: ' ' <= EscapeOne(c)[i] <= '~'
  {
  }

  /** The printed texts are ASCII throughout. */
  lemma {:induction false} EscapedIsAscii(text: string)
    ensures forall i | 0 <= i < |EscapeAll(text)| :: ' ' <= EscapeAll(text)[i] <= '~'
  {
    if text != "" {
      OneIsAscii(text[0]);
      EscapedIsAscii(text[1..]);
    }
  }
}
