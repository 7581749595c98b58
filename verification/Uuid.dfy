/** Identifiers: `UUID(text)`, `str` of it, and the canonical texts (section 4 of RFC 9562). */
module Uuid {
  import opened Wrappers
  import opened Json
  import opened Text
  import opened Utf8

  // --- Printing ---------------------------------------------------------------------------------------------

  function HexOf(bytes: seq<byte>): (hex: string)
    ensures |hex| == 2 * |bytes|
  {
    if bytes == [] then "" else [HexDigit(bytes[0] / 16), HexDigit(bytes[0] % 16)] + HexOf(bytes[1..])
  }

  /** Five groups with hyphens between them. */
  function Grouped(hex: string): string
    requires |hex| == 32
  {
    hex[..8] + "-" + hex[8..12] + "-" + hex[12..16] + "-" + hex[16..20] + "-" + hex[20..]
  }

  /** `str(uuid)` */
  function Print(bytes: seq<byte>): string
    requires |bytes| == 16
  {
    Grouped(HexOf(bytes))
  }

  // --- Reading ----------------------------------------------------------------------------------------------

  /** Pairs of hexadecimal digits in either case. */
  function ReadHex(hex: string): (bytes: Option<seq<byte>>)
    ensures bytes.Some? ==> 2 * |bytes.value| == |hex|
  {
    if hex == "" then Some([])
    else if |hex| == 1 then None
    else
      match (HexValue(hex[0]), HexValue(hex[1]), ReadHex(hex[2..]))
      case (Some(high), Some(low), Some(rest)) =>
        if high < 16 && low < 16 then Some([high * 16 + low] + rest) else None
      case _ => None
  }

  predicate IsBrace(c: char)
  {
    c == '{' || c == '}'
  }

  /** `text.strip("{}")` */
  function StripBraces(text: string): string
    decreases |text|
  {
    if text != "" && IsBrace(text[0]) then StripBraces(text[1..])
    else if text != "" && IsBrace(text[|text| - 1]) then StripBraces(text[..|text| - 1])
    else text
  }

  /** `UUID(text)` */
  function Read(text: string): (bytes: Option<seq<byte>>)
    ensures bytes.Some? ==> |bytes.value| == 16
  {
    var plain := Replace(Replace(text, "urn:", ""), "uuid:", "");
    var hex := Replace(StripBraces(plain), "-", "");
    if |hex| == 32 then ReadHex(hex) else None
  }

  // --- The canonical texts ----------------------------------------------------------------------------------

  predicate IsLowerHex(c: char)
  {
    '0' <= c <= '9' || 'a' <= c <= 'f'
  }

  /** The canonical spelling: hyphens in four places, lower-case digits in the others. */
  predicate IsCanonicalUuid(text: string)
  {
    |text| == 36 &&
    forall i | 0 <= i < 36 ::
      if i == 8 || i == 13 || i == 18 || i == 23 then text[i] == '-' else IsLowerHex(text[i])
  }

  predicate AllLowerHex(text: string)
  {
    forall i | 0 <= i < |text| :: IsLowerHex(text[i])
  }

  lemma {:induction false} HexOfIsLower(bytes: seq<byte>)
    ensures AllLowerHex(HexOf(bytes))
  {
    if bytes != [] {
      HexOfIsLower(bytes[1..]);
    }
  }

  lemma {:induction false} ReadHexOf(bytes: seq<byte>)
    ensures ReadHex(HexOf(bytes)) == Some(bytes)
  {
    if bytes != [] {
      var hex := HexOf(bytes);
      ReadHexOf(bytes[1..]);
      assert hex[2..] == HexOf(bytes[1..]);
      HexOfByte(bytes[0]);
      assert [bytes[0]] + bytes[1..] == bytes;
    }
  }

  lemma HexOfByte(b: byte)
    ensures HexValue(HexDigit(b / 16)) == Some(b / 16) && HexValue(HexDigit(b % 16)) == Some(b % 16)
    ensures b / 16 * 16 + b % 16 == b
  {
  }

  /** Every run of lower-case digits is printed from some bytes. */
  lemma {:induction false} LowerHexIsPrinted(hex: string) returns (bytes: seq<byte>)
    requires AllLowerHex(hex) && |hex| % 2 == 0
    ensures HexOf(bytes) == hex
  {
    if hex == "" {
      bytes := [];
    } else {
      var rest := LowerHexIsPrinted(hex[2..]);
      var high := LowerHexDigit(hex[0]);
      var low := LowerHexDigit(hex[1]);
      bytes := [high * 16 + low] + rest;
      assert bytes[1..] == rest && (high * 16 + low) / 16 == high && (high * 16 + low) % 16 == low;
      assert hex == [hex[0], hex[1]] + hex[2..];
    }
  }

  lemma LowerHexDigit(c: char) returns (n: nat)
    requires IsLowerHex(c)
    ensures n < 16 && HexDigit(n) == c
  {
    n := if c <= '9' then c as int - '0' as int else c as int - 'a' as int + 10;
  }

  lemma GroupedIsCanonical(hex: string)
    requires |hex| == 32 && AllLowerHex(hex)
    ensures IsCanonicalUuid(Grouped(hex))
  {
  }

  lemma CanonicalIsGrouped(text: string) returns (hex: string)
    requires IsCanonicalUuid(text)
    ensures |hex| == 32 && AllLowerHex(hex) && Grouped(hex) == text
  {
    hex := text[..8] + text[9..13] + text[14..18] + text[19..23] + text[24..];
    assert hex[..8] == text[..8] && hex[8..12] == text[9..13] && hex[12..16] == text[14..18];
    assert hex[16..20] == text[19..23] && hex[20..] == text[24..];
  }

  // --- A printed identifier is read back ----------------------------------------------------------------------

  /** `replace` takes out a hyphen behind a text without one. */
  lemma DropHyphen(before: string, after: string)
    requires '-' !in before
    ensures Replace(before + "-" + after, "-", "") == before + Replace(after, "-", "")
  {
    var text := before + "-" + after;
    forall j | 0 <= j < |before| ensures !OccursAt("-", text, j) {
      if OccursAt("-", text, j) {
        OccursAtIndex("-", text, j, 0);
        assert false;
      }
    }
    ReplaceAtFirst(before, "-", after, "");
    assert before + "" == before;
  }

  lemma NoHyphen(text: string)
    requires '-' !in text
    ensures Replace(text, "-", "") == text
  {
    Lacks(text, "-", '-');
    ReplaceAbsent(text, "-", "");
  }

  /** A pattern with a character that the text lacks does not occur in it. */
  lemma Lacks(text: string, pattern: string, c: char)
    requires pattern != "" && pattern[0] == c && c !in text
    ensures !Occurs(pattern, text)
  {
    if Occurs(pattern, text) {
      var i: nat :| i <= |text| && OccursAt(pattern, text, i);
      OccursAtIndex(pattern, text, i, 0);
      assert false;
    }
  }

  lemma NestRight(a: string, b: string, c: string, d: string, e: string)
    ensures a + "-" + b + "-" + c + "-" + d + "-" + e == a + "-" + (b + "-" + (c + "-" + (d + "-" + e)))
  {
  }

  lemma UngroupFive(a: string, b: string, c: string, d: string, e: string)
    requires '-' !in a && '-' !in b && '-' !in c && '-' !in d && '-' !in e
    ensures Replace(a + "-" + b + "-" + c + "-" + d + "-" + e, "-", "") == a + (b + (c + (d + e)))
  {
    NestRight(a, b, c, d, e);
    DropHyphen(a, b + "-" + (c + "-" + (d + "-" + e)));
    DropHyphen(b, c + "-" + (d + "-" + e));
    DropHyphen(c, d + "-" + e);
    DropHyphen(d, e);
    NoHyphen(e);
  }

  lemma Ungroup(hex: string)
    requires |hex| == 32 && AllLowerHex(hex)
    ensures Replace(Grouped(hex), "-", "") == hex
  {
    UngroupFive(hex[..8], hex[8..12], hex[12..16], hex[16..20], hex[20..]);
    assert hex == hex[..8] + (hex[8..12] + (hex[12..16] + (hex[16..20] + hex[20..])));
  }

  /** Prefixes and braces are only taken away where there are some. */
  lemma CanonicalStays(text: string)
    requires IsCanonicalUuid(text)
    ensures StripBraces(Replace(Replace(text, "urn:", ""), "uuid:", "")) == text
  {
    assert 'u' !in text;
    Lacks(text, "urn:", 'u');
    ReplaceAbsent(text, "urn:", "");
    Lacks(text, "uuid:", 'u');
    ReplaceAbsent(text, "uuid:", "");
    assert !IsBrace(text[0]) && !IsBrace(text[35]);
  }

  /** Reading what was printed gives the identifier back. */
  lemma ReadPrinted(bytes: seq<byte>)
    requires |bytes| == 16
    ensures Read(Print(bytes)) == Some(bytes)
  {
    var hex := HexOf(bytes);
    HexOfIsLower(bytes);
    GroupedIsCanonical(hex);
    CanonicalStays(Print(bytes));
    Ungroup(hex);
    ReadHexOf(bytes);
  }

  /** `str(UUID(text)) == text` if and only if the text has the canonical spelling. */
  lemma CanonicalIff(text: string)
    ensures IsCanonicalUuid(text) <==> Read(text).Some? && Print(Read(text).value) == text
  {
    if IsCanonicalUuid(text) {
      var hex := CanonicalIsGrouped(text);
      var bytes := LowerHexIsPrinted(hex);
      ReadPrinted(bytes);
    }
    if Read(text).Some? && Print(Read(text).value) == text {
      HexOfIsLower(Read(text).value);
      GroupedIsCanonical(HexOf(Read(text).value));
    }
  }
}
