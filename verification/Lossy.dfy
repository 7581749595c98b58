/** UTF-8 decoding with replacement, as Python's `decode("utf-8", "replace")` does it. */
module Lossy {
  import opened Wrappers
  import opened Utf8
  import opened Text

  const REPLACEMENT: char := '\U{FFFD}'

  /** Second bytes that can follow this lead byte: overlong forms, surrogates and numbers beyond the last code
      point already fail here. */
  predicate IsSecond(lead: byte, b: byte)
  {
    && 0xC2 <= lead <= 0xF4 && IsContinuation(b)
    && (lead == 0xE0 ==> 0xA0 <= b) && (lead == 0xED ==> b < 0xA0)
    && (lead == 0xF0 ==> 0x90 <= b) && (lead == 0xF4 ==> b < 0x90)
  }

  /** How many bytes one replacement stands for: the longest start of a character, or a single byte. */
  function BadWidth(bytes: seq<byte>): (n: nat)
    requires bytes != []
    ensures 1 <= n <= |bytes|
  {
    if |bytes| == 1 || !IsSecond(bytes[0], bytes[1]) then 1
    else if |bytes| == 2 || !IsContinuation(bytes[2]) then 2
    else 3
  }

  function Decode(bytes: seq<byte>): string
    decreases |bytes|
  {
    if bytes == [] then ""
    else
      match DecodeChar(bytes)
      case Some(c) => [c] + Decode(bytes[Width(bytes[0])..])
      case None => [REPLACEMENT] + Decode(bytes[BadWidth(bytes)..])
  }

  lemma DecodeFirst(c: char, more: seq<byte>)
    ensures Decode(EncodeChar(c) + more) == [c] + Decode(more)
  {
    var unit := EncodeChar(c);
    var bytes := unit + more;
    DecodeCharOfEncoded(c, more);
    ScalarOfEncoded(c);
    assert bytes != [] && bytes[0] == unit[0] && bytes[|unit|..] == more;
  }

  lemma DecodeFirstAndRest(c: char, tail: seq<byte>, rest: seq<byte>, text: string)
    requires Decode(tail + rest) == text + Decode(rest)
    ensures Decode(EncodeChar(c) + tail + rest) == [c] + text + Decode(rest)
  {
    DecodeFirst(c, tail + rest);
    assert EncodeChar(c) + tail + rest == EncodeChar(c) + (tail + rest);
  }

  /** Text that was encoded comes back, whatever bytes follow it. */
  lemma {:induction false} DecodeEncoded(text: string, rest: seq<byte>)
    ensures Decode(Encode(text) + rest) == text + Decode(rest)
    decreases |text|
  {
    if text == "" {
      assert Encode(text) + rest == rest;
    } else {
      DecodeEncoded(text[1..], rest);
      DecodeFirstAndRest(text[0], Encode(text[1..]), rest, text[1..]);
      assert [text[0]] + text[1..] == text;
    }
  }

  lemma DecodeAllEncoded(text: string)
    ensures Decode(Encode(text)) == text
  {
    DecodeEncoded(text, []);
    assert Encode(text) + [] == Encode(text) && text + Decode([]) == text;
  }

  /** Without a replacement in it, the text is the strict decoding. */
  lemma {:induction false} UnmarkedIsStrict(bytes: seq<byte>)
    requires REPLACEMENT !in Decode(bytes)
    ensures Utf8.Decode(bytes) == Some(Decode(bytes))
    decreases |bytes|
  {
    if bytes != [] {
      match DecodeChar(bytes) {
        case Some(c) =>
          var rest := bytes[Width(bytes[0])..];
          assert Decode(bytes) == [c] + Decode(rest);
          UnmarkedIsStrict(rest);
        case None =>
          assert false;
      }
    }
  }

  /** What decodes strictly decodes to the same text here. */
  lemma StrictIsSame(bytes: seq<byte>)
    requires Utf8.Decode(bytes).Some?
    ensures Utf8.Decode(bytes) == Some(Decode(bytes))
  {
    var text := Utf8.Decode(bytes).value;
    DecodeIff(bytes, text);
    DecodeAllEncoded(text);
  }

  /** A byte that starts no character is replaced on its own. */
  lemma DecodeBadByte(b: byte, rest: seq<byte>)
    requires b >= 0xF8
    ensures Decode([b] + rest) == [REPLACEMENT] + Decode(rest)
  {
    assert ([b] + rest)[1..] == rest;
  }

  /** Two byte strings that both decode strictly never become the same text. */
  lemma StrictNeverCollide(a: seq<byte>, b: seq<byte>)
    requires Utf8.Decode(a).Some? && Utf8.Decode(b).Some? && a != b
    ensures Decode(a) != Decode(b)
  {
    StrictIsSame(a);
    StrictIsSame(b);
    DecodeIff(a, Decode(a));
    DecodeIff(b, Decode(a));
  }

  lemma TwinText(before: string, after: string)
    ensures Decode(Encode(before) + ([0xFF] + Encode(after))) == before + [REPLACEMENT] + after
  {
    DecodeEncoded(before, [0xFF] + Encode(after));
    DecodeBadByte(0xFF, Encode(after));
    DecodeAllEncoded(after);
    assert before + ([REPLACEMENT] + after) == before + [REPLACEMENT] + after;
  }

  lemma TwinIsShorter(before: string, after: string)
    ensures |Encode(before) + ([0xFF] + Encode(after))| < |Encode(before + [REPLACEMENT] + after)|
  {
    EncodeConcat(before + [REPLACEMENT], after);
    EncodeConcat(before, [REPLACEMENT]);
    assert [REPLACEMENT][1..] == "";
    assert |EncodeChar(REPLACEMENT)| == 3;
  }

  /** A byte that starts no character instead of a replacement character: shorter bytes for the same text. */
  lemma ShorterTwin(text: string) returns (bytes: seq<byte>)
    requires REPLACEMENT in text
    ensures Decode(bytes) == text && |bytes| < |Encode(text)|
  {
    var p :| 0 <= p < |text| && text[p] == REPLACEMENT;
    var before, after := text[..p], text[p + 1..];
    assert text == before + [REPLACEMENT] + after;
    bytes := Encode(before) + ([0xFF] + Encode(after));
    TwinText(before, after);
    TwinIsShorter(before, after);
  }

  /** Another byte string for a text with a replacement in it. */
  lemma Twin(bytes: seq<byte>) returns (other: seq<byte>)
    requires REPLACEMENT in Decode(bytes)
    ensures other != bytes && Decode(other) == Decode(bytes)
  {
    var text := Decode(bytes);
    if Utf8.Decode(bytes).None? {
      other := Encode(text);
      DecodeEncode(text);
      DecodeAllEncoded(text);
    } else {
      other := ShorterTwin(text);
      StrictIsSame(bytes);
      DecodeIff(bytes, text);
    }
  }

  lemma UnmarkedNeverCollides(bytes: seq<byte>, other: seq<byte>)
    requires other != bytes && REPLACEMENT !in Decode(bytes)
    ensures Decode(other) != Decode(bytes)
  {
    if Decode(other) == Decode(bytes) {
      UnmarkedIsStrict(bytes);
      UnmarkedIsStrict(other);
      StrictNeverCollide(bytes, other);
      assert false;
    }
  }

  /** Some other byte string decodes to the same text if and only if that text holds a replacement. */
  lemma CollidesIff(bytes: seq<byte>)
    ensures (exists other :: other != bytes && Decode(other) == Decode(bytes)) <==> REPLACEMENT in Decode(bytes)
  {
    if REPLACEMENT in Decode(bytes) {
      var other := Twin(bytes);
    } else {
      forall other | other != bytes ensures Decode(other) != Decode(bytes) {
        UnmarkedNeverCollides(bytes, other);
      }
    }
  }

  // --- What one replacement stands for ------------------------------------------------------------------------

  lemma SecondOf(c: char)
    requires |EncodeChar(c)| >= 2
    ensures IsSecond(EncodeChar(c)[0], EncodeChar(c)[1])
  {
  }

  lemma TwoBytes(a: byte, b: byte) returns (c: char)
    requires a < 0xE0 && IsSecond(a, b)
    ensures EncodeChar(c) == [a, b]
  {
    c := ((a - 0xC0) * 64 + (b - 0x80)) as char;
  }

  lemma ThreeBytes(a: byte, b: byte, d: byte) returns (c: char)
    requires 0xE0 <= a < 0xF0 && IsSecond(a, b) && IsContinuation(d)
    ensures EncodeChar(c) == [a, b, d]
  {
    var n := (a - 0xE0) * 4096 + (b - 0x80) * 64 + (d - 0x80);
    assert n / 64 == (a - 0xE0) * 64 + (b - 0x80) && n / 4096 == a - 0xE0;
    c := n as char;
  }

  lemma SixtyFour(quotient: nat, rest: nat)
    requires rest < 64
    ensures (quotient * 64 + rest) / 64 == quotient && (quotient * 64 + rest) % 64 == rest
  {
  }

  lemma DigitsOf(p: nat, q: nat, r: nat, s: nat, n: nat)
    requires q < 64 && r < 64 && s < 64 && n == p * 262144 + q * 4096 + r * 64 + s
    ensures n % 64 == s && n / 64 % 64 == r && n / 4096 % 64 == q && n / 262144 == p
  {
    SixtyFour(p * 4096 + q * 64 + r, s);
    SixtyFour(p * 64 + q, r);
    SixtyFour(p, q);
    assert n / 4096 == n / 64 / 64;
    assert n / 262144 == n / 4096 / 64;
  }

  lemma FourBytes(a: byte, b: byte, d: byte, e: byte) returns (c: char)
    requires 0xF0 <= a && IsSecond(a, b) && IsContinuation(d) && IsContinuation(e)
    ensures EncodeChar(c) == [a, b, d, e]
  {
    var n := (a - 0xF0) * 262144 + (b - 0x80) * 4096 + (d - 0x80) * 64 + (e - 0x80);
    DigitsOf(a - 0xF0, b - 0x80, d - 0x80, e - 0x80, n);
    c := n as char;
  }

  /** Bytes that start with a whole character are not replaced. */
  lemma WholeIsDecoded(bytes: seq<byte>, c: char)
    requires EncodeChar(c) <= bytes
    ensures DecodeChar(bytes).Some?
  {
    var rest := bytes[|EncodeChar(c)|..];
    assert bytes == EncodeChar(c) + rest;
    DecodeCharOfEncoded(c, rest);
  }

  /** What one replacement stands for, if more than a byte, is the start of some character... */
  lemma ReplacedIsStart(bytes: seq<byte>) returns (c: char)
    requires bytes != [] && DecodeChar(bytes).None? && BadWidth(bytes) > 1
    ensures bytes[..BadWidth(bytes)] < EncodeChar(c)
  {
    var a, b := bytes[0], bytes[1];
    if a < 0xE0 {
      c := TwoBytes(a, b);
      assert bytes[..2] == [a, b];
      WholeIsDecoded(bytes, c);
      assert false;
    } else if a < 0xF0 {
      if BadWidth(bytes) == 3 {
        c := ThreeBytes(a, b, bytes[2]);
        assert bytes[..3] == [a, b, bytes[2]];
        WholeIsDecoded(bytes, c);
        assert false;
      }
      c := ThreeBytes(a, b, 0x80);
      assert bytes[..2] == [a, b];
    } else if BadWidth(bytes) == 3 {
      c := FourBytes(a, b, bytes[2], 0x80);
      assert bytes[..3] == [a, b, bytes[2]];
    } else {
      c := FourBytes(a, b, 0x80, 0x80);
      assert bytes[..2] == [a, b];
    }
  }

  /** ... and with the next byte it would be the start of none: a replacement stands for as much as it can. */
  lemma ReplacedIsMaximal(bytes: seq<byte>, c: char)
    requires bytes != [] && DecodeChar(bytes).None? && BadWidth(bytes) < |bytes|
    ensures !(bytes[..BadWidth(bytes) + 1] <= EncodeChar(c))
  {
    var n, unit := BadWidth(bytes), EncodeChar(c);
    if bytes[..n + 1] <= unit {
      assert unit[0] == bytes[..n + 1][0] && unit[1] == bytes[..n + 1][1] && unit[n] == bytes[..n + 1][n];
      SecondOf(c);
      if n == 3 {
        assert unit == bytes[..4];
        WholeIsDecoded(bytes, c);
      }
      assert false;
    }
  }

  // --- Searching the bytes and searching the text -----------------------------------------------------------

  /** How many bytes the first character of the decoding takes. */
  function FirstWidth(bytes: seq<byte>): (n: nat)
    requires bytes != []
    ensures 1 <= n <= |bytes|
  {
    if DecodeChar(bytes).Some? then Width(bytes[0]) else BadWidth(bytes)
  }

  function FirstChar(bytes: seq<byte>): char
    requires bytes != []
  {
    match DecodeChar(bytes)
    case Some(c) => c
    case None => REPLACEMENT
  }

  lemma DecodeUnfolds(bytes: seq<byte>)
    requires bytes != []
    ensures Decode(bytes) == [FirstChar(bytes)] + Decode(bytes[FirstWidth(bytes)..])
  {
  }

  /** A character, replaced or not, takes no byte that could start another one but its first. */
  lemma FirstSkipsContinuations(bytes: seq<byte>, i: nat)
    requires bytes != [] && 1 <= i < FirstWidth(bytes)
    ensures IsContinuation(bytes[i])
  {
    if DecodeChar(bytes).Some? {
      assert bytes[..Width(bytes[0])][i] == bytes[i];
    }
  }

  /** A byte that is no continuation starts a character of the decoding. */
  lemma {:induction false} DecodeFromBoundary(bytes: seq<byte>, i: nat) returns (before: string)
    requires i < |bytes| && !IsContinuation(bytes[i])
    ensures Decode(bytes) == before + Decode(bytes[i..])
    decreases |bytes|
  {
    if i == 0 {
      before := "";
      assert bytes[0..] == bytes && "" + Decode(bytes) == Decode(bytes);
    } else {
      var n := FirstWidth(bytes);
      if i < n {
        FirstSkipsContinuations(bytes, i);
        assert false;
      }
      var rest := DecodeFromBoundary(bytes[n..], i - n);
      before := [FirstChar(bytes)] + rest;
      DecodeUnfolds(bytes);
      assert bytes[n..][i - n..] == bytes[i..];
      Prefixed(FirstChar(bytes), rest, Decode(bytes[i..]));
    }
  }

  lemma Prefixed(c: char, rest: string, after: string)
    ensures [c] + (rest + after) == [c] + rest + after
  {
  }

  /** What is found in the bytes is found in the text, in any bytes and for any text. */
  lemma ScanInventsNone(sentinel: string, bytes: seq<byte>)
    requires Occurs(Encode(sentinel), bytes)
    ensures Occurs(sentinel, Decode(bytes))
  {
    if sentinel == "" {
      assert OccursAt(sentinel, Decode(bytes), 0);
    } else {
      var i: nat :| i <= |bytes| && OccursAt(Encode(sentinel), bytes, i);
      MatchIsFound(sentinel, bytes, i);
    }
  }

  lemma MatchIsFound(sentinel: string, bytes: seq<byte>, i: nat)
    requires sentinel != "" && OccursAt(Encode(sentinel), bytes, i)
    ensures Occurs(sentinel, Decode(bytes))
  {
    MatchStartsCharacter(sentinel, bytes, i);
    var before := DecodeFromBoundary(bytes, i);
    CutAtMatch(Encode(sentinel), bytes, i);
    MatchIsText(sentinel, bytes[i..], bytes[i + |Encode(sentinel)|..], before, Decode(bytes));
  }

  lemma MatchStartsCharacter(sentinel: string, bytes: seq<byte>, i: nat)
    requires sentinel != "" && OccursAt(Encode(sentinel), bytes, i)
    ensures i < |bytes| && !IsContinuation(bytes[i])
  {
    OccursAtIndex(Encode(sentinel), bytes, i, 0);
  }

  lemma MatchIsText(sentinel: string, tail: seq<byte>, after: seq<byte>, before: string, text: string)
    requires tail == Encode(sentinel) + after && text == before + Decode(tail)
    ensures Occurs(sentinel, text)
  {
    DecodeEncoded(sentinel, after);
    FoundBetween(before, sentinel, Decode(after));
  }

  lemma CutAtMatch(needle: seq<byte>, bytes: seq<byte>, i: nat)
    requires OccursAt(needle, bytes, i)
    ensures bytes[i..] == needle + bytes[i + |needle|..]
  {
  }

  lemma FoundBetween(before: string, mid: string, after: string)
    ensures Occurs(mid, before + (mid + after))
  {
    assert (before + (mid + after))[|before|..|before| + |mid|] == mid;
    assert OccursAt(mid, before + (mid + after), |before|);
  }

  /** Each place in the text is the decoding of some end of the bytes. */
  lemma {:induction false} BytesFrom(bytes: seq<byte>, p: nat) returns (k: nat)
    requires p <= |Decode(bytes)|
    ensures k <= |bytes| && Decode(bytes[k..]) == Decode(bytes)[p..]
    decreases |bytes|
  {
    if p == 0 {
      k := 0;
      assert bytes[0..] == bytes && Decode(bytes)[0..] == Decode(bytes);
    } else {
      var n := FirstWidth(bytes);
      DecodeUnfolds(bytes);
      var j := BytesFrom(bytes[n..], p - 1);
      k := n + j;
      assert bytes[n..][j..] == bytes[k..];
      assert Decode(bytes)[p..] == Decode(bytes[n..])[p - 1..];
    }
  }

  /** A decoding that starts with an unmarked text comes from bytes that start with its encoding. */
  lemma {:induction false} UnmarkedStart(text: string, bytes: seq<byte>)
    requires text <= Decode(bytes) && REPLACEMENT !in text
    ensures Encode(text) <= bytes
    decreases |text|
  {
    if text != "" {
      var n := FirstWidth(bytes);
      DecodeUnfolds(bytes);
      assert text[0] == FirstChar(bytes) && text[0] in text;
      assert bytes[..n] == EncodeChar(text[0]);
      assert text[1..] <= Decode(bytes[n..]);
      UnmarkedStart(text[1..], bytes[n..]);
      PrefixAfter(EncodeChar(text[0]), Encode(text[1..]), bytes);
    }
  }

  lemma PrefixAfter(first: seq<byte>, rest: seq<byte>, bytes: seq<byte>)
    requires |first| <= |bytes| && bytes[..|first|] == first && rest <= bytes[|first|..]
    ensures first + rest <= bytes
  {
    assert bytes == first + bytes[|first|..];
  }

  /** What is found in the text is found in the bytes, if it holds no replacement character. */
  lemma ScanMissesNone(sentinel: string, bytes: seq<byte>)
    requires Occurs(sentinel, Decode(bytes)) && REPLACEMENT !in sentinel
    ensures Occurs(Encode(sentinel), bytes)
  {
    var p: nat :| p <= |Decode(bytes)| && OccursAt(sentinel, Decode(bytes), p);
    var k := BytesFrom(bytes, p);
    StartsThere(sentinel, Decode(bytes), p);
    UnmarkedStart(sentinel, bytes[k..]);
    OccursWhereItStarts(Encode(sentinel), bytes, k);
  }

  lemma StartsThere(sentinel: string, text: string, p: nat)
    requires OccursAt(sentinel, text, p)
    ensures sentinel <= text[p..]
  {
    assert text[p..][..|sentinel|] == text[p..p + |sentinel|];
  }

  lemma OccursWhereItStarts(needle: seq<byte>, bytes: seq<byte>, k: nat)
    requires k <= |bytes| && needle <= bytes[k..]
    ensures Occurs(needle, bytes)
  {
    assert bytes[k..k + |needle|] == bytes[k..][..|needle|];
    assert OccursAt(needle, bytes, k);
  }

  /** Scanning bytes, whatever they are, for an encoded text is exactly scanning their lossy decoding for the
      text, if and only if that text holds no replacement character. */
  lemma ScanIsExactIff(sentinel: string)
    ensures (forall bytes :: Occurs(Encode(sentinel), bytes) <==> Occurs(sentinel, Decode(bytes)))
       <==> REPLACEMENT !in sentinel
  {
    if REPLACEMENT in sentinel {
      var bytes := ShorterTwin(sentinel);
      assert OccursAt(sentinel, sentinel, 0);
      assert Occurs(sentinel, Decode(bytes));
    } else {
      forall bytes ensures Occurs(Encode(sentinel), bytes) <==> Occurs(sentinel, Decode(bytes)) {
        ScanBothWays(sentinel, bytes);
      }
    }
  }

  lemma ScanBothWays(sentinel: string, bytes: seq<byte>)
    requires REPLACEMENT !in sentinel
    ensures Occurs(Encode(sentinel), bytes) <==> Occurs(sentinel, Decode(bytes))
  {
    if Occurs(Encode(sentinel), bytes) {
      ScanInventsNone(sentinel, bytes);
    } else if Occurs(sentinel, Decode(bytes)) {
      ScanMissesNone(sentinel, bytes);
    }
  }
}
