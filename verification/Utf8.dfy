/** UTF-8 (section 3 of RFC 3629), and why a search on encoded bytes finds what a search on text finds. */
module Utf8 {
  import opened Wrappers
  import opened Text

  type byte = b: int | 0 <= b < 256

  /** A byte that continues a character and starts none. */
  predicate IsContinuation(b: byte)
  {
    0x80 <= b < 0xC0
  }

  function EncodeChar(c: char): (bytes: seq<byte>)
    ensures bytes != [] && !IsContinuation(bytes[0])
    ensures forall i | 1 <= i < |bytes| :: IsContinuation(bytes[i])
  {
    var n := c as int;
    if n < 0x80 then [n]
    else if n < 0x800 then [0xC0 + n / 64, 0x80 + n % 64]
    else if n < 0x10000 then [0xE0 + n / 4096, 0x80 + n / 64 % 64, 0x80 + n % 64]
    else [0xF0 + n / 262144, 0x80 + n / 4096 % 64, 0x80 + n / 64 % 64, 0x80 + n % 64]
  }

  function Encode(text: string): seq<byte>
  {
    if text == "" then [] else EncodeChar(text[0]) + Encode(text[1..])
  }

  /** How many bytes the character that starts with this byte has; 0 if none starts with it. */
  function Width(b: byte): nat
  {
    if b < 0x80 then 1
    else if b < 0xC0 then 0
    else if b < 0xE0 then 2
    else if b < 0xF0 then 3
    else if b < 0xF8 then 4
    else 0
  }

  /** The number that a lead byte and its continuation bytes spell. */
  function Scalar(unit: seq<byte>): int
    requires |unit| == 1 || |unit| == 2 || |unit| == 3 || |unit| == 4
  {
    var u: seq<int> := unit;
    if |u| == 1 then u[0]
    else if |u| == 2 then (u[0] - 0xC0) * 64 + (u[1] - 0x80)
    else if |u| == 3 then (u[0] - 0xE0) * 4096 + (u[1] - 0x80) * 64 + (u[2] - 0x80)
    else (u[0] - 0xF0) * 262144 + (u[1] - 0x80) * 4096 + (u[2] - 0x80) * 64 + (u[3] - 0x80)
  }

  predicate IsScalarValue(n: int)
  {
    0 <= n < 0xD800 || 0xE000 <= n < 0x110000
  }

  /** Strict decoding: no overlong form, no surrogate, nothing beyond the last code point. */
  function DecodeChar(bytes: seq<byte>): (c: Option<char>)
    requires bytes != []
    ensures c.Some? ==> 0 < Width(bytes[0]) <= |bytes| && EncodeChar(c.value) == bytes[..Width(bytes[0])]
  {
    var w := Width(bytes[0]);
    if w == 0 || |bytes| < w || exists i | 1 <= i < w :: !IsContinuation(bytes[i]) then None
    else
      var n := Scalar(bytes[..w]);
      if IsScalarValue(n) && EncodeChar(n as char) == bytes[..w] then Some(n as char) else None
  }

  function Decode(bytes: seq<byte>): Option<string>
    decreases |bytes|
  {
    if bytes == [] then Some("")
    else
      match DecodeChar(bytes)
      case None => None
      case Some(c) =>
        match Decode(bytes[Width(bytes[0])..])
        case None => None
        case Some(rest) => Some([c] + rest)
  }

  // --- Encoding and decoding are inverse --------------------------------------------------------

  lemma ScalarOfEncoded(c: char)
    ensures |EncodeChar(c)| == Width(EncodeChar(c)[0])
    ensures Scalar(EncodeChar(c)) == c as int
  {
    var n := c as int;
    assert n == n / 64 * 64 + n % 64;
    assert n / 64 == n / 4096 * 64 + n / 64 % 64 by { assert n / 64 / 64 == n / 4096; }
    assert n / 4096 == n / 262144 * 64 + n / 4096 % 64 by { assert n / 4096 / 64 == n / 262144; }
  }

  /** Each character gets its shortest unit: any lead byte with its continuation bytes that spells the same number
      is as long at least, and only a character below 128 is a byte of its own. */
  lemma EncodeIsShortest(c: char, unit: seq<byte>)
    requires unit != [] && |unit| == Width(unit[0]) && forall i | 1 <= i < |unit| :: IsContinuation(unit[i])
    requires Scalar(unit) == c as int
    ensures |EncodeChar(c)| <= |unit|
    ensures |unit| == |EncodeChar(c)| ==> unit == EncodeChar(c)
    ensures EncodeChar(c) == [c as int] <==> c as int < 128
  {
    ScalarOfEncoded(c);
    if |unit| == |EncodeChar(c)| {
      SameScalar(unit, EncodeChar(c));
    }
  }

  /** Units of the same length that spell the same number are the same. */
  lemma SameScalar(a: seq<byte>, b: seq<byte>)
    requires a != [] && b != [] && |a| == |b| == Width(a[0]) == Width(b[0]) && Scalar(a) == Scalar(b)
    requires forall i | 1 <= i < |a| :: IsContinuation(a[i]) && IsContinuation(b[i])
    ensures a == b
  {
    assert |a| > 1 ==> IsContinuation(a[1]) && IsContinuation(b[1]);
    assert |a| > 2 ==> IsContinuation(a[2]) && IsContinuation(b[2]);
    assert |a| > 3 ==> IsContinuation(a[3]) && IsContinuation(b[3]);
    if |a| == 4 {
      SameDigits(a[0] - 0xF0, a[1] - 0x80, a[2] - 0x80, a[3] - 0x80,
                 b[0] - 0xF0, b[1] - 0x80, b[2] - 0x80, b[3] - 0x80);
    } else if |a| == 3 {
      SameDigits(0, a[0] - 0xE0, a[1] - 0x80, a[2] - 0x80, 0, b[0] - 0xE0, b[1] - 0x80, b[2] - 0x80);
    }
  }

  /** Numbers in base 64 have unique digits. */
  lemma SameDigits(a: nat, b: nat, c: nat, d: nat, p: nat, q: nat, r: nat, s: nat)
    requires b < 64 && c < 64 && d < 64 && q < 64 && r < 64 && s < 64
    requires a * 262144 + b * 4096 + c * 64 + d == p * 262144 + q * 4096 + r * 64 + s
    ensures a == p && b == q && c == r && d == s
  {
    assert d == s;
    assert a * 4096 + b * 64 + c == p * 4096 + q * 64 + r;
  }

  lemma DecodeCharOfEncoded(c: char, rest: seq<byte>)
    ensures DecodeChar(EncodeChar(c) + rest) == Some(c)
  {
    var unit := EncodeChar(c);
    var bytes := unit + rest;
    ScalarOfEncoded(c);
    assert bytes[..|unit|] == unit;
    assert forall i | 1 <= i < |unit| :: bytes[i] == unit[i];
  }

  lemma {:induction false} DecodeEncode(text: string)
    ensures Decode(Encode(text)) == Some(text)
  {
    if text != "" {
      DecodeCharOfEncoded(text[0], Encode(text[1..]));
      ScalarOfEncoded(text[0]);
      DecodeEncode(text[1..]);
      assert Encode(text)[|EncodeChar(text[0])|..] == Encode(text[1..]);
      assert [text[0]] + text[1..] == text;
    }
  }

  /** The decoder accepts exactly the encodings. */
  lemma {:induction false} DecodeIff(bytes: seq<byte>, text: string)
    ensures Decode(bytes) == Some(text) <==> bytes == Encode(text)
    decreases |bytes|
  {
    DecodeEncode(text);
    if bytes != [] && Decode(bytes) == Some(text) {
      var n := Width(bytes[0]);
      DecodeIff(bytes[n..], text[1..]);
      assert bytes == bytes[..n] + bytes[n..];
    }
  }

  // --- Searching encoded bytes ------------------------------------------------------------------

  lemma {:induction false} EncodeConcat(a: string, b: string)
    ensures Encode(a + b) == Encode(a) + Encode(b)
  {
    if a == "" {
      assert a + b == b;
    } else {
      assert (a + b)[1..] == a[1..] + b;
      EncodeConcat(a[1..], b);
    }
  }

  /** A byte that is no continuation starts a character: the text splits there. */
  lemma {:induction false} SplitAtBoundary(text: string, i: nat) returns (k: nat)
    requires i < |Encode(text)| && !IsContinuation(Encode(text)[i])
    ensures k < |text| && Encode(text)[i..] == Encode(text[k..])
  {
    var n := |EncodeChar(text[0])|;
    if i == 0 {
      k := 0;
      assert text[0..] == text && Encode(text)[0..] == Encode(text);
    } else {
      assert i >= n;
      assert Encode(text)[n..] == Encode(text[1..]);
      assert Encode(text)[i] == Encode(text[1..])[i - n];
      var j := SplitAtBoundary(text[1..], i - n);
      k := j + 1;
      assert text[1..][j..] == text[k..];
      assert Encode(text)[i..] == Encode(text[1..])[i - n..];
    }
  }

  /** Encoded prefixes are encodings of prefixes. */
  lemma {:induction false} PrefixOfEncoded(needle: string, text: string)
    requires Encode(needle) <= Encode(text)
    ensures needle <= text
  {
    if needle != "" {
      var unit, rest := EncodeChar(needle[0]), Encode(needle[1..]);
      assert Encode(needle)[0] == unit[0];
      assert text != "";
      var tail := Encode(text)[|unit|..];
      assert Encode(text) == unit + tail by {
        assert Encode(text)[..|unit|] == Encode(needle)[..|unit|] == unit;
      }
      DecodeCharOfEncoded(needle[0], tail);
      DecodeCharOfEncoded(text[0], Encode(text[1..]));
      assert needle[0] == text[0];
      assert tail == Encode(text[1..]);
      assert rest <= tail by {
        assert Encode(needle)[|unit|..] == rest;
        assert Encode(text)[..|Encode(needle)|] == Encode(needle);
        assert tail[..|rest|] == Encode(text)[|unit|..|Encode(needle)|];
      }
      PrefixOfEncoded(needle[1..], text[1..]);
      assert [needle[0]] + needle[1..] == needle && [text[0]] + text[1..] == text;
    }
  }

  lemma ScanFinds(sentinel: string, text: string)
    requires Occurs(sentinel, text)
    ensures Occurs(Encode(sentinel), Encode(text))
  {
    var i: nat :| i <= |text| && OccursAt(sentinel, text, i);
    var before, after := text[..i], text[i + |sentinel|..];
    assert text == before + sentinel + after;
    EncodeConcat(before + sentinel, after);
    EncodeConcat(before, sentinel);
    assert OccursAt(Encode(sentinel), Encode(sentinel), 0);
    OccursInside(Encode(sentinel), Encode(before), Encode(sentinel), Encode(after));
  }

  /** A match of encoded bytes starts where a character starts. */
  lemma ScanInventsNothing(sentinel: string, text: string, i: nat)
    requires sentinel != "" && OccursAt(Encode(sentinel), Encode(text), i)
    ensures Occurs(sentinel, text)
  {
    var needle, hay := Encode(sentinel), Encode(text);
    OccursAtIndex(needle, hay, i, 0);
    var k := SplitAtBoundary(text, i);
    assert hay[i..][..|needle|] == hay[i..i + |needle|];
    PrefixOfEncoded(sentinel, text[k..]);
    assert text[k..k + |sentinel|] == text[k..][..|sentinel|];
    assert OccursAt(sentinel, text, k);
  }

  /** Scanning encoded bytes for an encoded sentinel is exact: it misses no occurrence in the text
      and reports none that the text lacks. */
  lemma ScanIsExact(sentinel: string, text: string)
    ensures Occurs(Encode(sentinel), Encode(text)) <==> Occurs(sentinel, text)
  {
    if Occurs(sentinel, text) {
      ScanFinds(sentinel, text);
    } else if Occurs(Encode(sentinel), Encode(text)) {
      assert sentinel != "" by {
        assert OccursAt("", text, 0);
      }
      var i: nat :| i <= |Encode(text)| && OccursAt(Encode(sentinel), Encode(text), i);
      ScanInventsNothing(sentinel, text, i);
    }
  }
}
