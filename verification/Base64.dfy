/** Base64 (section 4 of RFC 4648): the encoder that dumps Redis values and the strict decoder that reads them. */
module Base64 {
  import opened Wrappers
  import opened Utf8

  type sextet = n: int | 0 <= n < 64

  function Digit(n: sextet): char
  {
    if n < 26 then ('A' as int + n) as char
    else if n < 52 then ('a' as int + n - 26) as char
    else if n < 62 then ('0' as int + n - 52) as char
    else if n == 62 then '+'
    else '/'
  }

  function Value(c: char): Option<sextet>
  {
    if 'A' <= c <= 'Z' then Some(c as int - 'A' as int)
    else if 'a' <= c <= 'z' then Some(c as int - 'a' as int + 26)
    else if '0' <= c <= '9' then Some(c as int - '0' as int + 52)
    else if c == '+' then Some(62)
    else if c == '/' then Some(63)
    else None
  }

  // The four digits of three bytes, and the three bytes of four digits.

  function First(a: byte): sextet { a / 4 }

  function Second(a: byte, b: byte): sextet { a % 4 * 16 + b / 16 }

  function Third(b: byte, c: byte): sextet { b % 16 * 4 + c / 64 }

  function Fourth(c: byte): sextet { c % 64 }

  function Byte1(p: sextet, q: sextet): byte { p * 4 + q / 16 }

  function Byte2(q: sextet, r: sextet): byte { q % 16 * 16 + r / 4 }

  function Byte3(r: sextet, s: sextet): byte { r % 4 * 64 + s }

  function Encode(bytes: seq<byte>): string
  {
    if bytes == [] then ""
    else if |bytes| == 1 then [Digit(First(bytes[0])), Digit(Second(bytes[0], 0)), '=', '=']
    else if |bytes| == 2 then
      [Digit(First(bytes[0])), Digit(Second(bytes[0], bytes[1])), Digit(Third(bytes[1], 0)), '=']
    else Quad(bytes[0], bytes[1], bytes[2]) + Encode(bytes[3..])
  }

  function Quad(a: byte, b: byte, c: byte): string
  {
    [Digit(First(a)), Digit(Second(a, b)), Digit(Third(b, c)), Digit(Fourth(c))]
  }

  /** `b64decode(text, validate=True)`: no foreign character, padding only at the very end. Unused
      low bits of the last digit are ignored. */
  function Decode(text: string): Option<seq<byte>>
  {
    if text == "" then Some([])
    else if |text| < 4 then None
    else
      match (Value(text[0]), Value(text[1]))
      case (Some(a), Some(b)) =>
        if |text| == 4 && text[2] == '=' && text[3] == '=' then Some([Byte1(a, b)])
        else
          (match Value(text[2])
           case None => None
           case Some(c) =>
             if |text| == 4 && text[3] == '=' then Some([Byte1(a, b), Byte2(b, c)])
             else
               match (Value(text[3]), Decode(text[4..]))
               case (Some(d), Some(rest)) =>
                 Some([Byte1(a, b), Byte2(b, c), Byte3(c, d)] + rest)
               case _ => None)
      case _ => None
  }

  lemma ValueOfDigit(n: sextet)
    ensures Value(Digit(n)) == Some(n) && Digit(n) != '='
  {
  }

  lemma DecodeGroup(p: sextet, q: sextet, r: sextet, s: sextet, rest: string)
    requires Decode(rest).Some?
    ensures Decode([Digit(p), Digit(q), Digit(r), Digit(s)] + rest)
         == Some([Byte1(p, q), Byte2(q, r), Byte3(r, s)] + Decode(rest).value)
  {
    var text := [Digit(p), Digit(q), Digit(r), Digit(s)] + rest;
    ValueOfDigit(p);
    ValueOfDigit(q);
    ValueOfDigit(r);
    ValueOfDigit(s);
    assert text[0] == Digit(p) && text[1] == Digit(q) && text[2] == Digit(r) && text[3] == Digit(s);
    assert text[4..] == rest;
  }

  lemma DecodeTwoDigits(p: sextet, q: sextet)
    ensures Decode([Digit(p), Digit(q), '=', '=']) == Some([Byte1(p, q)])
  {
    ValueOfDigit(p);
    ValueOfDigit(q);
  }

  lemma DecodeThreeDigits(p: sextet, q: sextet, r: sextet)
    ensures Decode([Digit(p), Digit(q), Digit(r), '=']) == Some([Byte1(p, q), Byte2(q, r)])
  {
    ValueOfDigit(p);
    ValueOfDigit(q);
    ValueOfDigit(r);
  }

  /** Three bytes are recovered from their four digits. */
  lemma RecoverBytes(a: byte, b: byte, c: byte)
    ensures Byte1(First(a), Second(a, b)) == a
    ensures Byte2(Second(a, b), Third(b, c)) == b
    ensures Byte3(Third(b, c), Fourth(c)) == c
  {
  }

  lemma RecoverByte(a: byte)
    ensures Byte1(First(a), Second(a, 0)) == a
  {
  }

  lemma OneByte(bytes: seq<byte>)
    requires |bytes| == 1
    ensures Decode(Encode(bytes)) == Some(bytes)
  {
    var a := bytes[0];
    RecoverByte(a);
    DecodeTwoDigits(First(a), Second(a, 0));
    assert bytes == [a];
  }

  lemma TwoBytes(bytes: seq<byte>)
    requires |bytes| == 2
    ensures Decode(Encode(bytes)) == Some(bytes)
  {
    RecoverBytes(bytes[0], bytes[1], 0);
    DecodeThreeDigits(First(bytes[0]), Second(bytes[0], bytes[1]), Third(bytes[1], 0));
    assert bytes == [bytes[0], bytes[1]];
  }

  lemma EncodeMany(bytes: seq<byte>)
    requires |bytes| > 2
    ensures Encode(bytes) == Quad(bytes[0], bytes[1], bytes[2]) + Encode(bytes[3..])
  {
  }

  lemma FirstThree(bytes: seq<byte>)
    requires |bytes| > 2
    ensures [bytes[0], bytes[1], bytes[2]] + bytes[3..] == bytes
  {
  }

  lemma DecodeQuad(a: byte, b: byte, c: byte, rest: seq<byte>)
    requires Decode(Encode(rest)) == Some(rest)
    ensures Decode(Quad(a, b, c) + Encode(rest)) == Some([a, b, c] + rest)
  {
    RecoverBytes(a, b, c);
    DecodeGroup(First(a), Second(a, b), Third(b, c), Fourth(c), Encode(rest));
  }

  lemma ManyBytes(bytes: seq<byte>)
    requires |bytes| > 2 && Decode(Encode(bytes[3..])) == Some(bytes[3..])
    ensures Decode(Encode(bytes)) == Some(bytes)
  {
    EncodeMany(bytes);
    DecodeQuad(bytes[0], bytes[1], bytes[2], bytes[3..]);
    FirstThree(bytes);
  }

  /** Dumping and strictly decoding gives the bytes back. */
  lemma {:induction false} DecodeEncode(bytes: seq<byte>)
    ensures Decode(Encode(bytes)) == Some(bytes)
  {
    if |bytes| == 1 {
      OneByte(bytes);
    } else if |bytes| == 2 {
      TwoBytes(bytes);
    } else if |bytes| > 2 {
      DecodeEncode(bytes[3..]);
      ManyBytes(bytes);
    }
  }

  /** The examples of section 10 of RFC 4648, and one with the last two digits of its alphabet. */
  lemma Examples()
    ensures Encode([]) == "" && Encode([0x66]) == "Zg==" && Encode([0x66, 0x6F]) == "Zm8="
    ensures Encode([0x66, 0x6F, 0x6F]) == "Zm9v" && Encode([0x66, 0x6F, 0x6F] + [0x62, 0x61, 0x72]) == "Zm9vYmFy"
    ensures Encode([0xFB, 0xFF]) == "+/8="
  {
    EncodeThree(0x66, 0x6F, 0x6F, []);
    EncodeThree(0x62, 0x61, 0x72, []);
    EncodeThree(0x66, 0x6F, 0x6F, [0x62, 0x61, 0x72]);
    assert [0x66, 0x6F, 0x6F] + [] == [0x66, 0x6F, 0x6F] && [0x62, 0x61, 0x72] + [] == [0x62, 0x61, 0x72];
    assert "Zm9v" + "YmFy" == "Zm9vYmFy";
  }

  lemma EncodeThree(a: byte, b: byte, c: byte, rest: seq<byte>)
    ensures Encode([a, b, c] + rest) == Quad(a, b, c) + Encode(rest)
  {
    assert ([a, b, c] + rest)[3..] == rest;
  }
}
