/** The number tokens and the white space of RFC 8259, as grammars. */
module JsonNumbers {
  import opened Decimal
  import opened Json

  /** Section 2: space, tab, line feed and carriage return. */
  lemma IsSpaceIff(c: char)
    ensures IsSpace(c) <==> c in " \t\n\r"
  {
  }

  predicate IsFraction(text: string)
  {
    text == "" || (|text| >= 2 && text[0] == '.' && AllDigits(text[1..]))
  }

  predicate IsScale(mark: char, sign: string, digits: string)
  {
    (mark == 'e' || mark == 'E') && IsSign(sign) && digits != "" && AllDigits(digits)
  }

  /** Nothing, or `e` or `E`, a sign perhaps, and digits. */
  ghost predicate IsScaled(text: string)
  {
    text == "" || exists mark, sign, digits :: text == [mark] + sign + digits && IsScale(mark, sign, digits)
  }

  lemma ExponentIff(text: string)
    ensures IsExponent(text) <==> IsScaled(text)
  {
    if text != "" && IsExponent(text) {
      var sign, digits := if text[1] in "+-" then text[1..2] else "", if text[1] in "+-" then text[2..] else text[1..];
      assert text == [text[0]] + sign + digits && IsScale(text[0], sign, digits);
    }
    if text != "" && IsScaled(text) {
      var mark, sign, digits :| text == [mark] + sign + digits && IsScale(mark, sign, digits);
      ScaleIsExponent(mark, sign, digits);
    }
  }

  lemma ScaleIsExponent(mark: char, sign: string, digits: string)
    requires IsScale(mark, sign, digits)
    ensures IsExponent([mark] + sign + digits)
  {
    var text := [mark] + sign + digits;
    if sign == "" {
      assert text[1..] == digits && IsDigit(text[1]);
    } else {
      assert text[1] == sign[0] && text[2..] == digits;
    }
  }

  lemma ExponentChars(text: string)
    requires IsExponent(text)
    ensures AllNumberChars(text) && (text != "" ==> !IsDigit(text[0]) && text[0] != '.')
  {
    if text != "" {
      var digits := if text[1] in "+-" then text[2..] else text[1..];
      forall i | 0 <= i < |text| ensures IsNumberChar(text[i]) {
        if text[1] in "+-" {
          assert i >= 2 ==> text[i] == digits[i - 2];
        } else {
          assert i >= 1 ==> text[i] == digits[i - 1];
        }
      }
    }
  }

  /** What follows the integer part of a float. */
  lemma TailIff(text: string)
    ensures IsFractionAndExponent(text)
       <==> text != "" && exists fraction, scale ::
              text == fraction + scale && IsFraction(fraction) && IsScaled(scale)
  {
    if IsFractionAndExponent(text) {
      var fraction, scale := TailParts(text);
    }
    if text != "" {
      if fraction, scale :| text == fraction + scale && IsFraction(fraction) && IsScaled(scale) {
        ExponentIff(scale);
        PartsAreTail(fraction, scale);
      }
    }
  }

  lemma CutAfter(text: string, n: nat)
    requires n + 1 <= |text|
    ensures text[1..][..n] == text[..n + 1][1..] && text[1..][n..] == text[n + 1..]
    ensures text == text[..n + 1] + text[n + 1..]
  {
  }

  lemma TailParts(text: string) returns (fraction: string, scale: string)
    requires IsFractionAndExponent(text)
    ensures text != "" && text == fraction + scale && IsFraction(fraction) && IsScaled(scale)
  {
    if text[0] == '.' {
      var n := DigitRun(text[1..]);
      fraction, scale := text[..n + 1], text[n + 1..];
      CutAfter(text, n);
    } else {
      fraction, scale := "", text;
    }
    ExponentIff(scale);
  }

  lemma PartsAreTail(fraction: string, scale: string)
    requires fraction + scale != "" && IsFraction(fraction) && IsExponent(scale)
    ensures IsFractionAndExponent(fraction + scale)
  {
    var text := fraction + scale;
    ExponentChars(scale);
    if fraction == "" {
      assert text == scale;
    } else {
      assert text[1..] == fraction[1..] + scale;
      DigitRunStops(fraction[1..], scale);
      assert text[1..][|fraction| - 1..] == scale;
    }
  }

  /** Section 6: a minus sign perhaps, an integer part without leading zeros, and a fraction or an exponent or
      both. */
  lemma FloatTokenIff(token: string)
    ensures IsFloatToken(token)
       <==> exists minus, whole, tail ::
              token == minus + whole + tail && (minus == "" || minus == "-") && IsIntPart(whole)
              && IsFractionAndExponent(tail)
  {
    if IsFloatToken(token) {
      var minus, whole, tail := FloatParts(token);
    }
    if minus, whole, tail :| token == minus + whole + tail && (minus == "" || minus == "-") && IsIntPart(whole)
                             && IsFractionAndExponent(tail) {
      PartsAreFloat(minus, whole, tail);
    }
  }

  lemma FloatParts(token: string) returns (minus: string, whole: string, tail: string)
    requires IsFloatToken(token)
    ensures token == minus + whole + tail && (minus == "" || minus == "-") && IsIntPart(whole)
    ensures IsFractionAndExponent(tail)
  {
    var body := Unsigned(token);
    var n := DigitRun(body);
    minus := SignOf(token);
    whole, tail := body[..n], body[n..];
    Rejoin(minus, body, n);
  }

  lemma SignOf(token: string) returns (minus: string)
    ensures token == minus + Unsigned(token) && (minus == "" || minus == "-")
  {
    if token != "" && token[0] == '-' {
      minus := "-";
      assert token == [token[0]] + token[1..];
    } else {
      minus := "";
    }
  }

  lemma Rejoin(minus: string, body: string, n: nat)
    requires n <= |body|
    ensures minus + body == minus + body[..n] + body[n..]
  {
  }

  lemma CharsOfBoth(a: string, b: string)
    requires AllNumberChars(a) && AllNumberChars(b)
    ensures AllNumberChars(a + b)
  {
  }

  lemma DigitChars(digits: string)
    requires AllDigits(digits)
    ensures AllNumberChars(digits)
  {
    forall i | 0 <= i < |digits| ensures IsNumberChar(digits[i]) {
      assert IsDigit(digits[i]);
    }
  }

  lemma TailChars(tail: string)
    requires IsFractionAndExponent(tail)
    ensures AllNumberChars(tail) && !IsDigit(tail[0])
  {
    if tail[0] == '.' {
      var n := DigitRun(tail[1..]);
      var digits, scale := tail[1..][..n], tail[1..][n..];
      ExponentChars(scale);
      DigitChars(digits);
      CharsOfBoth(".", digits);
      CharsOfBoth("." + digits, scale);
      assert tail == "." + digits + scale;
    } else {
      ExponentChars(tail);
    }
  }

  lemma PartsAreFloat(minus: string, whole: string, tail: string)
    requires (minus == "" || minus == "-") && IsIntPart(whole) && IsFractionAndExponent(tail)
    ensures IsFloatToken(minus + whole + tail)
  {
    TailChars(tail);
    DigitChars(whole);
    CharsOfBoth(minus, whole);
    CharsOfBoth(minus + whole, tail);
    WithoutSign(minus, whole, tail);
    DigitRunStops(whole, tail);
    assert (whole + tail)[..|whole|] == whole && (whole + tail)[|whole|..] == tail;
  }

  lemma WithoutSign(minus: string, whole: string, tail: string)
    requires (minus == "" || minus == "-") && IsIntPart(whole)
    ensures Unsigned(minus + whole + tail) == whole + tail
  {
    assert IsDigit(whole[0]);
    if minus == "" {
      assert minus + whole + tail == whole + tail;
    } else {
      assert (minus + whole + tail)[1..] == whole + tail;
    }
  }
}
