/** Printing and reading decimal integers, as Python's `str` and `int` do. */
module Decimal {
  import opened Wrappers

  predicate IsDigit(c: char)
  {
    '0' <= c <= '9'
  }

  predicate AllDigits(text: string)
  {
    forall i | 0 <= i < |text| :: IsDigit(text[i])
  }

  function DigitChar(n: nat): (c: char)
    requires n < 10
    ensures IsDigit(c)
  {
    ('0' as int + n) as char
  }

  /** `str(n)`: digits only, and no leading zero. */
  function OfNat(n: nat): (text: string)
    ensures text != "" && AllDigits(text)
    ensures text[0] == '0' ==> n == 0 && text == "0"
  {
    if n < 10 then [DigitChar(n)] else OfNat(n / 10) + [DigitChar(n % 10)]
  }

  function OfInt(n: int): string
  {
    if n < 0 then "-" + OfNat(-n) else OfNat(n)
  }

  function ToNat(text: string): nat
    requires AllDigits(text)
  {
    if text == "" then 0
    else ToNat(text[..|text| - 1]) * 10 + (text[|text| - 1] as int - '0' as int)
  }

  /** `int(text)` for an optional sign and digits; every other text is an error. */
  function ToInt(text: string): Option<int>
  {
    if text == "" then None
    else
      var digits := if text[0] in "+-" then text[1..] else text;
      if digits == "" || !AllDigits(digits) then None
      else
        var n: int := ToNat(digits);
        Some(if text[0] == '-' then -n else n)
  }

  lemma {:induction false} ToNatOfNat(n: nat)
    ensures ToNat(OfNat(n)) == n
  {
    if n >= 10 {
      ToNatOfNat(n / 10);
      assert OfNat(n)[..|OfNat(n)| - 1] == OfNat(n / 10);
    }
  }

  lemma ToIntOfDigits(digits: string)
    requires digits != "" && AllDigits(digits)
    ensures ToInt(digits) == Some(ToNat(digits))
  {
    assert IsDigit(digits[0]);
  }

  lemma ToIntOfNegative(digits: string)
    requires digits != "" && AllDigits(digits)
    ensures ToInt("-" + digits) == Some(-(ToNat(digits) as int))
  {
    var text := "-" + digits;
    assert text[0] == '-' && text[1..] == digits;
  }

  lemma ToIntOfNat(n: nat)
    ensures ToInt(OfNat(n)) == Some(n)
  {
    ToNatOfNat(n);
    ToIntOfDigits(OfNat(n));
  }

  lemma ToIntOfMinus(n: nat)
    ensures ToInt("-" + OfNat(n)) == Some(-(n as int))
  {
    ToNatOfNat(n);
    ToIntOfNegative(OfNat(n));
  }

  /** Reading what was printed gives the number back. */
  lemma ToIntOfInt(n: int)
    ensures ToInt(OfInt(n)) == Some(n)
  {
    if n < 0 {
      ToIntOfMinus(-n);
    } else {
      ToIntOfNat(n);
    }
  }

  /** How many digits the text starts with. */
  function DigitRun(text: string): (n: nat)
    ensures n <= |text| && AllDigits(text[..n])
  {
    if text == "" || !IsDigit(text[0]) then 0
    else
      var n := DigitRun(text[1..]);
      assert text[..n + 1] == [text[0]] + text[1..][..n];
      n + 1
  }

  lemma {:induction false} DigitRunOfDigits(text: string)
    requires AllDigits(text)
    ensures DigitRun(text) == |text|
  {
    if text != "" {
      DigitRunOfDigits(text[1..]);
    }
  }

  /** Digits run up to the first character that is none. */
  lemma {:induction false} DigitRunStops(digits: string, rest: string)
    requires AllDigits(digits) && (rest == "" || !IsDigit(rest[0]))
    ensures DigitRun(digits + rest) == |digits|
    decreases |digits|
  {
    if digits == "" {
      assert digits + rest == rest;
    } else {
      assert (digits + rest)[1..] == digits[1..] + rest;
      DigitRunStops(digits[1..], rest);
    }
  }

  lemma DigitsAre(c: char)
    ensures IsDigit(c) <==> c in "0123456789"
  {
    if IsDigit(c) {
      assert "0123456789"[c as int - '0' as int] == c;
    }
  }

  predicate IsSign(sign: string)
  {
    sign == "" || sign == "+" || sign == "-"
  }

  lemma {:induction false} AllDigitsIff(text: string)
    ensures AllDigits(text) <==> forall i | 0 <= i < |text| :: text[i] in "0123456789"
  {
    forall i | 0 <= i < |text| ensures IsDigit(text[i]) <==> text[i] in "0123456789" {
      DigitsAre(text[i]);
    }
  }

  /** Which texts are read: digits with at most one sign before them. */
  lemma ToIntIff(text: string)
    ensures ToInt(text).Some?
       <==> exists sign, digits :: text == sign + digits && IsSign(sign) && digits != "" && AllDigits(digits)
  {
    if ToInt(text).Some? {
      var n := if text[0] in "+-" then 1 else 0;
      assert text == text[..n] + text[n..];
      assert n == 1 ==> text[..1] == [text[0]];
      assert IsSign(text[..n]) && AllDigits(text[n..]);
    }
    if sign, digits :| text == sign + digits && IsSign(sign) && digits != "" && AllDigits(digits) {
      SignedIsRead(sign, digits);
    }
  }

  lemma SignedIsRead(sign: string, digits: string)
    requires IsSign(sign) && digits != "" && AllDigits(digits)
    ensures ToInt(sign + digits).Some?
  {
    var text := sign + digits;
    if sign == "" {
      assert text == digits && IsDigit(text[0]);
    } else {
      assert text[0] == sign[0] && text[1..] == digits;
    }
  }
}
