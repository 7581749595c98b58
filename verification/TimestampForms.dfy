/** Exactly which texts are read as which time, what a normal form looks like, and the calendar behind it. */
module TimestampForms {
  import opened Wrappers
  import opened Text
  import opened Decimal
  import opened Timestamp

  // --- The calendar -----------------------------------------------------------------------------------------

  const MONTHS: seq<nat> := [31, 28, 31, 30, 31, 30, 31, 31, 30, 31, 30, 31]

  /** Days before the first of January of the year, counted from the year 1 as `datetime` counts them. */
  function DaysBefore(year: nat): nat
    requires year >= 1
  {
    var y := year - 1;
    365 * y + y / 4 - y / 100 + y / 400
  }

  lemma Fourth(year: nat)
    requires year >= 1
    ensures year / 4 - (year - 1) / 4 == if year % 4 == 0 then 1 else 0
  {
  }

  lemma Century(year: nat)
    requires year >= 1
    ensures year / 100 - (year - 1) / 100 == if year % 100 == 0 then 1 else 0
    ensures year % 100 == 0 ==> year % 4 == 0
  {
    assert year == 100 * (year / 100) + year % 100;
  }

  lemma FourCenturies(year: nat)
    requires year >= 1
    ensures year / 400 - (year - 1) / 400 == if year % 400 == 0 then 1 else 0
    ensures year % 400 == 0 ==> year % 100 == 0
  {
    assert year == 400 * (year / 400) + year % 400;
  }

  lemma YearLength(year: nat)
    requires year >= 1
    ensures DaysBefore(year + 1) - DaysBefore(year)
         == if year % 4 == 0 && (year % 100 != 0 || year % 400 == 0) then 366 else 365
  {
    Fourth(year);
    Century(year);
    FourCenturies(year);
  }

  /** February takes up what the years differ in, and no other month does. */
  lemma MonthLengths(year: nat, month: nat)
    requires year >= 1 && 1 <= month <= 12
    ensures DaysIn(year, month)
         == MONTHS[month - 1] + if month == 2 then DaysBefore(year + 1) - DaysBefore(year) - 365 else 0
  {
    YearLength(year);
  }

  /** What a time is, field by field. */
  lemma InRangeIff(s: Stamp)
    ensures InRange(s)
       <==> && 1 <= s.year <= 9999 && 1 <= s.month <= 12 && 0 <= s.hour <= 23 && 0 <= s.minute <= 59
            && 0 <= s.second <= 59 && 0 <= s.micro <= 999999
            && (s.offset.Some? ==> -24 * 60 < s.offset.value < 24 * 60)
            && 1 <= s.day
               <= MONTHS[s.month - 1]
                  + if s.month == 2 then DaysBefore(s.year + 1) - DaysBefore(s.year) - 365 else 0
  {
    if 1 <= s.year <= 9999 && 1 <= s.month <= 12 {
      MonthLengths(s.year, s.month);
    }
  }

  // --- Fractions --------------------------------------------------------------------------------------------

  function Tens(k: nat): nat
  {
    if k == 0 then 1 else 10 * Tens(k - 1)
  }

  lemma {:induction false} ToNatFirst(c: char, rest: string)
    requires IsDigit(c) && AllDigits(rest)
    ensures AllDigits([c] + rest) && ToNat([c] + rest) == Digit(c) * Tens(|rest|) + ToNat(rest)
    decreases |rest|
  {
    var text := [c] + rest;
    if rest != "" {
      var init := rest[..|rest| - 1];
      assert text[..|text| - 1] == [c] + init;
      ToNatFirst(c, init);
      Shift(Digit(c), Tens(|init|));
    }
  }

  lemma Shift(digit: nat, tens: nat)
    ensures digit * tens * 10 == digit * (10 * tens)
  {
  }

  lemma {:induction false} ZerosAreZero(k: nat)
    requires k <= 6
    ensures AllDigits("000000"[..k]) && ToNat("000000"[..k]) == 0
    decreases k
  {
    if k > 0 {
      ZerosAreZero(k - 1);
      assert "000000"[..k][..k - 1] == "000000"[..k - 1];
    }
  }

  lemma {:induction false} MicroFromIs(digits: string, k: nat)
    requires AllDigits(digits) && k <= 6
    ensures AllDigits((digits + "000000")[..k])
    ensures MicroFrom(digits, if k == 0 then 0 else Tens(k - 1)) == ToNat((digits + "000000")[..k])
    decreases |digits|
  {
    if digits == "" {
      assert digits + "000000" == "000000";
      ZerosAreZero(k);
    } else if k > 0 {
      MicroFromIs(digits[1..], k - 1);
      assert (digits + "000000")[..k] == [digits[0]] + (digits[1..] + "000000")[..k - 1];
      ToNatFirst(digits[0], (digits[1..] + "000000")[..k - 1]);
      assert Tens(k - 1) / 10 == if k == 1 then 0 else Tens(k - 2);
    }
  }

  /** Microseconds are the first six digits of the fraction filled up with zeros, read as a number. */
  lemma MicroIs(digits: string)
    requires AllDigits(digits)
    ensures AllDigits((digits + "000000")[..6]) && Micro(digits) == ToNat((digits + "000000")[..6])
  {
    MicroFromIs(digits, 6);
    assert Tens(5) == 100000;
  }

  // --- What is read -----------------------------------------------------------------------------------------

  /** No fraction, or a point or a comma and digits. */
  predicate SpellsFraction(fraction: string, micro: int)
  {
    if fraction == "" then micro == 0
    else if |fraction| == 1 || fraction[0] !in ".," || !AllDigits(fraction[1..]) then false
    else
      MicroIs(fraction[1..]);
      micro == ToNat((fraction[1..] + "000000")[..6])
  }

  /** The offset as it is printed, or zero with a minus sign. */
  predicate SpellsZone(zone: string, offset: Option<int>)
  {
    && (offset.Some? ==> -1440 < offset.value < 1440)
    && (zone == PrintZone(offset) || (zone == "-00:00" && offset == Some(0)))
  }

  lemma PadOfTwo(text: string, i: nat)
    requires i + 1 < |text| && IsDigit(text[i]) && IsDigit(text[i + 1])
    ensures 0 <= Two(text, i) < 100 && Pad2(Two(text, i)) == [text[i], text[i + 1]]
  {
  }

  lemma SignedZone(zone: string, sign: char)
    requires sign == '+' || sign == '-'
    requires HasShape(zone, [sign] + "00:00") && Two(zone, 1) < 24 && Two(zone, 4) < 60
    ensures Two(zone, 1) >= 0 && Two(zone, 4) >= 0
    ensures zone == [sign] + Pad2(Two(zone, 1)) + ":" + Pad2(Two(zone, 4))
  {
    var shape := [sign] + "00:00";
    assert shape[0] == sign && shape[1] == '0' && shape[2] == '0' && shape[3] == ':';
    assert shape[4] == '0' && shape[5] == '0';
    PadOfTwo(zone, 1);
    PadOfTwo(zone, 4);
    assert zone == [zone[0], zone[1], zone[2], zone[3], zone[4], zone[5]];
  }

  lemma ZoneIff(zone: string, offset: Option<int>)
    ensures ParseOffset(zone) == Some(offset) <==> SpellsZone(zone, offset)
  {
    if ParseOffset(zone) == Some(offset) && zone != "" {
      if HasShape(zone, "+00:00") {
        PlusZone(zone);
      } else {
        MinusZone(zone);
      }
    }
    if SpellsZone(zone, offset) {
      if zone == PrintZone(offset) {
        ReadZone(offset);
      } else {
        ReadMinusZero();
      }
    }
  }

  lemma Sixty(hours: nat, minutes: nat)
    requires minutes < 60
    ensures (hours * 60 + minutes) / 60 == hours && (hours * 60 + minutes) % 60 == minutes
  {
  }

  lemma PlusZone(zone: string)
    requires HasShape(zone, "+00:00") && Two(zone, 1) < 24 && Two(zone, 4) < 60
    ensures var n := Two(zone, 1) * 60 + Two(zone, 4); 0 <= n < 1440 && zone == PrintOffset(n)
  {
    assert "+00:00" == ['+'] + "00:00";
    SignedZone(zone, '+');
    Sixty(Two(zone, 1), Two(zone, 4));
  }

  lemma MinusZone(zone: string)
    requires HasShape(zone, "-00:00") && Two(zone, 1) < 24 && Two(zone, 4) < 60
    ensures var n := Two(zone, 1) * 60 + Two(zone, 4);
            0 <= n < 1440 && (n > 0 ==> zone == PrintOffset(-n)) && (n == 0 ==> zone == "-00:00")
  {
    assert "-00:00" == ['-'] + "00:00";
    SignedZone(zone, '-');
    Sixty(Two(zone, 1), Two(zone, 4));
  }

  lemma ReadMinusZero()
    ensures ParseOffset("-00:00") == Some(Some(0))
  {
  }

  lemma ZoneStart(zone: string, offset: Option<int>)
    requires SpellsZone(zone, offset)
    ensures zone == "" || zone[0] == '+' || zone[0] == '-'
  {
    if zone == PrintZone(offset) {
      ReadZone(offset);
    }
  }

  /** What follows the seconds. */
  lemma TailIff(tail: string, micro: nat, offset: Option<int>)
    ensures ParseTail(tail) == Some((micro, offset))
       <==> exists fraction, zone ::
              tail == fraction + zone && SpellsFraction(fraction, micro) && SpellsZone(zone, offset)
  {
    if ParseTail(tail) == Some((micro, offset)) {
      var fraction, zone := SplitTail(tail, micro, offset);
    }
    if fraction, zone :| tail == fraction + zone && SpellsFraction(fraction, micro) && SpellsZone(zone, offset) {
      ReadSpelledTail(fraction, zone, micro, offset);
    }
  }

  lemma SplitTail(tail: string, micro: nat, offset: Option<int>) returns (fraction: string, zone: string)
    requires ParseTail(tail) == Some((micro, offset))
    ensures tail == fraction + zone && SpellsFraction(fraction, micro) && SpellsZone(zone, offset)
  {
    if tail != "" && (tail[0] == '.' || tail[0] == ',') {
      var n := DigitRun(tail[1..]) + 1;
      fraction, zone := tail[..n], tail[n..];
      assert fraction[1..] == DigitsOf(tail, n);
      MicroIs(fraction[1..]);
    } else {
      fraction, zone := "", tail;
      assert tail[0..] == tail;
    }
    ZoneIff(zone, offset);
  }

  lemma CutFraction(fraction: string, zone: string)
    requires fraction != "" && AllDigits(fraction[1..]) && (zone == "" || !IsDigit(zone[0]))
    ensures var tail := fraction + zone;
            && tail[0] == fraction[0] && DigitRun(tail[1..]) + 1 == |fraction|
            && tail[|fraction|..] == zone && DigitsOf(tail, |fraction|) == fraction[1..]
  {
    var tail := fraction + zone;
    assert tail[1..] == fraction[1..] + zone;
    DigitRunStops(fraction[1..], zone);
  }

  lemma ReadFractionTail(tail: string, n: nat, offset: Option<int>)
    requires tail != "" && (tail[0] == '.' || tail[0] == ',') && n == DigitRun(tail[1..]) + 1 && n > 1
    requires ParseOffset(tail[n..]) == Some(offset)
    ensures ParseTail(tail) == Some((Micro(DigitsOf(tail, n)), offset))
  {
  }

  lemma ReadSpelledTail(fraction: string, zone: string, micro: nat, offset: Option<int>)
    requires SpellsFraction(fraction, micro) && SpellsZone(zone, offset)
    ensures ParseTail(fraction + zone) == Some((micro, offset))
  {
    var tail := fraction + zone;
    ZoneIff(zone, offset);
    ZoneStart(zone, offset);
    if fraction == "" {
      assert tail == zone && tail[0..] == tail;
    } else {
      CutFraction(fraction, zone);
      ReadFractionTail(tail, |fraction|, offset);
      MicroIs(fraction[1..]);
    }
  }

  // --- Whole times ------------------------------------------------------------------------------------------

  lemma DateTimeOf(text: string, s: Stamp)
    requires |text| == 19 && HasShape(text, DATE_TIME) && InRange(s) && s == StampOf(text, s.micro, s.offset)
    ensures PrintDateTime(s) == text
  {
    YearOf(text, s);
    FieldsOf(text, s);
    PrintedLayout(s);
    Rebuild(text);
  }

  lemma YearOf(text: string, s: Stamp)
    requires |text| == 19 && HasShape(text, DATE_TIME) && InRange(s) && s == StampOf(text, s.micro, s.offset)
    ensures Pad2(s.year / 100) == text[0..2] && Pad2(s.year % 100) == text[2..4]
  {
    Digits19(text);
    PadOfTwo(text, 0);
    PadOfTwo(text, 2);
    Hundred(Two(text, 0), Two(text, 2));
  }

  lemma FieldsOf(text: string, s: Stamp)
    requires |text| == 19 && HasShape(text, DATE_TIME) && InRange(s) && s == StampOf(text, s.micro, s.offset)
    ensures Pad2(s.month) == text[5..7] && Pad2(s.day) == text[8..10]
    ensures Pad2(s.hour) == text[11..13] && Pad2(s.minute) == text[14..16] && Pad2(s.second) == text[17..19]
  {
    Digits19(text);
    PadOfTwo(text, 5);
    PadOfTwo(text, 8);
    PadOfTwo(text, 11);
    PadOfTwo(text, 14);
    PadOfTwo(text, 17);
  }

  lemma Rebuild(text: string)
    requires |text| == 19 && HasShape(text, DATE_TIME)
    ensures text == Layout([text[0..2], text[2..4], text[5..7], text[8..10], text[11..13], text[14..16], text[17..19]])
  {
    Digits19(text);
  }

  lemma Hundred(high: nat, low: nat)
    requires low < 100
    ensures (high * 100 + low) / 100 == high && (high * 100 + low) % 100 == low
  {
  }

  lemma Digits19(text: string)
    requires |text| == 19 && HasShape(text, DATE_TIME)
    ensures IsDigit(text[0]) && IsDigit(text[1]) && IsDigit(text[2]) && IsDigit(text[3]) && text[4] == '-'
    ensures IsDigit(text[5]) && IsDigit(text[6]) && text[7] == '-' && IsDigit(text[8]) && IsDigit(text[9])
    ensures text[10] == 'T' && IsDigit(text[11]) && IsDigit(text[12]) && text[13] == ':'
    ensures IsDigit(text[14]) && IsDigit(text[15]) && text[16] == ':' && IsDigit(text[17]) && IsDigit(text[18])
  {
  }

  lemma ParsedIsSpelled(text: string, s: Stamp) returns (fraction: string, zone: string)
    requires Parse(text) == Some(s)
    ensures text == PrintDateTime(s) + fraction + zone
    ensures SpellsFraction(fraction, s.micro) && SpellsZone(zone, s.offset)
  {
    fraction, zone := SplitTail(text[19..], s.micro, s.offset);
    DateTimeOf(text[..19], s);
    Recombine(text, fraction, zone);
  }

  lemma Recombine(text: string, fraction: string, zone: string)
    requires |text| >= 19 && text[19..] == fraction + zone
    ensures text == text[..19] + fraction + zone
  {
  }

  lemma SpelledIsParsed(s: Stamp, fraction: string, zone: string)
    requires InRange(s) && SpellsFraction(fraction, s.micro) && SpellsZone(zone, s.offset)
    ensures Parse(PrintDateTime(s) + fraction + zone) == Some(s)
  {
    ReadDateTime(s);
    CutAt(PrintDateTime(s), fraction, zone);
    ReadSpelledTail(fraction, zone, s.micro, s.offset);
  }

  /** The texts that are read as this time: its date and time of day as they are printed, any fraction that gives
      its microseconds, and its offset. */
  lemma ParseIff(text: string, s: Stamp)
    ensures Parse(text) == Some(s)
       <==> && InRange(s)
            && exists fraction, zone ::
                 text == PrintDateTime(s) + fraction + zone
                 && SpellsFraction(fraction, s.micro) && SpellsZone(zone, s.offset)
  {
    if Parse(text) == Some(s) {
      var fraction, zone := ParsedIsSpelled(text, s);
    }
    if InRange(s) {
      if fraction, zone :| text == PrintDateTime(s) + fraction + zone
                           && SpellsFraction(fraction, s.micro) && SpellsZone(zone, s.offset) {
        SpelledIsParsed(s, fraction, zone);
      }
    }
  }

  // --- What a normal form looks like --------------------------------------------------------------------------

  predicate HasNormalShape(normal: string)
  {
    || HasShape(normal, "0000-00-00T00:00:00Z")
    || (HasShape(normal, "0000-00-00T00:00:00.000000Z") && normal[20..26] != "000000")
  }

  /** A normal form has no fraction, or one of six digits for microseconds other than zero, and ends with `Z`. */
  lemma NormalFormShape(value: string)
    requires Normalize(value).Some?
    ensures HasNormalShape(Normalize(value).value)
  {
    NormalizeIff(value);
    PrintedShape(Parse(Replace(value, "Z", UTC)).value);
  }

  lemma PrintedShape(s: Stamp)
    requires InRange(s)
    ensures HasNormalShape(PrintLocal(s) + "Z")
  {
    ReadDateTime(s);
    if s.micro == 0 {
      assert PrintLocal(s) == PrintDateTime(s);
      ShapeWithout(PrintDateTime(s));
    } else {
      FractionDigits(s);
      SixZeros(Fraction(s));
      assert PrintFraction(s) == "." + Fraction(s);
      ShapeWith(PrintDateTime(s), Fraction(s));
    }
  }

  lemma SixZeros(digits: string)
    requires |digits| == 6 && AllDigits(digits) && Micro(digits) != 0
    ensures digits != "000000"
  {
    ZerosAreZero(6);
    assert "000000"[..6] == "000000" && ("000000" + "000000")[..6] == "000000";
    MicroIs("000000");
  }

  lemma ShapeWithout(local: string)
    requires HasShape(local, DATE_TIME)
    ensures HasShape(local + "Z", "0000-00-00T00:00:00Z")
  {
    assert "0000-00-00T00:00:00Z" == DATE_TIME + "Z";
  }

  lemma ShapeWith(local: string, digits: string)
    requires HasShape(local, DATE_TIME) && |digits| == 6 && AllDigits(digits)
    ensures HasShape(local + ("." + digits) + "Z", "0000-00-00T00:00:00.000000Z")
    ensures (local + ("." + digits) + "Z")[20..26] == digits
  {
    assert "0000-00-00T00:00:00.000000Z" == DATE_TIME + ("." + "000000") + "Z";
  }
}
