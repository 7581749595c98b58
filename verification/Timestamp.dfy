/** Canonical timestamps: `normalize_timestamp` on the date-times of section 5.6 of RFC 3339. */
module Timestamp {
  import opened Wrappers
  import opened Text
  import opened Decimal

  /** What `datetime.fromisoformat` reads; the offset is in minutes, and a naive time has none. */
  datatype Stamp = Stamp(year: int, month: int, day: int, hour: int, minute: int, second: int,
                         micro: int, offset: Option<int>)

  function DaysIn(year: int, month: int): nat
  {
    if month == 2 then
      if year % 4 == 0 && (year % 100 != 0 || year % 400 == 0) then 29 else 28
    else if month == 4 || month == 6 || month == 9 || month == 11 then 30
    else 31
  }

  predicate InRange(s: Stamp)
  {
    && 1 <= s.year <= 9999 && 1 <= s.month <= 12 && 1 <= s.day <= DaysIn(s.year, s.month)
    && 0 <= s.hour < 24 && 0 <= s.minute < 60 && 0 <= s.second < 60 && 0 <= s.micro < 1000000
    && (s.offset.Some? ==> -1440 < s.offset.value < 1440)
  }

  // --- Reading --------------------------------------------------------------------------------------

  function Digit(c: char): (n: int)
    ensures IsDigit(c) ==> 0 <= n < 10
  {
    c as int - '0' as int
  }

  /** Digits at the places 0 of `shape`, the given characters elsewhere. */
  predicate HasShape(text: string, shape: string)
  {
    |text| == |shape| &&
    forall i | 0 <= i < |shape| :: if shape[i] == '0' then IsDigit(text[i]) else text[i] == shape[i]
  }

  function Two(text: string, i: nat): int
    requires i + 1 < |text|
  {
    Digit(text[i]) * 10 + Digit(text[i + 1])
  }

  const DATE_TIME := "0000-00-00T00:00:00"

  /** Microseconds: the first six digits of a fraction, filled up with zeros. */
  function Micro(digits: string): nat
    requires AllDigits(digits)
  {
    MicroFrom(digits, 100000)
  }

  function MicroFrom(digits: string, unit: nat): nat
    requires AllDigits(digits)
    decreases |digits|
  {
    if digits == "" || unit == 0 then 0 else Digit(digits[0]) * unit + MicroFrom(digits[1..], unit / 10)
  }

  /** `+hh:mm` or `-hh:mm`, in minutes; an absent offset makes a naive time. */
  function ParseOffset(text: string): Option<Option<int>>
  {
    if text == "" then Some(None)
    else if HasShape(text, "+00:00") && Two(text, 1) < 24 && Two(text, 4) < 60 then
      Some(Some(Two(text, 1) * 60 + Two(text, 4)))
    else if HasShape(text, "-00:00") && Two(text, 1) < 24 && Two(text, 4) < 60 then
      Some(Some(-(Two(text, 1) * 60 + Two(text, 4))))
    else None
  }

  /** What may follow the seconds: a fraction and an offset. */
  function ParseTail(tail: string): Option<(nat, Option<int>)>
  {
    var n := if tail != "" && (tail[0] == '.' || tail[0] == ',') then DigitRun(tail[1..]) + 1 else 0;
    if n == 1 then None
    else
      match ParseOffset(tail[n..])
      case None => None
      case Some(offset) => Some((if n == 0 then 0 else Micro(DigitsOf(tail, n)), offset))
  }

  function StampOf(t: string, micro: nat, offset: Option<int>): Stamp
    requires |t| == 19
  {
    Stamp(Two(t, 0) * 100 + Two(t, 2), Two(t, 5), Two(t, 8), Two(t, 11), Two(t, 14), Two(t, 17), micro, offset)
  }

  function Parse(text: string): (stamp: Option<Stamp>)
    ensures stamp.Some? ==> InRange(stamp.value)
  {
    if |text| < 19 || !HasShape(text[..19], DATE_TIME) then None
    else
      match ParseTail(text[19..])
      case None => None
      case Some((micro, offset)) =>
        var s := StampOf(text[..19], micro, offset);
        if InRange(s) then Some(s) else None
  }

  /** The digits of a fraction: `n - 1` of them after its point. */
  function DigitsOf(tail: string, n: nat): (digits: string)
    requires tail != "" && n == DigitRun(tail[1..]) + 1
    ensures AllDigits(digits)
  {
    tail[1..][..n - 1]
  }

  // --- Writing --------------------------------------------------------------------------------------

  function Pad2(n: nat): string
    requires n < 100
  {
    [DigitChar(n / 10), DigitChar(n % 10)]
  }

  function PrintDateTime(s: Stamp): string
    requires InRange(s)
  {
    Pad2(s.year / 100) + Pad2(s.year % 100) + "-" + Pad2(s.month) + "-" + Pad2(s.day)
    + "T" + Pad2(s.hour) + ":" + Pad2(s.minute) + ":" + Pad2(s.second)
  }

  function PrintFraction(s: Stamp): string
    requires InRange(s)
  {
    if s.micro == 0 then ""
    else "." + Pad2(s.micro / 10000) + Pad2(s.micro / 100 % 100) + Pad2(s.micro % 100)
  }

  function PrintOffset(offset: int): string
    requires -1440 < offset < 1440
  {
    var size := if offset < 0 then -offset else offset;
    (if offset < 0 then "-" else "+") + Pad2(size / 60) + ":" + Pad2(size % 60)
  }

  /** `isoformat()` without the offset. */
  function PrintLocal(s: Stamp): string
    requires InRange(s)
  {
    PrintDateTime(s) + PrintFraction(s)
  }

  /** `normalize_timestamp`: an aware time whose offset is zero, with `Z` for the offset. */
  function Normalize(value: string): Option<string>
  {
    match Parse(Replace(value, "Z", "+00:00"))
    case None => None
    case Some(s) =>
      if s.offset.None? then None
      else
        var normalized := Replace(PrintLocal(s) + PrintOffset(s.offset.value), "+00:00", "Z");
        if normalized != "" && normalized[|normalized| - 1] == 'Z' then Some(normalized) else None
  }

  // --- A printed time is read back --------------------------------------------------------------------

  lemma ReadPad2(n: nat)
    requires n < 100
    ensures |Pad2(n)| == 2 && IsDigit(Pad2(n)[0]) && IsDigit(Pad2(n)[1])
    ensures Two(Pad2(n), 0) == n
  {
  }

  /** The layout of a date and time, from its seven two-digit groups. */
  function Layout(g: seq<string>): string
    requires |g| == 7 && forall i | 0 <= i < 7 :: |g[i]| == 2
  {
    [g[0][0], g[0][1], g[1][0], g[1][1], '-', g[2][0], g[2][1], '-', g[3][0], g[3][1], 'T',
     g[4][0], g[4][1], ':', g[5][0], g[5][1], ':', g[6][0], g[6][1]]
  }

  lemma PrintedLayout(s: Stamp)
    requires InRange(s)
    ensures PrintDateTime(s)
         == Layout([Pad2(s.year / 100), Pad2(s.year % 100), Pad2(s.month), Pad2(s.day),
                    Pad2(s.hour), Pad2(s.minute), Pad2(s.second)])
  {
  }

  lemma ReadDateTime(s: Stamp)
    requires InRange(s)
    ensures |PrintDateTime(s)| == 19 && HasShape(PrintDateTime(s), DATE_TIME)
    ensures StampOf(PrintDateTime(s), s.micro, s.offset) == s
  {
    PrintedLayout(s);
    ReadPad2(s.year / 100);
    ReadPad2(s.year % 100);
    ReadPad2(s.month);
    ReadPad2(s.day);
    ReadPad2(s.hour);
    ReadPad2(s.minute);
    ReadPad2(s.second);
  }

  lemma MicroOfPairs(a: nat, b: nat, c: nat)
    requires a < 100 && b < 100 && c < 100
    ensures AllDigits(Pad2(a) + Pad2(b) + Pad2(c))
    ensures Micro(Pad2(a) + Pad2(b) + Pad2(c)) == a * 10000 + b * 100 + c
  {
    ReadPad2(a);
    ReadPad2(b);
    ReadPad2(c);
    var d := Pad2(a) + Pad2(b) + Pad2(c);
    MicroPair(a, Pad2(b) + Pad2(c), 10000);
    MicroPair(b, Pad2(c), 100);
    MicroPair(c, "", 1);
    assert d == Pad2(a) + (Pad2(b) + Pad2(c)) && Pad2(c) == Pad2(c) + "";
  }

  lemma MicroPair(n: nat, rest: string, tenth: nat)
    requires n < 100 && AllDigits(rest) && (tenth == 10000 || tenth == 100 || tenth == 1)
    ensures AllDigits(Pad2(n) + rest)
    ensures MicroFrom(Pad2(n) + rest, tenth * 10) == n * tenth + MicroFrom(rest, tenth / 10)
  {
    var d := Pad2(n) + rest;
    ReadPad2(n);
    assert d[1..][1..] == rest && d[1..] != "";
    assert MicroFrom(d, tenth * 10) == Digit(d[0]) * (tenth * 10) + MicroFrom(d[1..], tenth);
    assert MicroFrom(d[1..], tenth) == Digit(d[1]) * tenth + MicroFrom(rest, tenth / 10);
    Distribute(Digit(d[0]), Digit(d[1]), tenth);
  }

  lemma Distribute(high: nat, low: nat, tenth: nat)
    ensures high * (tenth * 10) + low * tenth == (high * 10 + low) * tenth
  {
  }

  /** The characters of a printed date and time. */
  predicate Plain(text: string)
  {
    forall i | 0 <= i < |text| :: IsDigit(text[i]) || text[i] in "-T:."
  }

  lemma PrintLocalIsPlain(s: Stamp)
    requires InRange(s)
    ensures Plain(PrintLocal(s)) && |PrintLocal(s)| >= 19
  {
    PrintedLayout(s);
  }

  const UTC := "+00:00"

  /** `isoformat()` prints no offset for a naive time. */
  function PrintZone(offset: Option<int>): string
    requires offset.Some? ==> -1440 < offset.value < 1440
  {
    if offset.Some? then PrintOffset(offset.value) else ""
  }

  lemma ReadZone(offset: Option<int>)
    requires offset.Some? ==> -1440 < offset.value < 1440
    ensures ParseOffset(PrintZone(offset)) == Some(offset)
    ensures PrintZone(offset) != "" ==> PrintZone(offset)[0] in "+-"
  {
    if offset.Some? {
      var n := offset.value;
      var size := if n < 0 then -n else n;
      var text := PrintOffset(n);
      ReadPad2(size / 60);
      ReadPad2(size % 60);
      assert text == [if n < 0 then '-' else '+'] + Pad2(size / 60) + [':'] + Pad2(size % 60);
      assert text[1..3] == Pad2(size / 60) && text[4..6] == Pad2(size % 60) && text[3] == ':';
      assert Two(text, 1) == size / 60 && Two(text, 4) == size % 60;
      assert HasShape(text, if n < 0 then "-00:00" else "+00:00");
    }
  }

  function Fraction(s: Stamp): string
    requires InRange(s)
  {
    Pad2(s.micro / 10000) + Pad2(s.micro / 100 % 100) + Pad2(s.micro % 100)
  }

  lemma FractionDigits(s: Stamp)
    requires InRange(s)
    ensures |Fraction(s)| == 6 && AllDigits(Fraction(s)) && Micro(Fraction(s)) == s.micro
  {
    var a, b, c := s.micro / 10000, s.micro / 100 % 100, s.micro % 100;
    MicroOfPairs(a, b, c);
    assert s.micro / 100 == a * 100 + b by {
      assert s.micro / 100 / 100 == a;
    }
  }

  lemma ReadFraction(s: Stamp, zone: string)
    requires InRange(s) && s.micro > 0 && (zone == "" || !IsDigit(zone[0]))
    ensures var tail := PrintFraction(s) + zone;
            && tail[0] == '.' && DigitRun(tail[1..]) == 6 && tail[7..] == zone
            && Micro(DigitsOf(tail, 7)) == s.micro
  {
    FractionDigits(s);
    assert PrintFraction(s) == "." + Fraction(s);
    DotCut(Fraction(s), zone);
    DigitRunStops(Fraction(s), zone);
  }

  lemma DotCut(digits: string, zone: string)
    requires |digits| == 6
    ensures var tail := "." + digits + zone;
            tail[1..] == digits + zone && tail[1..][..6] == digits && tail[7..] == zone
  {
  }

  lemma ReadTail(s: Stamp)
    requires InRange(s)
    ensures ParseTail(PrintFraction(s) + PrintZone(s.offset)) == Some((s.micro, s.offset))
  {
    var zone := PrintZone(s.offset);
    var tail := PrintFraction(s) + zone;
    ReadZone(s.offset);
    if s.micro == 0 {
      assert tail == zone && tail[0..] == tail;
    } else {
      ReadFraction(s, zone);
    }
  }

  /** A time in ISO form, with whatever offset or none, is read back. */
  lemma ParsePrinted(s: Stamp)
    requires InRange(s)
    ensures Parse(PrintLocal(s) + PrintZone(s.offset)) == Some(s)
  {
    var text := PrintLocal(s) + PrintZone(s.offset);
    ReadDateTime(s);
    CutAt(PrintDateTime(s), PrintFraction(s), PrintZone(s.offset));
    ReadTail(s);
  }

  lemma CutAt(a: string, b: string, c: string)
    ensures (a + b + c)[..|a|] == a && (a + b + c)[|a|..] == b + c
  {
  }

  // --- Normalisation ----------------------------------------------------------------------------------

  lemma ReplaceSuffix(local: string, pattern: string, put: string)
    requires pattern != "" && pattern[0] !in local
    ensures Replace(local + pattern, pattern, put) == local + put
  {
    assert local + pattern + "" == local + pattern;
    forall j | 0 <= j < |local| ensures !OccursAt(pattern, local + pattern + "", j) {
      if OccursAt(pattern, local + pattern + "", j) {
        OccursAtIndex(pattern, local + pattern + "", j, 0);
        assert false;
      }
    }
    ReplaceAtFirst(local, pattern, "", put);
    assert local + put + "" == local + put;
  }

  lemma PlainLacks(text: string)
    requires Plain(text)
    ensures 'Z' !in text && '+' !in text
  {
  }

  lemma OffsetText(offset: int)
    requires -1440 < offset < 1440
    ensures |PrintOffset(offset)| == 6 && PrintOffset(offset)[5] != 'Z'
    ensures PrintOffset(offset) == UTC <==> offset == 0
  {
    var size := if offset < 0 then -offset else offset;
    ReadPad2(size / 60);
    ReadPad2(size % 60);
    if PrintOffset(offset) == UTC {
      assert PrintOffset(offset)[0] == '+';
      assert Pad2(size / 60) == PrintOffset(offset)[1..3] == "00";
      assert Pad2(size % 60) == PrintOffset(offset)[4..6] == "00";
    }
  }

  lemma ForeignOffsetStays(local: string, offset: int)
    requires Plain(local) && -1440 < offset < 1440 && offset != 0
    ensures Replace(local + PrintOffset(offset), UTC, "Z") == local + PrintOffset(offset)
  {
    var text := local + PrintOffset(offset);
    OffsetText(offset);
    PlainLacks(local);
    forall j | 0 <= j <= |text| ensures !OccursAt(UTC, text, j) {
      if OccursAt(UTC, text, j) {
        OccursAtIndex(UTC, text, j, 0);
        assert false;
      }
    }
    ReplaceAbsent(text, UTC, "Z");
  }

  /** A timestamp is accepted exactly if it reads as a time whose offset is zero, and its normal form is
      that time's own text with `Z`. */
  lemma NormalizeIff(value: string)
    ensures Normalize(value)
         == match Parse(Replace(value, "Z", UTC))
            case None => None
            case Some(s) => if s.offset == Some(0) then Some(PrintLocal(s) + "Z") else None
  {
    var parsed := Parse(Replace(value, "Z", UTC));
    if parsed.Some? && parsed.value.offset.Some? {
      var s := parsed.value;
      var local := PrintLocal(s);
      PrintLocalIsPlain(s);
      PlainLacks(local);
      OffsetText(s.offset.value);
      if s.offset == Some(0) {
        ReplaceSuffix(local, UTC, "Z");
      } else {
        ForeignOffsetStays(local, s.offset.value);
      }
    }
  }

  /** A normal form denotes the time of its original. */
  lemma NormalizeKeepsTime(value: string)
    requires Normalize(value).Some?
    ensures Parse(Replace(Normalize(value).value, "Z", UTC)) == Parse(Replace(value, "Z", UTC))
  {
    NormalizeIff(value);
    var s := Parse(Replace(value, "Z", UTC)).value;
    PrintLocalIsPlain(s);
    PlainLacks(PrintLocal(s));
    ReplaceSuffix(PrintLocal(s), "Z", UTC);
    OffsetText(0);
    ParsePrinted(s);
  }

  /** Normalising a normal form changes nothing. */
  lemma NormalizeIdempotent(value: string)
    requires Normalize(value).Some?
    ensures Normalize(Normalize(value).value) == Normalize(value)
  {
    NormalizeKeepsTime(value);
    NormalizeIff(value);
    NormalizeIff(Normalize(value).value);
  }

  /** Two accepted timestamps have the same normal form if and only if they denote the same time. */
  lemma NormalFormIff(a: string, b: string)
    requires Normalize(a).Some? && Normalize(b).Some?
    ensures Normalize(a) == Normalize(b)
       <==> Parse(Replace(a, "Z", UTC)) == Parse(Replace(b, "Z", UTC))
  {
    NormalizeKeepsTime(a);
    NormalizeKeepsTime(b);
    NormalizeIff(a);
    NormalizeIff(b);
  }

  /** A normal form starts with the year's first digit. */
  lemma NormalStartsWithDigit(value: string)
    requires Normalize(value).Some?
    ensures Normalize(value).value != "" && IsDigit(Normalize(value).value[0])
  {
    NormalizeIff(value);
    var s := Parse(Replace(value, "Z", UTC)).value;
    PrintLocalIsPlain(s);
    ReadPad2(s.year / 100);
    assert PrintLocal(s)[0] == Pad2(s.year / 100)[0];
  }
}
