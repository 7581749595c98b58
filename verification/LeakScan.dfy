/** The scanners that look for forbidden values in JSON values, HTTP responses and Redis dumps. */
module LeakScan {
  import opened Wrappers
  import opened Text
  import opened Json
  import opened JsonOrder
  import opened JsonRoundTrip
  import AsciiJson
  import JsonSpelling
  import Lossy
  import Utf8
  import Base64

  type byte = Utf8.byte

  // --- JSON values --------------------------------------------------------------------------------------

  /** `json.dumps(value, ensure_ascii=False, sort_keys=True)` with Python's default separators. */
  function Rendered(value: Json): string
  {
    Dumps(value, true, Spaced)
  }

  function RenderedAll(values: seq<Json>): (parts: seq<string>)
    ensures |parts| == |values| && forall i | 0 <= i < |values| :: parts[i] == Rendered(values[i])
  {
    seq(|values|, i requires 0 <= i < |values| => Rendered(values[i]))
  }

  /** `key: value` of each entry. */
  function RenderedEntries(members: seq<Member>): (parts: seq<string>)
    ensures |parts| == |members|
    ensures forall i | 0 <= i < |members| :: parts[i] == Quote(members[i].key) + ": " + Rendered(members[i].value)
  {
    seq(|members|, i requires 0 <= i < |members| => Quote(members[i].key) + ": " + Rendered(members[i].value))
  }

  /** What is scanned: the items of a list with `, ` between them, and the entries of a dictionary in ascending
      order of their keys, with `, ` between them too. */
  lemma RenderedIsJoined(items: seq<Json>, members: seq<Member>)
    requires WellFormed(Obj(members)) && Ascending(members)
    ensures Rendered(Arr(items)) == "[" + Joined(RenderedAll(items), ", ") + "]"
    ensures Rendered(Obj(members)) == "{" + Joined(RenderedEntries(members), ", ") + "}"
    ensures forall others: seq<Member> | SameUpToOrder(Obj(others), Obj(members)) && WellFormed(Obj(others)) ::
              Rendered(Obj(others)) == Rendered(Obj(members))
  {
    JsonSpelling.RenderIsJoined(SortItems(items), SortMembers(members), Spaced);
    assert RenderedAll(items) == JsonSpelling.Items(SortItems(items), Spaced);
    SortAscending(members);
    assert RenderedEntries(members) == JsonSpelling.Entries(SortMembers(members), Spaced);
    forall others: seq<Member> | SameUpToOrder(Obj(others), Obj(members)) && WellFormed(Obj(others))
      ensures Rendered(Obj(others)) == Rendered(Obj(members))
    {
      SortKeysIff(Obj(others), Obj(members));
    }
  }

  /** Sorting leaves the entries of an ascending dictionary where they are. */
  lemma {:induction false} SortAscending(members: seq<Member>)
    requires Ascending(members)
    ensures |SortMembers(members)| == |members|
    ensures forall i | 0 <= i < |members| :: SortMembers(members)[i] == SortEntry(members[i])
  {
    if members != [] {
      SortAscending(members[1..]);
    }
  }

  /** The first forbidden value that the rendered text contains. */
  method AssertNoForbidden(value: Json, forbidden: seq<string>) returns (leak: Option<string>)
    ensures leak.None? <==> forall i | 0 <= i < |forbidden| :: !Occurs(forbidden[i], Rendered(value))
    ensures leak.Some? ==> leak.value in forbidden && Occurs(leak.value, Rendered(value))
  {
    var rendered := Rendered(value);
    for i := 0 to |forbidden|
      invariant forall j | 0 <= j < i :: !Occurs(forbidden[j], rendered)
    {
      if Occurs(forbidden[i], rendered) {
        return Some(forbidden[i]);
      }
    }
    leak := None;
  }

  /** A string or a key somewhere inside the value contains the text. */
  predicate Mentions(value: Json, text: string)
  {
    match value
    case Str(t) => Occurs(text, t)
    case Arr(items) => exists v | v in items :: Mentions(v, text)
    case Obj(members) => exists m | m in members :: Occurs(text, m.key) || Mentions(m.value, text)
    case _ => false
  }

  /** No character of the text is written as an escape. */
  predicate Unescaped(text: string)
  {
    forall i | 0 <= i < |text| :: EscapeChar(text[i]) == [text[i]]
  }

  lemma {:induction false} EscapeConcat(a: string, b: string)
    ensures Escape(a + b) == Escape(a) + Escape(b)
  {
    if a == "" {
      assert a + b == b;
    } else {
      assert (a + b)[1..] == a[1..] + b;
      EscapeConcat(a[1..], b);
    }
  }

  lemma {:induction false} EscapeUnescaped(text: string)
    requires Unescaped(text)
    ensures Escape(text) == text
  {
    if text != "" {
      EscapeUnescaped(text[1..]);
      assert [text[0]] + text[1..] == text;
    }
  }

  /** A text survives escaping wherever it stands if and only if it survives its own escaping. */
  lemma SurvivesEscapingIff(text: string)
    ensures (forall t: string | Occurs(text, t) :: Occurs(text, Escape(t))) <==> Occurs(text, Escape(text))
  {
    assert OccursAt(text, text, 0);
    if Occurs(text, Escape(text)) {
      forall t: string | Occurs(text, t) ensures Occurs(text, Escape(t)) {
        EscapeKeeps(text, t);
      }
    }
  }

  lemma EscapeKeeps(text: string, t: string)
    requires Occurs(text, Escape(text)) && Occurs(text, t)
    ensures Occurs(text, Escape(t)) && Occurs(text, Quote(t))
  {
    var i: nat :| i <= |t| && OccursAt(text, t, i);
    var before, after := t[..i], t[i + |text|..];
    assert t == before + text + after;
    EscapeConcat(before + text, after);
    EscapeConcat(before, text);
    OccursInside(text, Escape(before), Escape(text), Escape(after));
    OccursInside(text, "\"", Escape(t), "\"");
  }

  /** Rendering loses no mention of such a text, in any style. */
  lemma {:induction false} RenderKeeps(value: Json, text: string, style: Style)
    requires Occurs(text, Escape(text)) && Mentions(value, text)
    ensures Occurs(text, Render(value, style))
    decreases value, 0
  {
    match value {
      case Str(t) =>
        EscapeKeeps(text, t);
      case Arr(items) =>
        RenderItemsKeeps(items, text, style);
        OccursInside(text, "[", RenderItems(items, style), "]");
      case Obj(members) =>
        RenderMembersKeeps(members, text, style);
        OccursInside(text, "{", RenderMembers(members, style), "}");
    }
  }

  lemma {:induction false} RenderItemsKeeps(items: seq<Json>, text: string, style: Style)
    requires Occurs(text, Escape(text)) && exists v | v in items :: Mentions(v, text)
    ensures Occurs(text, RenderItems(items, style))
    decreases items, 0
  {
    if Mentions(items[0], text) {
      RenderKeeps(items[0], text, style);
      if |items| > 1 {
        OccursLeft(text, Render(items[0], style), Comma(style) + RenderItems(items[1..], style));
      } else {
        OccursLeft(text, Render(items[0], style), "");
      }
    } else {
      var v :| v in items && Mentions(v, text);
      assert items == [items[0]] + items[1..] && v in items[1..];
      RenderItemsKeeps(items[1..], text, style);
      OccursRight(text, Comma(style), RenderItems(items[1..], style));
      OccursRight(text, Render(items[0], style), Comma(style) + RenderItems(items[1..], style));
    }
  }

  lemma {:induction false} RenderMembersKeeps(members: seq<Member>, text: string, style: Style)
    requires Occurs(text, Escape(text))
    requires exists m | m in members :: Occurs(text, m.key) || Mentions(m.value, text)
    ensures Occurs(text, RenderMembers(members, style))
    decreases members, 0
  {
    var entry := RenderEntry(members[0], style);
    if Occurs(text, members[0].key) || Mentions(members[0].value, text) {
      RenderEntryKeeps(members[0], text, style);
      if |members| > 1 {
        OccursLeft(text, entry, Comma(style) + RenderMembers(members[1..], style));
      } else {
        OccursLeft(text, entry, "");
      }
    } else {
      var m :| m in members && (Occurs(text, m.key) || Mentions(m.value, text));
      assert members == [members[0]] + members[1..] && m in members[1..];
      RenderMembersKeeps(members[1..], text, style);
      OccursRight(text, Comma(style), RenderMembers(members[1..], style));
      OccursRight(text, entry, Comma(style) + RenderMembers(members[1..], style));
    }
  }

  function RenderEntry(m: Member, style: Style): string
  {
    Quote(m.key) + Colon(style) + Render(m.value, style)
  }

  lemma {:induction false} RenderEntryKeeps(m: Member, text: string, style: Style)
    requires Occurs(text, Escape(text)) && (Occurs(text, m.key) || Mentions(m.value, text))
    ensures Occurs(text, RenderEntry(m, style))
    decreases m, 0
  {
    if Occurs(text, m.key) {
      EscapeKeeps(text, m.key);
      OccursLeft(text, Quote(m.key), Colon(style));
      OccursLeft(text, Quote(m.key) + Colon(style), Render(m.value, style));
    } else {
      RenderKeeps(m.value, text, style);
      OccursRight(text, Quote(m.key) + Colon(style), Render(m.value, style));
    }
  }

  /** Sorting keeps every mention. */
  lemma {:induction false} SortKeepsMentions(value: Json, text: string)
    requires Mentions(value, text)
    ensures Mentions(SortKeys(value), text)
  {
    match value {
      case Arr(items) =>
        var v :| v in items && Mentions(v, text);
        var i :| 0 <= i < |items| && items[i] == v;
        SortKeepsMentions(v, text);
        assert SortItems(items)[i] in SortItems(items);
      case Obj(members) =>
        var m :| m in members && (Occurs(text, m.key) || Mentions(m.value, text));
        if Mentions(m.value, text) {
          SortKeepsMentions(m.value, text);
        }
        SortMembersHas(members, SortEntry(m));
      case _ =>
    }
  }

  /** Completeness of the JSON scan: a forbidden value without escaped characters that any string or key
      at any depth contains is always found. */
  lemma JsonScanComplete(value: Json, forbidden: string)
    requires Unescaped(forbidden) && Mentions(value, forbidden)
    ensures Occurs(forbidden, Rendered(value))
  {
    EscapeUnescaped(forbidden);
    assert OccursAt(forbidden, Escape(forbidden), 0);
    SortKeepsMentions(value, forbidden);
    RenderKeeps(SortKeys(value), forbidden, Spaced);
  }

  /** Exactly which forbidden values the scan finds wherever they stand: those that are part of their own
      escaped text. `other` is any character, written as it is, that the forbidden value lacks. */
  lemma JsonScanCompleteIff(forbidden: string, other: char)
    requires other !in forbidden && EscapeChar(other) == [other]
    ensures (forall value | Mentions(value, forbidden) :: Occurs(forbidden, Rendered(value)))
       <==> Occurs(forbidden, Escape(forbidden))
  {
    if Occurs(forbidden, Escape(forbidden)) {
      forall value | Mentions(value, forbidden) ensures Occurs(forbidden, Rendered(value)) {
        SortKeepsMentions(value, forbidden);
        RenderKeeps(SortKeys(value), forbidden, Spaced);
      }
    } else {
      var text := [other] + forbidden + [other];
      assert OccursAt(forbidden, text, 1);
      FencedIsMissed(forbidden, other);
      assert Mentions(Str(text), forbidden) && Rendered(Str(text)) == Quote(text);
    }
  }

  /** Between two such characters, the quotes around the text are no help. */
  lemma FencedIsMissed(forbidden: string, other: char)
    requires other !in forbidden && EscapeChar(other) == [other]
    requires !Occurs(forbidden, Escape(forbidden))
    ensures !Occurs(forbidden, Quote([other] + forbidden + [other]))
  {
    var quote := "\"";
    EscapeConcat([other] + forbidden, [other]);
    EscapeConcat([other], forbidden);
    assert [other][1..] == "";
    assert Escape([other]) == [other];
    if Occurs(forbidden, quote) {
      QuoteSurvives(forbidden);
      assert false;
    }
    Fenced(forbidden, quote, other, Escape(forbidden));
  }

  lemma Fenced(needle: string, outside: string, fence: char, inside: string)
    requires fence !in needle && !Occurs(needle, outside) && !Occurs(needle, inside)
    ensures !Occurs(needle, outside + ([fence] + inside + [fence]) + outside)
  {
    assert outside + ([fence] + inside + [fence]) + outside
        == outside + [fence] + (inside + [fence] + outside);
    OccursAroundStop(needle, outside, fence, inside + [fence] + outside);
    OccursAroundStop(needle, inside, fence, outside);
  }

  /** What is part of a lone quotation mark survives escaping. */
  lemma QuoteSurvives(text: string)
    requires Occurs(text, "\"")
    ensures Occurs(text, Escape(text))
  {
    var quote := "\"";
    var i: nat :| i <= 1 && OccursAt(text, quote, i);
    if text == "" {
      assert OccursAt(text, Escape(text), 0);
    } else {
      assert |text| == 1 && text == quote[i..i + 1] && i == 0;
      assert text == quote && quote[1..] == "";
      assert Escape(text) == "\\\"";
      assert Escape(text)[1..2] == text;
      assert OccursAt(text, Escape(text), 1);
    }
  }

  /** A forbidden value with a quote inside can be missed. */
  lemma QuoteInsideIsMissed()
    ensures Mentions(Str("a\"b"), "a\"b") && !Occurs("a\"b", Rendered(Str("a\"b")))
  {
    var s := "a\"b";
    assert OccursAt(s, s, 0);
    var rendered := Rendered(Str(s));
    assert s[1..] == "\"b" && s[1..][1..] == "b" && s[1..][1..][1..] == "";
    assert rendered == "\"a\\\"b\"";
    forall i | 0 <= i <= |rendered| ensures !OccursAt(s, rendered, i) {
      if OccursAt(s, rendered, i) {
        OccursAtIndex(s, rendered, i, 0);
        OccursAtIndex(s, rendered, i, 1);
        assert false;
      }
    }
  }

  // --- HTTP responses -----------------------------------------------------------------------------------

  datatype Header = Header(name: string, value: string)

  datatype HttpResult = HttpResult(status: int, headers: seq<Header>, body: seq<byte>)

  /** One line per header, with line feeds between them. */
  function HeaderText(headers: seq<Header>): string
  {
    if headers == [] then ""
    else
      headers[0].name + ": " + headers[0].value
      + (if |headers| == 1 then "" else "\n" + HeaderText(headers[1..]))
  }

  /** `"\n".join(f"{name}: {value}" ...)` */
  lemma {:induction false} HeaderTextIsJoined(headers: seq<Header>)
    ensures HeaderText(headers)
         == Joined(seq(|headers|, i requires 0 <= i < |headers| => headers[i].name + ": " + headers[i].value), "\n")
  {
    if headers != [] {
      var rest := headers[1..];
      var lines := seq(|headers|, i requires 0 <= i < |headers| => headers[i].name + ": " + headers[i].value);
      var others := seq(|rest|, i requires 0 <= i < |rest| => rest[i].name + ": " + rest[i].value);
      HeaderTextIsJoined(rest);
      assert lines == [lines[0]] + others;
      JoinedFirst(lines, "\n", lines[0], others);
    }
  }

  /** The two assertions about one response and one forbidden value. */
  predicate ResponseLacks(response: HttpResult, forbidden: string)
  {
    && !Occurs(Utf8.Encode(forbidden), response.body)
    && !Occurs(Utf8.Encode(forbidden), Utf8.Encode(HeaderText(response.headers)))
  }

  method AssertHttpResponsesSafe(responses: seq<HttpResult>, forbidden: seq<string>) returns (safe: bool)
    ensures safe <==> forall i, j | 0 <= i < |responses| && 0 <= j < |forbidden| ::
                        ResponseLacks(responses[i], forbidden[j])
  {
    for i := 0 to |responses|
      invariant forall k, j | 0 <= k < i && 0 <= j < |forbidden| :: ResponseLacks(responses[k], forbidden[j])
    {
      var headerBytes := Utf8.Encode(HeaderText(responses[i].headers));
      for j := 0 to |forbidden|
        invariant forall l | 0 <= l < j :: ResponseLacks(responses[i], forbidden[l])
      {
        var encoded := Utf8.Encode(forbidden[j]);
        if Occurs(encoded, responses[i].body) || Occurs(encoded, headerBytes) {
          assert !ResponseLacks(responses[i], forbidden[j]);
          return false;
        }
      }
    }
    safe := true;
  }

  /** On a UTF-8 body the byte scan decides exactly whether the texts contain the forbidden value. */
  lemma HttpScanExact(response: HttpResult, text: string, forbidden: string)
    requires Utf8.Decode(response.body) == Some(text)
    ensures ResponseLacks(response, forbidden)
       <==> !Occurs(forbidden, text) && !Occurs(forbidden, HeaderText(response.headers))
  {
    Utf8.DecodeIff(response.body, text);
    Utf8.ScanIsExact(forbidden, text);
    Utf8.ScanIsExact(forbidden, HeaderText(response.headers));
  }

  /** On any body at all, the byte scan decides the same about the body decoded with replacement, for a forbidden
      value without a replacement character. */
  lemma HttpScanLossy(response: HttpResult, forbidden: string)
    requires Lossy.REPLACEMENT !in forbidden
    ensures ResponseLacks(response, forbidden)
       <==> && !Occurs(forbidden, Lossy.Decode(response.body))
            && !Occurs(forbidden, HeaderText(response.headers))
  {
    Lossy.ScanBothWays(forbidden, response.body);
    Utf8.ScanIsExact(forbidden, HeaderText(response.headers));
  }

  /** Every header name and value is part of the scanned text. */
  lemma {:induction false} HeaderIsScanned(headers: seq<Header>, i: nat, forbidden: string)
    requires i < |headers|
    requires Occurs(forbidden, headers[i].name) || Occurs(forbidden, headers[i].value)
    ensures Occurs(forbidden, HeaderText(headers))
    decreases |headers|
  {
    var name, value := headers[0].name, headers[0].value;
    var more := if |headers| == 1 then "" else "\n" + HeaderText(headers[1..]);
    if i == 0 {
      if Occurs(forbidden, name) {
        OccursInside(forbidden, "", name, ": " + value + more);
        assert name + ": " + value + more == "" + name + (": " + value + more);
      } else {
        OccursInside(forbidden, name + ": ", value, more);
      }
    } else {
      HeaderIsScanned(headers[1..], i - 1, forbidden);
      OccursInside(forbidden, name + ": " + value + "\n", HeaderText(headers[1..]), "");
      assert HeaderText(headers) == name + ": " + value + "\n" + HeaderText(headers[1..]) + "";
    }
  }

  // --- Redis dumps --------------------------------------------------------------------------------------

  datatype DumpVerdict = Safe | Leaked | BadEncoding

  /** The dictionary that the harness loads: decoded keys, and encoded values. */
  type DumpTable = seq<Member>

  function Keys(dumps: DumpTable): Json
  {
    Arr(seq(|dumps|, i requires 0 <= i < |dumps| => Str(dumps[i].key)))
  }

  /** Strict decoding of a value of the dictionary; what is no text is no encoding either. */
  function Raw(value: Json): Option<seq<byte>>
  {
    if value.Str? then Base64.Decode(value.text) else None
  }

  predicate DumpLacks(value: Json, forbidden: seq<string>)
  {
    match Raw(value)
    case None => false
    case Some(raw) => forall j | 0 <= j < |forbidden| :: !Occurs(Utf8.Encode(forbidden[j]), raw)
  }

  /** All that is asserted: about the keys together, and about each value. */
  predicate DumpsLack(dumps: DumpTable, forbidden: seq<string>)
  {
    && (forall j | 0 <= j < |forbidden| :: !Occurs(forbidden[j], Rendered(Keys(dumps))))
    && (forall i | 0 <= i < |dumps| :: DumpLacks(dumps[i].value, forbidden))
  }

  method AssertRedisDumpsSafe(dumps: DumpTable, forbidden: seq<string>) returns (verdict: DumpVerdict)
    ensures verdict == Safe <==> DumpsLack(dumps, forbidden)
    ensures verdict == BadEncoding ==> exists i | 0 <= i < |dumps| :: Raw(dumps[i].value).None?
  {
    var leak := AssertNoForbidden(Keys(dumps), forbidden);
    if leak.Some? {
      return Leaked;
    }
    for i := 0 to |dumps|
      invariant forall k | 0 <= k < i :: DumpLacks(dumps[k].value, forbidden)
    {
      var raw := Raw(dumps[i].value);
      if raw.None? {
        assert !DumpLacks(dumps[i].value, forbidden);
        return BadEncoding;
      }
      for j := 0 to |forbidden|
        invariant forall l | 0 <= l < j :: !Occurs(Utf8.Encode(forbidden[l]), raw.value)
      {
        if Occurs(Utf8.Encode(forbidden[j]), raw.value) {
          assert !DumpLacks(dumps[i].value, forbidden);
          return Leaked;
        }
      }
      assert DumpLacks(dumps[i].value, forbidden);
    }
    verdict := Safe;
  }

  // --- The producer of the dumps --------------------------------------------------------------------------

  /** A key as Redis holds it, and the bytes that `DUMP` returns for it. */
  datatype Entry = Entry(key: seq<byte>, raw: seq<byte>)

  function KeyText(entry: Entry): string
  {
    Lossy.Decode(entry.key)
  }

  function DumpOf(entry: Entry): Member
  {
    Member(KeyText(entry), Str(Base64.Encode(entry.raw)))
  }

  function Pairs(entries: seq<Entry>): (pairs: seq<Member>)
    ensures |pairs| == |entries| && forall i | 0 <= i < |entries| :: pairs[i] == DumpOf(entries[i])
  {
    seq(|entries|, i requires 0 <= i < |entries| => DumpOf(entries[i]))
  }

  /** The producer's dictionary comprehension, printed with sorted keys. */
  function DumpAll(entries: seq<Entry>): DumpTable
  {
    SortMembers(ToDict(Pairs(entries)))
  }

  /** What the harness loads from the printed dictionary: the producer prints it with sorted keys, compact
      separators and ASCII escapes. */
  lemma PrintedIsLoaded(entries: seq<Entry>, space: string)
    requires Skip(space) == ""
    ensures AsciiJson.AllTexts(DumpAll(entries))
    ensures Loads(AsciiJson.PrintDict(DumpAll(entries), space)) == Some(Obj(DumpAll(entries)))
  {
    var dumps := DumpAll(entries);
    forall m | m in dumps ensures m.value.Str? {
      DumpAllHas(entries, m);
    }
    DumpAllHas(entries, Member("", Null));
    AscendingDistinct(dumps);
    AsciiJson.LoadsOfPrinted(dumps, space);
  }

  /** No later key decodes to the same text. */
  predicate IsLast(entries: seq<Entry>, i: int)
  {
    0 <= i < |entries| && forall k | i < k < |entries| :: KeyText(entries[k]) != KeyText(entries[i])
  }

  /** The dictionary holds, in the order of its keys, the dump of the last entry of each decoded key. */
  lemma DumpAllHas(entries: seq<Entry>, x: Member)
    ensures Ascending(DumpAll(entries))
    ensures x in DumpAll(entries) <==> exists i :: IsLast(entries, i) && x == DumpOf(entries[i])
  {
    var pairs := Pairs(entries);
    ToDictHas(pairs, x);
    SortMembersAscending(ToDict(pairs));
    SortMembersHas(ToDict(pairs), x);
    forall m | m in ToDict(pairs) ensures SortEntry(m) == m {
      ToDictHas(pairs, m);
    }
    forall i ensures IsLastOfKey(pairs, i) <==> IsLast(entries, i) {
    }
  }

  /** The scan of a dumped value sees exactly the value's own bytes. */
  lemma DumpScanExact(raw: seq<byte>, forbidden: seq<string>)
    ensures DumpLacks(Str(Base64.Encode(raw)), forbidden)
       <==> forall j | 0 <= j < |forbidden| :: !Occurs(Utf8.Encode(forbidden[j]), raw)
  {
    Base64.DecodeEncode(raw);
  }

  /** And the same text as anyone sees who decodes those bytes with replacement. */
  lemma DumpScanLossy(raw: seq<byte>, forbidden: seq<string>)
    requires forall j | 0 <= j < |forbidden| :: Lossy.REPLACEMENT !in forbidden[j]
    ensures DumpLacks(Str(Base64.Encode(raw)), forbidden)
       <==> forall j | 0 <= j < |forbidden| :: !Occurs(forbidden[j], Lossy.Decode(raw))
  {
    DumpScanExact(raw, forbidden);
    forall j | 0 <= j < |forbidden|
      ensures Occurs(Utf8.Encode(forbidden[j]), raw) <==> Occurs(forbidden[j], Lossy.Decode(raw))
    {
      Lossy.ScanBothWays(forbidden[j], raw);
    }
  }

  /** The Redis scan as a whole is exact: it passes if and only if no forbidden value occurs in the rendered
      keys, nor encoded in the bytes of any entry whose key no later key decodes to. */
  lemma RedisScanIff(entries: seq<Entry>, forbidden: seq<string>)
    ensures DumpsLack(DumpAll(entries), forbidden)
       <==> && (forall j | 0 <= j < |forbidden| :: !Occurs(forbidden[j], Rendered(Keys(DumpAll(entries)))))
            && (forall i, j | IsLast(entries, i) && 0 <= j < |forbidden| ::
                  !Occurs(Utf8.Encode(forbidden[j]), entries[i].raw))
  {
    var dumps := DumpAll(entries);
    forall i | IsLast(entries, i)
      ensures DumpOf(entries[i]) in dumps
      ensures DumpLacks(DumpOf(entries[i]).value, forbidden)
         <==> forall j | 0 <= j < |forbidden| :: !Occurs(Utf8.Encode(forbidden[j]), entries[i].raw)
    {
      DumpAllHas(entries, DumpOf(entries[i]));
      DumpScanExact(entries[i].raw, forbidden);
    }
    forall k | 0 <= k < |dumps| ensures exists i :: IsLast(entries, i) && dumps[k] == DumpOf(entries[i]) {
      DumpAllHas(entries, dumps[k]);
    }
  }

  /** Every key is scanned, overwritten or not. */
  lemma RedisKeysScanned(entries: seq<Entry>, forbidden: string, i: nat)
    requires i < |entries| && Unescaped(forbidden) && Occurs(forbidden, KeyText(entries[i]))
    ensures Occurs(forbidden, Rendered(Keys(DumpAll(entries))))
  {
    var dumps := DumpAll(entries);
    var last := LastOf(entries, i);
    DumpAllHas(entries, DumpOf(entries[last]));
    var k :| 0 <= k < |dumps| && dumps[k] == DumpOf(entries[last]);
    assert Keys(dumps).items[k] == Str(KeyText(entries[i]));
    assert Keys(dumps).items[k] in Keys(dumps).items && Mentions(Keys(dumps).items[k], forbidden);
    JsonScanComplete(Keys(dumps), forbidden);
  }

  lemma {:induction false} LastOf(entries: seq<Entry>, i: nat) returns (last: nat)
    requires i < |entries|
    ensures IsLast(entries, last) && KeyText(entries[last]) == KeyText(entries[i])
    decreases |entries| - i
  {
    if k: nat :| i < k < |entries| && KeyText(entries[k]) == KeyText(entries[i]) {
      last := LastOf(entries, k);
    } else {
      last := i;
    }
  }

  // --- Which values are scanned -----------------------------------------------------------------------------

  predicate DistinctEntries(entries: seq<Entry>)
  {
    forall i, k | 0 <= i < k < |entries| :: entries[i].key != entries[k].key
  }

  /** The value under a key is scanned, whatever other keys there are, if and only if the key decodes without a
      replacement: exactly then no other key decodes to the same text. */
  lemma ScannedWhateverElseIff(entry: Entry)
    ensures (forall entries, i | DistinctEntries(entries) && 0 <= i < |entries| && entries[i] == entry ::
               IsLast(entries, i))
       <==> Lossy.REPLACEMENT !in KeyText(entry)
  {
    Lossy.CollidesIff(entry.key);
    if Lossy.REPLACEMENT in KeyText(entry) {
      var other :| other != entry.key && Lossy.Decode(other) == Lossy.Decode(entry.key);
      var entries := [entry, Entry(other, [])];
      assert DistinctEntries(entries) && entries[0] == entry;
      assert KeyText(entries[1]) == KeyText(entries[0]);
      assert !IsLast(entries, 0);
    } else {
      forall entries: seq<Entry>, i | DistinctEntries(entries) && 0 <= i < |entries| && entries[i] == entry
        ensures IsLast(entries, i)
      {
        forall k | i < k < |entries| ensures KeyText(entries[k]) != KeyText(entries[i]) {
          Lossy.UnmarkedNeverCollides(entry.key, entries[k].key);
        }
      }
    }
  }

  /** Distinct keys that decode strictly lose no value. */
  lemma StrictKeysLoseNothing(entries: seq<Entry>, i: nat)
    requires DistinctEntries(entries) && i < |entries|
    requires forall k | 0 <= k < |entries| :: Utf8.Decode(entries[k].key).Some?
    ensures IsLast(entries, i)
  {
    forall k | i < k < |entries| ensures KeyText(entries[k]) != KeyText(entries[i]) {
      Lossy.StrictNeverCollide(entries[k].key, entries[i].key);
    }
  }

  /** Two keys of Redis that differ in a byte that is no UTF-8. */
  function BadKey(prefix: string, b: byte): seq<byte>
  {
    Utf8.Encode(prefix) + [b]
  }

  lemma BadKeysCollide(prefix: string, b: byte, c: byte)
    requires b >= 0xF8 && c >= 0xF8 && b != c
    ensures BadKey(prefix, b) != BadKey(prefix, c)
    ensures Lossy.Decode(BadKey(prefix, b)) == Lossy.Decode(BadKey(prefix, c)) == prefix + [Lossy.REPLACEMENT]
  {
    var n := |Utf8.Encode(prefix)|;
    assert BadKey(prefix, b)[n] == b && BadKey(prefix, c)[n] == c;
    BadKeyText(prefix, b);
    BadKeyText(prefix, c);
  }

  lemma BadKeyText(prefix: string, b: byte)
    requires b >= 0xF8
    ensures Lossy.Decode(BadKey(prefix, b)) == prefix + [Lossy.REPLACEMENT]
  {
    Lossy.DecodeEncoded(prefix, [b]);
    Lossy.DecodeBadByte(b, []);
    assert [b] + [] == [b] && [Lossy.REPLACEMENT] + Lossy.Decode([]) == [Lossy.REPLACEMENT];
  }

  /** A value can hide behind another one: of two distinct keys that end in the bytes 0xFF and 0xFE, only the
      value of the second is scanned. */
  lemma OverwrittenIsMissed(prefix: string, hidden: seq<byte>, shown: seq<byte>, forbidden: string)
    requires !Occurs(Utf8.Encode(forbidden), shown)
    requires !Occurs(forbidden, Rendered(Arr([Str(prefix + [Lossy.REPLACEMENT])])))
    ensures var entries := [Entry(BadKey(prefix, 0xFF), hidden), Entry(BadKey(prefix, 0xFE), shown)];
            DistinctEntries(entries) && DumpsLack(DumpAll(entries), [forbidden])
  {
    var entries := [Entry(BadKey(prefix, 0xFF), hidden), Entry(BadKey(prefix, 0xFE), shown)];
    BadKeysCollide(prefix, 0xFF, 0xFE);
    assert KeyText(entries[0]) == KeyText(entries[1]);
    OneDump(entries);
    assert Keys(DumpAll(entries)) == Arr([Str(prefix + [Lossy.REPLACEMENT])]);
    DumpScanExact(shown, [forbidden]);
  }

  lemma OneDump(entries: seq<Entry>)
    requires |entries| == 2 && KeyText(entries[0]) == KeyText(entries[1])
    ensures DumpAll(entries) == [DumpOf(entries[1])]
  {
    var first, second := DumpOf(entries[0]), DumpOf(entries[1]);
    var pairs := Pairs(entries);
    assert pairs[..1] == [first] && pairs[..1][..0] == [] && pairs[..0] == [];
    assert ToDict(pairs[..1]) == [first];
    assert [first][1..] == [] && [second][1..] == [];
    assert ToDict(pairs) == [second];
    assert SortMembers([]) == [] && SortEntry(second) == second;
    assert SortMembers([second]) == Insert(second, []) == [second] + [];
  }
}
