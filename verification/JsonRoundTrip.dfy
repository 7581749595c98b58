/** Reading a compactly written JSON value gives the value back. */
module JsonRoundTrip {
  import opened Wrappers
  import opened Json
  import Decimal
  import Text

  // --- Strings ------------------------------------------------------------------------------------

  lemma ParseHexEscape(c: char, tail: string)
    requires c < ' ' && |EscapeChar(c)| == 6
    ensures ParseEscape((EscapeChar(c) + tail)[1..]) == Got(c, tail)
  {
    var high, low := HexDigit(c as int / 16), HexDigit(c as int % 16);
    var escape := EscapeChar(c);
    assert escape[1..] == ['u', '0', '0', high, low];
    var after := (escape + tail)[1..];
    assert after == escape[1..] + tail;
    var hex := after[1..];
    assert hex == ['0', '0', high, low] + tail;
    HexRoundTrip(c as int / 16);
    HexRoundTrip(c as int % 16);
    assert hex[0] == '0' && hex[1] == '0' && hex[2] == high && hex[3] == low;
    assert Hex4(hex) == Some(c as int);
    assert hex[4..] == tail;
  }

  lemma ParseShortEscape(c: char, tail: string)
    requires |EscapeChar(c)| == 2
    ensures ParseEscape((EscapeChar(c) + tail)[1..]) == Got(c, tail)
  {
    var after := (EscapeChar(c) + tail)[1..];
    assert after == [EscapeChar(c)[1]] + tail && after[1..] == tail;
  }

  /** Each escape is read as the character it stands for. */
  lemma ParseEscapedChar(c: char, tail: string)
    ensures ParseChars(EscapeChar(c) + tail)
         == match ParseChars(tail)
            case Fail => Fail
            case Got(s, rest) => Got([c] + s, rest)
  {
    var text := EscapeChar(c) + tail;
    if |EscapeChar(c)| == 1 {
      assert text[1..] == tail;
    } else if |EscapeChar(c)| == 2 {
      ParseShortEscape(c, tail);
    } else {
      ParseHexEscape(c, tail);
    }
  }

  lemma HexRoundTrip(n: nat)
    requires n < 16
    ensures HexValue(HexDigit(n)) == Some(n)
  {
  }

  lemma {:induction false} ParseEscaped(text: string, rest: string)
    ensures ParseChars(Escape(text) + "\"" + rest) == Got(text, rest)
    decreases |text|
  {
    if text == "" {
      var s := "" + "\"" + rest;
      assert s[0] == '"' && s[1..] == rest;
    } else {
      var tail := Escape(text[1..]) + "\"" + rest;
      ParseEscaped(text[1..], rest);
      ParseEscapedChar(text[0], tail);
      Text.Regroup(EscapeChar(text[0]), Escape(text[1..]), "\"", rest);
      assert [text[0]] + text[1..] == text;
    }
  }

  lemma ParseQuoted(text: string, rest: string)
    ensures Quote(text) + rest != "" && (Quote(text) + rest)[0] == '"'
    ensures ParseChars((Quote(text) + rest)[1..]) == Got(text, rest)
  {
    assert (Quote(text) + rest)[1..] == Escape(text) + "\"" + rest;
    ParseEscaped(text, rest);
  }

  // --- Numbers ------------------------------------------------------------------------------------

  /** Nothing that could prolong a number. */
  predicate Stops(rest: string)
  {
    rest == "" || !IsNumberChar(rest[0])
  }

  lemma {:induction false} NumberRunOf(token: string, rest: string)
    requires AllNumberChars(token) && Stops(rest)
    ensures NumberRun(token + rest) == |token|
    decreases |token|
  {
    if token == "" {
      assert token + rest == rest;
    } else {
      assert (token + rest)[1..] == token[1..] + rest;
      NumberRunOf(token[1..], rest);
    }
  }

  lemma ParsePrintedInt(n: int, rest: string)
    requires Stops(rest)
    ensures ParseNumber(Decimal.OfInt(n) + rest) == Got(Int(n), rest)
  {
    var token := Decimal.OfInt(n);
    Decimal.ToIntOfInt(n);
    assert n < 0 ==> token[1..] == Decimal.OfNat(-n);
    assert n >= 0 ==> Decimal.IsDigit(token[0]);
    assert IsIntToken(token);
    assert AllNumberChars(token) by {
      forall i | 0 <= i < |token| ensures IsNumberChar(token[i]) {
        assert i > 0 && n < 0 ==> token[i] == Decimal.OfNat(-n)[i - 1];
      }
    }
    NumberRunOf(token, rest);
    assert (token + rest)[..|token|] == token && (token + rest)[|token|..] == rest;
  }

  lemma ParsePrintedFloat(token: FloatToken, rest: string)
    requires Stops(rest)
    ensures ParseNumber(token + rest) == Got(Float(token), rest)
  {
    NumberRunOf(token, rest);
    assert (token + rest)[..|token|] == token && (token + rest)[|token|..] == rest;
    if IsIntToken(token) {
      Decimal.DigitRunOfDigits(Unsigned(token));
      assert false;
    }
  }

  // --- Values -------------------------------------------------------------------------------------

  /** Every rendering starts with a character that tells what it is. */
  lemma FirstChar(v: Json)
    requires Finite(v)
    ensures var s := Render(v, Compact);
            && s != ""
            && !IsSpace(s[0]) && s[0] != ']' && s[0] != '}'
            && (v.Int? || v.Float? ==> Decimal.IsDigit(s[0]) || s[0] == '-')
  {
    if v.Float? {
      var body := Unsigned(v.token);
      assert body[..Decimal.DigitRun(body)] != "";
      assert Decimal.IsDigit(body[..Decimal.DigitRun(body)][0]);
    }
  }

  lemma {:induction false} PutNew(members: seq<Member>, key: string, value: Json)
    requires forall i | 0 <= i < |members| :: members[i].key != key
    ensures Put(members, key, value) == members + [Member(key, value)]
  {
    if members != [] {
      PutNew(members[1..], key, value);
      assert [members[0]] + (members[1..] + [Member(key, value)]) == members + [Member(key, value)];
    }
  }

  lemma {:induction false} PutHas(members: seq<Member>, m: Member, x: Member)
    requires DistinctKeys(members)
    ensures x in Put(members, m.key, m.value) <==> x == m || (x in members && x.key != m.key)
    ensures DistinctKeys(Put(members, m.key, m.value))
  {
    if members != [] {
      var first, tail := members[0], members[1..];
      assert members == [first] + tail;
      PutHas(tail, m, x);
      if first.key != m.key {
        var put := Put(tail, m.key, m.value);
        forall i | 0 <= i < |put| ensures put[i].key != first.key {
          PutHas(tail, m, put[i]);
        }
      }
    }
  }

  /** No later pair has the same key. */
  predicate IsLastOfKey(pairs: seq<Member>, i: int)
  {
    0 <= i < |pairs| && forall k | i < k < |pairs| :: pairs[k].key != pairs[i].key
  }

  /** Leaving out the last pair of all: what stays last of its key, and what becomes it. */
  lemma LastOfKeyInit(pairs: seq<Member>, i: nat)
    requires i < |pairs| - 1
    ensures IsLastOfKey(pairs, i)
       <==> IsLastOfKey(pairs[..|pairs| - 1], i) && pairs[i].key != pairs[|pairs| - 1].key
  {
  }

  /** The last pair of all is the last of its key, and takes that place from any other. */
  lemma LastPairs(pairs: seq<Member>, x: Member)
    requires pairs != []
    ensures var last := |pairs| - 1;
            var init := pairs[..last];
            (exists i :: IsLastOfKey(pairs, i) && x == pairs[i])
            <==> x == pairs[last] || (x.key != pairs[last].key && exists i :: IsLastOfKey(init, i) && x == init[i])
  {
    var last := |pairs| - 1;
    var init := pairs[..last];
    assert IsLastOfKey(pairs, last);
    if i :| IsLastOfKey(pairs, i) && x == pairs[i] && i < last {
      LastOfKeyInit(pairs, i);
      assert init[i] == x;
    }
    if i :| IsLastOfKey(init, i) && x == init[i] && x.key != pairs[last].key {
      LastOfKeyInit(pairs, i);
      assert pairs[i] == x;
    }
  }

  /** A dictionary holds, of the pairs it is built from, exactly the last of each key. */
  lemma {:induction false} ToDictHas(pairs: seq<Member>, x: Member)
    ensures DistinctKeys(ToDict(pairs))
    ensures x in ToDict(pairs) <==> exists i :: IsLastOfKey(pairs, i) && x == pairs[i]
    decreases |pairs|
  {
    if pairs != [] {
      var last := |pairs| - 1;
      ToDictHas(pairs[..last], x);
      PutHas(ToDict(pairs[..last]), pairs[last], x);
      LastPairs(pairs, x);
    }
  }

  /** Building a dictionary from pairs with distinct keys keeps them all, in order. */
  lemma {:induction false} ToDictOfDistinct(members: seq<Member>)
    requires DistinctKeys(members)
    ensures ToDict(members) == members
    decreases |members|
  {
    if members != [] {
      var init, last := members[..|members| - 1], members[|members| - 1];
      ToDictOfDistinct(init);
      PutNew(init, last.key, last.value);
      assert init + [last] == members;
    }
  }

  lemma ParseWord(v: Json, rest: string)
    requires v.Null? || v.Bool?
    ensures ParseValue(Render(v, Compact) + rest) == Got(v, rest)
  {
    var word := Render(v, Compact);
    var text := word + rest;
    assert Skip(text) == text && text[..|word|] == word && text[|word|..] == rest;
  }

  lemma StartsNumber(text: string)
    requires text != "" && (Decimal.IsDigit(text[0]) || text[0] == '-')
    ensures ParseValue(text) == ParseNumber(text)
  {
    assert Skip(text) == text;
    var c := text[0];
    assert c != 'n' && c != 't' && c != 'f' && c != '"' && c != '[' && c != '{';
  }

  lemma ParseNumeral(v: Json, rest: string)
    requires (v.Int? || v.Float?) && Stops(rest)
    ensures ParseValue(Render(v, Compact) + rest) == Got(v, rest)
  {
    var text := Render(v, Compact) + rest;
    FirstChar(v);
    assert text[0] == Render(v, Compact)[0];
    StartsNumber(text);
    if v.Int? {
      ParsePrintedInt(v.n, rest);
    } else {
      ParsePrintedFloat(v.token, rest);
    }
  }

  lemma ParseText(t: string, rest: string)
    ensures ParseValue(Render(Str(t), Compact) + rest) == Got(Str(t), rest)
  {
    ParseQuoted(t, rest);
    assert Skip(Quote(t) + rest) == Quote(t) + rest;
  }

  lemma {:induction false} ParseRendered(v: Json, rest: string)
    requires WellFormed(v) && Finite(v) && Stops(rest)
    ensures ParseValue(Render(v, Compact) + rest) == Got(v, rest)
    decreases v, 0
  {
    match v {
      case Null => ParseWord(v, rest);
      case Bool(_) => ParseWord(v, rest);
      case Int(_) => ParseNumeral(v, rest);
      case Float(_) => ParseNumeral(v, rest);
      case Str(t) => ParseText(t, rest);
      case Arr(items) => ParseRenderedArray(items, rest);
      case Obj(members) => ParseRenderedObject(members, rest);
    }
  }

  lemma OpensArray(inside: string)
    ensures ParseValue("[" + inside) == ParseArray(inside)
  {
    var text := "[" + inside;
    assert text[0] == '[' && Skip(text) == text && text[1..] == inside;
  }

  lemma OpensObject(inside: string)
    ensures ParseValue("{" + inside) == ParseObject(inside)
  {
    var text := "{" + inside;
    assert text[0] == '{' && Skip(text) == text && text[1..] == inside;
  }

  lemma {:induction false} ParseRenderedArray(items: seq<Json>, rest: string)
    requires WellFormed(Arr(items)) && Finite(Arr(items))
    ensures ParseValue(Render(Arr(items), Compact) + rest) == Got(Arr(items), rest)
    decreases items, 2
  {
    var inside := RenderItems(items, Compact) + "]" + rest;
    Text.Regroup("[", RenderItems(items, Compact), "]", rest);
    OpensArray(inside);
    if items == [] {
      assert inside[0] == ']' && Skip(inside) == inside && inside[1..] == rest;
    } else {
      FirstChar(items[0]);
      assert inside[0] == Render(items[0], Compact)[0];
      assert Skip(inside) == inside;
      ParseRenderedItems(items, rest);
    }
  }

  /** What follows the first item. */
  function AfterItem(items: seq<Json>, rest: string): string
    requires items != []
  {
    if |items| == 1 then "]" + rest else "," + (RenderItems(items[1..], Compact) + "]" + rest)
  }

  lemma RenderedItem(items: seq<Json>, first: string, rest: string)
    requires items != [] && first == Render(items[0], Compact)
    ensures RenderItems(items, Compact) + "]" + rest == first + AfterItem(items, rest)
  {
    var tail := if |items| == 1 then "" else "," + RenderItems(items[1..], Compact);
    assert tail + "]" + rest == AfterItem(items, rest);
    Text.Regroup(first, tail, "]", rest);
  }

  lemma ParseFirstItem(items: seq<Json>, text: string, rest: string)
    requires items != [] && ParseValue(text) == Got(items[0], AfterItem(items, rest))
    requires |items| > 1 ==> ParseItems(RenderItems(items[1..], Compact) + "]" + rest) == Got(items[1..], rest)
    ensures ParseItems(text) == Got(items, rest)
  {
    var after := AfterItem(items, rest);
    ParseItemsStep(text, items[0], after);
    if |items| == 1 {
      assert after[1..] == rest;
      assert [items[0]] == items;
    } else {
      assert after[1..] == RenderItems(items[1..], Compact) + "]" + rest;
      assert [items[0]] + items[1..] == items;
    }
  }

  lemma {:induction false} ParseRenderedItems(items: seq<Json>, rest: string)
    requires items != []
    requires forall i | 0 <= i < |items| :: WellFormed(items[i]) && Finite(items[i])
    ensures ParseItems(RenderItems(items, Compact) + "]" + rest) == Got(items, rest)
    decreases items, 1
  {
    var first := Render(items[0], Compact);
    RenderedItem(items, first, rest);
    ParseRendered(items[0], AfterItem(items, rest));
    if |items| > 1 {
      ParseRenderedItems(items[1..], rest);
    }
    ParseFirstItem(items, first + AfterItem(items, rest), rest);
  }

  /** The items of a text that starts with a given value. */
  lemma ParseItemsStep(text: string, v: Json, after: string)
    requires ParseValue(text) == Got(v, after) && after != "" && !IsSpace(after[0])
    ensures ParseItems(text)
         == if after[0] == ']' then Got([v], after[1..])
            else if after[0] != ',' then Fail
            else
              match ParseItems(after[1..])
              case Fail => Fail
              case Got(items, left) => Got([v] + items, left)
  {
    assert Skip(after) == after;
  }

  lemma {:induction false} ParseRenderedObject(members: seq<Member>, rest: string)
    requires WellFormed(Obj(members)) && Finite(Obj(members))
    ensures ParseValue(Render(Obj(members), Compact) + rest) == Got(Obj(members), rest)
    decreases members, 2
  {
    var inside := RenderMembers(members, Compact) + "}" + rest;
    Text.Regroup("{", RenderMembers(members, Compact), "}", rest);
    OpensObject(inside);
    if members == [] {
      assert inside[0] == '}' && Skip(inside) == inside && inside[1..] == rest;
    } else {
      assert inside[0] == Quote(members[0].key)[0] == '"';
      assert Skip(inside) == inside;
      ParseRenderedMembers(members, rest);
      ToDictOfDistinct(members);
    }
  }

  /** The entries of a text that starts with a given key and a given value. */
  lemma ParseMembersStep(key: string, v: Json, value: string, after: string)
    requires ParseValue(value) == Got(v, after) && after != "" && !IsSpace(after[0])
    ensures ParseMembers(Quote(key) + (":" + value))
         == if after[0] == '}' then Got([Member(key, v)], after[1..])
            else if after[0] != ',' then Fail
            else
              match ParseMembers(after[1..])
              case Fail => Fail
              case Got(pairs, left) => Got([Member(key, v)] + pairs, left)
  {
    var colon := ":" + value;
    var text := Quote(key) + colon;
    ParseQuoted(key, colon);
    assert Skip(text) == text;
    assert colon[0] == ':' && colon[1..] == value && Skip(colon) == colon;
    assert Skip(after) == after;
  }

  /** What follows the value of the first entry. */
  function AfterFirst(members: seq<Member>, rest: string): string
    requires members != []
  {
    if |members| == 1 then "}" + rest else "," + (RenderMembers(members[1..], Compact) + "}" + rest)
  }

  lemma RenderedEntry(members: seq<Member>, q: string, r: string, rest: string)
    requires members != [] && q == Quote(members[0].key) && r == Render(members[0].value, Compact)
    ensures RenderMembers(members, Compact) + "}" + rest == q + (":" + (r + AfterFirst(members, rest)))
  {
    var tail := if |members| == 1 then "" else "," + RenderMembers(members[1..], Compact);
    assert tail + "}" + rest == AfterFirst(members, rest);
    assert RenderMembers(members, Compact) == q + ":" + r + tail;
    Text.Regroup(q + ":" + r, tail, "}", rest);
    Text.Regroup(q, ":", r, AfterFirst(members, rest));
  }

  lemma ParseOnlyMember(m: Member, value: string, rest: string)
    requires ParseValue(value) == Got(m.value, "}" + rest)
    ensures ParseMembers(Quote(m.key) + (":" + value)) == Got([m], rest)
  {
    ParseMembersStep(m.key, m.value, value, "}" + rest);
    assert ("}" + rest)[1..] == rest;
  }

  lemma ParseMemberOfMany(m: Member, value: string, more: string, others: seq<Member>, rest: string)
    requires ParseValue(value) == Got(m.value, "," + more) && ParseMembers(more) == Got(others, rest)
    ensures ParseMembers(Quote(m.key) + (":" + value)) == Got([m] + others, rest)
  {
    ParseMembersStep(m.key, m.value, value, "," + more);
    assert ("," + more)[1..] == more;
  }

  lemma ParseFirstMember(members: seq<Member>, value: string, rest: string)
    requires members != [] && ParseValue(value) == Got(members[0].value, AfterFirst(members, rest))
    requires |members| > 1 ==>
               ParseMembers(RenderMembers(members[1..], Compact) + "}" + rest) == Got(members[1..], rest)
    ensures ParseMembers(Quote(members[0].key) + (":" + value)) == Got(members, rest)
  {
    if |members| == 1 {
      ParseOnlyMember(members[0], value, rest);
      assert [members[0]] == members;
    } else {
      var more := RenderMembers(members[1..], Compact) + "}" + rest;
      ParseMemberOfMany(members[0], value, more, members[1..], rest);
      assert [members[0]] + members[1..] == members;
    }
  }

  lemma {:induction false} ParseRenderedMembers(members: seq<Member>, rest: string)
    requires members != []
    requires forall i | 0 <= i < |members| :: WellFormed(members[i].value) && Finite(members[i].value)
    ensures ParseMembers(RenderMembers(members, Compact) + "}" + rest) == Got(members, rest)
    decreases members, 1
  {
    var value := Render(members[0].value, Compact);
    RenderedEntry(members, Quote(members[0].key), value, rest);
    ParseRendered(members[0].value, AfterFirst(members, rest));
    if |members| > 1 {
      ParseRenderedMembers(members[1..], rest);
    }
    ParseFirstMember(members, value + AfterFirst(members, rest), rest);
  }

  /** `json.loads(json.dumps(v))` is `v`, for every nesting and every string, with white space after it too. */
  lemma LoadsOfDumps(v: Json, space: string)
    requires WellFormed(v) && Finite(v)
    requires Skip(space) == ""
    ensures Loads(Render(v, Compact) + space) == Some(v)
  {
    assert Stops(space);
    ParseRendered(v, space);
  }

  /** Different values have different texts. */
  lemma RenderInjective(v: Json, w: Json)
    requires WellFormed(v) && Finite(v) && WellFormed(w) && Finite(w)
    requires Render(v, Compact) == Render(w, Compact)
    ensures v == w
  {
    LoadsOfDumps(v, "");
    LoadsOfDumps(w, "");
  }
}
