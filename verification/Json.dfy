/** JSON values as Python holds them, `json.dumps` with `ensure_ascii=False`, and a reader for the texts
    of RFC 8259. */
module Json {
  import opened Wrappers
  import Decimal
  import Utf8

  // --- Values -------------------------------------------------------------------------------------

  datatype Json =
    | Null
    | Bool(b: bool)
    | Int(n: int)
    | Float(token: FloatToken)
    | NonFinite(special: Special)
    | Str(text: string)
    | Arr(items: seq<Json>)
    | Obj(members: seq<Member>)

  /** A dictionary entry. Dictionaries keep the order in which their keys were first set. */
  datatype Member = Member(key: string, value: Json)

  /** The floats that JSON cannot express. */
  datatype Special = NotANumber | Infinity | MinusInfinity

  predicate DistinctKeys(members: seq<Member>)
  {
    forall i, j | 0 <= i < j < |members| :: members[i].key != members[j].key
  }

  /** Dictionaries have distinct keys at every depth. */
  predicate WellFormed(v: Json)
  {
    match v
    case Arr(items) => forall i | 0 <= i < |items| :: WellFormed(items[i])
    case Obj(members) =>
      DistinctKeys(members) && forall i | 0 <= i < |members| :: WellFormed(members[i].value)
    case _ => true
  }

  /** `json.dumps(..., allow_nan=False)` accepts the value. */
  predicate Finite(v: Json)
  {
    match v
    case NonFinite(_) => false
    case Arr(items) => forall i | 0 <= i < |items| :: Finite(items[i])
    case Obj(members) => forall i | 0 <= i < |members| :: Finite(members[i].value)
    case _ => true
  }

  // --- Number tokens (section 6 of RFC 8259) ---------------------------------------------------------

  predicate IsNumberChar(c: char)
  {
    Decimal.IsDigit(c) || c in "+-.eE"
  }

  predicate AllNumberChars(text: string)
  {
    forall i | 0 <= i < |text| :: IsNumberChar(text[i])
  }

  function Unsigned(token: string): string
  {
    if token != "" && token[0] == '-' then token[1..] else token
  }

  predicate IsIntPart(digits: string)
  {
    digits != "" && Decimal.AllDigits(digits) && (digits[0] == '0' ==> |digits| == 1)
  }

  predicate IsIntToken(token: string)
  {
    IsIntPart(Unsigned(token))
  }

  predicate IsExponent(text: string)
  {
    text == "" ||
    (|text| >= 2 && text[0] in "eE" &&
     var digits := if text[1] in "+-" then text[2..] else text[1..];
     digits != "" && Decimal.AllDigits(digits))
  }

  predicate IsFractionAndExponent(text: string)
  {
    if text != "" && text[0] == '.' then
      var n := Decimal.DigitRun(text[1..]);
      n > 0 && IsExponent(text[1..][n..])
    else text != "" && IsExponent(text)
  }

  /** A number with a fraction or an exponent. */
  predicate IsFloatToken(token: string)
  {
    var body := Unsigned(token);
    var n := Decimal.DigitRun(body);
    AllNumberChars(token) && IsIntPart(body[..n]) && IsFractionAndExponent(body[n..])
  }

  /** The text that Python prints for a finite float; the model only passes it on. */
  type FloatToken = token: string | IsFloatToken(token) witness "0.5"

  // --- Writing ------------------------------------------------------------------------------------

  /** The separators: `(",", ":")`, or Python's default `(", ", ": ")`. */
  datatype Style = Compact | Spaced

  function Comma(style: Style): string
  {
    if style.Compact? then "," else ", "
  }

  function Colon(style: Style): string
  {
    if style.Compact? then ":" else ": "
  }

  function HexDigit(n: nat): char
    requires n < 16
  {
    if n < 10 then ('0' as int + n) as char else ('a' as int + n - 10) as char
  }

  function EscapeChar(c: char): string
  {
    if c == '"' then "\\\""
    else if c == '\\' then "\\\\"
    else if c == '\n' then "\\n"
    else if c == '\r' then "\\r"
    else if c == '\t' then "\\t"
    else if c == 8 as char then "\\b"
    else if c == 12 as char then "\\f"
    else if c < ' ' then "\\u00" + [HexDigit(c as int / 16), HexDigit(c as int % 16)]
    else [c]
  }

  function Escape(text: string): string
  {
    if text == "" then "" else EscapeChar(text[0]) + Escape(text[1..])
  }

  function Quote(text: string): string
  {
    "\"" + Escape(text) + "\""
  }

  function RenderSpecial(special: Special): string
  {
    match special
    case NotANumber => "NaN"
    case Infinity => "Infinity"
    case MinusInfinity => "-Infinity"
  }

  function Render(v: Json, style: Style): string
  {
    match v
    case Null => "null"
    case Bool(b) => if b then "true" else "false"
    case Int(n) => Decimal.OfInt(n)
    case Float(token) => token
    case NonFinite(special) => RenderSpecial(special)
    case Str(text) => Quote(text)
    case Arr(items) => "[" + RenderItems(items, style) + "]"
    case Obj(members) => "{" + RenderMembers(members, style) + "}"
  }

  function RenderItems(items: seq<Json>, style: Style): string
  {
    if items == [] then ""
    else
      Render(items[0], style)
      + (if |items| == 1 then "" else Comma(style) + RenderItems(items[1..], style))
  }

  function RenderMembers(members: seq<Member>, style: Style): string
  {
    if members == [] then ""
    else
      Quote(members[0].key) + Colon(style) + Render(members[0].value, style)
      + (if |members| == 1 then "" else Comma(style) + RenderMembers(members[1..], style))
  }

  // --- Reading ------------------------------------------------------------------------------------

  /** A value read from the front of a text, and the text that is left. */
  datatype Parsed<+T> = Fail | Got(value: T, rest: string)

  predicate IsSpace(c: char)
  {
    c == ' ' || c == '\t' || c == '\n' || c == '\r'
  }

  function Skip(text: string): (rest: string)
    ensures |rest| <= |text|
  {
    if text != "" && IsSpace(text[0]) then Skip(text[1..]) else text
  }

  function HexValue(c: char): Option<nat>
  {
    if '0' <= c <= '9' then Some(c as int - '0' as int)
    else if 'a' <= c <= 'f' then Some(c as int - 'a' as int + 10)
    else if 'A' <= c <= 'F' then Some(c as int - 'A' as int + 10)
    else None
  }

  function Hex4(text: string): Option<nat>
  {
    if |text| < 4 then None
    else
      match (HexValue(text[0]), HexValue(text[1]), HexValue(text[2]), HexValue(text[3]))
      case (Some(a), Some(b), Some(c), Some(d)) => Some(a * 4096 + b * 256 + c * 16 + d)
      case _ => None
  }

  /** The character after a backslash (section 7 of RFC 8259); a surrogate must come as a pair. */
  function ParseEscape(text: string): (c: Parsed<char>)
    ensures c.Got? ==> |c.rest| < |text|
  {
    if text == "" then Fail
    else if text[0] == '"' then Got('"', text[1..])
    else if text[0] == '\\' then Got('\\', text[1..])
    else if text[0] == '/' then Got('/', text[1..])
    else if text[0] == 'b' then Got(8 as char, text[1..])
    else if text[0] == 'f' then Got(12 as char, text[1..])
    else if text[0] == 'n' then Got('\n', text[1..])
    else if text[0] == 'r' then Got('\r', text[1..])
    else if text[0] == 't' then Got('\t', text[1..])
    else if text[0] == 'u' then ParseUnicode(text[1..])
    else Fail
  }

  function ParseUnicode(text: string): (c: Parsed<char>)
    ensures c.Got? ==> |c.rest| < |text|
  {
    match Hex4(text)
    case None => Fail
    case Some(n) =>
      if n < 0x10000 && Utf8.IsScalarValue(n) then Got(n as char, text[4..])
      else if 0xD800 <= n < 0xDC00 && |text| >= 6 && text[4] == '\\' && text[5] == 'u' then
        match Hex4(text[6..])
        case None => Fail
        case Some(low) =>
          if 0xDC00 <= low < 0xE000 then
            Got((0x10000 + (n - 0xD800) * 1024 + (low - 0xDC00)) as char, text[10..])
          else Fail
      else Fail
  }

  /** The rest of a string after its opening quote. */
  function ParseChars(text: string): (s: Parsed<string>)
    ensures s.Got? ==> |s.rest| < |text|
    decreases |text|
  {
    if text == "" || text[0] < ' ' then Fail
    else if text[0] == '"' then Got("", text[1..])
    else
      var first := if text[0] == '\\' then ParseEscape(text[1..]) else Got(text[0], text[1..]);
      if first.Fail? then Fail
      else
        match ParseChars(first.rest)
        case Fail => Fail
        case Got(s, rest) => Got([first.value] + s, rest)
  }

  function NumberRun(text: string): (n: nat)
    ensures n <= |text|
  {
    if text == "" || !IsNumberChar(text[0]) then 0 else NumberRun(text[1..]) + 1
  }

  function ParseNumber(text: string): (v: Parsed<Json>)
    ensures v.Got? ==> |v.rest| < |text|
  {
    var n := NumberRun(text);
    var token := text[..n];
    if IsIntToken(token) then
      match Decimal.ToInt(token)
      case None => Fail
      case Some(i) => Got(Int(i), text[n..])
    else if IsFloatToken(token) then
      assert Unsigned(token) != "";
      Got(Float(token), text[n..])
    else Fail
  }

  /** Setting a key of a dictionary: a new key goes last, a known key keeps its place. */
  function Put(members: seq<Member>, key: string, value: Json): seq<Member>
  {
    if members == [] then [Member(key, value)]
    else if members[0].key == key then [Member(key, value)] + members[1..]
    else [members[0]] + Put(members[1..], key, value)
  }

  function ToDict(pairs: seq<Member>): seq<Member>
  {
    if pairs == [] then []
    else
      var last := pairs[|pairs| - 1];
      Put(ToDict(pairs[..|pairs| - 1]), last.key, last.value)
  }

  function ParseLiteral(text: string, literal: string, value: Json): (v: Parsed<Json>)
    requires literal != ""
    ensures v.Got? ==> |v.rest| < |text|
  {
    if literal <= text then Got(value, text[|literal|..]) else Fail
  }

  function ParseValue(text: string): (v: Parsed<Json>)
    ensures v.Got? ==> |v.rest| < |text|
    decreases |text|, 0
  {
    var s := Skip(text);
    if s == "" then Fail
    else if s[0] == 'n' then ParseLiteral(s, "null", Null)
    else if s[0] == 't' then ParseLiteral(s, "true", Bool(true))
    else if s[0] == 'f' then ParseLiteral(s, "false", Bool(false))
    else if s[0] == '"' then
      match ParseChars(s[1..])
      case Fail => Fail
      case Got(t, rest) => Got(Str(t), rest)
    else if s[0] == '[' then ParseArray(s[1..])
    else if s[0] == '{' then ParseObject(s[1..])
    else ParseNumber(s)
  }

  /** The rest of an array after its opening bracket. */
  function ParseArray(text: string): (v: Parsed<Json>)
    ensures v.Got? ==> |v.rest| < |text|
    decreases |text|, 2
  {
    var inside := Skip(text);
    if inside != "" && inside[0] == ']' then Got(Arr([]), inside[1..])
    else
      match ParseItems(inside)
      case Fail => Fail
      case Got(items, rest) => Got(Arr(items), rest)
  }

  /** The rest of an object after its opening brace. */
  function ParseObject(text: string): (v: Parsed<Json>)
    ensures v.Got? ==> |v.rest| < |text|
    decreases |text|, 2
  {
    var inside := Skip(text);
    if inside != "" && inside[0] == '}' then Got(Obj([]), inside[1..])
    else
      match ParseMembers(inside)
      case Fail => Fail
      case Got(pairs, rest) => Got(Obj(ToDict(pairs)), rest)
  }

  /** One or more values with commas between them, up to the closing bracket. */
  function ParseItems(text: string): (items: Parsed<seq<Json>>)
    ensures items.Got? ==> |items.rest| < |text|
    decreases |text|, 1
  {
    match ParseValue(text)
    case Fail => Fail
    case Got(v, rest) =>
      var after := Skip(rest);
      if after == "" then Fail
      else if after[0] == ']' then Got([v], after[1..])
      else if after[0] == ',' then
        match ParseItems(after[1..])
        case Fail => Fail
        case Got(items, left) => Got([v] + items, left)
      else Fail
  }

  /** One or more entries with commas between them, up to the closing brace. */
  function ParseMembers(text: string): (pairs: Parsed<seq<Member>>)
    ensures pairs.Got? ==> |pairs.rest| < |text|
    decreases |text|, 1
  {
    var s := Skip(text);
    if s == "" || s[0] != '"' then Fail
    else
      match ParseChars(s[1..])
      case Fail => Fail
      case Got(key, rest) =>
        var colon := Skip(rest);
        if colon == "" || colon[0] != ':' then Fail
        else
          match ParseValue(colon[1..])
          case Fail => Fail
          case Got(v, rest2) =>
            var after := Skip(rest2);
            if after == "" then Fail
            else if after[0] == '}' then Got([Member(key, v)], after[1..])
            else if after[0] == ',' then
              match ParseMembers(after[1..])
              case Fail => Fail
              case Got(pairs, left) => Got([Member(key, v)] + pairs, left)
            else Fail
  }

  /** `json.loads`: one value, with white space around it at most. */
  function Loads(text: string): Option<Json>
  {
    match ParseValue(text)
    case Fail => None
    case Got(v, rest) => if Skip(rest) == "" then Some(v) else None
  }
}
