/** Python's `csv.writer` in the excel dialect with CRLF line ends, and a reader for section 2 of RFC 4180. */
module Csv {
  import opened Wrappers
  import Text

  // --- Writing --------------------------------------------------------------------------------------

  predicate IsSpecial(c: char)
  {
    c == ',' || c == '"' || c == '\r' || c == '\n'
  }

  predicate NeedsQuotes(field: string)
  {
    exists i | 0 <= i < |field| :: IsSpecial(field[i])
  }

  function DoubleQuotes(field: string): string
  {
    if field == "" then ""
    else (if field[0] == '"' then "\"\"" else [field[0]]) + DoubleQuotes(field[1..])
  }

  /** QUOTE_MINIMAL; an empty field is quoted if it is the only one of its record. */
  function WriteField(field: string, alone: bool): string
  {
    if NeedsQuotes(field) || (alone && field == "") then "\"" + DoubleQuotes(field) + "\"" else field
  }

  function WriteFields(fields: seq<string>, alone: bool): string
  {
    if fields == [] then ""
    else if |fields| == 1 then WriteField(fields[0], alone)
    else WriteField(fields[0], alone) + "," + WriteFields(fields[1..], alone)
  }

  function WriteRow(fields: seq<string>): string
  {
    WriteFields(fields, |fields| == 1) + "\r\n"
  }

  function WriteRows(rows: seq<seq<string>>): string
  {
    if rows == [] then "" else WriteRow(rows[0]) + WriteRows(rows[1..])
  }

  // --- Reading --------------------------------------------------------------------------------------

  /** The rest of a quoted field after its opening quote. */
  function ReadQuoted(text: string): (field: Option<(string, string)>)
    ensures field.Some? ==> |field.value.1| < |text|
    decreases |text|
  {
    if text == "" then None
    else if text[0] != '"' then
      match ReadQuoted(text[1..])
      case None => None
      case Some((field, rest)) => Some(([text[0]] + field, rest))
    else if |text| >= 2 && text[1] == '"' then
      match ReadQuoted(text[2..])
      case None => None
      case Some((field, rest)) => Some((['"'] + field, rest))
    else Some(("", text[1..]))
  }

  function ReadBare(text: string): (field: (string, string))
    ensures |field.1| <= |text|
  {
    if text == "" || IsSpecial(text[0]) then ("", text)
    else
      var (field, rest) := ReadBare(text[1..]);
      ([text[0]] + field, rest)
  }

  function ReadField(text: string): (field: Option<(string, string)>)
    ensures field.Some? ==> |field.value.1| <= |text|
  {
    if text != "" && text[0] == '"' then ReadQuoted(text[1..]) else Some(ReadBare(text))
  }

  /** One record, up to its line end or the end of the text. */
  function ReadRecord(text: string): (record: Option<(seq<string>, string)>)
    ensures record.Some? ==> |record.value.1| <= |text| && (text != "" ==> |record.value.1| < |text|)
    decreases |text|
  {
    match ReadField(text)
    case None => None
    case Some((field, rest)) =>
      if rest == "" then Some(([field], ""))
      else if rest[0] == ',' then
        match ReadRecord(rest[1..])
        case None => None
        case Some((fields, left)) => Some(([field] + fields, left))
      else if "\r\n" <= rest then Some(([field], rest[2..]))
      else None
  }

  function ReadRecords(text: string): Option<seq<seq<string>>>
    decreases |text|
  {
    if text == "" then Some([])
    else
      match ReadRecord(text)
      case None => None
      case Some((record, rest)) =>
        match ReadRecords(rest)
        case None => None
        case Some(records) => Some([record] + records)
  }

  // --- Round trip -----------------------------------------------------------------------------------

  /** One more character inside the quotes, doubled if it is a quote itself. */
  lemma ReadDoubledChar(c: char, tail: string, field: string, rest: string)
    requires ReadQuoted(tail) == Some((field, rest))
    ensures ReadQuoted((if c == '"' then "\"\"" else [c]) + tail) == Some(([c] + field, rest))
  {
    var text := (if c == '"' then "\"\"" else [c]) + tail;
    if c == '"' {
      assert text[0] == '"' && text[1] == '"' && text[2..] == tail;
    } else {
      assert text[0] == c && text[1..] == tail;
    }
  }

  lemma {:induction false} ReadDoubled(field: string, rest: string)
    requires rest == "" || rest[0] != '"'
    ensures ReadQuoted(DoubleQuotes(field) + "\"" + rest) == Some((field, rest))
    decreases |field|
  {
    if field == "" {
      var s := "" + "\"" + rest;
      assert s[0] == '"' && s[1..] == rest;
    } else {
      var first := if field[0] == '"' then "\"\"" else [field[0]];
      var tail := DoubleQuotes(field[1..]) + "\"" + rest;
      ReadDoubled(field[1..], rest);
      ReadDoubledChar(field[0], tail, field[1..], rest);
      Text.Regroup(first, DoubleQuotes(field[1..]), "\"", rest);
      assert [field[0]] + field[1..] == field;
    }
  }

  lemma {:induction false} ReadWrittenBare(field: string, rest: string)
    requires !NeedsQuotes(field)
    requires rest == "" || IsSpecial(rest[0])
    ensures ReadBare(field + rest) == (field, rest)
    decreases |field|
  {
    if field == "" {
      assert field + rest == rest;
    } else {
      assert !IsSpecial(field[0]);
      assert (field + rest)[1..] == field[1..] + rest;
      ReadWrittenBare(field[1..], rest);
      assert [field[0]] + field[1..] == field;
    }
  }

  lemma {:induction false} ReadBareStops(text: string)
    ensures !NeedsQuotes(ReadBare(text).0)
  {
    if text != "" && !IsSpecial(text[0]) {
      ReadBareStops(text[1..]);
    }
  }

  lemma {:induction false} ReadQuotedShrinks(text: string)
    requires ReadQuoted(text).Some?
    ensures |ReadQuoted(text).value.0| + |ReadQuoted(text).value.1| < |text|
    decreases |text|
  {
    if text[0] != '"' {
      ReadQuotedShrinks(text[1..]);
    } else if |text| >= 2 && text[1] == '"' {
      ReadQuotedShrinks(text[2..]);
    }
  }

  /** Quotes are minimal: a field can do without them between commas if and only if it is written without, and
      that is if and only if it holds no comma, no quote and no line break. */
  lemma QuotesAreNeeded(field: string)
    ensures ReadField(field + ",") == Some((field, ",")) <==> WriteField(field, false) == field
    ensures WriteField(field, false) == field
       <==> ',' !in field && '"' !in field && '\r' !in field && '\n' !in field
  {
    var text := field + ",";
    if NeedsQuotes(field) {
      assert |WriteField(field, false)| > |field| by {
        DoubledIsLonger(field);
      }
      if text[0] == '"' {
        if ReadQuoted(text[1..]).Some? {
          ReadQuotedShrinks(text[1..]);
        }
      } else {
        ReadBareStops(text);
      }
    } else {
      ReadPlainField(field, ",");
    }
  }

  lemma {:induction false} DoubledIsLonger(field: string)
    ensures |DoubleQuotes(field)| >= |field|
  {
    if field != "" {
      DoubledIsLonger(field[1..]);
    }
  }

  lemma ReadQuotedField(field: string, rest: string)
    requires rest == "" || rest[0] != '"'
    ensures ReadField("\"" + DoubleQuotes(field) + "\"" + rest) == Some((field, rest))
  {
    var text := "\"" + DoubleQuotes(field) + "\"" + rest;
    var inside := DoubleQuotes(field) + "\"" + rest;
    Text.Regroup("\"", DoubleQuotes(field), "\"", rest);
    assert text == "\"" + inside && text[1..] == inside;
    ReadDoubled(field, rest);
  }

  lemma ReadPlainField(field: string, rest: string)
    requires !NeedsQuotes(field)
    requires rest == "" || (IsSpecial(rest[0]) && rest[0] != '"')
    ensures ReadField(field + rest) == Some((field, rest))
  {
    ReadWrittenBare(field, rest);
    if field != "" {
      assert !IsSpecial(field[0]);
    }
  }

  lemma ReadWrittenField(field: string, alone: bool, rest: string)
    requires rest == "" || rest[0] == ',' || rest[0] == '\r'
    ensures ReadField(WriteField(field, alone) + rest) == Some((field, rest))
  {
    if NeedsQuotes(field) || (alone && field == "") {
      ReadQuotedField(field, rest);
    } else {
      ReadPlainField(field, rest);
    }
  }

  lemma ReadLastField(text: string, field: string, end: string, rest: string)
    requires ReadField(text) == Some((field, end)) && end == "\r\n" + rest
    ensures ReadRecord(text) == Some(([field], rest))
  {
    assert "\r\n" <= end && end[2..] == rest;
  }

  lemma ReadOtherField(text: string, field: string, after: string, tail: string)
    requires ReadField(text) == Some((field, after)) && after == "," + tail
    ensures ReadRecord(text)
         == match ReadRecord(tail)
            case None => None
            case Some((fields, left)) => Some(([field] + fields, left))
  {
    assert after[1..] == tail;
  }

  lemma {:induction false} ReadWrittenFields(fields: seq<string>, alone: bool, rest: string)
    requires fields != []
    ensures ReadRecord(WriteFields(fields, alone) + ("\r\n" + rest)) == Some((fields, rest))
    decreases |fields|
  {
    var first, end := WriteField(fields[0], alone), "\r\n" + rest;
    if |fields| == 1 {
      ReadWrittenField(fields[0], alone, end);
      ReadLastField(first + end, fields[0], end, rest);
      assert [fields[0]] == fields;
    } else {
      var more := WriteFields(fields[1..], alone);
      var after := "," + (more + end);
      ReadWrittenField(fields[0], alone, after);
      ReadOtherField(first + after, fields[0], after, more + end);
      ReadWrittenFields(fields[1..], alone, rest);
      Text.Regroup(first, ",", more, end);
      assert [fields[0]] + fields[1..] == fields;
    }
  }

  lemma ReadFirstRecord(text: string, record: seq<string>, rest: string)
    requires text != "" && ReadRecord(text) == Some((record, rest)) && ReadRecords(rest).Some?
    ensures ReadRecords(text) == Some([record] + ReadRecords(rest).value)
  {
  }

  /** Reading what was written gives the records back, for fields with any mix of commas, quotes and
      line breaks, and without needing the quotes to be anywhere in particular. */
  lemma {:induction false} ReadWrittenRows(rows: seq<seq<string>>)
    requires forall i | 0 <= i < |rows| :: rows[i] != []
    ensures ReadRecords(WriteRows(rows)) == Some(rows)
    decreases |rows|
  {
    if rows != [] {
      var rest := WriteRows(rows[1..]);
      ReadWrittenRow(rows[0], rest);
      ReadWrittenRows(rows[1..]);
      ReadFirstRecord(WriteRow(rows[0]) + rest, rows[0], rest);
      assert [rows[0]] + rows[1..] == rows;
    }
  }

  lemma ReadWrittenRow(row: seq<string>, rest: string)
    requires row != []
    ensures WriteRow(row) + rest != "" && ReadRecord(WriteRow(row) + rest) == Some((row, rest))
  {
    var fields := WriteFields(row, |row| == 1);
    ReadWrittenFields(row, |row| == 1, rest);
    assert fields + "\r\n" + rest == fields + ("\r\n" + rest);
  }
}
