/** The bytes of the CSV and JSON artifacts, and what a reader finds in them. */
module Artifact {
  import opened Wrappers
  import opened Json
  import opened JsonOrder
  import opened Export
  import opened Formula
  import Csv
  import Utf8

  type byte = Utf8.byte

  datatype ExportError = BadRow | BadFormat

  /** All rows are accepted. */
  predicate AcceptsAll(rows: seq<Row>)
  {
    forall i | 0 <= i < |rows| :: Accepts(rows[i])
  }

  predicate AreDicts(rows: seq<Row>)
  {
    forall i | 0 <= i < |rows| :: IsDict(rows[i])
  }

  function NormalizedRows(rows: seq<Row>): (normalized: seq<Row>)
    requires AcceptsAll(rows)
    ensures |normalized| == |rows|
  {
    seq(|rows|, i requires 0 <= i < |rows| => Normalized(rows[i]))
  }

  // --- The specification ------------------------------------------------------------------------------

  /** The text of one field of a normalised row, before protection. Only `result_json` is no text: it
      is null or a dictionary. */
  function CellText(value: Json): string
  {
    if value.Str? then value.text
    else if value.Null? then ""
    else Dumps(value, true, Compact)
  }

  function Cell(row: Row, field: string, skip: Skippable): string
    requires Has(row, field)
  {
    Protect(CellText(Get(row, field)), skip)
  }

  function Cells(row: Row, fields: seq<string>, skip: Skippable): (cells: seq<string>)
    requires forall field | field in fields :: Has(row, field)
    ensures |cells| == |fields| && forall j | 0 <= j < |fields| :: cells[j] == Cell(row, fields[j], skip)
  {
    seq(|fields|, j requires 0 <= j < |fields| => Cell(row, fields[j], skip))
  }

  /** One CSV record: the cells in the order of the export fields, whatever the row's own order is. */
  function Record(row: Row, skip: Skippable): (record: seq<string>)
    requires HasExactFields(row)
    ensures |record| == |EXPORT_FIELDS|
  {
    Cells(row, EXPORT_FIELDS, skip)
  }

  function Records(rows: seq<Row>, skip: Skippable): (records: seq<seq<string>>)
    requires forall i | 0 <= i < |rows| :: HasExactFields(rows[i])
    ensures |records| == |rows|
  {
    seq(|rows|, i requires 0 <= i < |rows| => Record(rows[i], skip))
  }

  function CsvText(rows: seq<Row>, skip: Skippable): string
    requires forall i | 0 <= i < |rows| :: HasExactFields(rows[i])
  {
    Csv.WriteRows([EXPORT_FIELDS] + Records(rows, skip))
  }

  function AsObjects(rows: seq<Row>): (objects: seq<Json>)
    ensures |objects| == |rows|
  {
    seq(|rows|, i requires 0 <= i < |rows| => Obj(rows[i]))
  }

  /** The keys of a row stay in the row's own order here. */
  function JsonText(rows: seq<Row>): string
  {
    Dumps(Arr(AsObjects(rows)), false, Compact) + "\n"
  }

  // --- Normalised rows have the same fields -------------------------------------------------------------

  lemma NormalizedHasFields(row: Row)
    requires IsDict(row) && Accepts(row)
    ensures IsDict(Normalized(row)) && HasExactFields(Normalized(row))
    ensures forall field | Has(row, field) ::
              && Has(Normalized(row), field)
              && NormalizeField(field, Get(row, field)) == Some(Get(Normalized(row), field))
  {
    var n := Normalized(row);
    forall i | 0 <= i < |n| ensures WellFormed(n[i].value) {
      NormalizedIsWellFormed(row[i].key, row[i].value);
    }
    forall field | Has(row, field)
      ensures Has(n, field) && NormalizeField(field, Get(row, field)) == Some(Get(n, field))
    {
      var i := IndexOf(row, field);
      assert n[i].key == field;
      IndexIsUnique(n, i);
    }
  }

  lemma NormalizedIsWellFormed(key: string, value: Json)
    requires WellFormed(value) && NormalizeField(key, value).Some?
    ensures WellFormed(NormalizeField(key, value).value) && Finite(NormalizeField(key, value).value)
  {
    if KindOf(key) == Details {
      SortKeysSorts(value);
    }
  }

  lemma NormalizedAllHaveFields(rows: seq<Row>)
    requires AreDicts(rows) && AcceptsAll(rows)
    ensures AreDicts(NormalizedRows(rows))
    ensures forall i | 0 <= i < |rows| :: HasExactFields(NormalizedRows(rows)[i])
  {
    forall i | 0 <= i < |rows|
      ensures IsDict(NormalizedRows(rows)[i]) && HasExactFields(NormalizedRows(rows)[i])
    {
      NormalizedHasFields(rows[i]);
    }
  }

  function ExpectedText(rows: seq<Row>, format: string, skip: Skippable): Result<string, ExportError>
    requires AreDicts(rows)
  {
    if !AcceptsAll(rows) then Err(BadRow)
    else if format == "json" then Ok(JsonText(NormalizedRows(rows)))
    else if format == "csv" then
      NormalizedAllHaveFields(rows);
      Ok(CsvText(NormalizedRows(rows), skip))
    else Err(BadFormat)
  }

  function Expected(rows: seq<Row>, format: string, skip: Skippable): Result<seq<byte>, ExportError>
    requires AreDicts(rows)
  {
    match ExpectedText(rows, format, skip)
    case Err(error) => Err(error)
    case Ok(text) => Ok(Utf8.Encode(text))
  }

  // --- The program --------------------------------------------------------------------------------------

  /** `expected_artifact`: normalise every row, then render. */
  method ExpectedArtifact(rows: seq<Row>, format: string, skip: Skippable)
    returns (result: Result<seq<byte>, ExportError>)
    requires AreDicts(rows)
    ensures result == Expected(rows, format, skip)
  {
    var normalized: seq<Row> := [];
    for i := 0 to |rows|
      invariant AcceptsAll(rows[..i]) && normalized == NormalizedRows(rows[..i])
    {
      var row := NormalizeRow(rows[i]);
      if row.None? {
        return Err(BadRow);
      }
      assert rows[..i + 1] == rows[..i] + [rows[i]];
      normalized := normalized + [row.value];
    }
    assert rows[..|rows|] == rows;
    if format == "json" {
      return Ok(Utf8.Encode(JsonText(normalized)));
    }
    if format != "csv" {
      return Err(BadFormat);
    }
    NormalizedAllHaveFields(rows);
    var output := RenderCsv(EXPORT_FIELDS, normalized, skip);
    result := Ok(Utf8.Encode(output));
  }

  /** The CSV branch: the header, then a record per row. */
  method RenderCsv(header: seq<string>, rows: seq<Row>, skip: Skippable) returns (output: string)
    requires forall i | 0 <= i < |rows| :: HasExactFields(rows[i])
    ensures output == Csv.WriteRows([header] + Records(rows, skip))
  {
    ghost var records := Records(rows, skip);
    output := Csv.WriteRow(header);
    WriteHeader(header, records);
    for i := 0 to |rows|
      invariant output == Csv.WriteRows([header] + records[..i])
    {
      var rendered := RenderRecord(rows[i], skip);
      output := output + Csv.WriteRow(rendered);
      WriteNext(header, records, i);
    }
    assert records[..|rows|] == records;
  }

  lemma WriteHeader(header: seq<string>, records: seq<seq<string>>)
    ensures Csv.WriteRow(header) == Csv.WriteRows([header] + records[..0])
  {
    assert [header] + records[..0] == [header] && [header][1..] == [];
  }

  lemma WriteNext(header: seq<string>, records: seq<seq<string>>, i: nat)
    requires i < |records|
    ensures Csv.WriteRows([header] + records[..i + 1])
         == Csv.WriteRows([header] + records[..i]) + Csv.WriteRow(records[i])
  {
    WriteRowsSnoc([header] + records[..i], records[i]);
    assert [header] + records[..i] + [records[i]] == [header] + records[..i + 1];
  }

  /** One row: the cells are appended field by field. */
  method RenderCells(row: Row, fields: seq<string>, skip: Skippable) returns (rendered: seq<string>)
    requires forall field | field in fields :: Has(row, field)
    ensures rendered == Cells(row, fields, skip)
  {
    rendered := [];
    for j := 0 to |fields|
      invariant |rendered| == j && forall i | 0 <= i < j :: rendered[i] == Cell(row, fields[i], skip)
    {
      var cell := RenderCell(row, fields[j], skip);
      rendered := rendered + [cell];
    }
    AreCells(row, fields, skip, rendered);
  }

  lemma AreCells(row: Row, fields: seq<string>, skip: Skippable, cells: seq<string>)
    requires forall field | field in fields :: Has(row, field)
    requires |cells| == |fields| && forall i | 0 <= i < |fields| :: cells[i] == Cell(row, fields[i], skip)
    ensures cells == Cells(row, fields, skip)
  {
  }

  method RenderCell(row: Row, field: string, skip: Skippable) returns (cell: string)
    requires Has(row, field)
    ensures cell == Cell(row, field, skip)
  {
    cell := ProtectCsv(CellText(Get(row, field)), skip);
  }

  method RenderRecord(row: Row, skip: Skippable) returns (rendered: seq<string>)
    requires HasExactFields(row)
    ensures rendered == Record(row, skip)
  {
    rendered := RenderCells(row, EXPORT_FIELDS, skip);
  }

  lemma {:induction false} WriteRowsSnoc(rows: seq<seq<string>>, last: seq<string>)
    ensures Csv.WriteRows(rows + [last]) == Csv.WriteRows(rows) + Csv.WriteRow(last)
  {
    if rows == [] {
      assert [last][1..] == [];
      assert [] + [last] == [last];
    } else {
      assert (rows + [last])[1..] == rows[1..] + [last];
      WriteRowsSnoc(rows[1..], last);
    }
  }
}
