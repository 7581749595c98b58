/** Round trips, canonicity and formula safety of the export artifacts. */
module ArtifactProperties {
  import opened Wrappers
  import opened Json
  import opened JsonOrder
  import opened Export
  import opened Artifact
  import opened Formula
  import JsonRoundTrip
  import JsonSpelling
  import Text
  import Timestamp
  import Csv
  import Decimal
  import Utf8

  // --- Reading the artifacts back -----------------------------------------------------------------------

  /** What a CSV reader sees: the header, then one record of nine cells per row, each cell being the
      protected text of the normalised field. */
  lemma CsvReadBack(rows: seq<Row>, skip: Skippable, bytes: seq<byte>)
    requires AreDicts(rows) && Expected(rows, "csv", skip) == Ok(bytes)
    ensures Utf8.Decode(bytes).Some? && Csv.ReadRecords(Utf8.Decode(bytes).value).Some?
    ensures var records := Csv.ReadRecords(Utf8.Decode(bytes).value).value;
            && |records| == |rows| + 1
            && records[0] == ["id", "organization_id", "requested_by_user_id", "target", "status", "result_json",
                              "correlation_id", "created_at", "updated_at"]
            && forall i, j | 0 <= i < |rows| && 0 <= j < |EXPORT_FIELDS| ::
                 |records[i + 1]| == |EXPORT_FIELDS| && IsCellOf(records[i + 1][j], rows[i], EXPORT_FIELDS[j], skip)
  {
    RecordsHoldCells(rows, skip);
    ReadTable(EXPORT_FIELDS, Records(NormalizedRows(rows), skip));
  }

  /** A table is read back from its bytes. */
  lemma ReadTable(header: seq<string>, records: seq<seq<string>>)
    requires header != [] && forall i | 0 <= i < |records| :: records[i] != []
    ensures Utf8.Decode(Utf8.Encode(Csv.WriteRows([header] + records))).Some?
    ensures Csv.ReadRecords(Utf8.Decode(Utf8.Encode(Csv.WriteRows([header] + records))).value)
         == Some([header] + records)
  {
    Csv.ReadWrittenRows([header] + records);
    Utf8.DecodeEncode(Csv.WriteRows([header] + records));
  }

  lemma RecordsHoldCells(rows: seq<Row>, skip: Skippable)
    requires AreDicts(rows) && AcceptsAll(rows)
    ensures forall i | 0 <= i < |rows| :: HasExactFields(NormalizedRows(rows)[i])
    ensures forall i, j | 0 <= i < |rows| && 0 <= j < |EXPORT_FIELDS| ::
              IsCellOf(Records(NormalizedRows(rows), skip)[i][j], rows[i], EXPORT_FIELDS[j], skip)
  {
    NormalizedAllHaveFields(rows);
    forall i, j | 0 <= i < |rows| && 0 <= j < |EXPORT_FIELDS|
      ensures IsCellOf(Records(NormalizedRows(rows), skip)[i][j], rows[i], EXPORT_FIELDS[j], skip)
    {
      assert EXPORT_FIELDS[j] in EXPORT_FIELDS;
      NormalizedHasFields(rows[i]);
    }
  }

  /** The cell is the protected text of what normalisation makes of the row's field. */
  predicate IsCellOf(cell: string, row: Row, field: string, skip: Skippable)
  {
    && Has(row, field) && NormalizeField(field, Get(row, field)).Some?
    && cell == Protect(CellText(NormalizeField(field, Get(row, field)).value), skip)
  }

  /** `json.loads` of the JSON artifact gives exactly the normalised rows, keys in the rows' own order. */
  lemma JsonReadBack(rows: seq<Row>, skip: Skippable, bytes: seq<byte>)
    requires AreDicts(rows) && Expected(rows, "json", skip) == Ok(bytes)
    ensures Utf8.Decode(bytes).Some?
    ensures Loads(Utf8.Decode(bytes).value) == Some(Arr(AsObjects(NormalizedRows(rows))))
  {
    var list := Arr(AsObjects(NormalizedRows(rows)));
    Utf8.DecodeEncode(JsonText(NormalizedRows(rows)));
    RowsAreRenderable(rows);
    JsonRoundTrip.LoadsOfDumps(list, "\n");
  }

  /** The JSON artifact is one line and its end: no control character but the last line feed, and no white space
      outside strings. */
  lemma JsonIsOneLine(rows: seq<Row>, skip: Skippable, bytes: seq<byte>)
    requires AreDicts(rows) && Expected(rows, "json", skip) == Ok(bytes)
    ensures var line := Render(Arr(AsObjects(NormalizedRows(rows))), Compact);
            && Utf8.Decode(bytes) == Some(line + "\n")
            && JsonSpelling.NoControl(line) && JsonSpelling.Tight(line)
  {
    var list := Arr(AsObjects(NormalizedRows(rows)));
    Utf8.DecodeEncode(JsonText(NormalizedRows(rows)));
    JsonSpelling.CompactIsTight(list);
    JsonSpelling.RenderHasNoControl(list, Compact);
  }

  lemma RowsAreRenderable(rows: seq<Row>)
    requires AreDicts(rows) && AcceptsAll(rows)
    ensures var list := Arr(AsObjects(NormalizedRows(rows))); WellFormed(list) && Finite(list)
  {
    forall i | 0 <= i < |rows|
      ensures WellFormed(Obj(Normalized(rows[i]))) && Finite(Obj(Normalized(rows[i])))
    {
      NormalizedHasFields(rows[i]);
      forall j | 0 <= j < |rows[i]| ensures Finite(Normalized(rows[i])[j].value) {
        NormalizedIsWellFormed(rows[i][j].key, rows[i][j].value);
      }
    }
  }

  // --- Formula safety -----------------------------------------------------------------------------------

  /** No cell that a CSV reader finds below the header can be taken for a formula. */
  lemma CsvCellsAreSafe(rows: seq<Row>, skip: Skippable, bytes: seq<byte>)
    requires AreDicts(rows) && Expected(rows, "csv", skip) == Ok(bytes)
    ensures Utf8.Decode(bytes).Some? && Csv.ReadRecords(Utf8.Decode(bytes).value).Some?
    ensures var records := Csv.ReadRecords(Utf8.Decode(bytes).value).value;
            forall i, j | 1 <= i < |records| && 0 <= j < |records[i]| :: !Dangerous(records[i][j], skip)
  {
    CsvReadBack(rows, skip, bytes);
    var records := Csv.ReadRecords(Utf8.Decode(bytes).value).value;
    forall i, j | 1 <= i < |records| && 0 <= j < |records[i]| ensures !Dangerous(records[i][j], skip) {
      assert |EXPORT_FIELDS| > 0 && |records[i - 1 + 1]| == |EXPORT_FIELDS| by {
        assert IsCellOf(records[i - 1 + 1][0], rows[i - 1], EXPORT_FIELDS[0], skip);
      }
      assert IsCellOf(records[i - 1 + 1][j], rows[i - 1], EXPORT_FIELDS[j], skip);
      var field := EXPORT_FIELDS[j];
      ProtectIdempotent(CellText(NormalizeField(field, Get(rows[i - 1], field)).value), skip);
    }
  }

  /** The characters that identifiers, times and details start with are no white space, control or format
      characters. */
  predicate StartsAreSeen(skip: Skippable)
  {
    forall c | c in "0123456789abcdef{" :: !skip(c)
  }

  /** The texts of the cells: identifiers and times as they are, details as their sorted compact dump, nothing for
      null, and none of these behind a quote; targets and statuses behind one if they are dangerous. */
  lemma CellSpelling(key: string, value: Json, skip: Skippable)
    requires WellFormed(value) && NormalizeField(key, value).Some? && StartsAreSeen(skip)
    ensures var cell := Protect(CellText(NormalizeField(key, value).value), skip);
            && (KindOf(key) == Identifier ==> cell == value.text)
            && (KindOf(key) == Plain ==> cell == Protect(value.text, skip))
            && (KindOf(key) == Time ==> cell == Timestamp.Normalize(value.text).value)
            && (KindOf(key) == Details ==> cell == if value.Null? then "" else Render(SortKeys(value), Compact))
  {
    match KindOf(key) {
      case Identifier => SeenStays(value.text, value.text[0], skip);
      case Time => TimeCell(value.text, skip);
      case Details => DetailsCell(value, skip);
      case _ =>
    }
  }

  lemma TimeCell(text: string, skip: Skippable)
    requires Timestamp.Normalize(text).Some? && StartsAreSeen(skip)
    ensures Protect(Timestamp.Normalize(text).value, skip) == Timestamp.Normalize(text).value
  {
    Timestamp.NormalStartsWithDigit(text);
    SeenStays(Timestamp.Normalize(text).value, Timestamp.Normalize(text).value[0], skip);
  }

  lemma DetailsCell(details: Json, skip: Skippable)
    requires WellFormed(details) && NormalizeValue(Details, details).Some? && StartsAreSeen(skip)
    ensures Protect(CellText(SortKeys(details)), skip)
         == if details.Null? then "" else Render(SortKeys(details), Compact)
  {
    if details.Obj? {
      SortKeysSorts(details);
      SortKeysOfSorted(SortKeys(details));
      DetailsTextStart(details);
      SeenStays(CellText(SortKeys(details)), '{', skip);
    }
  }

  lemma SeenStays(text: string, first: char, skip: Skippable)
    requires text != "" && text[0] == first && !IsTrigger(first) && StartsAreSeen(skip)
    requires Decimal.IsDigit(first) || 'a' <= first <= 'f' || first == '{'
    ensures Protect(text, skip) == text
  {
    SeenStarts(first, skip);
    assert forall k | 0 < k <= |text| :: !SkippableUpTo(text, k, skip);
  }

  lemma SeenStarts(first: char, skip: Skippable)
    requires StartsAreSeen(skip) && (Decimal.IsDigit(first) || 'a' <= first <= 'f' || first == '{')
    ensures !skip(first)
  {
    var marks := "0123456789abcdef{";
    var i := if first == '{' then 16
             else if Decimal.IsDigit(first) then first as int - '0' as int else first as int - 'a' as int + 10;
    assert marks[i] == first;
  }

  // --- Canonicity -------------------------------------------------------------------------------------------

  /** Two field values that mean the same: details up to the order of keys at every depth, timestamps up
      to the spelling of the time, everything else literally. */
  predicate SameField(key: string, a: Json, b: Json)
  {
    match KindOf(key)
    case Details => SameUpToOrder(a, b)
    case Time => a.Str? && b.Str? && SameTime(a.text, b.text)
    case _ => a == b
  }

  predicate SameTime(a: string, b: string)
  {
    Timestamp.Parse(Text.Replace(a, "Z", "+00:00")) == Timestamp.Parse(Text.Replace(b, "Z", "+00:00"))
  }

  /** Normalisation identifies exactly the values that mean the same. */
  lemma NormalizeFieldIff(key: string, a: Json, b: Json)
    requires WellFormed(a) && WellFormed(b)
    requires NormalizeField(key, a).Some? && NormalizeField(key, b).Some?
    ensures NormalizeField(key, a) == NormalizeField(key, b) <==> SameField(key, a, b)
  {
    match KindOf(key) {
      case Details => SortKeysIff(a, b);
      case Time => Timestamp.NormalFormIff(a.text, b.text);
      case _ =>
    }
  }

  /** The same keys in the same order, with the same meanings. */
  predicate SameRow(a: Row, b: Row)
  {
    |a| == |b| && forall i | 0 <= i < |a| :: a[i].key == b[i].key && SameField(a[i].key, a[i].value, b[i].value)
  }

  lemma NormalizedIff(a: Row, b: Row)
    requires IsDict(a) && IsDict(b) && Accepts(a) && Accepts(b)
    ensures Normalized(a) == Normalized(b) <==> SameRow(a, b)
  {
    forall i | 0 <= i < |a| && i < |b| && a[i].key == b[i].key
      ensures Normalized(a)[i] == Normalized(b)[i] <==> SameField(a[i].key, a[i].value, b[i].value)
    {
      NormalizeFieldIff(a[i].key, a[i].value, b[i].value);
    }
    if Normalized(a) == Normalized(b) {
      forall i | 0 <= i < |a| ensures a[i].key == b[i].key {
        assert Normalized(a)[i] == Normalized(b)[i];
      }
    }
  }

  /** JSON artifacts agree byte for byte if and only if their rows mean the same, keys in the same order. */
  lemma JsonBytesIff(a: seq<Row>, b: seq<Row>, skip: Skippable)
    requires AreDicts(a) && AreDicts(b) && AcceptsAll(a) && AcceptsAll(b)
    ensures Expected(a, "json", skip) == Expected(b, "json", skip)
       <==> |a| == |b| && forall i | 0 <= i < |a| :: SameRow(a[i], b[i])
  {
    var na, nb := NormalizedRows(a), NormalizedRows(b);
    forall i | 0 <= i < |a| && i < |b| ensures na[i] == nb[i] <==> SameRow(a[i], b[i]) {
      NormalizedIff(a[i], b[i]);
    }
    if Expected(a, "json", skip) == Expected(b, "json", skip) {
      var bytes := Expected(a, "json", skip).value;
      JsonReadBack(a, skip, bytes);
      JsonReadBack(b, skip, bytes);
      assert AsObjects(na) == AsObjects(nb);
      assert forall i | 0 <= i < |a| :: AsObjects(na)[i].members == na[i] && AsObjects(nb)[i].members == nb[i];
    }
    if |a| == |b| && forall i | 0 <= i < |a| :: SameRow(a[i], b[i]) {
      assert na == nb;
    }
  }

  // --- What a CSV cell can and cannot tell ----------------------------------------------------------------

  /** Protection puts a quote before the first text, and the second has that quote of its own. */
  predicate QuotedTwin(a: string, b: string, skip: Skippable)
  {
    Dangerous(a, skip) && b == "'" + a
  }

  /** Two field values that a CSV artifact shows alike: they mean the same, or they are a target or a status
      and one is the other behind the quote that protects it. */
  predicate AlikeInCsv(key: string, a: Json, b: Json, skip: Skippable)
  {
    || SameField(key, a, b)
    || (KindOf(key) == Plain && a.Str? && b.Str?
        && (QuotedTwin(a.text, b.text, skip) || QuotedTwin(b.text, a.text, skip)))
  }

  /** Without the protecting quote at the start of a text, protected texts differ when the texts do. */
  lemma UnquotedCells(a: string, b: string, skip: Skippable)
    requires a == "" || a[0] != '\''
    requires b == "" || b[0] != '\''
    ensures Protect(a, skip) == Protect(b, skip) <==> a == b
  {
    ProtectCollisions(a, b, skip);
  }

  lemma TimeCellIff(a: string, b: string, skip: Skippable)
    requires Timestamp.Normalize(a).Some? && Timestamp.Normalize(b).Some?
    ensures Protect(Timestamp.Normalize(a).value, skip) == Protect(Timestamp.Normalize(b).value, skip)
       <==> SameTime(a, b)
  {
    Timestamp.NormalStartsWithDigit(a);
    Timestamp.NormalStartsWithDigit(b);
    UnquotedCells(Timestamp.Normalize(a).value, Timestamp.Normalize(b).value, skip);
    Timestamp.NormalFormIff(a, b);
  }

  lemma DetailsTextStart(details: Json)
    requires details.Null? || details.Obj?
    ensures CellText(SortKeys(details)) == "" <==> details.Null?
    ensures CellText(SortKeys(details)) == "" || CellText(SortKeys(details))[0] == '{'
  {
  }

  lemma DetailsTextIff(a: Json, b: Json)
    requires WellFormed(a) && WellFormed(b) && Finite(a) && Finite(b)
    requires (a.Null? || a.Obj?) && (b.Null? || b.Obj?)
    ensures CellText(SortKeys(a)) == CellText(SortKeys(b)) <==> SameUpToOrder(a, b)
  {
    DetailsTextStart(a);
    DetailsTextStart(b);
    SortKeysIff(a, b);
    SortKeysSorts(a);
    SortKeysSorts(b);
    SortKeysOfSorted(SortKeys(a));
    SortKeysOfSorted(SortKeys(b));
    if a.Obj? && b.Obj? && CellText(SortKeys(a)) == CellText(SortKeys(b)) {
      JsonRoundTrip.RenderInjective(SortKeys(a), SortKeys(b));
    }
  }

  lemma DetailsCellIff(a: Json, b: Json, skip: Skippable)
    requires WellFormed(a) && WellFormed(b)
    requires NormalizeValue(Details, a).Some? && NormalizeValue(Details, b).Some?
    ensures Protect(CellText(SortKeys(a)), skip) == Protect(CellText(SortKeys(b)), skip) <==> SameUpToOrder(a, b)
  {
    DetailsTextStart(a);
    DetailsTextStart(b);
    UnquotedCells(CellText(SortKeys(a)), CellText(SortKeys(b)), skip);
    DetailsTextIff(a, b);
  }

  /** Two protected cells of a field agree if and only if the values are alike: the formula quote is the only
      ambiguity. */
  lemma CellIff(key: string, a: Json, b: Json, skip: Skippable)
    requires WellFormed(a) && WellFormed(b)
    requires NormalizeField(key, a).Some? && NormalizeField(key, b).Some?
    ensures Protect(CellText(NormalizeField(key, a).value), skip)
         == Protect(CellText(NormalizeField(key, b).value), skip)
       <==> AlikeInCsv(key, a, b, skip)
  {
    match KindOf(key) {
      case Identifier => UnquotedCells(a.text, b.text, skip);
      case Plain => ProtectCollisions(a.text, b.text, skip);
      case Details => DetailsCellIff(a, b, skip);
      case Time => TimeCellIff(a.text, b.text, skip);
    }
  }

  /** All fields alike, in whatever order the rows keep them. */
  predicate AlikeRows(a: Row, b: Row, skip: Skippable)
  {
    forall field | field in EXPORT_FIELDS ::
      Has(a, field) && Has(b, field) && AlikeInCsv(field, Get(a, field), Get(b, field), skip)
  }

  /** CSV artifacts agree byte for byte if and only if they have as many rows and their rows are alike field by
      field: the same meanings, up to the formula quote in a target or a status. */
  lemma CsvBytesIff(a: seq<Row>, b: seq<Row>, skip: Skippable)
    requires AreDicts(a) && AreDicts(b) && AcceptsAll(a) && AcceptsAll(b)
    ensures Expected(a, "csv", skip) == Expected(b, "csv", skip)
       <==> |a| == |b| && forall i | 0 <= i < |a| :: AlikeRows(a[i], b[i], skip)
  {
    NormalizedAllHaveFields(a);
    NormalizedAllHaveFields(b);
    RecordsIff(a, b, skip);
    if Expected(a, "csv", skip) == Expected(b, "csv", skip) {
      SameRecords(EXPORT_FIELDS, Records(NormalizedRows(a), skip), Records(NormalizedRows(b), skip));
    }
  }

  lemma RecordsIff(a: seq<Row>, b: seq<Row>, skip: Skippable)
    requires AreDicts(a) && AreDicts(b) && AcceptsAll(a) && AcceptsAll(b)
    ensures forall i | 0 <= i < |a| :: HasExactFields(NormalizedRows(a)[i])
    ensures forall i | 0 <= i < |b| :: HasExactFields(NormalizedRows(b)[i])
    ensures Records(NormalizedRows(a), skip) == Records(NormalizedRows(b), skip)
       <==> |a| == |b| && forall i | 0 <= i < |a| :: AlikeRows(a[i], b[i], skip)
  {
    NormalizedAllHaveFields(a);
    NormalizedAllHaveFields(b);
    var ra, rb := Records(NormalizedRows(a), skip), Records(NormalizedRows(b), skip);
    forall i | 0 <= i < |a| && i < |b| ensures ra[i] == rb[i] <==> AlikeRows(a[i], b[i], skip) {
      RecordIff(a[i], b[i], skip);
    }
  }

  lemma CellOfNormalized(row: Row, field: string, skip: Skippable)
    requires IsDict(row) && Accepts(row) && Has(row, field)
    ensures WellFormed(Get(row, field)) && NormalizeField(field, Get(row, field)).Some?
    ensures Has(Normalized(row), field)
    ensures Cell(Normalized(row), field, skip)
         == Protect(CellText(NormalizeField(field, Get(row, field)).value), skip)
  {
    NormalizedHasFields(row);
    assert row[IndexOf(row, field)].value == Get(row, field);
  }

  lemma FieldCellIff(a: Row, b: Row, field: string, skip: Skippable)
    requires IsDict(a) && IsDict(b) && Accepts(a) && Accepts(b) && Has(a, field) && Has(b, field)
    ensures Has(Normalized(a), field) && Has(Normalized(b), field)
    ensures Cell(Normalized(a), field, skip) == Cell(Normalized(b), field, skip)
       <==> AlikeInCsv(field, Get(a, field), Get(b, field), skip)
  {
    CellOfNormalized(a, field, skip);
    CellOfNormalized(b, field, skip);
    CellIff(field, Get(a, field), Get(b, field), skip);
  }

  lemma CellsIff(a: Row, b: Row, fields: seq<string>, skip: Skippable)
    requires IsDict(a) && IsDict(b) && Accepts(a) && Accepts(b)
    requires forall field | field in fields :: Has(a, field) && Has(b, field)
    ensures forall field | field in fields :: Has(Normalized(a), field) && Has(Normalized(b), field)
    ensures Cells(Normalized(a), fields, skip) == Cells(Normalized(b), fields, skip)
       <==> forall field | field in fields :: AlikeInCsv(field, Get(a, field), Get(b, field), skip)
  {
    forall field | field in fields
      ensures Has(Normalized(a), field) && Has(Normalized(b), field)
      ensures Cell(Normalized(a), field, skip) == Cell(Normalized(b), field, skip)
         <==> AlikeInCsv(field, Get(a, field), Get(b, field), skip)
    {
      FieldCellIff(a, b, field, skip);
    }
    var ca, cb := Cells(Normalized(a), fields, skip), Cells(Normalized(b), fields, skip);
    assert forall j | 0 <= j < |fields| ::
             ca[j] == cb[j] <==> AlikeInCsv(fields[j], Get(a, fields[j]), Get(b, fields[j]), skip);
  }

  lemma RecordIff(a: Row, b: Row, skip: Skippable)
    requires IsDict(a) && IsDict(b) && Accepts(a) && Accepts(b)
    ensures HasExactFields(Normalized(a)) && HasExactFields(Normalized(b))
    ensures Record(Normalized(a), skip) == Record(Normalized(b), skip) <==> AlikeRows(a, b, skip)
  {
    NormalizedHasFields(a);
    NormalizedHasFields(b);
    CellsIff(a, b, EXPORT_FIELDS, skip);
  }

  /** Different tables have different bytes. */
  lemma SameRecords(header: seq<string>, ra: seq<seq<string>>, rb: seq<seq<string>>)
    requires header != []
    requires forall i | 0 <= i < |ra| :: ra[i] != []
    requires forall i | 0 <= i < |rb| :: rb[i] != []
    requires Utf8.Encode(Csv.WriteRows([header] + ra)) == Utf8.Encode(Csv.WriteRows([header] + rb))
    ensures ra == rb
  {
    ReadTable(header, ra);
    ReadTable(header, rb);
    assert ([header] + ra)[1..] == ra && ([header] + rb)[1..] == rb;
  }

  /** The same fields with the same meanings, in whatever order. */
  predicate SameFields(a: Row, b: Row)
  {
    forall field | field in EXPORT_FIELDS ::
      Has(a, field) && Has(b, field) && SameField(field, Get(a, field), Get(b, field))
  }

  /** The CSV bytes depend neither on the order of a row's keys nor on the order of keys anywhere in the
      details nor on the spelling of a time. */
  lemma CsvIgnoresOrder(a: seq<Row>, b: seq<Row>, skip: Skippable)
    requires AreDicts(a) && AreDicts(b) && AcceptsAll(a) && AcceptsAll(b) && |a| == |b|
    requires forall i | 0 <= i < |a| :: SameFields(a[i], b[i])
    ensures Expected(a, "csv", skip) == Expected(b, "csv", skip)
  {
    forall i | 0 <= i < |a| ensures AlikeRows(a[i], b[i], skip) {
      assert SameFields(a[i], b[i]);
    }
    CsvBytesIff(a, b, skip);
  }

  /** The JSON bytes do depend on the order of a row's keys. */
  lemma JsonKeepsRowOrder(a: Row, b: Row, skip: Skippable)
    requires IsDict(a) && IsDict(b) && Accepts(a) && Accepts(b)
    requires exists i | 0 <= i < |a| && i < |b| :: a[i].key != b[i].key
    ensures Expected([a], "json", skip) != Expected([b], "json", skip)
  {
    JsonBytesIff([a], [b], skip);
    assert !SameRow([a][0], [b][0]);
  }

  // --- Idempotence --------------------------------------------------------------------------------------

  lemma NormalizeFieldIdempotent(key: string, value: Json)
    requires WellFormed(value) && NormalizeField(key, value).Some?
    ensures NormalizeField(key, NormalizeField(key, value).value) == NormalizeField(key, value)
  {
    match KindOf(key) {
      case Details =>
        SortKeysSorts(value);
        SortKeysOfSorted(SortKeys(value));
      case Time =>
        Timestamp.NormalizeIdempotent(value.text);
      case _ =>
    }
  }

  /** A normalised row is accepted and already normal. */
  lemma NormalizeRowIdempotent(row: Row)
    requires IsDict(row) && Accepts(row)
    ensures Accepts(Normalized(row)) && Normalized(Normalized(row)) == Normalized(row)
  {
    NormalizedHasFields(row);
    forall i | 0 <= i < |row|
      ensures NormalizeField(Normalized(row)[i].key, Normalized(row)[i].value) == Some(Normalized(row)[i].value)
    {
      NormalizeFieldIdempotent(row[i].key, row[i].value);
    }
  }
}
