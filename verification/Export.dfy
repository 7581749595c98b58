/** The export oracle: normalised snapshot rows and the exact bytes of the CSV and JSON artifacts. */
module Export {
  import opened Wrappers
  import opened Json
  import opened JsonOrder
  import opened Uuid
  import Timestamp

  const EXPORT_FIELDS: seq<string> := [
    "id", "organization_id", "requested_by_user_id", "target", "status", "result_json",
    "correlation_id", "created_at", "updated_at"
  ]

  const ID_FIELDS: seq<string> := ["id", "organization_id", "requested_by_user_id", "correlation_id"]

  /** A snapshot row is a dictionary; its own key order is kept. */
  type Row = seq<Member>

  /** What holds of every Python dictionary with JSON values. */
  predicate IsDict(row: Row)
  {
    WellFormed(Obj(row))
  }

  // --- One row --------------------------------------------------------------------------------------

  predicate Has(row: Row, key: string)
  {
    exists i | 0 <= i < |row| :: row[i].key == key
  }

  function IndexOf(row: Row, key: string): (i: nat)
    requires Has(row, key)
    ensures i < |row| && row[i].key == key
  {
    if row[0].key == key then 0
    else
      assert Has(row[1..], key) by {
        var i :| 0 <= i < |row| && row[i].key == key;
        assert row[1..][i - 1].key == key;
      }
      IndexOf(row[1..], key) + 1
  }

  function Get(row: Row, key: string): Json
    requires Has(row, key)
  {
    row[IndexOf(row, key)].value
  }

  /** `set(row) == set(EXPORT_FIELDS)` */
  predicate HasExactFields(row: Row)
  {
    && (forall field | field in EXPORT_FIELDS :: Has(row, field))
    && (forall i | 0 <= i < |row| :: row[i].key in EXPORT_FIELDS)
  }

  datatype Kind = Identifier | Plain | Details | Time | Unknown

  function KindOf(key: string): Kind
  {
    if key in ID_FIELDS then Identifier
    else if key == "target" || key == "status" then Plain
    else if key == "result_json" then Details
    else if key == "created_at" || key == "updated_at" then Time
    else Unknown
  }

  /** What normalisation makes of one field, if it accepts the field at all. */
  function NormalizeValue(kind: Kind, value: Json): Option<Json>
  {
    match kind
    case Identifier => if value.Str? && IsCanonicalUuid(value.text) then Some(value) else None
    case Plain => if value.Str? then Some(value) else None
    case Details => if value.Null? || (value.Obj? && Finite(value)) then Some(SortKeys(value)) else None
    case Time =>
      if value.Str? && Timestamp.Normalize(value.text).Some? then
        Some(Str(Timestamp.Normalize(value.text).value))
      else None
    case Unknown => None
  }

  function NormalizeField(key: string, value: Json): Option<Json>
  {
    NormalizeValue(KindOf(key), value)
  }

  predicate Accepts(row: Row)
  {
    HasExactFields(row) && forall i | 0 <= i < |row| :: NormalizeField(row[i].key, row[i].value).Some?
  }

  /** Every field in its place, normalised. */
  function Normalized(row: Row): (normalized: Row)
    requires forall i | 0 <= i < |row| :: NormalizeField(row[i].key, row[i].value).Some?
    ensures |normalized| == |row|
  {
    seq(|row|, i requires 0 <= i < |row| =>
      Member(row[i].key, NormalizeField(row[i].key, row[i].value).value))
  }

  lemma Kinds()
    ensures KindOf("target") == Plain && KindOf("status") == Plain && KindOf("result_json") == Details
    ensures KindOf("created_at") == Time && KindOf("updated_at") == Time
    ensures "result_json" != "created_at" && "result_json" != "updated_at" && "created_at" != "updated_at"
  {
    assert "created_at"[0] != "updated_at"[0];
  }

  lemma IdKinds()
    ensures KindOf("id") == Identifier && KindOf("organization_id") == Identifier
    ensures KindOf("requested_by_user_id") == Identifier && KindOf("correlation_id") == Identifier
  {
    assert ID_FIELDS[0] == "id" && ID_FIELDS[1] == "organization_id";
    assert ID_FIELDS[2] == "requested_by_user_id" && ID_FIELDS[3] == "correlation_id";
  }

  lemma FieldNames()
    ensures forall field | field in ID_FIELDS :: field in EXPORT_FIELDS
    ensures "target" in EXPORT_FIELDS && "status" in EXPORT_FIELDS && "result_json" in EXPORT_FIELDS
    ensures "created_at" in EXPORT_FIELDS && "updated_at" in EXPORT_FIELDS
    ensures forall field | field in EXPORT_FIELDS ::
              || field in ID_FIELDS || field == "target" || field == "status" || field == "result_json"
              || field == "created_at" || field == "updated_at"
  {
    assert EXPORT_FIELDS[3] == "target" && EXPORT_FIELDS[4] == "status" && EXPORT_FIELDS[5] == "result_json";
    assert EXPORT_FIELDS[7] == "created_at" && EXPORT_FIELDS[8] == "updated_at";
    assert ID_FIELDS == EXPORT_FIELDS[..3] + [EXPORT_FIELDS[6]];
  }

  lemma {:induction false} IndexIsUnique(row: Row, i: nat)
    requires DistinctKeys(row) && i < |row|
    ensures Has(row, row[i].key) && IndexOf(row, row[i].key) == i
  {
    if i > 0 {
      IndexIsUnique(row[1..], i - 1);
    }
  }

  /** The fields other than the identifiers are there. */
  lemma FieldsPresent(row: Row)
    requires HasExactFields(row)
    ensures forall field | field in ID_FIELDS :: Has(row, field)
    ensures Has(row, "target") && Has(row, "status") && Has(row, "result_json")
    ensures Has(row, "created_at") && Has(row, "updated_at")
  {
    FieldNames();
  }

  predicate AcceptsField(row: Row, field: string)
    requires Has(row, field)
  {
    NormalizeField(field, Get(row, field)).Some?
  }

  lemma RejectedField(row: Row, field: string)
    requires Has(row, field) && !AcceptsField(row, field)
    ensures !Accepts(row)
  {
    assert row[IndexOf(row, field)].key == field;
  }

  lemma AcceptedFields(row: Row)
    requires IsDict(row) && HasExactFields(row)
    requires forall field | field in ID_FIELDS :: Has(row, field) && AcceptsField(row, field)
    requires Has(row, "target") && AcceptsField(row, "target")
    requires Has(row, "status") && AcceptsField(row, "status")
    requires Has(row, "result_json") && AcceptsField(row, "result_json")
    requires Has(row, "created_at") && AcceptsField(row, "created_at")
    requires Has(row, "updated_at") && AcceptsField(row, "updated_at")
    ensures Accepts(row)
  {
    FieldNames();
    forall i | 0 <= i < |row| ensures NormalizeField(row[i].key, row[i].value).Some? {
      IndexIsUnique(row, i);
      assert row[i].key in EXPORT_FIELDS;
      assert AcceptsField(row, row[i].key);
    }
  }

  /** The row with the value of one key replaced, entry by entry. */
  function Updated(row: Row, key: string, value: Json): (updated: Row)
    ensures |updated| == |row|
  {
    seq(|row|, i requires 0 <= i < |row| => if row[i].key == key then Member(key, value) else row[i])
  }

  lemma UpdatedFirst(row: Row, key: string, value: Json)
    requires row != []
    ensures Updated(row, key, value)
         == [if row[0].key == key then Member(key, value) else row[0]] + Updated(row[1..], key, value)
  {
  }

  lemma UpdatedAbsent(row: Row, key: string, value: Json)
    requires forall i | 0 <= i < |row| :: row[i].key != key
    ensures Updated(row, key, value) == row
  {
  }

  lemma PutAfterFirst(row: Row, key: string, value: Json)
    requires row != [] && row[0].key != key && Put(row[1..], key, value) == Updated(row[1..], key, value)
    ensures Put(row, key, value) == Updated(row, key, value)
  {
    UpdatedFirst(row, key, value);
  }

  lemma PutAtFirst(row: Row, key: string, value: Json)
    requires DistinctKeys(row) && row != [] && row[0].key == key
    ensures Put(row, key, value) == Updated(row, key, value)
  {
    UpdatedFirst(row, key, value);
    UpdatedAbsent(row[1..], key, value);
  }

  lemma UpdatedDistinct(row: Row, key: string, value: Json)
    requires DistinctKeys(row)
    ensures DistinctKeys(Updated(row, key, value))
  {
  }

  /** Setting a present key changes that entry and nothing else. */
  lemma {:induction false} PutPresent(row: Row, key: string, value: Json)
    requires DistinctKeys(row) && Has(row, key)
    ensures Put(row, key, value) == Updated(row, key, value)
    ensures DistinctKeys(Put(row, key, value))
  {
    if row[0].key == key {
      PutAtFirst(row, key, value);
    } else {
      var i :| 0 <= i < |row| && row[i].key == key;
      assert row[1..][i - 1].key == key;
      PutPresent(row[1..], key, value);
      PutAfterFirst(row, key, value);
    }
    UpdatedDistinct(row, key, value);
  }

  lemma GetOther(row: Row, key: string, value: Json, other: string)
    requires DistinctKeys(row) && Has(row, key) && Has(row, other) && other != key
    ensures Has(Put(row, key, value), other) && Get(Put(row, key, value), other) == Get(row, other)
  {
    PutPresent(row, key, value);
    var i := IndexOf(row, other);
    assert Put(row, key, value)[i] == row[i];
    IndexIsUnique(Put(row, key, value), i);
  }

  lemma PutUpdates(row: Row, key: string, value: Json)
    requires DistinctKeys(row) && Has(row, key)
    ensures Put(row, key, value) == Updated(row, key, value) && DistinctKeys(Updated(row, key, value))
    ensures forall other | Has(row, other) :: Has(Updated(row, key, value), other)
  {
    PutPresent(row, key, value);
    forall other | Has(row, other) ensures Has(Updated(row, key, value), other) {
      var i :| 0 <= i < |row| && row[i].key == other;
      assert Updated(row, key, value)[i].key == other;
    }
  }

  /** Three updates of different keys, entry by entry. */
  lemma ThreePuts(row: Row, k1: string, v1: Json, k2: string, v2: Json, k3: string, v3: Json, target: Row)
    requires DistinctKeys(row) && Has(row, k1) && Has(row, k2) && Has(row, k3)
    requires k1 != k2 && k1 != k3 && k2 != k3
    requires |target| == |row|
    requires forall i | 0 <= i < |row| :: target[i] == UpdatedEntry(row[i], k1, v1, k2, v2, k3, v3)
    ensures Put(Put(Put(row, k1, v1), k2, v2), k3, v3) == target
  {
    var r1 := Updated(row, k1, v1);
    var r2 := Updated(r1, k2, v2);
    PutUpdates(row, k1, v1);
    PutUpdates(r1, k2, v2);
    PutUpdates(r2, k3, v3);
    ThreeUpdates(row, k1, v1, k2, v2, k3, v3, target);
  }

  lemma ThreeUpdates(row: Row, k1: string, v1: Json, k2: string, v2: Json, k3: string, v3: Json, target: Row)
    requires k1 != k2 && k1 != k3 && k2 != k3
    requires |target| == |row|
    requires forall i | 0 <= i < |row| :: target[i] == UpdatedEntry(row[i], k1, v1, k2, v2, k3, v3)
    ensures Updated(Updated(Updated(row, k1, v1), k2, v2), k3, v3) == target
  {
  }

  function UpdatedEntry(m: Member, k1: string, v1: Json, k2: string, v2: Json, k3: string, v3: Json): Member
  {
    if m.key == k1 then Member(k1, v1)
    else if m.key == k2 then Member(k2, v2)
    else if m.key == k3 then Member(k3, v3)
    else m
  }

  lemma NormalizedEntry(row: Row, i: nat)
    requires IsDict(row) && Accepts(row) && i < |row|
    ensures Has(row, row[i].key)
    ensures Normalized(row)[i] == Member(row[i].key, NormalizeField(row[i].key, Get(row, row[i].key)).value)
    ensures row[i].key != "result_json" && row[i].key != "created_at" && row[i].key != "updated_at"
        ==> Normalized(row)[i] == row[i]
  {
    IndexIsUnique(row, i);
  }

  lemma NormalizedAt(row: Row, i: nat, k1: string, v1: Json, k2: string, v2: Json, k3: string, v3: Json)
    requires IsDict(row) && Accepts(row) && i < |row|
    requires Has(row, k1) && Has(row, k2) && Has(row, k3)
    requires k1 == "result_json" && k2 == "created_at" && k3 == "updated_at"
    requires NormalizeField(k1, Get(row, k1)) == Some(v1)
    requires NormalizeField(k2, Get(row, k2)) == Some(v2)
    requires NormalizeField(k3, Get(row, k3)) == Some(v3)
    ensures Normalized(row)[i] == UpdatedEntry(row[i], k1, v1, k2, v2, k3, v3)
  {
    NormalizedEntry(row, i);
  }

  /** The three updates of `_normalized_row` amount to normalising every field in its place. */
  lemma UpdatesNormalize(row: Row, k1: string, v1: Json, k2: string, v2: Json, k3: string, v3: Json)
    requires IsDict(row) && Accepts(row)
    requires Has(row, k1) && Has(row, k2) && Has(row, k3)
    requires k1 == "result_json" && k2 == "created_at" && k3 == "updated_at"
    requires NormalizeField(k1, Get(row, k1)) == Some(v1)
    requires NormalizeField(k2, Get(row, k2)) == Some(v2)
    requires NormalizeField(k3, Get(row, k3)) == Some(v3)
    ensures Put(Put(Put(row, k1, v1), k2, v2), k3, v3) == Normalized(row)
  {
    forall i | 0 <= i < |row| ensures Normalized(row)[i] == UpdatedEntry(row[i], k1, v1, k2, v2, k3, v3) {
      NormalizedAt(row, i, k1, v1, k2, v2, k3, v3);
    }
    Kinds();
    ThreePuts(row, k1, v1, k2, v2, k3, v3, Normalized(row));
  }

  /** The assertions on the identifiers. */
  method CheckIds(row: Row) returns (ok: bool)
    requires forall field | field in ID_FIELDS :: Has(row, field)
    ensures ok <==> forall field | field in ID_FIELDS :: AcceptsField(row, field)
  {
    for i := 0 to |ID_FIELDS|
      invariant forall j | 0 <= j < i :: AcceptsField(row, ID_FIELDS[j])
    {
      var id := Get(row, ID_FIELDS[i]);
      if !id.Str? {
        assert !AcceptsField(row, ID_FIELDS[i]);
        return false;
      }
      CanonicalIff(id.text);
      var uuid := Uuid.Read(id.text);
      if uuid.None? || Uuid.Print(uuid.value) != id.text {
        assert !AcceptsField(row, ID_FIELDS[i]);
        return false;
      }
    }
    ok := true;
  }

  /** The details go through `dumps` with sorted keys and `loads`, unless they are null. */
  method CanonicalDetails(details: Json) returns (canonical: Option<Json>)
    requires WellFormed(details)
    ensures canonical == NormalizeValue(Details, details)
  {
    if details.Null? {
      return Some(details);
    }
    if !details.Obj? || !Finite(details) {
      return None;
    }
    LoadsOfSortedDumps(details);
    canonical := Loads(Dumps(details, true, Compact));
  }

  /** The fields that are only checked. */
  predicate TextsAccepted(row: Row)
    requires HasExactFields(row)
  {
    FieldsPresent(row);
    && (forall field | field in ID_FIELDS :: AcceptsField(row, field))
    && AcceptsField(row, "target") && AcceptsField(row, "status")
  }

  method CheckTexts(row: Row) returns (ok: bool)
    requires HasExactFields(row)
    ensures ok <==> TextsAccepted(row)
  {
    FieldsPresent(row);
    Kinds();
    ok := CheckIds(row);
    if !ok {
      return;
    }
    ok := Get(row, "target").Str? && Get(row, "status").Str?;
  }

  /** The fields that are rewritten, in order. */
  method RewriteFields(row: Row, detailsKey: string, createdKey: string, updatedKey: string)
    returns (result: Option<Row>)
    requires IsDict(row) && Has(row, detailsKey) && Has(row, createdKey) && Has(row, updatedKey)
    requires detailsKey != createdKey && detailsKey != updatedKey && createdKey != updatedKey
    requires KindOf(detailsKey) == Details && KindOf(createdKey) == Time && KindOf(updatedKey) == Time
    ensures result.Some?
       <==> AcceptsField(row, detailsKey) && AcceptsField(row, createdKey) && AcceptsField(row, updatedKey)
    ensures result.Some? ==>
              result.value == Put(Put(Put(row, detailsKey, NormalizeField(detailsKey, Get(row, detailsKey)).value),
                                      createdKey, NormalizeField(createdKey, Get(row, createdKey)).value),
                                  updatedKey, NormalizeField(updatedKey, Get(row, updatedKey)).value)
  {
    var normalized := row;
    var details := CanonicalDetails(Get(normalized, detailsKey));
    if details.None? {
      return None;
    }
    normalized := Put(normalized, detailsKey, details.value);
    GetOther(row, detailsKey, details.value, createdKey);
    GetOther(row, detailsKey, details.value, updatedKey);
    PutPresent(row, detailsKey, details.value);
    var created := NormalizeValue(Time, Get(normalized, createdKey));
    if created.None? {
      return None;
    }
    GetOther(normalized, createdKey, created.value, updatedKey);
    normalized := Put(normalized, createdKey, created.value);
    var updated := NormalizeValue(Time, Get(normalized, updatedKey));
    if updated.None? {
      return None;
    }
    normalized := Put(normalized, updatedKey, updated.value);
    result := Some(normalized);
  }

  /** A row with the right fields is accepted if and only if each of its fields is. */
  lemma AcceptsIff(row: Row)
    requires IsDict(row) && HasExactFields(row)
    requires Has(row, "result_json") && Has(row, "created_at") && Has(row, "updated_at")
    ensures Accepts(row)
       <==> && TextsAccepted(row) && AcceptsField(row, "result_json")
            && AcceptsField(row, "created_at") && AcceptsField(row, "updated_at")
  {
    FieldsPresent(row);
    if Accepts(row) {
      forall field | Has(row, field) ensures AcceptsField(row, field) {
        if !AcceptsField(row, field) {
          RejectedField(row, field);
          assert false;
        }
      }
    } else if TextsAccepted(row) && AcceptsField(row, "result_json")
              && AcceptsField(row, "created_at") && AcceptsField(row, "updated_at") {
      AcceptedFields(row);
      assert false;
    }
  }

  /** The assertions and dictionary updates of `_normalized_row`; `None` is a failed assertion or a
      `ValueError`. */
  method NormalizeRow(row: Row) returns (result: Option<Row>)
    requires IsDict(row)
    ensures result.Some? <==> Accepts(row)
    ensures result.Some? ==> result.value == Normalized(row)
  {
    if !HasExactFields(row) {
      return None;
    }
    FieldsPresent(row);
    Kinds();
    AcceptsIff(row);
    var texts := CheckTexts(row);
    if !texts {
      return None;
    }
    result := RewriteFields(row, "result_json", "created_at", "updated_at");
    if result.Some? {
      UpdatesNormalize(row, "result_json", NormalizeField("result_json", Get(row, "result_json")).value,
                       "created_at", NormalizeField("created_at", Get(row, "created_at")).value,
                       "updated_at", NormalizeField("updated_at", Get(row, "updated_at")).value);
    }
  }
}
