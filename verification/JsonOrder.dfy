/** `sort_keys=True`: sorted rendering is a canonical form of values that differ in key order only. */
module JsonOrder {
  import opened Wrappers
  import opened Json
  import opened JsonRoundTrip

  /** Python's order on strings: by code points, a proper prefix first. */
  predicate Less(a: string, b: string)
  {
    if b == "" then false
    else if a == "" then true
    else a[0] < b[0] || (a[0] == b[0] && Less(a[1..], b[1..]))
  }

  function SortKeys(v: Json): Json
  {
    match v
    case Arr(items) => Arr(SortItems(items))
    case Obj(members) => Obj(SortMembers(members))
    case _ => v
  }

  function SortItems(items: seq<Json>): (sorted: seq<Json>)
    ensures |sorted| == |items|
    ensures forall i | 0 <= i < |items| :: sorted[i] == SortKeys(items[i])
  {
    if items == [] then [] else [SortKeys(items[0])] + SortItems(items[1..])
  }

  function SortMembers(members: seq<Member>): seq<Member>
  {
    if members == [] then [] else Insert(SortEntry(members[0]), SortMembers(members[1..]))
  }

  function SortEntry(m: Member): Member
  {
    Member(m.key, SortKeys(m.value))
  }

  function Insert(m: Member, members: seq<Member>): seq<Member>
  {
    if members == [] || Less(m.key, members[0].key) then [m] + members
    else [members[0]] + Insert(m, members[1..])
  }

  /** `json.dumps(v, ensure_ascii=False, sort_keys=..., separators=...)`. */
  function Dumps(v: Json, sortKeys: bool, style: Style): string
  {
    Render(if sortKeys then SortKeys(v) else v, style)
  }

  /** Equal but for the order of the keys, at every depth: each entry of one dictionary has its
      counterpart in the other. */
  predicate SameUpToOrder(a: Json, b: Json)
  {
    match (a, b)
    case (Arr(xs), Arr(ys)) =>
      |xs| == |ys| && forall i | 0 <= i < |xs| :: SameUpToOrder(xs[i], ys[i])
    case (Obj(ms), Obj(ns)) =>
      && (forall m | m in ms :: exists n | n in ns :: SameEntry(m, n))
      && (forall n | n in ns :: exists m | m in ms :: SameEntry(m, n))
    case _ => a == b
  }

  predicate SameEntry(m: Member, n: Member)
  {
    m.key == n.key && SameUpToOrder(m.value, n.value)
  }

  /** Strictly ascending keys. */
  predicate Ascending(members: seq<Member>)
  {
    forall i, j | 0 <= i < j < |members| :: Less(members[i].key, members[j].key)
  }

  /** Strictly ascending keys at every depth. */
  predicate Sorted(v: Json)
  {
    match v
    case Arr(items) => forall i | 0 <= i < |items| :: Sorted(items[i])
    case Obj(members) =>
      Ascending(members) && forall i | 0 <= i < |members| :: Sorted(members[i].value)
    case _ => true
  }

  // --- The order on strings ---------------------------------------------------------------------

  lemma {:induction false} LessTotal(a: string, b: string)
    ensures a == b || Less(a, b) || Less(b, a)
    ensures !(Less(a, b) && Less(b, a))
  {
    if a != "" && b != "" {
      LessTotal(a[1..], b[1..]);
      assert a == [a[0]] + a[1..] && b == [b[0]] + b[1..];
    }
  }

  /** At the first place where they differ, `a` has the smaller code point or has ended. */
  predicate PrecedesAt(a: string, b: string, i: nat)
  {
    i <= |a| && i < |b| && a[..i] == b[..i] && (i == |a| || a[i] < b[i])
  }

  lemma {:induction false} LessIff(a: string, b: string)
    ensures Less(a, b) <==> exists i: nat | i <= |a| && i < |b| :: a[..i] == b[..i] && (i == |a| || a[i] < b[i])
  {
    if Less(a, b) {
      var i := FirstDifference(a, b);
      assert PrecedesAt(a, b, i);
    }
    if i: nat :| i <= |a| && i < |b| && a[..i] == b[..i] && (i == |a| || a[i] < b[i]) {
      DifferenceDecides(a, b, i);
    }
  }

  lemma {:induction false} FirstDifference(a: string, b: string) returns (i: nat)
    requires Less(a, b)
    ensures PrecedesAt(a, b, i)
  {
    if a == "" || a[0] < b[0] {
      i := 0;
    } else {
      var j := FirstDifference(a[1..], b[1..]);
      i := j + 1;
      assert a[..i] == [a[0]] + a[1..][..j] && b[..i] == [b[0]] + b[1..][..j];
    }
  }

  lemma {:induction false} DifferenceDecides(a: string, b: string, i: nat)
    requires PrecedesAt(a, b, i)
    ensures Less(a, b)
    decreases i
  {
    if i > 0 {
      assert a[0] == a[..i][0] == b[..i][0] == b[0];
      assert a[1..][..i - 1] == a[..i][1..] == b[..i][1..] == b[1..][..i - 1];
      DifferenceDecides(a[1..], b[1..], i - 1);
    }
  }

  predicate Precedes(a: string, b: string)
  {
    exists i: nat | i <= |a| && i < |b| :: a[..i] == b[..i] && (i == |a| || a[i] < b[i])
  }

  /** Of two keys of a sorted dictionary the later one has the larger code point at their first difference, or
      goes on where the earlier one has ended. */
  lemma AscendingIff(members: seq<Member>)
    ensures Ascending(members)
       <==> forall j, k | 0 <= j < k < |members| :: Precedes(members[j].key, members[k].key)
  {
    forall j, k | 0 <= j < k < |members|
      ensures Less(members[j].key, members[k].key) <==> Precedes(members[j].key, members[k].key)
    {
      LessIff(members[j].key, members[k].key);
    }
  }

  /** In the harness's own words: `error_code` goes before `outcome`. */
  lemma ErrorCodeFirst(code: Json, outcome: Json)
    requires SortKeys(code) == code && SortKeys(outcome) == outcome
    ensures SortKeys(Obj([Member("outcome", outcome), Member("error_code", code)]))
         == SortKeys(Obj([Member("error_code", code), Member("outcome", outcome)]))
         == Obj([Member("error_code", code), Member("outcome", outcome)])
  {
    var first, second := Member("error_code", code), Member("outcome", outcome);
    assert Less(first.key, second.key) && !Less(second.key, first.key);
    assert [first, second][1..] == [second] && [second, first][1..] == [first];
    assert [first][1..] == [] && [second][1..] == [];
    assert SortMembers([first]) == [first] && SortMembers([second]) == [second];
    assert [second] + [] == [second] && [first] + [] == [first];
  }

  lemma {:induction false} LessTransitive(a: string, b: string, c: string)
    requires Less(a, b) && Less(b, c)
    ensures Less(a, c)
  {
    if a != "" && a[0] == b[0] == c[0] {
      LessTransitive(a[1..], b[1..], c[1..]);
    }
  }

  // --- Sorting one dictionary ---------------------------------------------------------------------

  lemma {:induction false} InsertHas(m: Member, members: seq<Member>, x: Member)
    ensures x in Insert(m, members) <==> x == m || x in members
  {
    if members != [] && !Less(m.key, members[0].key) {
      InsertHas(m, members[1..], x);
      assert members == [members[0]] + members[1..];
    }
  }

  lemma {:induction false} InsertAscending(m: Member, members: seq<Member>)
    requires Ascending(members) && forall i | 0 <= i < |members| :: members[i].key != m.key
    ensures Ascending(Insert(m, members))
  {
    if members == [] {
    } else if Less(m.key, members[0].key) {
      forall j | 0 < j < |members| ensures Less(m.key, members[j].key) {
        LessTransitive(m.key, members[0].key, members[j].key);
      }
    } else {
      LessTotal(m.key, members[0].key);
      var tail := Insert(m, members[1..]);
      InsertAscending(m, members[1..]);
      forall j | 0 <= j < |tail| ensures Less(members[0].key, tail[j].key) {
        InsertHas(m, members[1..], tail[j]);
        if tail[j] != m {
          assert tail[j] in members[1..];
        }
      }
    }
  }

  lemma {:induction false} SortMembersHas(members: seq<Member>, x: Member)
    ensures x in SortMembers(members) <==> exists m | m in members :: x == SortEntry(m)
  {
    if members != [] {
      InsertHas(SortEntry(members[0]), SortMembers(members[1..]), x);
      SortMembersHas(members[1..], x);
      assert members[0] in members;
      if m :| m in members && x == SortEntry(m) && m != members[0] {
        assert members == [members[0]] + members[1..];
        assert m in members[1..];
      }
    }
  }

  lemma {:induction false} SortMembersAscending(members: seq<Member>)
    requires DistinctKeys(members)
    ensures Ascending(SortMembers(members))
  {
    if members != [] {
      var first, tail := SortEntry(members[0]), SortMembers(members[1..]);
      SortMembersAscending(members[1..]);
      forall i | 0 <= i < |tail| ensures tail[i].key != first.key {
        SortMembersHas(members[1..], tail[i]);
        var m :| m in members[1..] && tail[i] == SortEntry(m);
        var j :| 0 <= j < |members[1..]| && members[1..][j] == m;
        assert members[j + 1] == m;
      }
      InsertAscending(first, tail);
    }
  }

  /** Ascending dictionaries with the same entries are equal. */
  lemma {:induction false} AscendingUnique(a: seq<Member>, b: seq<Member>)
    requires Ascending(a) && Ascending(b)
    requires forall x :: x in a <==> x in b
    ensures a == b
  {
    if b != [] {
      assert b[0] in a;
    }
    if a != [] {
      assert a[0] in b;
      LessTotal(a[0].key, b[0].key);
      assert a[0] == b[0];
      forall x ensures x in a[1..] <==> x in b[1..] {
        TailHas(a, x);
        TailHas(b, x);
      }
      AscendingUnique(a[1..], b[1..]);
      assert a == [a[0]] + a[1..] && b == [b[0]] + b[1..];
    }
  }

  lemma TailHas(a: seq<Member>, x: Member)
    requires a != [] && Ascending(a)
    ensures x in a[1..] <==> x in a && x != a[0]
  {
    LessTotal(a[0].key, a[0].key);
    assert a == [a[0]] + a[1..];
  }

  // --- Sorting at every depth ---------------------------------------------------------------------

  /** Sorting yields ascending keys everywhere and keeps well-formedness and finiteness. */
  lemma {:induction false} SortKeysSorts(v: Json)
    requires WellFormed(v)
    ensures Sorted(SortKeys(v)) && WellFormed(SortKeys(v))
    ensures Finite(v) ==> Finite(SortKeys(v))
  {
    match v {
      case Arr(items) =>
        forall i | 0 <= i < |items|
          ensures Sorted(SortKeys(items[i])) && WellFormed(SortKeys(items[i]))
          ensures Finite(items[i]) ==> Finite(SortKeys(items[i]))
        {
          SortKeysSorts(items[i]);
        }
      case Obj(members) =>
        var sorted := SortMembers(members);
        SortMembersAscending(members);
        AscendingDistinct(sorted);
        forall k | 0 <= k < |sorted|
          ensures Sorted(sorted[k].value) && WellFormed(sorted[k].value)
          ensures Finite(v) ==> Finite(sorted[k].value)
        {
          SortMembersHas(members, sorted[k]);
          var m :| m in members && sorted[k] == SortEntry(m);
          SortKeysSorts(m.value);
        }
      case _ =>
    }
  }

  lemma AscendingDistinct(members: seq<Member>)
    requires Ascending(members)
    ensures DistinctKeys(members)
  {
    forall i, j | 0 <= i < j < |members| ensures members[i].key != members[j].key {
      LessTotal(members[i].key, members[i].key);
    }
  }

  /** Two values are sorted to the same value if and only if they differ in key order only. */
  lemma {:induction false} SortKeysIff(a: Json, b: Json)
    requires WellFormed(a) && WellFormed(b)
    ensures SortKeys(a) == SortKeys(b) <==> SameUpToOrder(a, b)
  {
    match (a, b) {
      case (Arr(xs), Arr(ys)) =>
        forall i | 0 <= i < |xs| && i < |ys|
          ensures SortKeys(xs[i]) == SortKeys(ys[i]) <==> SameUpToOrder(xs[i], ys[i])
        {
          SortKeysIff(xs[i], ys[i]);
        }
      case (Obj(ms), Obj(ns)) =>
        forall m, n | m in ms && n in ns
          ensures SortEntry(m) == SortEntry(n) <==> SameEntry(m, n)
        {
          SortKeysIff(m.value, n.value);
        }
        SortMembersIff(ms, ns);
        CoversIff(ms, ns);
      case _ =>
    }
  }

  /** Each entry of one dictionary has a counterpart, equal once sorted, in the other. */
  predicate Covers(ms: seq<Member>, ns: seq<Member>)
  {
    forall m | m in ms :: exists n | n in ns :: SortEntry(m) == SortEntry(n)
  }

  lemma CoversSorted(ms: seq<Member>, ns: seq<Member>, x: Member)
    requires Covers(ms, ns) && x in SortMembers(ms)
    ensures x in SortMembers(ns)
  {
    SortMembersHas(ms, x);
    SortMembersHas(ns, x);
  }

  lemma SortedCovers(ms: seq<Member>, ns: seq<Member>)
    requires SortMembers(ms) == SortMembers(ns)
    ensures Covers(ms, ns)
  {
    forall m | m in ms ensures exists n | n in ns :: SortEntry(m) == SortEntry(n) {
      SortMembersHas(ms, SortEntry(m));
      SortMembersHas(ns, SortEntry(m));
    }
  }

  lemma CoversIff(ms: seq<Member>, ns: seq<Member>)
    requires forall m, n | m in ms && n in ns :: SortEntry(m) == SortEntry(n) <==> SameEntry(m, n)
    ensures Covers(ms, ns) && Covers(ns, ms) <==> SameUpToOrder(Obj(ms), Obj(ns))
  {
  }

  /** Two dictionaries are sorted to the same one if and only if each covers the other. */
  lemma SortMembersIff(ms: seq<Member>, ns: seq<Member>)
    requires DistinctKeys(ms) && DistinctKeys(ns)
    ensures SortMembers(ms) == SortMembers(ns) <==> Covers(ms, ns) && Covers(ns, ms)
  {
    if Covers(ms, ns) && Covers(ns, ms) {
      SortMembersAscending(ms);
      SortMembersAscending(ns);
      forall x ensures x in SortMembers(ms) <==> x in SortMembers(ns) {
        if x in SortMembers(ms) {
          CoversSorted(ms, ns, x);
        } else if x in SortMembers(ns) {
          CoversSorted(ns, ms, x);
        }
      }
      AscendingUnique(SortMembers(ms), SortMembers(ns));
    }
    if SortMembers(ms) == SortMembers(ns) {
      SortedCovers(ms, ns);
      SortedCovers(ns, ms);
    }
  }

  /** A sorted value is already canonical. */
  lemma {:induction false} SortKeysOfSorted(v: Json)
    requires Sorted(v)
    ensures SortKeys(v) == v
  {
    match v {
      case Arr(items) =>
        forall i | 0 <= i < |items| ensures SortKeys(items[i]) == items[i] {
          SortKeysOfSorted(items[i]);
        }
      case Obj(members) =>
        SortMembersOfSorted(members);
      case _ =>
    }
  }

  lemma {:induction false} SortMembersOfSorted(members: seq<Member>)
    requires Ascending(members) && forall i | 0 <= i < |members| :: Sorted(members[i].value)
    ensures SortMembers(members) == members
  {
    if members != [] {
      SortKeysOfSorted(members[0].value);
      SortMembersOfSorted(members[1..]);
      assert members == [members[0]] + members[1..];
    }
  }

  /** Sorted dumps agree byte for byte if and only if the values differ in key order only. */
  lemma SortedDumpsIff(a: Json, b: Json)
    requires WellFormed(a) && WellFormed(b) && Finite(a) && Finite(b)
    ensures Dumps(a, true, Compact) == Dumps(b, true, Compact) <==> SameUpToOrder(a, b)
  {
    SortKeysIff(a, b);
    SortKeysSorts(a);
    SortKeysSorts(b);
    if Dumps(a, true, Compact) == Dumps(b, true, Compact) {
      RenderInjective(SortKeys(a), SortKeys(b));
    }
  }

  /** Loading a sorted dump gives the value with its keys sorted at every depth. */
  lemma LoadsOfSortedDumps(v: Json)
    requires WellFormed(v) && Finite(v)
    ensures Loads(Dumps(v, true, Compact)) == Some(SortKeys(v))
  {
    SortKeysSorts(v);
    LoadsOfDumps(SortKeys(v), "");
    assert Dumps(v, true, Compact) + "" == Dumps(v, true, Compact);
  }
}
