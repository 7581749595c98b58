/** The idempotent seeding of two tenants: insert-if-absent into three related tables. */
module Seed {

  datatype User = User(email: string, passwordHash: string, active: bool)

  /** The three tables by their primary keys. */
  datatype Tables = Tables(users: map<string, User>, organizations: map<string, string>,
                           memberships: map<(string, string), string>)

  /** A fixture row: an identifier and the email or the name that goes with it. */
  datatype Fixture = Fixture(id: string, text: string)

  const USERS: seq<Fixture> := [
    Fixture("00000000-0000-4000-8000-000000000101", "analyst-a@signaldesk.test"),
    Fixture("00000000-0000-4000-8000-000000000102", "analyst-b@signaldesk.test")
  ]

  const ORGANIZATIONS: seq<Fixture> := [
    Fixture("00000000-0000-4000-8000-000000000201", "Synthetic Tenant A"),
    Fixture("00000000-0000-4000-8000-000000000202", "Synthetic Tenant B")
  ]

  // --- Specification --------------------------------------------------------------------------------------

  /** `INSERT ... ON CONFLICT (key) DO NOTHING` */
  function InsertAbsent<K, V>(table: map<K, V>, key: K, row: V): map<K, V>
  {
    if key in table then table else table[key := row]
  }

  /** The users after the first loop; `hashes(i)` is the salted hash of its i-th call. */
  function SeedUsers(table: map<string, User>, users: seq<Fixture>, hashes: nat -> string): map<string, User>
  {
    if users == [] then table
    else
      var last := |users| - 1;
      InsertAbsent(SeedUsers(table, users[..last], hashes), users[last].id,
                   User(users[last].text, hashes(last), true))
  }

  function SeedOrganizations(table: map<string, string>, organizations: seq<Fixture>): map<string, string>
  {
    if organizations == [] then table
    else
      var last := |organizations| - 1;
      InsertAbsent(SeedOrganizations(table, organizations[..last]), organizations[last].id, organizations[last].text)
  }

  function SeedMemberships(table: map<(string, string), string>, users: seq<Fixture>, organizations: seq<Fixture>)
    : map<(string, string), string>
    requires |users| == |organizations|
  {
    if users == [] then table
    else
      var last := |users| - 1;
      InsertAbsent(SeedMemberships(table, users[..last], organizations[..last]),
                   (users[last].id, organizations[last].id), "analyst")
  }

  function SeedTables(t: Tables, users: seq<Fixture>, organizations: seq<Fixture>, hashes: nat -> string): Tables
    requires |users| == |organizations|
  {
    Tables(SeedUsers(t.users, users, hashes), SeedOrganizations(t.organizations, organizations),
           SeedMemberships(t.memberships, users, organizations))
  }

  /** Every membership refers to a present user and a present organization. */
  predicate Sound(t: Tables)
  {
    forall m | m in t.memberships :: m.0 in t.users && m.1 in t.organizations
  }

  // --- The program ----------------------------------------------------------------------------------------

  datatype Outcome = Seeded | MissingInput | WrongDatabase | WeakPassword

  /** What `strip()` takes for white space among the ASCII characters. */
  predicate IsSpace(c: char)
  {
    c == ' ' || '\t' <= c <= '\r' || 0x1c as char <= c <= 0x1f as char
  }

  /** `text.strip()` */
  function Strip(text: string): string
    decreases |text|
  {
    if text != "" && IsSpace(text[0]) then Strip(text[1..])
    else if text != "" && IsSpace(text[|text| - 1]) then Strip(text[..|text| - 1])
    else text
  }

  /** At least 16 ASCII characters, and `strip()` would change nothing. */
  predicate IsStrong(password: string)
  {
    |password| >= 16 && (forall i | 0 <= i < |password| :: password[i] < 128 as char) && Strip(password) == password
  }

  lemma {:induction false} StripShortens(text: string)
    ensures |Strip(text)| <= |text|
    decreases |text|
  {
    if text != "" && IsSpace(text[0]) {
      StripShortens(text[1..]);
    } else if text != "" && IsSpace(text[|text| - 1]) {
      StripShortens(text[..|text| - 1]);
    }
  }

  /** Space, tab, line feed, vertical tab, form feed, carriage return and the four separators. */
  const SPACES := " \t\n\U{000B}\U{000C}\r\U{001C}\U{001D}\U{001E}\U{001F}"

  lemma IsStrongIff(password: string)
    ensures IsStrong(password)
       <==> && |password| >= 16 && (forall i | 0 <= i < |password| :: password[i] as int < 128)
            && password[0] !in SPACES && password[|password| - 1] !in SPACES
  {
    if password != "" {
      SpacesAre(password[0]);
      SpacesAre(password[|password| - 1]);
      StripShortens(password[1..]);
      StripShortens(password[..|password| - 1]);
    }
  }

  lemma SpacesAre(c: char)
    ensures IsSpace(c) <==> c in SPACES
  {
    assert SPACES[0] == ' ' && SPACES[1] == '\t' && SPACES[2] == '\n' && SPACES[3] as int == 11;
    assert SPACES[4] as int == 12 && SPACES[5] == '\r' && SPACES[6] as int == 28 && SPACES[7] as int == 29;
    assert SPACES[8] as int == 30 && SPACES[9] as int == 31;
  }

  class Database {
    var users: map<string, User>
    var organizations: map<string, string>
    var memberships: map<(string, string), string>

    constructor (t: Tables)
      ensures Contents() == t
    {
      users, organizations, memberships := t.users, t.organizations, t.memberships;
    }

    function Contents(): Tables
      reads this
    {
      Tables(users, organizations, memberships)
    }

    method InsertUsers(rows: seq<Fixture>, hashes: nat -> string)
      modifies `users
      ensures users == SeedUsers(old(users), rows, hashes)
    {
      for i := 0 to |rows|
        invariant users == SeedUsers(old(users), rows[..i], hashes)
      {
        assert rows[..i + 1][..i] == rows[..i];
        if rows[i].id !in users {
          users := users[rows[i].id := User(rows[i].text, hashes(i), true)];
        }
      }
      assert rows[..|rows|] == rows;
    }

    method InsertOrganizations(rows: seq<Fixture>)
      modifies `organizations
      ensures organizations == SeedOrganizations(old(organizations), rows)
    {
      for i := 0 to |rows|
        invariant organizations == SeedOrganizations(old(organizations), rows[..i])
      {
        assert rows[..i + 1][..i] == rows[..i];
        if rows[i].id !in organizations {
          organizations := organizations[rows[i].id := rows[i].text];
        }
      }
      assert rows[..|rows|] == rows;
    }

    /** One membership. Its foreign keys must be there: the statement would fail otherwise. */
    method InsertMembership(user: string, organization: string)
      requires user in users && organization in organizations
      modifies `memberships
      ensures memberships == InsertAbsent(old(memberships), (user, organization), "analyst")
    {
      if (user, organization) !in memberships {
        memberships := memberships[(user, organization) := "analyst"];
      }
    }

    method InsertMemberships(us: seq<Fixture>, os: seq<Fixture>)
      requires |us| == |os|
      requires forall i | 0 <= i < |us| :: us[i].id in users && os[i].id in organizations
      modifies `memberships
      ensures memberships == SeedMemberships(old(memberships), us, os)
    {
      for i := 0 to |us|
        invariant memberships == SeedMemberships(old(memberships), us[..i], os[..i])
      {
        assert us[..i + 1][..i] == us[..i] && os[..i + 1][..i] == os[..i];
        InsertMembership(us[i].id, os[i].id);
      }
      assert us[..|us|] == us && os[..|os|] == os;
    }

    /** The three loops of one transaction. No foreign key is ever missing. */
    method Run(us: seq<Fixture>, os: seq<Fixture>, hashes: nat -> string)
      requires |us| == |os|
      modifies this
      ensures Contents() == SeedTables(old(Contents()), us, os, hashes)
    {
      InsertUsers(us, hashes);
      InsertOrganizations(os);
      SeedUsersRows(old(users), us, hashes);
      SeedOrganizationsRows(old(organizations), os);
      forall i | 0 <= i < |us| ensures us[i].id in users && os[i].id in organizations {
        assert Listed(us, us[i].id) && Listed(os, os[i].id);
      }
      InsertMemberships(us, os);
    }

    /** `main`: the checks on its inputs, then the transaction on the two tenants. `driver` and `host` are
        what the URL parser reads from the URL. */
    method SeedTenants(url: string, driver: string, host: string, password: string, hashes: nat -> string)
      returns (outcome: Outcome)
      modifies this
      ensures outcome == Seeded
         <==> && url != "" && password != "" && host == "postgres"
              && (driver == "postgresql" || driver == "postgresql+psycopg")
              && |password| >= 16 && (forall i | 0 <= i < |password| :: password[i] as int < 128)
              && password[0] !in SPACES && password[|password| - 1] !in SPACES
      ensures Contents() == if outcome == Seeded then SeedTables(old(Contents()), USERS, ORGANIZATIONS, hashes)
                            else old(Contents())
    {
      if url == "" || password == "" {
        return MissingInput;
      }
      if (driver != "postgresql" && driver != "postgresql+psycopg") || host != "postgres" {
        return WrongDatabase;
      }
      IsStrongIff(password);
      if !IsStrong(password) {
        return WeakPassword;
      }
      Run(USERS, ORGANIZATIONS, hashes);
      outcome := Seeded;
    }
  }

  // --- What one run does ----------------------------------------------------------------------------------

  predicate Listed(fixtures: seq<Fixture>, id: string)
  {
    exists i | 0 <= i < |fixtures| :: fixtures[i].id == id
  }

  predicate ListedAt(fixtures: seq<Fixture>, id: string, i: int)
  {
    0 <= i < |fixtures| && fixtures[i].id == id && forall j | 0 <= j < i :: fixtures[j].id != id
  }

  lemma ListedSnoc(fixtures: seq<Fixture>, id: string)
    requires fixtures != []
    ensures Listed(fixtures, id)
       <==> Listed(fixtures[..|fixtures| - 1], id) || fixtures[|fixtures| - 1].id == id
  {
    var init := fixtures[..|fixtures| - 1];
    if i :| 0 <= i < |fixtures| && fixtures[i].id == id {
      assert i < |init| ==> init[i].id == id;
    }
    if i :| 0 <= i < |init| && init[i].id == id {
      assert fixtures[i].id == id;
    }
  }

  /** Existing users stay as they are; the new ones are the listed ones, with the data of their first listing. */
  lemma {:induction false} SeedUsersRows(table: map<string, User>, users: seq<Fixture>, hashes: nat -> string)
    ensures var result := SeedUsers(table, users, hashes);
            && (forall id :: id in result <==> id in table || Listed(users, id))
            && (forall id | id in table :: result[id] == table[id])
            && (forall id, i: nat | id !in table && ListedAt(users, id, i) ::
                  id in result && result[id] == User(users[i].text, hashes(i), true))
  {
    if users != [] {
      var init, last := users[..|users| - 1], |users| - 1;
      SeedUsersRows(table, init, hashes);
      var result := SeedUsers(table, users, hashes);
      forall id ensures id in result <==> id in table || Listed(users, id) {
        ListedSnoc(users, id);
      }
      forall id, i: nat | id !in table && ListedAt(users, id, i)
        ensures id in result && result[id] == User(users[i].text, hashes(i), true)
      {
        if i < last {
          assert ListedAt(init, id, i);
        } else {
          assert !Listed(init, id);
        }
      }
    }
  }

  /** The same for organizations. */
  lemma {:induction false} SeedOrganizationsRows(table: map<string, string>, organizations: seq<Fixture>)
    ensures var result := SeedOrganizations(table, organizations);
            && (forall id :: id in result <==> id in table || Listed(organizations, id))
            && (forall id | id in table :: result[id] == table[id])
            && (forall id, i: nat | id !in table && ListedAt(organizations, id, i) ::
                  id in result && result[id] == organizations[i].text)
  {
    if organizations != [] {
      var init, last := organizations[..|organizations| - 1], |organizations| - 1;
      SeedOrganizationsRows(table, init);
      var result := SeedOrganizations(table, organizations);
      forall id ensures id in result <==> id in table || Listed(organizations, id) {
        ListedSnoc(organizations, id);
      }
      forall id, i: nat | id !in table && ListedAt(organizations, id, i)
        ensures id in result && result[id] == organizations[i].text
      {
        if i < last {
          assert ListedAt(init, id, i);
        } else {
          assert !Listed(init, id);
        }
      }
    }
  }

  predicate Paired(users: seq<Fixture>, organizations: seq<Fixture>, m: (string, string))
    requires |users| == |organizations|
  {
    exists i | 0 <= i < |users| :: m == (users[i].id, organizations[i].id)
  }

  /** Existing memberships stay; the new ones pair the listed users and organizations, as analysts. */
  lemma {:induction false} SeedMembershipsRows(table: map<(string, string), string>,
                                               users: seq<Fixture>, organizations: seq<Fixture>)
    requires |users| == |organizations|
    ensures var result := SeedMemberships(table, users, organizations);
            && (forall m :: m in result <==> m in table || Paired(users, organizations, m))
            && (forall m | m in result :: result[m] == if m in table then table[m] else "analyst")
  {
    if users != [] {
      var last := |users| - 1;
      var us, os := users[..last], organizations[..last];
      SeedMembershipsRows(table, us, os);
      forall m ensures Paired(users, organizations, m)
                  <==> Paired(us, os, m) || m == (users[last].id, organizations[last].id)
      {
        if i :| 0 <= i < last && m == (us[i].id, os[i].id) {
          assert m == (users[i].id, organizations[i].id);
        }
        if i :| 0 <= i < |users| && m == (users[i].id, organizations[i].id) {
          assert i < last ==> m == (us[i].id, os[i].id);
        }
      }
    }
  }

  // --- Idempotence and integrity --------------------------------------------------------------------------

  lemma {:induction false} UsersPresent(table: map<string, User>, users: seq<Fixture>, hashes: nat -> string)
    requires forall i | 0 <= i < |users| :: users[i].id in table
    ensures SeedUsers(table, users, hashes) == table
  {
    if users != [] {
      UsersPresent(table, users[..|users| - 1], hashes);
    }
  }

  lemma {:induction false} OrganizationsPresent(table: map<string, string>, organizations: seq<Fixture>)
    requires forall i | 0 <= i < |organizations| :: organizations[i].id in table
    ensures SeedOrganizations(table, organizations) == table
  {
    if organizations != [] {
      OrganizationsPresent(table, organizations[..|organizations| - 1]);
    }
  }

  lemma {:induction false} MembershipsPresent(table: map<(string, string), string>,
                                              users: seq<Fixture>, organizations: seq<Fixture>)
    requires |users| == |organizations|
    requires forall i | 0 <= i < |users| :: (users[i].id, organizations[i].id) in table
    ensures SeedMemberships(table, users, organizations) == table
  {
    if users != [] {
      MembershipsPresent(table, users[..|users| - 1], organizations[..|organizations| - 1]);
    }
  }

  /** Seeding again changes nothing, even with other password hashes. */
  lemma SeedingIsIdempotent(t: Tables, users: seq<Fixture>, organizations: seq<Fixture>,
                            hashes: nat -> string, others: nat -> string)
    requires |users| == |organizations|
    ensures var once := SeedTables(t, users, organizations, hashes);
            SeedTables(once, users, organizations, others) == once
  {
    var once := SeedTables(t, users, organizations, hashes);
    SeedUsersRows(t.users, users, hashes);
    SeedOrganizationsRows(t.organizations, organizations);
    SeedMembershipsRows(t.memberships, users, organizations);
    forall i | 0 <= i < |users|
      ensures users[i].id in once.users && organizations[i].id in once.organizations
      ensures (users[i].id, organizations[i].id) in once.memberships
    {
      assert Listed(users, users[i].id) && Listed(organizations, organizations[i].id);
      assert Paired(users, organizations, (users[i].id, organizations[i].id));
    }
    UsersPresent(once.users, users, others);
    OrganizationsPresent(once.organizations, organizations);
    MembershipsPresent(once.memberships, users, organizations);
  }

  /** Seeding keeps referential soundness and every existing row. */
  lemma SeedingIsSound(t: Tables, users: seq<Fixture>, organizations: seq<Fixture>, hashes: nat -> string)
    requires |users| == |organizations| && Sound(t)
    ensures var after := SeedTables(t, users, organizations, hashes);
            && Sound(after)
            && (forall id | id in t.users :: id in after.users && after.users[id] == t.users[id])
            && (forall id | id in t.organizations ::
                  id in after.organizations && after.organizations[id] == t.organizations[id])
            && (forall m | m in t.memberships ::
                  m in after.memberships && after.memberships[m] == t.memberships[m])
  {
    var after := SeedTables(t, users, organizations, hashes);
    SeedUsersRows(t.users, users, hashes);
    SeedOrganizationsRows(t.organizations, organizations);
    SeedMembershipsRows(t.memberships, users, organizations);
    forall m | m in after.memberships ensures m.0 in after.users && m.1 in after.organizations {
      if m !in t.memberships {
        var i :| 0 <= i < |users| && m == (users[i].id, organizations[i].id);
        assert Listed(users, users[i].id) && Listed(organizations, organizations[i].id);
      }
    }
  }

  /** What the program puts into an empty database, in full. */
  lemma FreshDatabase(hashes: nat -> string)
    ensures SeedTables(Tables(map[], map[], map[]), USERS, ORGANIZATIONS, hashes)
         == Tables(map["00000000-0000-4000-8000-000000000101" := User("analyst-a@signaldesk.test", hashes(0), true),
                       "00000000-0000-4000-8000-000000000102" := User("analyst-b@signaldesk.test", hashes(1), true)],
                   map["00000000-0000-4000-8000-000000000201" := "Synthetic Tenant A",
                       "00000000-0000-4000-8000-000000000202" := "Synthetic Tenant B"],
                   map[("00000000-0000-4000-8000-000000000101", "00000000-0000-4000-8000-000000000201") := "analyst",
                       ("00000000-0000-4000-8000-000000000102", "00000000-0000-4000-8000-000000000202") := "analyst"])
  {
    assert USERS[0].id[35] == '1' && USERS[1].id[35] == '2';
    assert ORGANIZATIONS[0].id[35] == '1' && ORGANIZATIONS[1].id[35] == '2';
    TwoRows(USERS[0], USERS[1], ORGANIZATIONS[0], ORGANIZATIONS[1], hashes);
    assert USERS == [USERS[0], USERS[1]] && ORGANIZATIONS == [ORGANIZATIONS[0], ORGANIZATIONS[1]];
  }

  lemma TwoRows(a: Fixture, b: Fixture, x: Fixture, y: Fixture, hashes: nat -> string)
    requires a.id != b.id && x.id != y.id
    ensures SeedTables(Tables(map[], map[], map[]), [a, b], [x, y], hashes)
         == Tables(map[a.id := User(a.text, hashes(0), true), b.id := User(b.text, hashes(1), true)],
                   map[x.id := x.text, y.id := y.text],
                   map[(a.id, x.id) := "analyst", (b.id, y.id) := "analyst"])
  {
    assert [a, b][..1] == [a] && [x, y][..1] == [x] && [a][..0] == [] && [x][..0] == [];
    assert SeedUsers(map[], [a], hashes) == map[a.id := User(a.text, hashes(0), true)];
    assert SeedOrganizations(map[], [x]) == map[x.id := x.text];
    assert SeedMemberships(map[], [a], [x]) == map[(a.id, x.id) := "analyst"];
  }
}
