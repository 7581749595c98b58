/** The log redactor that runs when the end-to-end test cleans up. */
module Redactor {
  import opened Wrappers
  import opened Text

  datatype Secret = Secret(name: string, value: string)

  const SECRET_TOKENS: seq<string> := ["PASSWORD", "CREDENTIAL", "SECRET", "SIGNING_KEY"]

  // --- Reading the environment file ---------------------------------------------------------

  /** Python's `line.split("=", 1)`, when the line has an equals sign. */
  function SplitAtEquals(line: string): (parts: (string, string))
    requires '=' in line
    ensures '=' !in parts.0 && parts.0 + ['='] + parts.1 == line
  {
    if line[0] == '=' then ("", line[1..])
    else
      var (name, value) := SplitAtEquals(line[1..]);
      ([line[0]] + name, value)
  }

  predicate NamesSecret(name: string)
  {
    exists i | 0 <= i < |SECRET_TOKENS| :: Occurs(SECRET_TOKENS[i], name)
  }

  /** The secret that one line of the environment file defines, if any. */
  function SecretOfLine(line: string): Option<Secret>
  {
    if line == "" || line[0] == '#' || '=' !in line then None
    else
      var (name, value) := SplitAtEquals(line);
      if NamesSecret(name) then Some(Secret(name, value)) else None
  }

  function SecretsOf(lines: seq<string>): seq<Secret>
  {
    if lines == [] then []
    else
      var rest := SecretsOf(lines[..|lines| - 1]);
      match SecretOfLine(lines[|lines| - 1])
      case None => rest
      case Some(secret) => rest + [secret]
  }

  // --- Redaction ----------------------------------------------------------------------------

  function Marker(name: string): string
  {
    "<redacted:" + name + ">"
  }

  /** One pass per secret, in the order of the list. */
  function Redact(text: string, secrets: seq<Secret>): string
    decreases |secrets|
  {
    if secrets == [] then text
    else Redact(Replace(text, secrets[0].value, Marker(secrets[0].name)), secrets[1..])
  }

  /** No secret value is left in the text. */
  predicate Clean(text: string, secrets: seq<Secret>)
  {
    forall i | 0 <= i < |secrets| :: !Occurs(secrets[i].value, text)
  }

  /** The redactor's loop: every line of the environment file that defines a secret rewrites the text. */
  method RedactLog(log: string, lines: seq<string>) returns (text: string)
    ensures text == Redact(log, SecretsOf(lines))
  {
    text := log;
    assert lines[..0] == [];
    for i := 0 to |lines|
      invariant text == Redact(log, SecretsOf(lines[..i]))
    {
      var line := lines[i];
      assert lines[..i + 1][..i] == lines[..i];
      if line == "" || line[0] == '#' || '=' !in line {
        continue;
      }
      var (name, value) := SplitAtEquals(line);
      if NamesSecret(name) {
        RedactSnoc(log, SecretsOf(lines[..i]), Secret(name, value));
        text := Replace(text, value, Marker(name));
      }
    }
    assert lines[..|lines|] == lines;
  }

  lemma {:induction false} RedactSnoc(text: string, secrets: seq<Secret>, last: Secret)
    ensures Redact(text, secrets + [last]) == Replace(Redact(text, secrets), last.value, Marker(last.name))
    decreases |secrets|
  {
    var all := secrets + [last];
    if secrets == [] {
      assert all == [last] && all[1..] == [];
    } else {
      assert all[1..] == secrets[1..] + [last];
      RedactSnoc(Replace(text, secrets[0].value, Marker(secrets[0].name)), secrets[1..], last);
    }
  }

  /** A line `name=value` yields exactly that secret, whatever the value holds, if and only if the line is no
      comment and the name holds one of the four words. */
  lemma SecretLine(name: string, value: string)
    requires '=' !in name
    ensures SecretOfLine(name + ['='] + value)
         == if (name == "" || name[0] != '#')
               && (Occurs("PASSWORD", name) || Occurs("CREDENTIAL", name)
                   || Occurs("SECRET", name) || Occurs("SIGNING_KEY", name))
            then Some(Secret(name, value)) else None
  {
    SplitUnique(name, value);
    var line := name + ['='] + value;
    assert line[|name|] == '=';
    assert name != "" ==> line[0] == name[0];
    NamesSecretIff(name);
  }

  lemma NamesSecretIff(name: string)
    ensures NamesSecret(name)
       <==> || Occurs("PASSWORD", name) || Occurs("CREDENTIAL", name)
            || Occurs("SECRET", name) || Occurs("SIGNING_KEY", name)
  {
    assert SECRET_TOKENS[0] == "PASSWORD" && SECRET_TOKENS[1] == "CREDENTIAL";
    assert SECRET_TOKENS[2] == "SECRET" && SECRET_TOKENS[3] == "SIGNING_KEY";
  }

  /** No other line yields a secret, and a line yields no other secret. */
  lemma SecretOfLineIff(line: string, secret: Secret)
    ensures SecretOfLine(line) == Some(secret)
       <==> && '=' !in secret.name && line == secret.name + ['='] + secret.value && line[0] != '#'
            && (Occurs("PASSWORD", secret.name) || Occurs("CREDENTIAL", secret.name)
                || Occurs("SECRET", secret.name) || Occurs("SIGNING_KEY", secret.name))
  {
    if '=' in line {
      var (name, value) := SplitAtEquals(line);
      SecretLine(name, value);
      assert name != "" ==> line[0] == name[0];
    }
    if '=' !in secret.name && line == secret.name + ['='] + secret.value {
      assert line[|secret.name|] == '=';
      SplitUnique(secret.name, secret.value);
    }
  }

  function SecretsOfOne(line: string): seq<Secret>
  {
    match SecretOfLine(line)
    case None => []
    case Some(secret) => [secret]
  }

  lemma SecretsOfSnoc(lines: seq<string>)
    requires lines != []
    ensures SecretsOf(lines) == SecretsOf(lines[..|lines| - 1]) + SecretsOfOne(lines[|lines| - 1])
  {
  }

  /** The secrets of a file come in the order of its lines. */
  lemma {:induction false} SecretsOfConcat(first: seq<string>, rest: seq<string>)
    ensures SecretsOf(first + rest) == SecretsOf(first) + SecretsOf(rest)
    decreases |rest|
  {
    if rest == [] {
      assert first + rest == first;
    } else {
      var lines, init := first + rest, rest[..|rest| - 1];
      assert lines[..|lines| - 1] == first + init && lines[|lines| - 1] == rest[|rest| - 1];
      SecretsOfConcat(first, init);
      SecretsOfSnoc(lines);
      SecretsOfSnoc(rest);
    }
  }

  /** Where a secret is found first, its name is put in between `<redacted:` and `>`; before that the log stays as
      it is, and after it the same goes on. */
  lemma RedactAtFirst(before: string, after: string, secret: Secret)
    requires secret.value != ""
    requires forall j :: 0 <= j < |before| ==> !OccursAt(secret.value, before + secret.value + after, j)
    ensures Redact(before + secret.value + after, [secret])
         == before + ("<redacted:" + secret.name + ">") + Redact(after, [secret])
  {
    ReplaceAtFirst(before, secret.value, after, Marker(secret.name));
    assert [secret][1..] == [];
  }

  lemma {:induction false} SplitUnique(name: string, value: string)
    requires '=' !in name
    ensures SplitAtEquals(name + ['='] + value) == (name, value)
    decreases |name|
  {
    var line := name + ['='] + value;
    assert line[|name|] == '=';
    if name == "" {
      assert line[1..] == value;
    } else {
      assert line[0] == name[0] && name[0] in name;
      assert line[1..] == name[1..] + ['='] + value;
      SplitUnique(name[1..], value);
      assert [line[0]] + name[1..] == name;
    }
  }

  // --- Redaction works independently on both sides of a marker's angle brackets ----------------

  /** The values hold no angle bracket. */
  predicate AngleFree(secrets: seq<Secret>)
  {
    forall i | 0 <= i < |secrets| :: '<' !in secrets[i].value && '>' !in secrets[i].value
  }

  predicate NonEmpty(secrets: seq<Secret>)
  {
    forall i | 0 <= i < |secrets| :: secrets[i].value != ""
  }

  lemma {:induction false} RedactAroundStop(left: string, stop: char, right: string, secrets: seq<Secret>)
    requires NonEmpty(secrets) && AngleFree(secrets) && stop in "<>"
    ensures Redact(left + [stop] + right, secrets) == Redact(left, secrets) + [stop] + Redact(right, secrets)
    decreases |secrets|
  {
    if secrets != [] {
      var value, marker := secrets[0].value, Marker(secrets[0].name);
      ReplaceAroundStop(left, stop, right, value, marker);
      RedactAroundStop(Replace(left, value, marker), stop, Replace(right, value, marker), secrets[1..]);
    }
  }

  lemma CleanAroundStop(left: string, stop: char, right: string, secrets: seq<Secret>)
    requires AngleFree(secrets) && stop in "<>"
    ensures Clean(left + [stop] + right, secrets) <==> Clean(left, secrets) && Clean(right, secrets)
  {
    forall i | 0 <= i < |secrets|
      ensures Occurs(secrets[i].value, left + [stop] + right)
         <==> Occurs(secrets[i].value, left) || Occurs(secrets[i].value, right)
    {
      OccursAroundStop(secrets[i].value, left, stop, right);
    }
  }

  function Inner(name: string): string
  {
    "redacted:" + name
  }

  /** What redaction makes of a text with a marker in it, and when the outcome is clean. */
  lemma RedactAroundMarker(left: string, name: string, right: string, later: seq<Secret>, all: seq<Secret>)
    requires NonEmpty(later) && AngleFree(later) && AngleFree(all)
    ensures Clean(Redact(left + Marker(name) + right, later), all)
       <==> && Clean(Redact(left, later), all)
            && Clean(Redact(Inner(name), later), all)
            && Clean(Redact(right, later), all)
  {
    assert left + Marker(name) + right == left + ['<'] + (Inner(name) + ['>'] + right);
    RedactAroundStop(left, '<', Inner(name) + ['>'] + right, later);
    RedactAroundStop(Inner(name), '>', right, later);
    CleanAroundStop(Redact(left, later), '<', Redact(Inner(name) + ['>'] + right, later), all);
    CleanAroundStop(Redact(Inner(name), later), '>', Redact(right, later), all);
  }

  // --- Completeness: a finite set of probe logs decides every log ------------------------------

  /** The redactor cleans each log that consists of one secret value and nothing else. */
  predicate CleansEachSecret(secrets: seq<Secret>)
  {
    forall j | 0 <= j < |secrets| :: Clean(Redact(secrets[j].value, secrets), secrets)
  }

  ghost predicate CleansEveryLog(secrets: seq<Secret>)
  {
    forall log: string :: Clean(Redact(log, secrets), secrets)
  }

  /** Passes for secrets that do not occur leave the text as it is. */
  lemma {:induction false} RedactAbsent(text: string, secrets: seq<Secret>, d: nat)
    requires d <= |secrets| && NonEmpty(secrets) && Clean(text, secrets[..d])
    ensures Redact(text, secrets) == Redact(text, secrets[d..])
    decreases d
  {
    if d == 0 {
      assert secrets[0..] == secrets;
    } else {
      assert !Occurs(secrets[..d][0].value, text);
      ReplaceAbsent(text, secrets[0].value, Marker(secrets[0].name));
      assert secrets[..d][1..] == secrets[1..][..d - 1];
      CleanTail(text, secrets[..d]);
      RedactAbsent(text, secrets[1..], d - 1);
      assert secrets[1..][d - 1..] == secrets[d..];
    }
  }

  lemma CleanTail(text: string, secrets: seq<Secret>)
    requires secrets != [] && Clean(text, secrets)
    ensures Clean(text, secrets[1..])
  {
    forall i | 0 <= i < |secrets[1..]| ensures !Occurs(secrets[1..][i].value, text) {
      assert !Occurs(secrets[i + 1].value, text);
    }
  }

  lemma CleanPart(part: string, text: string, secrets: seq<Secret>)
    requires Clean(text, secrets) && Occurs(part, text)
    ensures Clean(part, secrets)
  {
    forall i | 0 <= i < |secrets| ensures !Occurs(secrets[i].value, part) {
      if Occurs(secrets[i].value, part) {
        OccursTransitive(secrets[i].value, part, text);
        assert false;
      }
    }
  }

  lemma OccursWithin(left: string, mid: string, right: string)
    ensures Occurs(mid, left + mid + right)
  {
    assert OccursAt(mid, mid, 0);
    OccursInside(mid, left, mid, right);
  }

  /** A text free of the first `d` secrets is cleaned by the passes that are left. */
  lemma {:induction false} LaterPassesClean(text: string, secrets: seq<Secret>, d: nat)
    requires d <= |secrets| && NonEmpty(secrets) && AngleFree(secrets)
    requires CleansEachSecret(secrets) && Clean(text, secrets[..d])
    ensures Clean(Redact(text, secrets[d..]), secrets)
    decreases |secrets| - d, |text|, 1
  {
    if d == |secrets| {
      assert secrets[..d] == secrets;
    } else {
      PassClean(text, secrets, d);
      assert secrets[d..][0] == secrets[d] && secrets[d..][1..] == secrets[d + 1..];
    }
  }

  /** The same when pass `d` has just been made: split the text at the secret's first occurrence. */
  lemma {:induction false} PassClean(text: string, secrets: seq<Secret>, d: nat)
    requires d < |secrets| && NonEmpty(secrets) && AngleFree(secrets)
    requires CleansEachSecret(secrets) && Clean(text, secrets[..d])
    ensures Clean(Redact(Replace(text, secrets[d].value, Marker(secrets[d].name)), secrets[d + 1..]), secrets)
    decreases |secrets| - d, |text|, 0
  {
    var value, marker, later := secrets[d].value, Marker(secrets[d].name), secrets[d + 1..];
    if !Occurs(value, text) {
      ReplaceAbsent(text, value, marker);
      CleanSnoc(text, secrets, d);
      LaterPassesClean(text, secrets, d + 1);
    } else {
      var before, after := SplitAtFirst(value, text);
      ReplaceAtFirst(before, value, after, marker);
      CleanParts(before, value, after, secrets[..d]);
      CleanSnoc(before, secrets, d);
      LaterPassesClean(before, secrets, d + 1);
      PassClean(after, secrets, d);
      MarkerStaysClean(secrets, d);
      RedactAroundMarker(before, secrets[d].name, Replace(after, value, marker), later, secrets);
    }
  }

  lemma CleanSnoc(text: string, secrets: seq<Secret>, d: nat)
    requires d < |secrets| && Clean(text, secrets[..d]) && !Occurs(secrets[d].value, text)
    ensures Clean(text, secrets[..d + 1])
  {
    assert secrets[..d + 1] == secrets[..d] + [secrets[d]];
  }

  lemma CleanParts(before: string, mid: string, after: string, secrets: seq<Secret>)
    requires Clean(before + mid + after, secrets)
    ensures Clean(before, secrets) && Clean(mid, secrets) && Clean(after, secrets)
  {
    var text := before + mid + after;
    OccursWithin("", before, mid + after);
    OccursWithin(before, mid, after);
    OccursWithin(before + mid, after, "");
    assert "" + before + (mid + after) == text && before + mid + after + "" == text;
    CleanPart(before, text, secrets);
    CleanPart(mid, text, secrets);
    CleanPart(after, text, secrets);
  }

  /** The text before a secret's first occurrence, without that secret, and the text after it. */
  lemma SplitAtFirst(value: string, text: string) returns (before: string, after: string)
    requires value != "" && Occurs(value, text)
    ensures text == before + value + after && !Occurs(value, before) && |after| < |text|
    ensures forall j :: 0 <= j < |before| ==> !OccursAt(value, text, j)
  {
    var w: nat :| w <= |text| && OccursAt(value, text, w);
    var i := FirstOccurrence(value, text, w);
    before, after := text[..i], text[i + |value|..];
    assert text == before + value + after;
    forall j | 0 <= j <= |before| ensures !OccursAt(value, before, j) {
      if OccursAt(value, before, j) {
        assert text[j..j + |value|] == before[j..j + |value|];
        assert OccursAt(value, text, j);
        assert false;
      }
    }
  }

  /** A secret's value that survives to its own pass becomes its marker there. */
  lemma RedactOwnValue(secrets: seq<Secret>, d: nat)
    requires d < |secrets| && NonEmpty(secrets) && Clean(secrets[d].value, secrets[..d])
    ensures Redact(secrets[d].value, secrets) == Redact(Marker(secrets[d].name), secrets[d + 1..])
  {
    var value, name := secrets[d].value, secrets[d].name;
    RedactAbsent(value, secrets, d);
    assert secrets[d..][0] == secrets[d] && secrets[d..][1..] == secrets[d + 1..];
    ReplaceHere(value, "", Marker(name));
    assert value + "" == value && Marker(name) + "" == Marker(name);
  }

  /** If a secret survives to its own pass, the later passes turn its marker into something clean. */
  lemma MarkerStaysClean(secrets: seq<Secret>, d: nat)
    requires d < |secrets| && NonEmpty(secrets) && AngleFree(secrets)
    requires CleansEachSecret(secrets) && Clean(secrets[d].value, secrets[..d])
    ensures Clean(Redact(Inner(secrets[d].name), secrets[d + 1..]), secrets)
  {
    var value, name, later := secrets[d].value, secrets[d].name, secrets[d + 1..];
    RedactOwnValue(secrets, d);
    RedactAroundMarker("", name, "", later, secrets);
    assert "" + Marker(name) + "" == Marker(name);
  }

  /** The redactor removes every secret from every log if and only if it does so for the finitely
      many logs that hold a single secret value each. */
  lemma CleansEveryLogIff(secrets: seq<Secret>)
    requires AngleFree(secrets)
    ensures CleansEveryLog(secrets) <==> CleansEachSecret(secrets)
  {
    if CleansEachSecret(secrets) {
      forall i | 0 <= i < |secrets| ensures secrets[i].value != "" {
        assert OccursAt(secrets[i].value[..0], Redact(secrets[i].value, secrets), 0);
      }
      forall log: string ensures Clean(Redact(log, secrets), secrets) {
        LaterPassesClean(log, secrets, 0);
        assert secrets[0..] == secrets;
      }
    }
  }

  // --- A sufficient condition that can be read off the file ------------------------------------

  /** The value, shifted by `d` against the marker, agrees with it wherever the two overlap. */
  predicate AgreesAt(value: string, marker: string, d: int)
  {
    forall k | 0 <= k < |marker| && 0 <= k - d < |value| :: marker[k] == value[k - d]
  }

  /** An occurrence of the value can lie in the marker, hold it, or straddle one of its ends. */
  predicate Touches(value: string, marker: string)
  {
    exists d | -|value| < d < |marker| :: AgreesAt(value, marker, d)
  }

  /** No value can touch the marker of its own or of a later secret. */
  predicate MarkersHideSecrets(secrets: seq<Secret>)
  {
    forall i, j | 0 <= i <= j < |secrets| :: !Touches(secrets[i].value, Marker(secrets[j].name))
  }

  /** For values without angle brackets this means not to be part of the marker. */
  lemma TouchesIff(value: string, name: string)
    requires value != "" && '<' !in value && '>' !in value
    ensures Touches(value, Marker(name)) <==> Occurs(value, Marker(name))
  {
    var marker := Marker(name);
    if d :| -|value| < d < |marker| && AgreesAt(value, marker, d) {
      assert marker[0] == '<' && marker[|marker| - 1] == '>';
      assert d > 0 && d + |value| <= |marker|;
      assert forall k | 0 <= k < |value| :: marker[k + d] == value[k];
      assert marker[d..d + |value|] == value;
      assert OccursAt(value, marker, d);
    }
    if Occurs(value, marker) {
      var d: nat :| d <= |marker| && OccursAt(value, marker, d);
      forall k | 0 <= k < |marker| && 0 <= k - d < |value| ensures marker[k] == value[k - d] {
        OccursAtIndex(value, marker, d, k - d);
      }
      assert AgreesAt(value, marker, d);
    }
  }

  lemma {:induction false} StaysAbsent(absent: string, text: string, value: string, name: string)
    requires value != "" && !Touches(absent, Marker(name))
    requires !Occurs(absent, text) || absent == value
    ensures !Occurs(absent, Replace(text, value, Marker(name)))
    decreases |text|
  {
    var marker := Marker(name);
    if !Occurs(value, text) {
      ReplaceAbsent(text, value, marker);
    } else {
      var before, after := SplitAtFirst(value, text);
      ReplaceAtFirst(before, value, after, marker);
      var rest := Replace(after, value, marker);
      if absent != value {
        PartsLack(absent, before, value, after);
      }
      StaysAbsent(absent, after, value, name);
      AbsentAroundMarker(absent, before, name, rest);
    }
  }

  lemma AbsentAroundMarker(absent: string, before: string, name: string, after: string)
    requires !Touches(absent, Marker(name)) && !Occurs(absent, before) && !Occurs(absent, after)
    ensures !Occurs(absent, before + Marker(name) + after)
  {
    var marker := Marker(name);
    var whole := before + marker + after;
    forall i | 0 <= i <= |whole| ensures !OccursAt(absent, whole, i) {
      if OccursAt(absent, whole, i) {
        MatchTouches(absent, before, marker, after, i);
        assert false;
      }
    }
  }

  /** A match in a text lies before a part of it, or after it, or touches it. */
  lemma MatchTouches(needle: string, before: string, mid: string, after: string, i: nat)
    requires OccursAt(needle, before + mid + after, i)
    ensures Occurs(needle, before) || Occurs(needle, after) || Touches(needle, mid)
  {
    var whole := before + mid + after;
    var d := i - |before|;
    if i + |needle| <= |before| {
      assert before[i..i + |needle|] == whole[i..i + |needle|];
      assert OccursAt(needle, before, i);
    } else if d >= |mid| {
      assert after[d - |mid|..d - |mid| + |needle|] == whole[i..i + |needle|];
      assert OccursAt(needle, after, d - |mid|);
    } else {
      forall k | 0 <= k < |mid| && 0 <= k - d < |needle| ensures mid[k] == needle[k - d] {
        OccursAtIndex(needle, whole, i, k - d);
      }
      assert AgreesAt(needle, mid, d);
    }
  }

  lemma PartsLack(absent: string, before: string, mid: string, after: string)
    requires !Occurs(absent, before + mid + after)
    ensures !Occurs(absent, before) && !Occurs(absent, after)
  {
    var text := before + mid + after;
    assert "" + before + (mid + after) == text;
    assert before + mid + after + "" == text;
    if Occurs(absent, before) {
      OccursInside(absent, "", before, mid + after);
      assert false;
    }
    if Occurs(absent, after) {
      OccursInside(absent, before + mid, after, "");
      assert false;
    }
  }

  /** Redaction completeness: when no value can touch its own or a later marker, no log keeps a
      secret, in whatever order the secrets come: a later pass never brings an earlier one back. */
  lemma {:induction false} RedactionComplete(log: string, secrets: seq<Secret>)
    requires NonEmpty(secrets) && MarkersHideSecrets(secrets)
    ensures Clean(Redact(log, secrets), secrets)
    decreases |secrets|
  {
    if secrets != [] {
      var init, last := secrets[..|secrets| - 1], secrets[|secrets| - 1];
      assert init + [last] == secrets;
      RedactSnoc(log, init, last);
      RedactionComplete(log, init);
      forall i | 0 <= i < |secrets| ensures !Occurs(secrets[i].value, Redact(log, secrets)) {
        assert i < |init| ==> init[i] == secrets[i];
        StaysAbsent(secrets[i].value, Redact(log, init), last.value, last.name);
      }
    }
  }

  /** A log without secrets is kept as it is. */
  lemma RedactionKeepsCleanLogs(log: string, secrets: seq<Secret>)
    requires NonEmpty(secrets) && Clean(log, secrets)
    ensures Redact(log, secrets) == log
  {
    assert secrets[..|secrets|] == secrets;
    RedactAbsent(log, secrets, |secrets|);
    assert secrets[|secrets|..] == [];
  }

  /** Completeness does need its condition: the marker of this secret shows its value again. */
  lemma MarkerCanLeak()
    ensures !CleansEveryLog([Secret("APP_SECRET", "redacted")])
  {
    var secrets := [Secret("APP_SECRET", "redacted")];
    var value := "redacted";
    ReplaceHere(value, "", Marker("APP_SECRET"));
    assert value + "" == value && secrets[1..] == [];
    assert Redact(value, secrets) == Marker("APP_SECRET");
    assert OccursAt(value, Marker("APP_SECRET"), 1);
    assert !Clean(Redact(value, secrets), secrets);
  }

  /** A value with an angle bracket can come back across the start of its marker, although the log that holds
      this value alone is cleaned. */
  lemma AngleCanLeak()
    ensures var secrets := [Secret("X_SECRET", "x<red")];
            CleansEachSecret(secrets) && !CleansEveryLog(secrets)
  {
    var secrets := [Secret("X_SECRET", "x<red")];
    var value, marker := "x<red", Marker("X_SECRET");
    assert secrets[1..] == [];
    ReplaceHere(value, "", marker);
    assert value + "" == value && marker + "" == marker;
    assert Redact(value, secrets) == marker;
    forall i | 0 <= i <= |marker| ensures !OccursAt(value, marker, i) {
      if OccursAt(value, marker, i) {
        OccursAtIndex(value, marker, i, 0);
        assert false;
      }
    }
    var log := "xx<red";
    assert log[1..] == value;
    DiffersAtOne(log, value);
    ReplaceStep(log, value, marker);
    var out := Redact(log, secrets);
    assert out == "x" + marker;
    assert out[0..5] == value;
    assert OccursAt(value, out, 0) && !Clean(out, secrets);
  }

  lemma DiffersAtOne(log: string, value: string)
    requires |log| >= 2 && |value| >= 2 && log[1] != value[1]
    ensures !OccursAt(value, log, 0)
  {
    if OccursAt(value, log, 0) {
      OccursAtIndex(value, log, 0, 1);
      assert false;
    }
  }

  /** An empty value puts a marker at every position of the log, the end included. */
  lemma EmptyValueFloods(left: string, right: string, name: string) returns (before: string, after: string)
    ensures Replace(left, "", Marker(name)) == before + Marker(name)
    ensures Replace(right, "", Marker(name)) == Marker(name) + after
    ensures Replace(left + right, "", Marker(name)) == before + Marker(name) + after
  {
    before, after := ReplaceEmpty(left, right, Marker(name));
  }

  /** With a line `name=` that gives no value, no log at all comes out clean. */
  lemma EmptyValueFails(secrets: seq<Secret>, i: nat, log: string)
    requires i < |secrets| && secrets[i].value == ""
    ensures !Clean(Redact(log, secrets), secrets) && !CleansEveryLog(secrets)
  {
    assert OccursAt("", Redact(log, secrets), 0);
    assert !Clean(Redact(log, secrets), secrets);
  }
}
