/** Completeness of redaction is decided by logs of bounded length, for every list of secrets whatever.

    Read as a machine, the redactor remembers only, for each secret, how much of its value the end of that
    pass's input so far has spelled. A log that keeps a secret can be cut wherever this memory repeats. */
module RedactorDecision {
  import opened Text
  import opened Redactor

  // --- One pass, character by character -------------------------------------------------------------------

  /** A proper prefix of the value: what a pass holds back because a match may still come of it. */
  predicate IsTail(tail: string, value: string)
  {
    |tail| < |value| && tail <= value
  }

  /** The longest end of the text that a match of the value may start with. */
  function Trim(text: string, value: string): (tail: string)
    requires value != ""
    ensures |tail| <= |text| && text[|text| - |tail|..] == tail
    ensures IsTail(tail, value)
  {
    if IsTail(text, value) then text
    else
      var tail := Trim(text[1..], value);
      assert text[|text| - |tail|..] == text[1..][|text| - 1 - |tail|..];
      tail
  }

  /** What a pass emits for one more character, and what it then holds back. */
  function Push(tail: string, c: char, secret: Secret): (r: (string, string))
    requires IsTail(tail, secret.value)
    ensures IsTail(r.1, secret.value)
  {
    var text := tail + [c];
    if text == secret.value then (Marker(secret.name), "")
    else
      var rest := Trim(text, secret.value);
      (text[..|text| - |rest|], rest)
  }

  function Pass(text: string, secret: Secret): string
  {
    Replace(text, secret.value, Marker(secret.name))
  }

  /** A match at the start of the text, had more come, would have shown by now. */
  lemma NoMatchAtStart(text: string, more: string, value: string)
    requires text != "" && !OccursAt(value, text, 0) && !IsTail(text, value)
    ensures !OccursAt(value, text + more, 0)
  {
    var whole := text + more;
    if |value| <= |text| {
      assert whole[0..|value|] == text[0..|value|];
    } else if |value| <= |whole| {
      assert whole[0..|value|][..|text|] == text;
    }
  }

  lemma PassSkips(text: string, more: string, secret: Secret)
    requires secret.value != "" && text != "" && !OccursAt(secret.value, text + more, 0)
    ensures Pass(text + more, secret) == [text[0]] + Pass(text[1..] + more, secret)
  {
    var whole := text + more;
    ReplaceStep(whole, secret.value, Marker(secret.name));
    assert whole[0] == text[0] && whole[1..] == text[1..] + more;
  }

  /** No match starts before the trimmed end. */
  lemma {:induction false} TrimSkips(text: string, more: string, secret: Secret)
    requires secret.value != "" && |text| <= |secret.value| && text != secret.value
    ensures var rest := Trim(text, secret.value);
            Pass(text + more, secret) == text[..|text| - |rest|] + Pass(rest + more, secret)
    decreases |text|
  {
    var rest := Trim(text, secret.value);
    if IsTail(text, secret.value) {
      assert text[..0] == "";
    } else {
      NoMatchAtStart(text, more, secret.value);
      PassSkips(text, more, secret);
      TrimSkips(text[1..], more, secret);
      assert Trim(text[1..], secret.value) == rest;
      SkipOne(text, |rest|, Pass(text[1..] + more, secret), Pass(rest + more, secret));
    }
  }

  lemma SkipOne(text: string, n: nat, next: string, after: string)
    requires n < |text| && next == text[1..][..|text| - 1 - n] + after
    ensures [text[0]] + next == text[..|text| - n] + after
  {
  }

  lemma PushStep(tail: string, c: char, more: string, secret: Secret)
    requires IsTail(tail, secret.value)
    ensures var (out, rest) := Push(tail, c, secret);
            Pass(tail + [c] + more, secret) == out + Pass(rest + more, secret)
  {
    var text := tail + [c];
    if text == secret.value {
      ReplaceHere(secret.value, more, Marker(secret.name));
      assert "" + more == more;
    } else {
      TrimSkips(text, more, secret);
    }
  }

  /** The same for a piece of text. */
  function Feed(tail: string, piece: string, secret: Secret): (r: (string, string))
    requires IsTail(tail, secret.value)
    ensures IsTail(r.1, secret.value)
    decreases |piece|
  {
    if piece == "" then ("", tail)
    else
      var first := Push(tail, piece[0], secret);
      var rest := Feed(first.1, piece[1..], secret);
      (first.0 + rest.0, rest.1)
  }

  /** A first character, and what is known of the rest. */
  lemma PushThenFeed(tail: string, c: char, piece: string, more: string, secret: Secret, out: string, last: string)
    requires IsTail(tail, secret.value)
    requires Pass(Push(tail, c, secret).1 + piece + more, secret) == out + Pass(last + more, secret)
    ensures Pass(tail + ([c] + piece) + more, secret) == Push(tail, c, secret).0 + out + Pass(last + more, secret)
  {
    PushStep(tail, c, piece + more, secret);
    Rejoin(tail, [c], piece, more);
    Rejoin(Push(tail, c, secret).1, [], piece, more);
    assert [] + piece == piece && Push(tail, c, secret).1 + [] == Push(tail, c, secret).1;
    var first, after := Push(tail, c, secret).0, Pass(last + more, secret);
    assert first + (out + after) == first + out + after;
  }

  lemma Rejoin(a: string, b: string, c: string, d: string)
    ensures a + (b + c) + d == a + b + (c + d)
  {
  }

  lemma {:induction false} FeedStep(tail: string, piece: string, more: string, secret: Secret)
    requires IsTail(tail, secret.value)
    ensures Pass(tail + piece + more, secret)
         == Feed(tail, piece, secret).0 + Pass(Feed(tail, piece, secret).1 + more, secret)
    decreases |piece|
  {
    if piece == "" {
      assert tail + piece + more == tail + more;
    } else {
      var first := Push(tail, piece[0], secret);
      var rest := Feed(first.1, piece[1..], secret);
      assert Feed(tail, piece, secret) == (first.0 + rest.0, rest.1);
      FeedStep(first.1, piece[1..], more, secret);
      PushThenFeed(tail, piece[0], piece[1..], more, secret, rest.0, rest.1);
      assert piece == [piece[0]] + piece[1..];
    }
  }

  // --- All passes ---------------------------------------------------------------------------------------

  /** What each pass holds back. */
  predicate AreTails(tails: seq<string>, secrets: seq<Secret>)
  {
    |tails| == |secrets| && forall i | 0 <= i < |secrets| :: IsTail(tails[i], secrets[i].value)
  }

  /** What comes out in the end for the rest of a log, when the passes hold these tails. */
  function Flow(tails: seq<string>, text: string, secrets: seq<Secret>): string
    requires |tails| == |secrets|
    decreases |secrets|
  {
    if secrets == [] then text else Flow(tails[1..], Pass(tails[0] + text, secrets[0]), secrets[1..])
  }

  function FeedAll(tails: seq<string>, piece: string, secrets: seq<Secret>): (r: (string, seq<string>))
    requires AreTails(tails, secrets)
    ensures AreTails(r.1, secrets)
    decreases |secrets|
  {
    if secrets == [] then (piece, [])
    else
      var (out, rest) := Feed(tails[0], piece, secrets[0]);
      var (last, others) := FeedAll(tails[1..], out, secrets[1..]);
      (last, [rest] + others)
  }

  lemma {:induction false} FeedAllStep(tails: seq<string>, piece: string, more: string, secrets: seq<Secret>)
    requires AreTails(tails, secrets)
    ensures var (out, rest) := FeedAll(tails, piece, secrets);
            Flow(tails, piece + more, secrets) == out + Flow(rest, more, secrets)
    decreases |secrets|
  {
    if secrets != [] {
      var (out, rest) := Feed(tails[0], piece, secrets[0]);
      FeedStep(tails[0], piece, more, secrets[0]);
      assert tails[0] + (piece + more) == tails[0] + piece + more;
      FeedAllStep(tails[1..], out, Pass(rest + more, secrets[0]), secrets[1..]);
    }
  }

  function Empties(n: nat): seq<string>
  {
    seq(n, i => "")
  }

  lemma {:induction false} FlowIsRedact(text: string, secrets: seq<Secret>)
    ensures Flow(Empties(|secrets|), text, secrets) == Redact(text, secrets)
    decreases |secrets|
  {
    if secrets != [] {
      assert Empties(|secrets|)[1..] == Empties(|secrets| - 1);
      assert "" + text == text;
      FlowIsRedact(Pass(text, secrets[0]), secrets[1..]);
    }
  }

  // --- Watching for a secret in what comes out ------------------------------------------------------------

  /** The whole memory: how much of the secret the output's end spells, and what the passes hold back. */
  datatype Memory = Memory(seen: string, tails: seq<string>)

  predicate IsMemory(m: Memory, needle: string, secrets: seq<Secret>)
  {
    IsTail(m.seen, needle) && AreTails(m.tails, secrets)
  }

  /** With this memory the rest of a log makes the secret come out. */
  predicate Leaks(m: Memory, text: string, needle: string, secrets: seq<Secret>)
    requires IsMemory(m, needle, secrets)
  {
    Occurs(needle, m.seen + Flow(m.tails, text, secrets))
  }

  /** The next character makes the secret come out by itself. */
  predicate LeaksNow(m: Memory, c: char, needle: string, secrets: seq<Secret>)
    requires IsMemory(m, needle, secrets)
  {
    Occurs(needle, m.seen + FeedAll(m.tails, [c], secrets).0)
  }

  function Next(m: Memory, c: char, needle: string, secrets: seq<Secret>): (next: Memory)
    requires IsMemory(m, needle, secrets)
    ensures IsMemory(next, needle, secrets)
  {
    var (out, tails) := FeedAll(m.tails, [c], secrets);
    Memory(Trim(m.seen + out, needle), tails)
  }

  lemma {:induction false} TrimKeepsMatches(text: string, more: string, needle: string)
    requires needle != "" && !Occurs(needle, text)
    ensures Occurs(needle, text + more) <==> Occurs(needle, Trim(text, needle) + more)
    decreases |text|
  {
    if !IsTail(text, needle) {
      var whole := text + more;
      assert text != "" && !OccursAt(needle, text, 0);
      NoMatchAtStart(text, more, needle);
      assert whole[1..] == text[1..] + more;
      OccursLater(needle, whole);
      assert !Occurs(needle, text[1..]) by {
        if Occurs(needle, text[1..]) {
          OccursInTail(needle, text);
        }
      }
      TrimKeepsMatches(text[1..], more, needle);
    }
  }

  lemma OccursLater(needle: string, hay: string)
    requires hay != "" && !OccursAt(needle, hay, 0)
    ensures Occurs(needle, hay) <==> Occurs(needle, hay[1..])
  {
    if Occurs(needle, hay) {
      var i: nat :| i <= |hay| && OccursAt(needle, hay, i);
      OccursAtInTail(needle, hay, i - 1);
      assert OccursAt(needle, hay[1..], i - 1);
    } else if Occurs(needle, hay[1..]) {
      OccursInTail(needle, hay);
    }
  }

  /** The memory after a character is all that the rest of the log needs. */
  lemma LeaksStep(m: Memory, text: string, needle: string, secrets: seq<Secret>)
    requires IsMemory(m, needle, secrets) && text != ""
    ensures Leaks(m, text, needle, secrets)
       <==> || LeaksNow(m, text[0], needle, secrets)
            || Leaks(Next(m, text[0], needle, secrets), text[1..], needle, secrets)
    ensures LeaksNow(m, text[0], needle, secrets) ==> Leaks(m, text, needle, secrets)
  {
    var (out, tails) := FeedAll(m.tails, [text[0]], secrets);
    var more := Flow(tails, text[1..], secrets);
    assert text == [text[0]] + text[1..];
    FeedAllStep(m.tails, [text[0]], text[1..], secrets);
    assert m.seen + (out + more) == m.seen + out + more;
    if Occurs(needle, m.seen + out) {
      OccursLeft(needle, m.seen + out, more);
    } else {
      TrimKeepsMatches(m.seen + out, more, needle);
    }
  }

  // --- Cutting a log where the memory repeats -------------------------------------------------------------

  /** All memories along the text, up to where the secret comes out, are among these. */
  predicate StaysIn(available: set<Memory>, m: Memory, text: string, needle: string, secrets: seq<Secret>)
    requires IsMemory(m, needle, secrets)
    decreases |text|
  {
    && m in available
    && (text != "" && !LeaksNow(m, text[0], needle, secrets) ==>
          StaysIn(available, Next(m, text[0], needle, secrets), text[1..], needle, secrets))
  }

  predicate Visits(goal: Memory, m: Memory, text: string, needle: string, secrets: seq<Secret>)
    requires IsMemory(m, needle, secrets)
    decreases |text|
  {
    || m == goal
    || (text != "" && !LeaksNow(m, text[0], needle, secrets)
        && Visits(goal, Next(m, text[0], needle, secrets), text[1..], needle, secrets))
  }

  lemma {:induction false} AvoidsVisited(available: set<Memory>, goal: Memory, m: Memory, text: string,
                                         needle: string, secrets: seq<Secret>)
    requires IsMemory(m, needle, secrets) && StaysIn(available, m, text, needle, secrets)
    requires !Visits(goal, m, text, needle, secrets)
    ensures StaysIn(available - {goal}, m, text, needle, secrets)
    decreases |text|
  {
    if text != "" && !LeaksNow(m, text[0], needle, secrets) {
      AvoidsVisited(available, goal, Next(m, text[0], needle, secrets), text[1..], needle, secrets);
    }
  }

  /** The rest of the text from a visit on. */
  lemma {:induction false} FromVisit(available: set<Memory>, goal: Memory, m: Memory, text: string,
                                     needle: string, secrets: seq<Secret>) returns (rest: string)
    requires IsMemory(m, needle, secrets) && IsMemory(goal, needle, secrets)
    requires StaysIn(available, m, text, needle, secrets) && Leaks(m, text, needle, secrets)
    requires Visits(goal, m, text, needle, secrets)
    ensures |rest| <= |text|
    ensures StaysIn(available, goal, rest, needle, secrets) && Leaks(goal, rest, needle, secrets)
    decreases |text|
  {
    if m == goal {
      rest := text;
    } else {
      LeaksStep(m, text, needle, secrets);
      rest := FromVisit(available, goal, Next(m, text[0], needle, secrets), text[1..], needle, secrets);
    }
  }

  /** What leaks after a character leaks with it. */
  lemma LeaksFirst(m: Memory, c: char, rest: string, needle: string, secrets: seq<Secret>)
    requires IsMemory(m, needle, secrets) && Leaks(Next(m, c, needle, secrets), rest, needle, secrets)
    ensures Leaks(m, [c] + rest, needle, secrets)
  {
    var text := [c] + rest;
    assert text[0] == c && text[1..] == rest;
    LeaksStep(m, text, needle, secrets);
  }

  lemma OneFewer(available: set<Memory>, m: Memory)
    requires m in available
    ensures |available - {m}| == |available| - 1
  {
  }

  /** One character is enough when it makes the secret come out by itself. */
  lemma ShortAtOnce(available: set<Memory>, m: Memory, c: char, needle: string, secrets: seq<Secret>)
    requires IsMemory(m, needle, secrets) && m in available && LeaksNow(m, c, needle, secrets)
    ensures |[c]| <= |available| && Leaks(m, [c], needle, secrets)
  {
    OneFewer(available, m);
    LeaksStep(m, [c], needle, secrets);
  }

  /** Otherwise the rest of the text leaks, and its memories are available too. */
  lemma RestLeaks(available: set<Memory>, m: Memory, text: string, needle: string, secrets: seq<Secret>)
    requires IsMemory(m, needle, secrets) && text != "" && !LeaksNow(m, text[0], needle, secrets)
    requires StaysIn(available, m, text, needle, secrets) && Leaks(m, text, needle, secrets)
    ensures StaysIn(available, Next(m, text[0], needle, secrets), text[1..], needle, secrets)
    ensures Leaks(Next(m, text[0], needle, secrets), text[1..], needle, secrets)
  {
    LeaksStep(m, text, needle, secrets);
  }

  lemma ShortWithFirst(available: set<Memory>, m: Memory, c: char, rest: string, needle: string, secrets: seq<Secret>)
    requires IsMemory(m, needle, secrets) && m in available && |rest| <= |available - {m}|
    requires Leaks(Next(m, c, needle, secrets), rest, needle, secrets)
    ensures |[c] + rest| <= |available| && Leaks(m, [c] + rest, needle, secrets)
  {
    OneFewer(available, m);
    LeaksFirst(m, c, rest, needle, secrets);
  }

  /** A leaking text can be cut down to as many characters as there are memories. */
  lemma {:induction false} Shorten(available: set<Memory>, m: Memory, text: string,
                                   needle: string, secrets: seq<Secret>) returns (short: string)
    requires IsMemory(m, needle, secrets)
    requires StaysIn(available, m, text, needle, secrets) && Leaks(m, text, needle, secrets)
    ensures |short| <= |available| && Leaks(m, short, needle, secrets)
    decreases |available|, |text|
  {
    if text == "" {
      short := "";
    } else if LeaksNow(m, text[0], needle, secrets) {
      ShortAtOnce(available, m, text[0], needle, secrets);
      short := [text[0]];
    } else {
      var next := Next(m, text[0], needle, secrets);
      RestLeaks(available, m, text, needle, secrets);
      if Visits(m, next, text[1..], needle, secrets) {
        var rest := FromVisit(available, m, next, text[1..], needle, secrets);
        short := Shorten(available, m, rest, needle, secrets);
      } else {
        AvoidsVisited(available, m, next, text[1..], needle, secrets);
        OneFewer(available, m);
        var rest := Shorten(available - {m}, next, text[1..], needle, secrets);
        ShortWithFirst(available, m, text[0], rest, needle, secrets);
        short := [text[0]] + rest;
      }
    }
  }

  // --- How many memories there are --------------------------------------------------------------------------

  function Product(secrets: seq<Secret>): nat
  {
    if secrets == [] then 1 else |secrets[0].value| * Product(secrets[1..])
  }

  ghost function TailsUpTo(n: nat, secrets: seq<Secret>): set<seq<string>>
    requires secrets != [] && n <= |secrets[0].value|
    decreases |secrets|, 0, n
  {
    if n == 0 then {}
    else
      TailsUpTo(n - 1, secrets)
      + (set rest | rest in AllTails(secrets[1..]) :: [secrets[0].value[..n - 1]] + rest)
  }

  ghost function AllTails(secrets: seq<Secret>): set<seq<string>>
    decreases |secrets|, 1
  {
    if secrets == [] then {[]} else TailsUpTo(|secrets[0].value|, secrets)
  }

  lemma {:induction false} AllTailsHas(tails: seq<string>, secrets: seq<Secret>)
    requires AreTails(tails, secrets)
    ensures tails in AllTails(secrets)
    decreases |secrets|
  {
    if secrets != [] {
      AllTailsHas(tails[1..], secrets[1..]);
      TailsUpToHas(tails, |secrets[0].value|, secrets);
    } else {
      assert tails == [];
    }
  }

  lemma {:induction false} TailsUpToHas(tails: seq<string>, n: nat, secrets: seq<Secret>)
    requires secrets != [] && |tails| == |secrets| && |tails[0]| < n <= |secrets[0].value|
    requires tails[0] <= secrets[0].value && tails[1..] in AllTails(secrets[1..])
    ensures tails in TailsUpTo(n, secrets)
    decreases n
  {
    if |tails[0]| < n - 1 {
      TailsUpToHas(tails, n - 1, secrets);
    } else {
      assert tails[0] == secrets[0].value[..n - 1];
      assert tails == [tails[0]] + tails[1..];
    }
  }

  lemma {:induction false} PrefixedSize(first: string, rests: set<seq<string>>)
    ensures |set rest | rest in rests :: [first] + rest| <= |rests|
    decreases rests
  {
    var image := set rest | rest in rests :: [first] + rest;
    if rest :| rest in rests {
      var fewer := rests - {rest};
      PrefixedSize(first, fewer);
      var smaller := set r | r in fewer :: [first] + r;
      assert image == smaller + {[first] + rest};
    } else {
      assert image == {};
    }
  }

  lemma {:induction false} AllTailsSize(secrets: seq<Secret>)
    ensures |AllTails(secrets)| <= Product(secrets)
    decreases |secrets|, 1
  {
    if secrets != [] {
      TailsUpToSize(|secrets[0].value|, secrets);
    }
  }

  lemma {:induction false} TailsUpToSize(n: nat, secrets: seq<Secret>)
    requires secrets != [] && n <= |secrets[0].value|
    ensures |TailsUpTo(n, secrets)| <= n * Product(secrets[1..])
    decreases |secrets|, 0, n
  {
    if n > 0 {
      var first := secrets[0].value[..n - 1];
      var image := set rest | rest in AllTails(secrets[1..]) :: [first] + rest;
      TailsUpToSize(n - 1, secrets);
      AllTailsSize(secrets[1..]);
      PrefixedSize(first, AllTails(secrets[1..]));
      assert TailsUpTo(n, secrets) == TailsUpTo(n - 1, secrets) + image;
      assert n * Product(secrets[1..]) == (n - 1) * Product(secrets[1..]) + Product(secrets[1..]);
    }
  }

  ghost function Memories(watched: seq<Secret>): set<Memory>
  {
    set t | t in AllTails(watched) && t != [] :: Memory(t[0], t[1..])
  }

  lemma {:induction false} MemoriesSize(tails: set<seq<string>>)
    ensures |set t | t in tails && t != [] :: Memory(t[0], t[1..])| <= |tails|
    decreases tails
  {
    var image := set t | t in tails && t != [] :: Memory(t[0], t[1..]);
    if t :| t in tails {
      var fewer := tails - {t};
      MemoriesSize(fewer);
      var smaller := set r | r in fewer && r != [] :: Memory(r[0], r[1..]);
      if t == [] {
        assert image == smaller;
      } else {
        assert image == smaller + {Memory(t[0], t[1..])};
      }
    } else {
      assert image == {};
    }
  }

  lemma IsAmongMemories(m: Memory, needle: Secret, secrets: seq<Secret>)
    requires IsMemory(m, needle.value, secrets)
    ensures m in Memories([needle] + secrets)
  {
    var t := [m.seen] + m.tails;
    AllTailsHas(t, [needle] + secrets);
    assert t[0] == m.seen && t[1..] == m.tails;
  }

  lemma {:induction false} AllStayIn(m: Memory, text: string, needle: Secret, secrets: seq<Secret>)
    requires IsMemory(m, needle.value, secrets)
    ensures StaysIn(Memories([needle] + secrets), m, text, needle.value, secrets)
    decreases |text|
  {
    IsAmongMemories(m, needle, secrets);
    if text != "" && !LeaksNow(m, text[0], needle.value, secrets) {
      AllStayIn(Next(m, text[0], needle.value, secrets), text[1..], needle, secrets);
    }
  }

  // --- The decision -----------------------------------------------------------------------------------------

  /** A log that keeps the secret can be cut down to a short one that does. */
  lemma ShortLeak(log: string, needle: Secret, secrets: seq<Secret>) returns (short: string)
    requires NonEmpty(secrets) && needle in secrets && Occurs(needle.value, Redact(log, secrets))
    ensures |short| <= |needle.value| * Product(secrets) && Occurs(needle.value, Redact(short, secrets))
  {
    var m := Memory("", Empties(|secrets|));
    var watched := [needle] + secrets;
    FlowIsRedact(log, secrets);
    assert "" + Redact(log, secrets) == Redact(log, secrets);
    AllStayIn(m, log, needle, secrets);
    short := Shorten(Memories(watched), m, log, needle.value, secrets);
    MemoriesSize(AllTails(watched));
    AllTailsSize(watched);
    assert watched[1..] == secrets;
    FlowIsRedact(short, secrets);
    assert "" + Redact(short, secrets) == Redact(short, secrets);
  }

  function Longest(secrets: seq<Secret>): (n: nat)
    ensures forall i | 0 <= i < |secrets| :: |secrets[i].value| <= n
  {
    if secrets == [] then 0
    else
      var n := Longest(secrets[1..]);
      if |secrets[0].value| > n then |secrets[0].value| else n
  }

  /** How long a log has to be at most for every leak to show. */
  function Bound(secrets: seq<Secret>): nat
  {
    Longest(secrets) * Product(secrets)
  }

  ghost predicate CleansShortLogs(secrets: seq<Secret>)
  {
    forall log: string | |log| <= Bound(secrets) :: Clean(Redact(log, secrets), secrets)
  }

  lemma Scale(a: nat, b: nat, unit: nat)
    requires a <= b
    ensures a * unit <= b * unit
  {
  }

  /** For every list of secrets, whatever characters its values hold: the redactor cleans every log if and only
      if it cleans every log up to the bound. */
  lemma ShortLogsDecide(secrets: seq<Secret>)
    ensures CleansEveryLog(secrets) <==> CleansShortLogs(secrets)
  {
    if CleansShortLogs(secrets) {
      forall i | 0 <= i < |secrets| ensures secrets[i].value != "" {
        assert OccursAt(secrets[i].value[..0], Redact("", secrets), 0);
        assert Clean(Redact("", secrets), secrets);
      }
      forall log: string, i | 0 <= i < |secrets| ensures !Occurs(secrets[i].value, Redact(log, secrets)) {
        if Occurs(secrets[i].value, Redact(log, secrets)) {
          var short := ShortLeak(log, secrets[i], secrets);
          Scale(|secrets[i].value|, Longest(secrets), Product(secrets));
          assert !Clean(Redact(short, secrets), secrets);
          assert false;
        }
      }
    }
  }
}
