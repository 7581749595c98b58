/** Where the guarantees of orderly runs end: the crash accounts of every run, and runs that break each
    guarantee when its condition is not met. */
module CrashLimits {
  import opened Decimal
  import opened CrashProtocol
  import opened CrashSafety

  // --- Crashes and armings, in every run ------------------------------------------------------------------

  function Count(b: bool): nat
  {
    if b then 1 else 0
  }

  /** Crashes of workers that read the arming before another worker used it up. */
  function Strays(s: State, actions: seq<Action>): nat
    requires Runs(s, actions)
    decreases |actions|
  {
    if actions == [] then 0
    else Count(actions[0].Trap? && !s.armed) + Strays(Do(s, actions[0]), actions[1..])
  }

  /** Armings of an armed crash point. */
  function Rearmings(s: State, actions: seq<Action>): nat
    requires Runs(s, actions)
    decreases |actions|
  {
    if actions == [] then 0
    else Count(actions[0].ArmSet? && s.armed) + Rearmings(Do(s, actions[0]), actions[1..])
  }

  lemma CrashStep(s: State, a: Action)
    requires Enabled(s, a)
    ensures var t := Do(s, a);
            t.crashes + Count(t.armed) + Count(a.ArmSet? && s.armed) + s.armings
            == t.armings + Count(a.Trap? && !s.armed) + s.crashes + Count(s.armed)
  {
    HarnessFrame(s, a);
  }

  lemma {:induction false} CrashesAddUp(s: State, actions: seq<Action>)
    requires Runs(s, actions)
    ensures var t := After(s, actions);
            t.crashes + Count(t.armed) + Rearmings(s, actions) + s.armings
            == t.armings + Strays(s, actions) + s.crashes + Count(s.armed)
    decreases |actions|
  {
    if actions != [] {
      CrashStep(s, actions[0]);
      CrashesAddUp(Do(s, actions[0]), actions[1..]);
    }
  }

  /** With any number of live workers and any arming discipline: armings are conserved, and crashes exceed
      them if and only if more crashes were strays than armings are left over. */
  lemma CrashAccounts(operatorLabel: string, actions: seq<Action>)
    requires Runs(Init(operatorLabel), actions)
    ensures var s, t := Init(operatorLabel), After(Init(operatorLabel), actions);
            && t.crashes + Count(t.armed) + Rearmings(s, actions) == t.armings + Strays(s, actions)
            && (t.crashes <= t.armings <==> Strays(s, actions) <= Count(t.armed) + Rearmings(s, actions))
  {
    CrashesAddUp(Init(operatorLabel), actions);
  }

  // --- Runs that break the guarantees ---------------------------------------------------------------------

  const LABEL := "w"
  const FIRST := "w:1"
  const SECOND := "w:2"
  const ENTRY := "1-1"
  const OTHER := "2-1"

  /** Armings start only while the crash point is disarmed. */
  ghost predicate ArmsOnlyDisarmed(path: seq<Action>)
    requires Runs(Init(LABEL), path)
  {
    forall k | 0 <= k < |path| && path[k].ArmDelete? ::
      Runs(Init(LABEL), path[..k]) && !After(Init(LABEL), path[..k]).armed
  }

  /** One more step of a run. */
  lemma Step(path: seq<Action>, s: State, a: Action) returns (longer: seq<Action>, t: State)
    requires Runs(Init(LABEL), path) && After(Init(LABEL), path) == s && Enabled(s, a)
    ensures longer == path + [a] && t == Do(s, a)
    ensures Runs(Init(LABEL), longer) && After(Init(LABEL), longer) == t
    ensures ArmsOnlyDisarmed(path) && (a.ArmDelete? ==> !s.armed) ==> ArmsOnlyDisarmed(longer)
    ensures Applications(Init(LABEL), longer, ENTRY)
         == Applications(Init(LABEL), path, ENTRY) + Count(AppliesEntry(s, a, ENTRY))
  {
    longer, t := path + [a], Do(s, a);
    RunsConcat(Init(LABEL), path, [a]);
    ApplicationsSnoc(Init(LABEL), path, a, ENTRY);
    assert Runs(s, [a]) && After(s, [a]) == t;
    assert longer[..|path|] == path;
    assert forall k | 0 <= k < |path| :: longer[..k] == path[..k];
  }

  lemma {:induction false} ApplicationsSnoc(s: State, path: seq<Action>, a: Action, id: string)
    requires Runs(s, path) && Enabled(After(s, path), a)
    ensures Runs(s, path + [a])
    ensures Applications(s, path + [a], id)
         == Applications(s, path, id) + Count(AppliesEntry(After(s, path), a, id))
    decreases |path|
  {
    var longer := path + [a];
    if path == [] {
      assert longer == [a] && longer[1..] == [];
    } else {
      assert longer[1..] == path[1..] + [a];
      ApplicationsSnoc(Do(s, path[0]), path[1..], a, id);
    }
  }

  lemma AreStreamIds()
    ensures IsStreamId(ENTRY) && IsStreamId(OTHER)
  {
    assert IsStreamId(ENTRY) by {
      assert ENTRY[1..] == "-1" && DigitRun("-1") == 0 && DigitRun(ENTRY) == 1;
    }
    assert IsStreamId(OTHER) by {
      assert OTHER[1..] == "-1" && DigitRun("-1") == 0 && DigitRun(OTHER) == 1;
    }
  }

  lemma Armed() returns (path: seq<Action>, s: State)
    ensures Runs(Init(LABEL), path) && After(Init(LABEL), path) == s
    ensures s == Init(LABEL).(stream := map[ENTRY := "e", OTHER := "f"], waiting := {ENTRY, OTHER},
                              armed := true, armings := 1)
    ensures Applications(Init(LABEL), path, ENTRY) == 0
    ensures ArmsOnlyDisarmed(path)
  {
    AreStreamIds();
    path, s := Step([], Init(LABEL), Add(ENTRY, "e"));
    path, s := Step(path, s, Add(OTHER, "f"));
    path, s := Step(path, s, ArmDelete);
    path, s := Step(path, s, ArmSet);
  }

  /** Up to here the run is orderly: one worker has read the arming, and is about to crash. */
  lemma AboutToCrash() returns (path: seq<Action>, s: State)
    ensures Runs(Init(LABEL), path) && After(Init(LABEL), path) == s
    ensures s.armed && !s.arming && s.observed.None? && s.armings == 1 && s.crashes == 0 && s.dead == {}
    ensures s.operatorLabel == LABEL && s.stream == map[ENTRY := "e", OTHER := "f"] && s.waiting == {OTHER}
    ensures s.pending == map[ENTRY := Pending(FIRST, 1)] && s.workers == map[FIRST := Trapped(ENTRY, 1)]
    ensures ArmsOnlyDisarmed(path) && Applications(Init(LABEL), path, ENTRY) == 1 && s.effects == ["e"]
  {
    path, s := Armed();
    path, s := Step(path, s, Start(FIRST));
    path, s := Step(path, s, Deliver(FIRST, ENTRY));
    path, s := Step(path, s, Apply(FIRST));
    path, s := Step(path, s, Get(FIRST));
  }

  /** With two live workers the record can disagree with the group: the second reclaims the entry before the
      first crashes, and the harness's check fails. */
  lemma StolenEntry() returns (path: seq<Action>)
    ensures Runs(Init(LABEL), path)
    ensures var s := After(Init(LABEL), path); s.observed.Some? && !HarnessAccepts(s)
  {
    var s;
    path, s := AboutToCrash();
    path, s := Step(path, s, Start(SECOND));
    path, s := Step(path, s, Reclaim(SECOND, ENTRY));
    path, s := Step(path, s, Trap(FIRST));
    assert s.pending[ENTRY].owner == SECOND;
  }

  /** With two live workers one arming can crash both. */
  lemma TwoCrashes() returns (path: seq<Action>)
    ensures Runs(Init(LABEL), path)
    ensures After(Init(LABEL), path).armings == 1 && After(Init(LABEL), path).crashes == 2
  {
    var s;
    path, s := AboutToCrash();
    path, s := Step(path, s, Start(SECOND));
    path, s := Step(path, s, Deliver(SECOND, OTHER));
    path, s := Step(path, s, Apply(SECOND));
    path, s := Step(path, s, Get(SECOND));
    path, s := Step(path, s, Trap(FIRST));
    path, s := Step(path, s, Trap(SECOND));
  }

  /** With an arming that starts while armed, one live worker is enough to end up armed and observed. */
  lemma ArmedAndObserved() returns (path: seq<Action>)
    ensures Runs(Init(LABEL), path)
    ensures After(Init(LABEL), path).armed && After(Init(LABEL), path).observed.Some?
  {
    var s;
    path, s := AboutToCrash();
    path, s := Step(path, s, ArmDelete);
    path, s := Step(path, s, Trap(FIRST));
    path, s := Step(path, s, ArmSet);
  }

  /** Armings that start only while disarmed are not enough either: with two live workers about to crash, the
      second can crash inside the next arming. */
  lemma CrashInsideNextArming() returns (path: seq<Action>)
    ensures Runs(Init(LABEL), path) && ArmsOnlyDisarmed(path)
    ensures After(Init(LABEL), path).armed && After(Init(LABEL), path).observed.Some?
  {
    var s;
    path, s := AboutToCrash();
    path, s := Step(path, s, Start(SECOND));
    path, s := Step(path, s, Deliver(SECOND, OTHER));
    path, s := Step(path, s, Apply(SECOND));
    path, s := Step(path, s, Get(SECOND));
    path, s := Step(path, s, Trap(FIRST));
    path, s := Step(path, s, ArmDelete);
    path, s := Step(path, s, Trap(SECOND));
    path, s := Step(path, s, ArmSet);
  }

  lemma CrashedOnce() returns (path: seq<Action>, s: State)
    ensures Runs(Init(LABEL), path) && After(Init(LABEL), path) == s
    ensures Applications(Init(LABEL), path, ENTRY) == 1
    ensures s.operatorLabel == LABEL && s.workers == map[] && s.dead == {FIRST}
    ensures s.pending == map[ENTRY := Pending(FIRST, 1)]
    ensures s.stream == map[ENTRY := "e", OTHER := "f"] && s.effects == ["e"]
  {
    path, s := AboutToCrash();
    path, s := Step(path, s, Trap(FIRST));
    path, s := Step(path, s, Kill(FIRST));
  }

  /** What the assumption on effects is for: even with one live worker a crash makes the effect of an entry be
      applied twice, and it is there once. */
  lemma AppliedTwice() returns (path: seq<Action>)
    ensures Runs(Init(LABEL), path) && Applications(Init(LABEL), path, ENTRY) == 2
    ensures After(Init(LABEL), path).effects == ["e"]
  {
    var s;
    path, s := CrashedOnce();
    path, s := Step(path, s, Start(SECOND));
    path, s := Step(path, s, Reclaim(SECOND, ENTRY));
    path, s := Step(path, s, Apply(SECOND));
  }

  /** The same event under two entry ids, both added and both acknowledged, and its effect there once. */
  lemma ReplayedEntry() returns (path: seq<Action>)
    ensures Runs(Init("w"), [Add("1-1", "e"), Add("2-1", "e")])
    ensures Runs(Init("w"), path) && [Add("1-1", "e"), Add("2-1", "e")] <= path
    ensures var s := After(Init("w"), path);
            && s.stream == map["1-1" := "e", "2-1" := "e"] && s.acked == {"1-1", "2-1"} && s.effects == ["e"]
  {
    var s;
    path, s := BothAdded();
    path, s := Step(path, s, Start(FIRST));
    path, s := AckNext(path, s, ENTRY);
    path, s := AckNext(path, s, OTHER);
  }

  lemma BothAdded() returns (path: seq<Action>, s: State)
    ensures path == [Add(ENTRY, "e"), Add(OTHER, "e")]
    ensures Runs(Init(LABEL), path) && After(Init(LABEL), path) == s
    ensures s == Init(LABEL).(stream := map[ENTRY := "e", OTHER := "e"], waiting := {ENTRY, OTHER})
  {
    AreStreamIds();
    path, s := Step([], Init(LABEL), Add(ENTRY, "e"));
    path, s := Step(path, s, Add(OTHER, "e"));
  }

  lemma TakeNext(path: seq<Action>, s: State, id: string) returns (longer: seq<Action>, t: State)
    requires Runs(Init(LABEL), path) && After(Init(LABEL), path) == s
    requires In(s, FIRST, Idle) && id in s.waiting && id in s.stream && s.stream[id] == "e"
    requires s.effects == [] || s.effects == ["e"]
    ensures Runs(Init(LABEL), longer) && After(Init(LABEL), longer) == t && path <= longer
    ensures t == s.(waiting := s.waiting - {id}, pending := s.pending[id := Pending(FIRST, 1)],
                    workers := s.workers[FIRST := Applied(id, 1)], effects := ["e"])
  {
    longer, t := Step(path, s, Deliver(FIRST, id));
    longer, t := Step(longer, t, Apply(FIRST));
    assert s.workers[FIRST := Working(id, 1)][FIRST := Applied(id, 1)] == s.workers[FIRST := Applied(id, 1)];
  }

  /** The worker takes a waiting entry of that event and acknowledges it. */
  lemma AckNext(path: seq<Action>, s: State, id: string) returns (longer: seq<Action>, t: State)
    requires Runs(Init(LABEL), path) && After(Init(LABEL), path) == s
    requires In(s, FIRST, Idle) && !s.armed && id in s.waiting && id in s.stream && s.stream[id] == "e"
    requires s.pending == map[] && (s.effects == [] || s.effects == ["e"])
    ensures Runs(Init(LABEL), longer) && After(Init(LABEL), longer) == t && path <= longer
    ensures In(t, FIRST, Idle) && !t.armed && t.stream == s.stream && t.waiting == s.waiting - {id}
    ensures t.pending == map[] && t.acked == s.acked + {id} && t.effects == ["e"]
  {
    longer, t := TakeNext(path, s, id);
    longer, t := Step(longer, t, Get(FIRST));
    longer, t := Step(longer, t, Ack(FIRST));
  }
}
