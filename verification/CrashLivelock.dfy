/** Why bounded work needs one live worker: two can take an entry from each other for ever. */
module CrashLivelock {
  import opened CrashProtocol
  import opened CrashProgress
  import opened CrashLimits

  lemma {:induction false} PaidSnoc(path: seq<Action>, a: Action)
    ensures ProgressSteps(path + [a]) == ProgressSteps(path) + (if IsProgress(a) then 1 else 0)
    ensures Fuel(path + [a]) == Fuel(path) + (if IsProgress(a) then 0 else Gain(a))
    decreases |path|
  {
    var longer := path + [a];
    if path == [] {
      assert longer == [a] && longer[1..] == [];
    } else {
      assert longer[1..] == path[1..] + [a];
      PaidSnoc(path[1..], a);
    }
  }

  /** A run from the start, how many progress steps it has, and what the environment put in. */
  ghost predicate Reaches(path: seq<Action>, s: State, steps: nat, fuel: nat)
  {
    && Runs(Init(LABEL), path) && After(Init(LABEL), path) == s
    && ProgressSteps(path) == steps && Fuel(path) == fuel
  }

  lemma Extend(path: seq<Action>, s: State, a: Action, steps: nat, fuel: nat) returns (longer: seq<Action>, t: State)
    requires Reaches(path, s, steps, fuel) && Enabled(s, a) && IsProgress(a)
    ensures t == Do(s, a) && Reaches(longer, t, steps + 1, fuel)
  {
    longer, t := path + [a], Do(s, a);
    RunsConcat(Init(LABEL), path, [a]);
    assert Runs(s, [a]) && After(s, [a]) == t;
    PaidSnoc(path, a);
  }

  /** One worker is about to acknowledge an entry that the other has taken from it. */
  predicate Stolen(s: State, w: string, thief: string)
  {
    && w != thief && w in s.workers && s.workers[w].Passing? && s.workers[w].id == ENTRY
    && thief in s.workers && s.workers[thief].Working? && s.workers[thief].id == ENTRY
    && ENTRY in s.stream && ENTRY in s.pending && s.pending[ENTRY].owner == thief && !s.armed
  }

  /** The acknowledgement is refused, the thief applies the effect again, and the entry is taken back. */
  lemma TakeBack(path: seq<Action>, s: State, w: string, thief: string, steps: nat, fuel: nat)
    returns (longer: seq<Action>, t: State)
    requires Reaches(path, s, steps, fuel) && Stolen(s, w, thief)
    ensures Reaches(longer, t, steps + 4, fuel) && Stolen(t, thief, w)
  {
    longer, t := Extend(path, s, Ack(w), steps, fuel);
    longer, t := Extend(longer, t, Apply(thief), steps + 1, fuel);
    longer, t := Extend(longer, t, Get(thief), steps + 2, fuel);
    longer, t := Extend(longer, t, Reclaim(w, ENTRY), steps + 3, fuel);
  }

  lemma {:induction false} KeepTaking(path: seq<Action>, s: State, w: string, thief: string,
                                      steps: nat, fuel: nat, rounds: nat)
    returns (longer: seq<Action>, t: State, more: nat)
    requires Reaches(path, s, steps, fuel) && Stolen(s, w, thief)
    ensures more >= steps + rounds && Reaches(longer, t, more, fuel)
    ensures Stolen(t, w, thief) || Stolen(t, thief, w)
    decreases rounds
  {
    if rounds == 0 {
      longer, t, more := path, s, steps;
    } else {
      longer, t := TakeBack(path, s, w, thief, steps, fuel);
      longer, t, more := KeepTaking(longer, t, thief, w, steps + 4, fuel, rounds - 1);
    }
  }

  lemma TwoIdle() returns (path: seq<Action>, s: State)
    ensures Reaches(path, s, 2, 6) && s.operatorLabel == LABEL && !s.armed
    ensures s.workers == map[FIRST := Idle, SECOND := Idle]
    ensures s.stream == map[ENTRY := "e"] && s.waiting == {ENTRY}
  {
    AreStreamIds();
    path, s := Step([], Init(LABEL), Add(ENTRY, "e"));
    assert path == [Add(ENTRY, "e")] && path[1..] == [];
    assert Reaches(path, s, 0, 6);
    path, s := Extend(path, s, Start(FIRST), 0, 6);
    path, s := Extend(path, s, Start(SECOND), 1, 6);
  }

  lemma FirstTheft() returns (path: seq<Action>, s: State)
    ensures Reaches(path, s, 6, 6) && Stolen(s, FIRST, SECOND)
  {
    path, s := TwoIdle();
    path, s := Extend(path, s, Deliver(FIRST, ENTRY), 2, 6);
    path, s := Extend(path, s, Apply(FIRST), 3, 6);
    path, s := Extend(path, s, Get(FIRST), 4, 6);
    path, s := Extend(path, s, Reclaim(SECOND, ENTRY), 5, 6);
  }

  /** With two live workers no bound holds: one added entry, no arming and no death allow runs with as many
      progress steps as one likes, after which the entry is still pending. */
  lemma UnboundedWork(n: nat) returns (path: seq<Action>)
    ensures Runs(Init(LABEL), path) && Fuel(path) == 6 && ProgressSteps(path) >= n
    ensures ENTRY in After(Init(LABEL), path).pending
  {
    var s, more;
    path, s := FirstTheft();
    path, s, more := KeepTaking(path, s, FIRST, SECOND, 6, 6, n);
  }
}
