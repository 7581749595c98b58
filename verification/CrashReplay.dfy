/** What can always happen next, in every state that a run can reach: any event can be added again and gets
    acknowledged, any worker can crash on any entry and the entry recovers, and a process can die at any moment. */
module CrashReplay {
  import opened Wrappers
  import opened CrashProtocol
  import opened CrashSafety
  import opened CrashProgress
  import opened CrashDrain

  /** One more step of a run. */
  lemma Then(s: State, path: seq<Action>, t: State, a: Action) returns (longer: seq<Action>)
    requires Runs(s, path) && After(s, path) == t && Enabled(t, a)
    ensures longer == path + [a] && Runs(s, longer) && After(s, longer) == Do(t, a)
  {
    longer := path + [a];
    RunsConcat(s, path, [a]);
    assert [a][1..] == [];
    assert Runs(t, [a]) && After(t, [a]) == Do(t, a);
  }

  // --- Progress steps neither add entries nor arm ---------------------------------------------------------

  predicate OnlyProgress(actions: seq<Action>)
  {
    forall k | 0 <= k < |actions| :: IsProgress(actions[k])
  }

  lemma {:induction false} ProgressKeepsStream(s: State, actions: seq<Action>)
    requires Runs(s, actions) && OnlyProgress(actions)
    ensures After(s, actions).stream == s.stream
    decreases |actions|
  {
    if actions != [] {
      GroupFrame(s, actions[0]);
      assert OnlyProgress(actions[1..]) by {
        assert forall k | 0 <= k < |actions[1..]| :: actions[1..][k] == actions[k + 1];
      }
      ProgressKeepsStream(Do(s, actions[0]), actions[1..]);
    }
  }

  /** Nothing is left to acknowledge, and the effects are those of the stream's events. */
  ghost predicate Settled(s: State)
  {
    && s.waiting == {} && s.pending == map[] && s.acked == s.stream.Keys
    && NoDuplicates(s.effects) && (forall e :: e in s.effects <==> e in s.stream.Values)
  }

  lemma DrainedIsSettled(s: State)
    requires Inv(s) && Drained(s)
    ensures Settled(s)
  {
    forall e ensures e in s.effects <==> e in s.stream.Values {
      if e in s.effects {
        var id :| id in s.stream && s.stream[id] == e;
      }
      if e in s.stream.Values {
        var id :| id in s.stream && s.stream[id] == e;
        assert id in s.stream.Keys;
      }
    }
  }

  /** From any reachable state the workers' own steps settle the stream as it is, and keep every effect. */
  lemma Settle(s: State) returns (rest: seq<Action>)
    requires Inv(s)
    ensures Runs(s, rest) && OnlyProgress(rest)
    ensures Settled(After(s, rest)) && After(s, rest).stream == s.stream && s.effects <= After(s, rest).effects
    ensures (forall id | id in s.stream :: s.stream[id] in s.effects) ==> After(s, rest).effects == s.effects
  {
    rest := Drain(s);
    ProgressRuns(s, rest);
    ProgressKeepsStream(s, rest);
    DrainedIsSettled(After(s, rest));
    EffectsOnlyGrow(s, rest);
    if forall id | id in s.stream :: s.stream[id] in s.effects {
      forall k | 0 <= k < |rest| ensures !rest[k].Add? {
        assert IsProgress(rest[k]);
      }
      NoFurtherEffects(s, rest);
    }
  }

  // --- Replays ----------------------------------------------------------------------------------------------

  /** `verify_replay`, in every state that a run can reach and for every event, already in the stream or not:
      it can be added under any stream id that is not taken, and the workers' own steps then acknowledge the new
      entry and all others. The effects end up as those of the stream's events; if the event and all others had
      had theirs before, nothing is added. */
  lemma ReplayIsAcknowledged(operatorLabel: string, actions: seq<Action>, id: string, event: string)
    returns (rest: seq<Action>)
    requires Runs(Init(operatorLabel), actions)
    requires IsStreamId(id) && id !in After(Init(operatorLabel), actions).stream
    ensures OnlyProgress(rest) && Runs(Init(operatorLabel), actions + [Add(id, event)] + rest)
    ensures var s := After(Init(operatorLabel), actions);
            var t := After(Init(operatorLabel), actions + [Add(id, event)] + rest);
            && Settled(t) && id in t.acked && t.stream == s.stream[id := event] && s.effects <= t.effects
            && ((forall x | x in s.stream :: s.stream[x] in s.effects) && event in s.effects ==>
                  t.effects == s.effects)
  {
    var init := Init(operatorLabel);
    var s := After(init, actions);
    InitInv(operatorLabel);
    RunKeepsInv(init, actions);
    var added := Then(init, actions, s, Add(id, event));
    var t := Do(s, Add(id, event));
    StepKeepsInv(s, Add(id, event));
    rest := Settle(t);
    RunsConcat(init, added, rest);
    assert id in t.stream.Keys;
    if (forall x | x in s.stream :: s.stream[x] in s.effects) && event in s.effects {
      assert forall x | x in t.stream :: t.stream[x] in t.effects;
    }
  }

  // --- Crashes ----------------------------------------------------------------------------------------------

  /** The worker is idle, or can still be started. */
  predicate Available(s: State, w: string)
  {
    In(s, w, Idle) || (w !in s.workers && w !in s.dead && s.operatorLabel + ":" <= w)
  }

  /** What the rest of a crash leaves alone: the stream, what is acknowledged, and the other processes. */
  predicate ElseUntouched(s: State, t: State, w: string)
  {
    && t.operatorLabel == s.operatorLabel && t.stream == s.stream && t.acked == s.acked && s.effects <= t.effects
    && t.workers - {w} == s.workers - {w} && t.dead - {w} == s.dead - {w}
  }

  /** The harness arms, from any state. */
  lemma ArmNow(s: State) returns (path: seq<Action>, t: State)
    ensures Runs(s, path) && After(s, path) == t
    ensures t == s.(armed := true, arming := false, armings := s.armings + 1, observed := t.observed)
  {
    path, t := [], s;
    if !s.arming {
      path := Then(s, path, t, ArmDelete);
      t := Do(t, ArmDelete);
    }
    path := Then(s, path, t, ArmSet);
    t := Do(t, ArmSet);
  }

  lemma StartNow(s: State, w: string) returns (path: seq<Action>, t: State)
    requires Available(s, w)
    ensures Runs(s, path) && After(s, path) == t && t == s.(workers := s.workers[w := Idle])
  {
    path, t := [], s;
    if w !in s.workers {
      path := Then(s, path, t, Start(w));
      t := Do(t, Start(w));
    } else {
      assert s.workers[w := Idle] == s.workers;
    }
  }

  /** An idle worker takes any entry that is not acknowledged, whoever holds it. */
  lemma TakeNow(s: State, w: string, id: string) returns (a: Action)
    requires Conserved(s) && In(s, w, Idle) && id in s.stream && id !in s.acked
    ensures Enabled(s, a)
    ensures var n := Deliveries(s, id) + 1;
            Do(s, a) == s.(waiting := s.waiting - {id}, pending := s.pending[id := Pending(w, n)],
                           workers := s.workers[w := Working(id, n)])
  {
    assert id in s.stream.Keys;
    if id in s.waiting {
      a := Deliver(w, id);
    } else {
      a := Reclaim(w, id);
      assert s.waiting - {id} == s.waiting;
    }
  }

  function WithEffect(log: seq<string>, event: string): seq<string>
  {
    if event in log then log else log + [event]
  }

  lemma ApplyAndGet(s: State, w: string, id: string, n: nat) returns (path: seq<Action>, t: State)
    requires s.armed && In(s, w, Working(id, n)) && id in s.stream
    ensures Runs(s, path) && After(s, path) == t
    ensures t == s.(effects := WithEffect(s.effects, s.stream[id]), workers := s.workers[w := Trapped(id, n)])
  {
    path := Then(s, [], s, Apply(w));
    t := Do(s, Apply(w));
    path := Then(s, path, t, Get(w));
    t := Do(t, Get(w));
    TwiceIsLast(s.workers, w, Applied(id, n), Trapped(id, n));
  }

  lemma TrapAndKill(s: State, w: string, id: string, n: nat) returns (path: seq<Action>, t: State)
    requires In(s, w, Trapped(id, n))
    ensures Runs(s, path) && After(s, path) == t
    ensures t == s.(armed := false, observed := Some(Observation(id, w, n)), crashes := s.crashes + 1,
                    workers := s.workers - {w}, dead := s.dead + {w})
  {
    path := Then(s, [], s, Trap(w));
    t := Do(s, Trap(w));
    path := Then(s, path, t, Kill(w));
    t := Do(t, Kill(w));
    TwiceIsLast(s.workers, w, Doomed, Doomed);
  }

  /** An armed worker that has taken its entry applies the effect and crashes. */
  lemma CrashNow(s: State, w: string, id: string, n: nat) returns (path: seq<Action>, t: State)
    requires s.armed && In(s, w, Working(id, n)) && id in s.stream
    ensures Runs(s, path) && After(s, path) == t
    ensures t == s.(armed := false, observed := Some(Observation(id, w, n)), crashes := s.crashes + 1,
                    effects := WithEffect(s.effects, s.stream[id]),
                    workers := s.workers - {w}, dead := s.dead + {w})
  {
    var applyPath, trapped := ApplyAndGet(s, w, id, n);
    var trapPath;
    trapPath, t := TrapAndKill(trapped, w, id, n);
    path := Chain(s, applyPath, trapped, trapPath, t);
    TwiceIsLast(s.workers, w, Trapped(id, n), Trapped(id, n));
  }

  lemma Chain(s: State, first: seq<Action>, t: State, second: seq<Action>, u: State) returns (path: seq<Action>)
    requires Runs(s, first) && After(s, first) == t && Runs(t, second) && After(t, second) == u
    ensures Runs(s, path) && After(s, path) == u
  {
    path := first + second;
    RunsConcat(s, first, second);
  }

  /** The state that the crash of this worker on this entry leaves behind. */
  function CrashedState(s: State, w: string, id: string): State
    requires id in s.stream
  {
    var n := Deliveries(s, id) + 1;
    s.(waiting := s.waiting - {id}, pending := s.pending[id := Pending(w, n)],
       armed := false, arming := false, armings := s.armings + 1, crashes := s.crashes + 1,
       observed := Some(Observation(id, w, n)), effects := WithEffect(s.effects, s.stream[id]),
       workers := s.workers - {w}, dead := s.dead + {w})
  }

  /** The state in which the worker has taken the entry. */
  function TakenState(s: State, w: string, id: string): State
  {
    var n := Deliveries(s, id) + 1;
    s.(waiting := s.waiting - {id}, pending := s.pending[id := Pending(w, n)],
       workers := s.workers[w := Working(id, n)])
  }

  lemma StartAndTake(s: State, w: string, id: string) returns (path: seq<Action>)
    requires Conserved(s) && Available(s, w) && id in s.stream && id !in s.acked
    ensures Runs(s, path) && After(s, path) == TakenState(s, w, id)
  {
    var started;
    path, started := StartNow(s, w);
    var take := TakeNow(started, w, id);
    path := Then(s, path, started, take);
    TwiceIsLast(s.workers, w, Idle, Working(id, Deliveries(s, id) + 1));
  }

  lemma TwiceIsLast(workers: map<string, Phase>, w: string, first: Phase, last: Phase)
    ensures workers[w := first][w := last] == workers[w := last]
    ensures workers[w := last] - {w} == workers - {w}
  {
  }

  lemma CrashOfTaken(s: State, w: string, id: string) returns (path: seq<Action>)
    requires s.armed && !s.arming && id in s.stream
    ensures Runs(TakenState(s, w, id), path)
    ensures After(TakenState(s, w, id), path) == CrashedState(s, w, id).(armings := s.armings)
  {
    var n := Deliveries(s, id) + 1;
    var t;
    path, t := CrashNow(TakenState(s, w, id), w, id, n);
    TwiceIsLast(s.workers, w, Working(id, n), Working(id, n));
  }

  lemma ArmedCrash(s: State, armed: State, w: string, id: string)
    requires id in s.stream
    requires armed == s.(armed := true, arming := false, armings := s.armings + 1, observed := armed.observed)
    ensures CrashedState(armed, w, id).(armings := armed.armings) == CrashedState(s, w, id)
  {
  }

  lemma CrashPath(s: State, w: string, id: string) returns (path: seq<Action>)
    requires Conserved(s) && Available(s, w) && id in s.stream && id !in s.acked
    ensures Runs(s, path) && After(s, path) == CrashedState(s, w, id)
  {
    var armedPath, armed := ArmNow(s);
    var takePath := StartAndTake(armed, w, id);
    var crashPath := CrashOfTaken(armed, w, id);
    var taken := TakenState(armed, w, id);
    path := Chain(s, armedPath, armed, takePath, taken);
    path := Chain(s, path, taken, crashPath, After(taken, crashPath));
    ArmedCrash(s, armed, w, id);
  }

  lemma CrashedStateAgrees(s: State, w: string, id: string)
    requires Inv(s) && Available(s, w) && id in s.stream
    ensures HarnessAccepts(CrashedState(s, w, id)) && ElseUntouched(s, CrashedState(s, w, id), w)
    ensures s.stream[id] in CrashedState(s, w, id).effects
    ensures CrashedState(s, w, id).waiting == s.waiting - {id}
    ensures CrashedState(s, w, id).pending == s.pending[id := Pending(w, Deliveries(s, id) + 1)]
  {
    assert In(s, w, Idle) ==> IsIncarnation(s.operatorLabel, w);
  }

  /** The harness's crash, in every state that a run can reach: whatever the other workers are doing and whether
      or not an arming is under way, it can arm, and any worker that is idle or can be started takes any entry that
      is not acknowledged, whoever holds it, has its effect, leaves the record and dies. The harness's check then
      passes. */
  lemma CrashIsPossible(operatorLabel: string, actions: seq<Action>, w: string, id: string)
    returns (path: seq<Action>)
    requires Runs(Init(operatorLabel), actions)
    requires Available(After(Init(operatorLabel), actions), w)
    requires id in After(Init(operatorLabel), actions).stream && id !in After(Init(operatorLabel), actions).acked
    ensures Runs(Init(operatorLabel), actions + path)
    ensures var s, t := After(Init(operatorLabel), actions), After(Init(operatorLabel), actions + path);
            && t.observed == Some(Observation(id, w, Deliveries(s, id) + 1)) && HarnessAccepts(t)
            && t.crashes == s.crashes + 1 && !t.armed && w in t.dead && s.stream[id] in t.effects
            && t.waiting == s.waiting - {id} && t.pending == s.pending[id := Pending(w, Deliveries(s, id) + 1)]
            && ElseUntouched(s, t, w)
  {
    var init := Init(operatorLabel);
    var s := After(init, actions);
    InitInv(operatorLabel);
    RunKeepsInv(init, actions);
    path := CrashPath(s, w, id);
    CrashedStateAgrees(s, w, id);
    RunsConcat(init, actions, path);
  }

  /** And the workers' own steps recover from it: they acknowledge the crashed entry and all others, and if every
      event had had its effect by the time of the crash, they add none. */
  lemma CrashIsRecovered(operatorLabel: string, actions: seq<Action>) returns (rest: seq<Action>)
    requires Runs(Init(operatorLabel), actions)
    ensures OnlyProgress(rest) && Runs(Init(operatorLabel), actions + rest)
    ensures var s, t := After(Init(operatorLabel), actions), After(Init(operatorLabel), actions + rest);
            && Settled(t) && t.stream == s.stream && s.effects <= t.effects
            && ((forall id | id in s.stream :: s.stream[id] in s.effects) ==> t.effects == s.effects)
  {
    var init := Init(operatorLabel);
    InitInv(operatorLabel);
    RunKeepsInv(init, actions);
    rest := Settle(After(init, actions));
    RunsConcat(init, actions, rest);
  }

  /** A process can die at any moment, whatever it is doing, and leaves everything else as it is. */
  lemma DeathIsPossible(s: State, w: string)
    requires w in s.workers
    ensures Runs(s, [Die(w)])
    ensures After(s, [Die(w)]) == s.(workers := s.workers - {w}, dead := s.dead + {w})
  {
    assert [Die(w)][1..] == [];
  }
}
