/** Every reachable state drains by the workers' own steps, with any number of live workers and any armings, and
    when nothing is left to acknowledge every event has had its effect exactly once. */
module CrashDrain {
  import opened CrashProtocol
  import opened CrashSafety
  import opened CrashProgress

  // --- No deadlock --------------------------------------------------------------------------------------

  /** A worker's next step, or a fresh incarnation's start when no worker is live. */
  predicate CanProgress(s: State, a: Action)
  {
    IsProgress(a) && Enabled(s, a) && StartsAlone(s, a)
  }

  predicate Drained(s: State)
  {
    s.waiting == {} && s.pending == map[]
  }

  /** Some identity is still unused. */
  lemma FreshIncarnation(s: State) returns (w: string)
    ensures w !in s.dead && IsIncarnation(s.operatorLabel, w)
  {
    w := s.operatorLabel + ":";
    var used := s.dead;
    while w in used
      invariant IsIncarnation(s.operatorLabel, w)
      invariant forall d | d in s.dead && |d| >= |w| :: d in used
      decreases used
    {
      used := used - {w};
      w := w + "0";
    }
  }

  /** A worker that is not idle always has a next step, and only a step of its own. */
  lemma NextStep(s: State, w: string) returns (a: Action)
    requires Inv(s) && w in s.workers && !s.workers[w].Idle?
    ensures CanProgress(s, a) && a.w == w && !a.Start? && !a.Deliver? && !a.Reclaim?
  {
    assert WorkerOk(s, w);
    match s.workers[w] {
      case Working(_, _) => a := Apply(w);
      case Applied(_, _) => a := Get(w);
      case Trapped(_, _) => a := Trap(w);
      case Passing(_, _) => a := Ack(w);
      case Doomed => a := Kill(w);
    }
  }

  /** An idle worker can take an entry as long as there is one. */
  lemma NextEntry(s: State, w: string) returns (a: Action)
    requires Inv(s) && In(s, w, Idle) && !Drained(s)
    ensures CanProgress(s, a) && (a.Deliver? || a.Reclaim?) && a.w == w
  {
    if s.waiting != {} {
      var id :| id in s.waiting;
      assert id in s.stream.Keys;
      a := Deliver(w, id);
    } else {
      var id :| id in s.pending;
      a := Reclaim(w, id);
    }
  }

  /** No deadlock, in any state that a run can reach: as long as an entry is not acknowledged, some progress step
      is possible. */
  lemma NeverStuck(s: State) returns (a: Action)
    requires Inv(s) && !Drained(s)
    ensures CanProgress(s, a)
  {
    if s.workers == map[] {
      var w := FreshIncarnation(s);
      a := Start(w);
    } else {
      var w :| w in s.workers;
      if s.workers[w].Idle? {
        a := NextEntry(s, w);
      } else {
        a := NextStep(s, w);
      }
    }
  }

  // --- Runs of progress steps ---------------------------------------------------------------------------

  predicate ProgressRun(s: State, actions: seq<Action>)
    decreases |actions|
  {
    actions == [] ||
    (CanProgress(s, actions[0]) && ProgressRun(Do(s, actions[0]), actions[1..]))
  }

  lemma {:induction false} ProgressRuns(s: State, actions: seq<Action>)
    requires ProgressRun(s, actions)
    ensures Runs(s, actions) && (Inv(s) ==> Inv(After(s, actions)))
    ensures forall k | 0 <= k < |actions| :: IsProgress(actions[k])
    decreases |actions|
  {
    if actions != [] {
      ProgressRuns(Do(s, actions[0]), actions[1..]);
      if Inv(s) {
        StepKeepsInv(s, actions[0]);
      }
      forall k | 0 <= k < |actions| ensures IsProgress(actions[k]) {
        assert k > 0 ==> actions[k] == actions[1..][k - 1];
      }
    }
  }

  lemma Prepend(s: State, a: Action, rest: seq<Action>) returns (actions: seq<Action>)
    requires CanProgress(s, a) && ProgressRun(Do(s, a), rest) && Runs(Do(s, a), rest)
    ensures ProgressRun(s, actions) && Runs(s, actions) && After(s, actions) == After(Do(s, a), rest)
  {
    actions := [a] + rest;
    assert actions[1..] == rest;
  }

  lemma OneStep(s: State, a: Action)
    requires CanProgress(s, a)
    ensures ProgressRun(s, [a]) && Runs(s, [a]) && After(s, [a]) == Do(s, a)
  {
    assert [a][1..] == [];
  }

  lemma {:induction false} Join(s: State, first: seq<Action>, rest: seq<Action>)
    requires ProgressRun(s, first) && Runs(s, first) && ProgressRun(After(s, first), rest)
    requires Runs(After(s, first), rest)
    ensures ProgressRun(s, first + rest) && Runs(s, first + rest)
    ensures After(s, first + rest) == After(After(s, first), rest)
    decreases |first|
  {
    var all := first + rest;
    if first == [] {
      assert all == rest;
    } else {
      assert all[1..] == first[1..] + rest;
      Join(Do(s, first[0]), first[1..], rest);
    }
  }

  // --- First every worker finishes what it is doing -------------------------------------------------------

  /** The workers that are not idle. */
  function Engaged(s: State): set<string>
  {
    set w | w in s.workers && !s.workers[w].Idle?
  }

  /** Steps until the worker is idle or gone, at most. */
  function Distance(phase: Phase): nat
  {
    match phase
    case Idle => 0
    case Working(_, _) => 4
    case Applied(_, _) => 3
    case Trapped(_, _) => 2
    case Passing(_, _) => 1
    case Doomed => 1
  }

  lemma CloserStep(s: State, a: Action)
    requires Enabled(s, a) && IsProgress(a) && !a.Start? && !a.Deliver? && !a.Reclaim?
    ensures a.w in s.workers
    ensures a.w in Do(s, a).workers ==> Distance(Do(s, a).workers[a.w]) < Distance(s.workers[a.w])
  {
  }

  lemma EngagedStep(s: State, a: Action)
    requires Enabled(s, a) && OfProcess(a)
    ensures Engaged(Do(s, a)) - {a.w} == Engaged(s) - {a.w}
  {
    forall w | w != a.w ensures w in Engaged(Do(s, a)) <==> w in Engaged(s) {
      WorkerFrame(s, a, w);
    }
  }

  lemma {:induction false} FinishOne(s: State, w: string) returns (actions: seq<Action>)
    requires Inv(s) && w in Engaged(s)
    ensures ProgressRun(s, actions) && Runs(s, actions) && Inv(After(s, actions))
    ensures Engaged(After(s, actions)) == Engaged(s) - {w}
    decreases Distance(s.workers[w])
  {
    var a := NextStep(s, w);
    var t := Do(s, a);
    StepKeepsInv(s, a);
    CloserStep(s, a);
    EngagedStep(s, a);
    var rest := [];
    if w in Engaged(t) {
      rest := FinishOne(t, w);
    }
    actions := Prepend(s, a, rest);
  }

  lemma {:induction false} FinishAll(s: State) returns (actions: seq<Action>)
    requires Inv(s)
    ensures ProgressRun(s, actions) && Runs(s, actions) && Inv(After(s, actions))
    ensures Engaged(After(s, actions)) == {}
    decreases Engaged(s)
  {
    if w :| w in Engaged(s) {
      var first := FinishOne(s, w);
      var rest := FinishAll(After(s, first));
      Join(s, first, rest);
      actions := first + rest;
    } else {
      actions := [];
    }
  }

  // --- Then one worker takes the entries --------------------------------------------------------------------

  /** What the rounds use up: the arming, and the entries. */
  function Work(s: State): nat
  {
    Charge(s) + Unacked(s)
  }

  lemma ChargeStep(s: State, a: Action)
    requires Enabled(s, a) && !a.ArmSet? && (a.Trap? ==> s.armed)
    ensures Charge(Do(s, a)) == Charge(s) - (if a.Trap? then 1 else 0)
  {
    HarnessFrame(s, a);
  }

  /** What a progress step does to the work left, and to the workers that do not take it. */
  lemma Advance(s: State, a: Action)
    requires Inv(s) && CanProgress(s, a) && (a.Ack? ==> Owns(s, a.w)) && (a.Trap? ==> s.armed)
    ensures Inv(Do(s, a)) && Engaged(Do(s, a)) - {a.w} == Engaged(s) - {a.w}
    ensures Work(Do(s, a)) == Work(s) - (if a.Ack? || a.Trap? then 1 else 0)
  {
    StepKeepsInv(s, a);
    EngagedStep(s, a);
    UnackedStep(s, a);
    ChargeStep(s, a);
  }

  /** The worker owns its entry, and is trapped only while armed. */
  predicate Holds(s: State, w: string)
  {
    Owns(s, w) && (s.workers[w].Trapped? ==> s.armed)
  }

  lemma ApplyHolds(s: State, w: string)
    requires Holds(s, w) && Enabled(s, Apply(w))
    ensures Holds(Do(s, Apply(w)), w)
  {
  }

  lemma GetHolds(s: State, w: string)
    requires Holds(s, w) && Enabled(s, Get(w))
    ensures Holds(Do(s, Get(w)), w)
  {
  }

  lemma TakeHolds(s: State, a: Action)
    requires Enabled(s, a) && (a.Deliver? || a.Reclaim?)
    ensures Holds(Do(s, a), a.w)
  {
  }

  lemma AckIdles(s: State, w: string)
    requires Enabled(s, Ack(w))
    ensures In(Do(s, Ack(w)), w, Idle) && w !in Engaged(Do(s, Ack(w)))
  {
  }

  lemma TrapDooms(s: State, w: string)
    requires Enabled(s, Trap(w))
    ensures In(Do(s, Trap(w)), w, Doomed)
  {
  }

  lemma KillEnds(s: State, w: string)
    requires Enabled(s, Kill(w))
    ensures w !in Engaged(Do(s, Kill(w)))
  {
  }

  /** The end of a round by an acknowledgement: it uses up an entry. */
  lemma EndByAck(s: State, w: string) returns (actions: seq<Action>)
    requires Inv(s) && Holds(s, w) && s.workers[w].Passing?
    ensures ProgressRun(s, actions) && Runs(s, actions) && Inv(After(s, actions))
    ensures Engaged(After(s, actions)) == Engaged(s) - {w} && Work(After(s, actions)) < Work(s)
  {
    Advance(s, Ack(w));
    AckIdles(s, w);
    NowWithout(Engaged(Do(s, Ack(w))), Engaged(s), w);
    OneStep(s, Ack(w));
    actions := [Ack(w)];
  }

  lemma NowWithout(now: set<string>, before: set<string>, w: string)
    requires now - {w} == before - {w} && w !in now
    ensures now == before - {w}
  {
  }

  lemma DoomedEnds(s: State, w: string)
    requires Inv(s) && In(s, w, Doomed)
    ensures CanProgress(s, Kill(w)) && Inv(Do(s, Kill(w))) && Work(Do(s, Kill(w))) == Work(s)
    ensures Engaged(Do(s, Kill(w))) == Engaged(s) - {w}
  {
    Advance(s, Kill(w));
    KillEnds(s, w);
    NowWithout(Engaged(Do(s, Kill(w))), Engaged(s), w);
  }

  /** The end of a round by a crash: it uses up the arming. */
  lemma EndByCrash(s: State, w: string) returns (actions: seq<Action>)
    requires Inv(s) && Holds(s, w) && s.workers[w].Trapped?
    ensures ProgressRun(s, actions) && Runs(s, actions) && Inv(After(s, actions))
    ensures Engaged(After(s, actions)) == Engaged(s) - {w} && Work(After(s, actions)) < Work(s)
  {
    var t := Do(s, Trap(w));
    Advance(s, Trap(w));
    TrapDooms(s, w);
    DoomedEnds(t, w);
    OneStep(t, Kill(w));
    actions := Prepend(s, Trap(w), [Kill(w)]);
  }

  lemma {:induction false} FinishHeld(s: State, w: string) returns (actions: seq<Action>)
    requires Inv(s) && Holds(s, w)
    ensures ProgressRun(s, actions) && Runs(s, actions) && Inv(After(s, actions))
    ensures Engaged(After(s, actions)) == Engaged(s) - {w} && Work(After(s, actions)) < Work(s)
    decreases Distance(s.workers[w])
  {
    if s.workers[w].Passing? {
      actions := EndByAck(s, w);
    } else if s.workers[w].Trapped? {
      actions := EndByCrash(s, w);
    } else {
      var a := NextStep(s, w);
      CloserStep(s, a);
      Advance(s, a);
      if a.Apply? {
        ApplyHolds(s, w);
      } else {
        GetHolds(s, w);
      }
      var rest := FinishHeld(Do(s, a), w);
      actions := Prepend(s, a, rest);
    }
  }

  /** An idle worker takes an entry, and finishes it or crashes. */
  lemma TakeEntry(s: State, w: string) returns (actions: seq<Action>)
    requires Inv(s) && In(s, w, Idle) && Engaged(s) == {} && !Drained(s)
    ensures ProgressRun(s, actions) && Runs(s, actions) && Inv(After(s, actions))
    ensures Engaged(After(s, actions)) == {} && Work(After(s, actions)) < Work(s)
  {
    var a := NextEntry(s, w);
    Advance(s, a);
    TakeHolds(s, a);
    var rest := FinishHeld(Do(s, a), w);
    actions := Prepend(s, a, rest);
  }

  /** Without a live worker, one starts first. */
  lemma StartFresh(s: State) returns (w: string)
    requires Inv(s) && s.workers == map[]
    ensures CanProgress(s, Start(w)) && Inv(Do(s, Start(w))) && In(Do(s, Start(w)), w, Idle)
    ensures Engaged(Do(s, Start(w))) == {} && Work(Do(s, Start(w))) == Work(s)
    ensures Drained(Do(s, Start(w))) <==> Drained(s)
  {
    w := FreshIncarnation(s);
    StartIdles(s, w);
    Advance(s, Start(w));
    GroupFrame(s, Start(w));
  }

  lemma StartIdles(s: State, w: string)
    requires Enabled(s, Start(w)) && s.workers == map[]
    ensures In(Do(s, Start(w)), w, Idle) && Engaged(Do(s, Start(w))) == {}
  {
  }

  lemma Round(s: State) returns (actions: seq<Action>)
    requires Inv(s) && Engaged(s) == {} && !Drained(s)
    ensures ProgressRun(s, actions) && Runs(s, actions) && Inv(After(s, actions))
    ensures Engaged(After(s, actions)) == {} && Work(After(s, actions)) < Work(s)
  {
    if w :| w in s.workers {
      assert w !in Engaged(s);
      actions := TakeEntry(s, w);
    } else {
      var w := StartFresh(s);
      var rest := TakeEntry(Do(s, Start(w)), w);
      actions := Prepend(s, Start(w), rest);
    }
  }

  lemma {:induction false} Rounds(s: State) returns (actions: seq<Action>)
    requires Inv(s) && Engaged(s) == {}
    ensures ProgressRun(s, actions) && Runs(s, actions) && Drained(After(s, actions))
    decreases Work(s)
  {
    if Drained(s) {
      actions := [];
    } else {
      var first := Round(s);
      var rest := Rounds(After(s, first));
      Join(s, first, rest);
      actions := first + rest;
    }
  }

  /** From every state that a run can reach, with any number of live workers and any armings, the workers' own
      steps alone reach a state with nothing waiting and nothing pending. */
  lemma Drain(s: State) returns (actions: seq<Action>)
    requires Inv(s)
    ensures ProgressRun(s, actions) && Runs(s, actions) && Drained(After(s, actions))
  {
    var first := FinishAll(s);
    var rest := Rounds(After(s, first));
    Join(s, first, rest);
    actions := first + rest;
  }

  /** Exactly once, at the end of any run that has drained: every entry is acknowledged, and the effects are those
      of the added events, each once. */
  lemma DrainedExactlyOnce(operatorLabel: string, actions: seq<Action>)
    requires Runs(Init(operatorLabel), actions) && Drained(After(Init(operatorLabel), actions))
    ensures var s := After(Init(operatorLabel), actions);
            && s.acked == s.stream.Keys && NoDuplicates(s.effects)
            && forall e :: e in s.effects <==> exists id | id in s.stream :: s.stream[id] == e
  {
    var s := After(Init(operatorLabel), actions);
    InitInv(operatorLabel);
    RunKeepsInv(Init(operatorLabel), actions);
    forall id | id in s.stream ensures s.stream[id] in s.effects {
      assert id in s.stream.Keys;
      assert id in s.acked;
    }
  }

  /** A run that has come to rest has drained. */
  lemma RestIsDrained(operatorLabel: string, actions: seq<Action>)
    requires Runs(Init(operatorLabel), actions)
    requires forall a :: !CanProgress(After(Init(operatorLabel), actions), a)
    ensures Drained(After(Init(operatorLabel), actions))
  {
    var s := After(Init(operatorLabel), actions);
    InitInv(operatorLabel);
    RunKeepsInv(Init(operatorLabel), actions);
    if !Drained(s) {
      var a := NeverStuck(s);
      assert false;
    }
  }
}
