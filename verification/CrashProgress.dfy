/** With one live worker, finitely many armings, additions and deaths allow only finitely many steps, whenever
    the harness arms. */
module CrashProgress {
  import opened CrashProtocol
  import opened CrashSafety

  /** How far a phase is from the next acknowledgement. */
  function PhaseRank(phase: Phase): nat
  {
    match phase
    case Doomed => 7
    case Idle => 5
    case Working(_, _) => 4
    case Applied(_, _) => 3
    case Trapped(_, _) => 2
    case Passing(_, _) => 2
  }

  /** The rank of the one live worker; without one, somewhere between being killed and being started. */
  ghost function Rank(s: State): nat
  {
    if s.workers == map[] then 6
    else
      var w :| w in s.workers;
      PhaseRank(s.workers[w])
  }

  lemma RankOf(s: State, w: string)
    requires Lone(s) && w in s.workers
    ensures Rank(s) == PhaseRank(s.workers[w])
  {
  }

  function Unacked(s: State): nat
  {
    |s.waiting| + |s.pending|
  }

  ghost function Measure(s: State): nat
  {
    8 * Charge(s) + 6 * Unacked(s) + Rank(s)
  }

  /** What a step may add to the measure: the environment's steps add, the worker's own steps take one off. */
  function Gain(a: Action): int
  {
    match a
    case Add(_, _) => 6
    case ArmDelete => 0
    case ArmSet => 8
    case Die(_) => 5
    case _ => -1
  }

  lemma SetWithout(ids: set<string>, id: string)
    requires id in ids
    ensures |ids - {id}| == |ids| - 1
  {
  }

  lemma MapWithout(m: map<string, Pending>, id: string)
    requires id in m
    ensures |m - {id}| == |m| - 1
  {
    assert (m - {id}).Keys == m.Keys - {id};
    assert |m - {id}| == |(m - {id}).Keys| && |m| == |m.Keys|;
  }

  lemma MapWith(m: map<string, Pending>, id: string, p: Pending)
    ensures |m[id := p]| == if id in m then |m| else |m| + 1
  {
    assert m[id := p].Keys == m.Keys + {id};
    assert |m[id := p]| == |m[id := p].Keys| && |m| == |m.Keys|;
  }

  lemma AddWaits(s: State, id: string, event: string)
    requires Inv(s) && Enabled(s, Add(id, event))
    ensures |Do(s, Add(id, event)).waiting| == |s.waiting| + 1
  {
    assert id !in s.stream.Keys;
  }

  lemma WaitingStep(s: State, a: Action)
    requires Inv(s) && Enabled(s, a)
    ensures |Do(s, a).waiting| == |s.waiting| + (if a.Add? then 1 else if a.Deliver? then -1 else 0)
  {
    GroupFrame(s, a);
    if a.Add? {
      AddWaits(s, a.id, a.event);
    } else if a.Deliver? {
      SetWithout(s.waiting, a.id);
    }
  }

  /** Only an acknowledgement takes a pending entry off. */
  lemma PendingStep(s: State, a: Action)
    requires Inv(s) && Enabled(s, a) && !a.Ack?
    ensures |Do(s, a).pending| == |s.pending| + (if a.Deliver? then 1 else 0)
  {
    GroupFrame(s, a);
    if a.Deliver? {
      assert a.id !in s.pending.Keys;
      MapWith(s.pending, a.id, Pending(a.w, 1));
    } else if a.Reclaim? {
      MapWith(s.pending, a.id, Pending(a.w, s.pending[a.id].deliveries + 1));
    }
  }

  /** And only the owner's. */
  lemma AckTakesOne(s: State, w: string)
    requires Enabled(s, Ack(w)) && Owns(s, w)
    ensures |Do(s, Ack(w)).pending| == |s.pending| - 1 && Do(s, Ack(w)).waiting == s.waiting
  {
    MapWithout(s.pending, s.workers[w].id);
  }

  /** Deliveries and reclaims move entries without losing any. */
  lemma UnackedStep(s: State, a: Action)
    requires Inv(s) && Enabled(s, a) && (a.Ack? ==> Owns(s, a.w))
    ensures Unacked(Do(s, a)) == Unacked(s) + (if a.Add? then 1 else if a.Ack? then -1 else 0)
  {
    if a.Ack? {
      AckTakesOne(s, a.w);
    } else {
      WaitingStep(s, a);
      PendingStep(s, a);
    }
  }

  /** The rank of the one process that a step concerns; 6 if there is none. */
  function RankAt(s: State, w: string): nat
  {
    if w in s.workers then PhaseRank(s.workers[w]) else 6
  }

  lemma RankIs(s: State, w: string)
    requires Lone(s) && forall v | v in s.workers :: v == w
    ensures Rank(s) == RankAt(s, w)
  {
    if w in s.workers {
      RankOf(s, w);
    } else {
      assert s.workers == map[];
    }
  }

  lemma RankAtStep(s: State, a: Action)
    requires Enabled(s, a) && OfProcess(a)
    ensures RankAt(Do(s, a), a.w)
         <= RankAt(s, a.w) + (if a.Ack? then 3 else if a.Trap? then 5 else if a.Die? then 4 else -1)
  {
  }

  lemma RankStep(s: State, a: Action)
    requires Inv(s) && Lone(s) && Enabled(s, a) && StartsAlone(s, a)
    ensures Rank(Do(s, a)) <= Rank(s) + (if a.Ack? then 3 else if a.Trap? then 5 else if a.Die? then 4
                                         else if a.Add? || a.ArmDelete? || a.ArmSet? then 0 else -1)
  {
    StepKeepsLone(s, a);
    StaysAlone(s, a);
    if OfProcess(a) {
      assert forall v | v in s.workers :: v == a.w;
      RankIs(s, a.w);
      RankIs(Do(s, a), a.w);
      RankAtStep(s, a);
    } else {
      assert Do(s, a).workers == s.workers;
    }
  }

  lemma MeasureStep(s: State, a: Action)
    requires Inv(s) && Lone(s) && Enabled(s, a) && StartsAlone(s, a)
    ensures Measure(Do(s, a)) <= Measure(s) + Gain(a)
  {
    assert a.Ack? ==> LoneWorker(s, a.w);
    UnackedStep(s, a);
    RankStep(s, a);
    ArmedStep(s, a);
  }

  function Charge(s: State): nat
  {
    if s.armed then 1 else 0
  }

  lemma ArmedStep(s: State, a: Action)
    requires Lone(s) && Enabled(s, a)
    ensures Charge(Do(s, a)) <= Charge(s) + (if a.ArmSet? then 1 else if a.Trap? then -1 else 0)
  {
    if a.Trap? {
      assert LoneWorker(s, a.w);
    }
  }

  predicate IsProgress(a: Action)
  {
    OfProcess(a) && !a.Die?
  }

  /** What a run's environment puts in. */
  function Fuel(actions: seq<Action>): nat
  {
    if actions == [] then 0 else Fuel(actions[1..]) + if IsProgress(actions[0]) then 0 else Gain(actions[0])
  }

  function ProgressSteps(actions: seq<Action>): nat
  {
    if actions == [] then 0 else ProgressSteps(actions[1..]) + if IsProgress(actions[0]) then 1 else 0
  }

  lemma {:induction false} ProgressIsPaidFor(s: State, actions: seq<Action>)
    requires Inv(s) && Lone(s) && LoneRun(s, actions)
    ensures Runs(s, actions)
    ensures ProgressSteps(actions) + Measure(After(s, actions)) <= Measure(s) + Fuel(actions)
    decreases |actions|
  {
    if actions != [] {
      var a, rest := actions[0], actions[1..];
      LoneStep(s, a);
      var t := Do(s, a);
      ProgressIsPaidFor(t, rest);
      assert After(s, actions) == After(t, rest);
      PaidStep(actions);
    }
  }

  /** One step of a run with one live worker. */
  lemma LoneStep(s: State, a: Action)
    requires Inv(s) && Lone(s) && Enabled(s, a) && StartsAlone(s, a)
    ensures Inv(Do(s, a)) && Lone(Do(s, a)) && Measure(Do(s, a)) <= Measure(s) + Gain(a)
  {
    StepKeepsInv(s, a);
    StepKeepsLone(s, a);
    MeasureStep(s, a);
  }

  lemma PaidStep(actions: seq<Action>)
    requires actions != []
    ensures Fuel(actions) - ProgressSteps(actions) ==
            Fuel(actions[1..]) - ProgressSteps(actions[1..]) + Gain(actions[0])
  {
  }

  /** Bounded work: in every run with one live worker, the workers make at most six steps more than six for
      each added entry, eight for each arming and five for each death from outside. */
  lemma ProgressIsBounded(operatorLabel: string, actions: seq<Action>)
    requires LoneRun(Init(operatorLabel), actions)
    ensures ProgressSteps(actions) <= 6 + Fuel(actions)
  {
    InitInv(operatorLabel);
    ProgressIsPaidFor(Init(operatorLabel), actions);
  }
}
