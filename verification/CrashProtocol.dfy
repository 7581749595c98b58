/** One consumer group on one stream, with the crash point before the acknowledgement and the harness
    that arms it, as a transition system.

    The workers live in other repositories. Of them this is assumed, and built into the steps: effects come
    before `_ack`; each process incarnation has an identity of its own, derived from its operator label; an
    acknowledgement only works for the identity that owns the entry; applying the effect of a logical event
    again changes nothing; `_ack` is called with the delivery count that the worker saw when it took the
    entry. */
module CrashProtocol {
  import opened Wrappers
  import opened Decimal

  /** Where one live incarnation is in its loop. */
  datatype Phase =
    | Idle
    | Working(id: string, attempts: nat)
    | Applied(id: string, attempts: nat)
    | Trapped(id: string, attempts: nat)
    | Passing(id: string, attempts: nat)
    | Doomed

  datatype Pending = Pending(owner: string, deliveries: nat)

  datatype Observation = Observation(sourceId: string, owner: string, attempts: nat)

  datatype State = State(
    operatorLabel: string,
    stream: map<string, string>,
    waiting: set<string>,
    pending: map<string, Pending>,
    acked: set<string>,
    armed: bool,
    arming: bool,
    observed: Option<Observation>,
    workers: map<string, Phase>,
    dead: set<string>,
    effects: seq<string>,
    armings: nat,
    crashes: nat)

  function Init(operatorLabel: string): State
  {
    State(operatorLabel, map[], {}, map[], {}, false, false, None, map[], {}, [], 0, 0)
  }

  datatype Action =
    | Add(id: string, event: string)
    | ArmDelete
    | ArmSet
    | Start(w: string)
    | Deliver(w: string, id: string)
    | Reclaim(w: string, id: string)
    | Apply(w: string)
    | Get(w: string)
    | Trap(w: string)
    | Kill(w: string)
    | Ack(w: string)
    | Die(w: string)

  /** `\d+-\d+` */
  predicate IsStreamId(id: string)
  {
    var n := DigitRun(id);
    0 < n < |id| - 1 && id[n] == '-' && AllDigits(id[n + 1..])
  }

  predicate IsIncarnation(operatorLabel: string, identity: string)
  {
    operatorLabel + ":" <= identity
  }

  /** Digits, a hyphen, digits. */
  lemma StreamIdIff(id: string)
    ensures IsStreamId(id)
       <==> exists i | 0 < i < |id| - 1 :: id[i] == '-' && AllDigits(id[..i]) && AllDigits(id[i + 1..])
  {
    if i :| 0 < i < |id| - 1 && id[i] == '-' && AllDigits(id[..i]) && AllDigits(id[i + 1..]) {
      assert id == id[..i] + id[i..] && id[i..][0] == '-';
      DigitRunStops(id[..i], id[i..]);
    }
  }

  /** The operator label, a colon, and whatever tells incarnations apart. */
  lemma IncarnationIff(operatorLabel: string, identity: string)
    ensures IsIncarnation(operatorLabel, identity) <==> exists rest :: identity == operatorLabel + [':'] + rest
  {
    if IsIncarnation(operatorLabel, identity) {
      var rest := identity[|operatorLabel| + 1..];
      assert identity == operatorLabel + [':'] + rest;
    }
  }

  predicate In(s: State, w: string, phase: Phase)
  {
    w in s.workers && s.workers[w] == phase
  }

  predicate Enabled(s: State, a: Action)
  {
    match a
    case Add(id, _) => id !in s.stream && IsStreamId(id)
    case ArmDelete => !s.arming
    case ArmSet => s.arming
    case Start(w) => w !in s.workers && w !in s.dead && IsIncarnation(s.operatorLabel, w)
    case Deliver(w, id) => In(s, w, Idle) && id in s.waiting && id in s.stream
    case Reclaim(w, id) => In(s, w, Idle) && id in s.pending
    case Apply(w) => w in s.workers && s.workers[w].Working? && s.workers[w].id in s.stream
    case Get(w) => w in s.workers && s.workers[w].Applied?
    case Trap(w) => w in s.workers && s.workers[w].Trapped?
    case Kill(w) => In(s, w, Doomed)
    case Ack(w) => w in s.workers && s.workers[w].Passing?
    case Die(w) => w in s.workers
  }

  function Do(s: State, a: Action): State
    requires Enabled(s, a)
  {
    match a
    // XADD: a new event, or a replay of a logical event under a new entry id.
    case Add(id, event) => s.(stream := s.stream[id := event], waiting := s.waiting + {id})
    // The harness: DEL observed, then SET armed.
    case ArmDelete => s.(arming := true, observed := None)
    case ArmSet => s.(arming := false, armed := true, armings := s.armings + 1)
    // A process incarnation.
    case Start(w) => s.(workers := s.workers[w := Idle])
    case Deliver(w, id) =>
      s.(waiting := s.waiting - {id}, pending := s.pending[id := Pending(w, 1)],
         workers := s.workers[w := Working(id, 1)])
    case Reclaim(w, id) =>
      var n := s.pending[id].deliveries + 1;
      s.(pending := s.pending[id := Pending(w, n)], workers := s.workers[w := Working(id, n)])
    case Apply(w) =>
      var phase := s.workers[w];
      var event := s.stream[phase.id];
      s.(effects := if event in s.effects then s.effects else s.effects + [event],
         workers := s.workers[w := Applied(phase.id, phase.attempts)])
    // The crash point: GET armed; DEL armed and HSET observed in one transaction; SIGKILL.
    case Get(w) =>
      var phase := s.workers[w];
      var next := if s.armed then Trapped(phase.id, phase.attempts) else Passing(phase.id, phase.attempts);
      s.(workers := s.workers[w := next])
    case Trap(w) =>
      var phase := s.workers[w];
      s.(armed := false, observed := Some(Observation(phase.id, w, phase.attempts)), crashes := s.crashes + 1,
         workers := s.workers[w := Doomed])
    case Kill(w) => s.(workers := s.workers - {w}, dead := s.dead + {w})
    // The original acknowledgement, fenced by ownership.
    case Ack(w) =>
      var id := s.workers[w].id;
      if id in s.pending && s.pending[id].owner == w then
        s.(pending := s.pending - {id}, acked := s.acked + {id}, workers := s.workers[w := Idle])
      else s.(workers := s.workers[w := Idle])
    // Any other end of a process.
    case Die(w) => s.(workers := s.workers - {w}, dead := s.dead + {w})
  }

  // --- Runs ---------------------------------------------------------------------------------------------

  predicate Runs(s: State, actions: seq<Action>)
    decreases |actions|
  {
    actions == [] || (Enabled(s, actions[0]) && Runs(Do(s, actions[0]), actions[1..]))
  }

  function After(s: State, actions: seq<Action>): State
    requires Runs(s, actions)
    decreases |actions|
  {
    if actions == [] then s else After(Do(s, actions[0]), actions[1..])
  }

  /** A worker starts only when none is live. */
  predicate StartsAlone(s: State, a: Action)
  {
    a.Start? ==> s.workers == map[]
  }

  /** Runs with one live worker, whatever the harness does. */
  predicate LoneRun(s: State, actions: seq<Action>)
    decreases |actions|
  {
    actions == [] ||
    (Enabled(s, actions[0]) && StartsAlone(s, actions[0]) && LoneRun(Do(s, actions[0]), actions[1..]))
  }

  /** Besides, armings start only while the crash point is disarmed. */
  predicate Orderly(s: State, a: Action)
  {
    StartsAlone(s, a) && (a.ArmDelete? ==> !s.armed)
  }

  predicate OrderlyRun(s: State, actions: seq<Action>)
    decreases |actions|
  {
    actions == [] ||
    (Enabled(s, actions[0]) && Orderly(s, actions[0]) && OrderlyRun(Do(s, actions[0]), actions[1..]))
  }

  lemma {:induction false} LoneRuns(s: State, actions: seq<Action>)
    requires LoneRun(s, actions)
    ensures Runs(s, actions)
    decreases |actions|
  {
    if actions != [] {
      LoneRuns(Do(s, actions[0]), actions[1..]);
    }
  }

  lemma {:induction false} OrderlyIsLone(s: State, actions: seq<Action>)
    requires OrderlyRun(s, actions)
    ensures LoneRun(s, actions) && Runs(s, actions)
    decreases |actions|
  {
    if actions != [] {
      OrderlyIsLone(Do(s, actions[0]), actions[1..]);
    }
  }

  lemma {:induction false} RunsConcat(s: State, first: seq<Action>, rest: seq<Action>)
    ensures Runs(s, first + rest) <==> Runs(s, first) && Runs(After(s, first), rest)
    ensures Runs(s, first + rest) ==> After(s, first + rest) == After(After(s, first), rest)
    decreases |first|
  {
    var all := first + rest;
    if first == [] {
      assert all == rest;
    } else {
      assert all[1..] == first[1..] + rest;
      if Enabled(s, first[0]) {
        RunsConcat(Do(s, first[0]), first[1..], rest);
      }
    }
  }

  /** The next step of a run, after its first `n`. */
  lemma PrefixStep(s: State, actions: seq<Action>, n: nat)
    requires Runs(s, actions) && n < |actions|
    ensures Runs(s, actions[..n]) && Enabled(After(s, actions[..n]), actions[n])
    ensures Runs(s, actions[..n + 1])
    ensures After(s, actions[..n + 1]) == Do(After(s, actions[..n]), actions[n])
  {
    assert actions[..n] + actions[n..] == actions && actions[n..][0] == actions[n];
    RunsConcat(s, actions[..n], actions[n..]);
    var t := After(s, actions[..n]);
    assert actions[..n] + [actions[n]] == actions[..n + 1];
    RunsConcat(s, actions[..n], [actions[n]]);
    assert Runs(t, [actions[n]]) && After(t, [actions[n]]) == Do(t, actions[n]);
  }

  // --- What every step of every run keeps -----------------------------------------------------------------

  /** The entry that a worker is busy with. */
  predicate Busy(phase: Phase)
  {
    !phase.Idle? && !phase.Doomed?
  }

  predicate NoDuplicates(log: seq<string>)
  {
    forall i, j | 0 <= i < j < |log| :: log[i] != log[j]
  }

  /** Entries are conserved: each is waiting, pending or acknowledged, and only one of these. */
  predicate Conserved(s: State)
  {
    && s.stream.Keys == s.waiting + s.pending.Keys + s.acked
    && s.waiting !! s.pending.Keys && s.waiting !! s.acked && s.pending.Keys !! s.acked
  }

  /** Effects are applied at most once, to added events only, and before any acknowledgement. */
  predicate EffectsFirst(s: State)
  {
    && NoDuplicates(s.effects)
    && (forall id | id in s.acked :: id in s.stream && s.stream[id] in s.effects)
    && (forall e | e in s.effects :: exists id | id in s.stream :: s.stream[id] == e)
  }

  /** What a live worker knows: its entry has been delivered, its effect has been applied once it is past
      that point, and as long as it owns the entry its own count of deliveries is the group's. */
  predicate WorkerOk(s: State, w: string)
    requires w in s.workers
  {
    var phase := s.workers[w];
    Busy(phase) ==>
      && phase.id in s.stream && phase.id !in s.waiting
      && (phase.Working? || s.stream[phase.id] in s.effects)
      && (phase.id in s.pending && s.pending[phase.id].owner == w ==> s.pending[phase.id].deliveries == phase.attempts)
  }

  predicate Inv(s: State)
  {
    && Conserved(s)
    && EffectsFirst(s)
    && (forall w | w in s.workers :: w !in s.dead && WorkerOk(s, w) && IsIncarnation(s.operatorLabel, w))
    && (forall id | id in s.stream :: IsStreamId(id))
    && (forall id | id in s.pending :: s.pending[id].owner in s.workers || s.pending[id].owner in s.dead)
  }

  lemma InitInv(operatorLabel: string)
    ensures Inv(Init(operatorLabel))
  {
  }

  /** Which steps can change what, for the stream and the group. */
  lemma GroupFrame(s: State, a: Action)
    requires Enabled(s, a)
    ensures !a.Add? ==> Do(s, a).stream == s.stream
    ensures !a.Add? && !a.Deliver? ==> Do(s, a).waiting == s.waiting
    ensures !a.Deliver? && !a.Reclaim? && !a.Ack? ==> Do(s, a).pending == s.pending
    ensures !a.Ack? ==> Do(s, a).acked == s.acked
    ensures !a.Apply? ==> Do(s, a).effects == s.effects
  {
  }

  /** The same for the harness's keys and its counts. */
  lemma HarnessFrame(s: State, a: Action)
    requires Enabled(s, a)
    ensures !a.ArmSet? && !a.Trap? ==> Do(s, a).armed == s.armed
    ensures !a.ArmDelete? && !a.ArmSet? ==> Do(s, a).arming == s.arming
    ensures !a.ArmDelete? && !a.Trap? ==> Do(s, a).observed == s.observed
    ensures !a.ArmSet? ==> Do(s, a).armings == s.armings
    ensures !a.Trap? ==> Do(s, a).crashes == s.crashes
    ensures Do(s, a).operatorLabel == s.operatorLabel
  {
  }

  /** A step of one process, not of the harness or of an event's producer. */
  predicate OfProcess(a: Action)
  {
    !a.Add? && !a.ArmDelete? && !a.ArmSet?
  }

  /** The same for the processes: only the acting one changes. */
  lemma WorkerFrame(s: State, a: Action, w: string)
    requires Enabled(s, a) && !(OfProcess(a) && a.w == w)
    ensures w in Do(s, a).workers <==> w in s.workers
    ensures w in s.workers ==> Do(s, a).workers[w] == s.workers[w]
    ensures w in Do(s, a).dead <==> w in s.dead
  {
  }

  lemma AddConserves(s: State, id: string, event: string)
    requires Inv(s) && Enabled(s, Add(id, event))
    ensures Conserved(Do(s, Add(id, event)))
  {
  }

  lemma DeliverConserves(s: State, w: string, id: string)
    requires Inv(s) && Enabled(s, Deliver(w, id))
    ensures Conserved(Do(s, Deliver(w, id)))
  {
  }

  lemma ReclaimConserves(s: State, w: string, id: string)
    requires Inv(s) && Enabled(s, Reclaim(w, id))
    ensures Conserved(Do(s, Reclaim(w, id)))
  {
    assert Do(s, Reclaim(w, id)).pending.Keys == s.pending.Keys;
  }

  lemma AckConserves(s: State, w: string)
    requires Inv(s) && Enabled(s, Ack(w))
    ensures Conserved(Do(s, Ack(w)))
  {
  }

  lemma StepConserves(s: State, a: Action)
    requires Inv(s) && Enabled(s, a)
    ensures Conserved(Do(s, a))
  {
    match a {
      case Add(id, event) => AddConserves(s, id, event);
      case Deliver(w, id) => DeliverConserves(s, w, id);
      case Reclaim(w, id) => ReclaimConserves(s, w, id);
      case Ack(w) => AckConserves(s, w);
      case _ => GroupFrame(s, a);
    }
  }

  lemma AddKeepsEffects(s: State, id: string, event: string)
    requires Inv(s) && Enabled(s, Add(id, event))
    ensures EffectsFirst(Do(s, Add(id, event)))
  {
    var t := Do(s, Add(id, event));
    forall e | e in t.effects ensures exists i | i in t.stream :: t.stream[i] == e {
      var i :| i in s.stream && s.stream[i] == e;
      assert t.stream[i] == e;
    }
  }

  lemma ApplyKeepsEffects(s: State, w: string)
    requires Inv(s) && Enabled(s, Apply(w))
    ensures EffectsFirst(Do(s, Apply(w)))
  {
    var t := Do(s, Apply(w));
    forall e | e in t.effects ensures exists i | i in t.stream :: t.stream[i] == e {
      if e !in s.effects {
        assert t.stream[s.workers[w].id] == e;
      }
    }
  }

  lemma AckKeepsEffects(s: State, w: string)
    requires Inv(s) && Enabled(s, Ack(w))
    ensures EffectsFirst(Do(s, Ack(w)))
  {
    assert WorkerOk(s, w);
  }

  lemma StepKeepsEffects(s: State, a: Action)
    requires Inv(s) && Enabled(s, a)
    ensures EffectsFirst(Do(s, a))
  {
    match a {
      case Add(id, event) => AddKeepsEffects(s, id, event);
      case Apply(w) => ApplyKeepsEffects(s, w);
      case Ack(w) => AckKeepsEffects(s, w);
      case _ => GroupFrame(s, a);
    }
  }

  /** No step takes back an entry or an effect, or lets an old entry wait again. */
  lemma StepGrows(s: State, a: Action)
    requires Enabled(s, a)
    ensures forall id | id in s.stream :: id in Do(s, a).stream && Do(s, a).stream[id] == s.stream[id]
    ensures forall id | id in s.stream && id in Do(s, a).waiting :: id in s.waiting
    ensures forall e | e in s.effects :: e in Do(s, a).effects
  {
  }

  /** An entry comes into a worker's ownership by that worker's own steps only. */
  lemma OwnedBefore(s: State, a: Action, w: string, id: string)
    requires Enabled(s, a) && id in Do(s, a).pending && Do(s, a).pending[id].owner == w
    requires (a.Deliver? || a.Reclaim?) ==> a.w != w
    ensures id in s.pending && s.pending[id] == Do(s, a).pending[id]
  {
  }

  lemma StepKeepsWorker(s: State, a: Action, w: string)
    requires Inv(s) && Enabled(s, a) && w in s.workers && w in Do(s, a).workers
    requires Do(s, a).workers[w] == s.workers[w]
    ensures WorkerOk(Do(s, a), w)
  {
    assert WorkerOk(s, w);
    var t, phase := Do(s, a), s.workers[w];
    if Busy(phase) {
      StepGrows(s, a);
      if phase.id in t.pending && t.pending[phase.id].owner == w {
        OwnedBefore(s, a, w, phase.id);
      }
    }
  }

  lemma DeliverIsOk(s: State, w: string, id: string)
    requires Inv(s) && Enabled(s, Deliver(w, id))
    ensures WorkerOk(Do(s, Deliver(w, id)), w)
  {
  }

  lemma ReclaimIsOk(s: State, w: string, id: string)
    requires Inv(s) && Enabled(s, Reclaim(w, id))
    ensures WorkerOk(Do(s, Reclaim(w, id)), w)
  {
    assert id in s.stream.Keys;
  }

  lemma ApplyIsOk(s: State, w: string)
    requires Inv(s) && Enabled(s, Apply(w))
    ensures WorkerOk(Do(s, Apply(w)), w)
  {
    assert WorkerOk(s, w);
  }

  lemma GetIsOk(s: State, w: string)
    requires Inv(s) && Enabled(s, Get(w))
    ensures WorkerOk(Do(s, Get(w)), w)
  {
    assert WorkerOk(s, w);
  }

  /** Any other step leaves its worker without an entry. */
  lemma ActorIsOk(s: State, a: Action)
    requires Inv(s) && Enabled(s, a) && OfProcess(a)
    requires a.w in Do(s, a).workers
    ensures WorkerOk(Do(s, a), a.w)
  {
    match a {
      case Deliver(w, id) => DeliverIsOk(s, w, id);
      case Reclaim(w, id) => ReclaimIsOk(s, w, id);
      case Apply(w) => ApplyIsOk(s, w);
      case Get(w) => GetIsOk(s, w);
      case _ =>
    }
  }

  lemma StepKeepsWorkers(s: State, a: Action)
    requires Inv(s) && Enabled(s, a)
    ensures forall w | w in Do(s, a).workers ::
              w !in Do(s, a).dead && WorkerOk(Do(s, a), w) && IsIncarnation(s.operatorLabel, w)
  {
    var t := Do(s, a);
    forall w | w in t.workers ensures WorkerOk(t, w) {
      if OfProcess(a) && a.w == w {
        ActorIsOk(s, a);
      } else {
        WorkerFrame(s, a, w);
        StepKeepsWorker(s, a, w);
      }
    }
    forall w | w in t.workers ensures w !in t.dead && IsIncarnation(s.operatorLabel, w) {
      assert w in s.workers ==> IsIncarnation(s.operatorLabel, w);
    }
  }

  lemma StepKeepsIds(s: State, a: Action)
    requires Inv(s) && Enabled(s, a)
    ensures forall id | id in Do(s, a).stream :: IsStreamId(id)
  {
    GroupFrame(s, a);
  }

  /** A process that was started stays live or dead. */
  lemma StaysKnown(s: State, a: Action, w: string)
    requires Enabled(s, a) && (w in s.workers || w in s.dead)
    ensures w in Do(s, a).workers || w in Do(s, a).dead
  {
  }

  lemma OwnerStaysKnown(s: State, a: Action, id: string)
    requires Inv(s) && Enabled(s, a) && id in Do(s, a).pending
    ensures var owner := Do(s, a).pending[id].owner; owner in Do(s, a).workers || owner in Do(s, a).dead
  {
    var owner := Do(s, a).pending[id].owner;
    if (a.Deliver? || a.Reclaim?) && a.w == owner {
      StaysKnown(s, a, owner);
    } else {
      OwnedBefore(s, a, owner, id);
      StaysKnown(s, a, owner);
    }
  }

  lemma StepKeepsOwners(s: State, a: Action)
    requires Inv(s) && Enabled(s, a)
    ensures forall id | id in Do(s, a).pending ::
              Do(s, a).pending[id].owner in Do(s, a).workers || Do(s, a).pending[id].owner in Do(s, a).dead
  {
    forall id | id in Do(s, a).pending
      ensures Do(s, a).pending[id].owner in Do(s, a).workers || Do(s, a).pending[id].owner in Do(s, a).dead
    {
      OwnerStaysKnown(s, a, id);
    }
  }

  lemma StepKeepsInv(s: State, a: Action)
    requires Inv(s) && Enabled(s, a)
    ensures Inv(Do(s, a))
  {
    StepConserves(s, a);
    StepKeepsEffects(s, a);
    StepKeepsWorkers(s, a);
    StepKeepsIds(s, a);
    StepKeepsOwners(s, a);
    HarnessFrame(s, a);
  }

  lemma {:induction false} RunKeepsInv(s: State, actions: seq<Action>)
    requires Inv(s) && Runs(s, actions)
    ensures Inv(After(s, actions))
    decreases |actions|
  {
    if actions != [] {
      StepKeepsInv(s, actions[0]);
      RunKeepsInv(Do(s, actions[0]), actions[1..]);
    }
  }
}
