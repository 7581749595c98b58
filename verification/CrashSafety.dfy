/** Safety over whole runs of the crash-before-acknowledgement protocol. */
module CrashSafety {
  import opened Wrappers
  import opened CrashProtocol

  // --- Effects, in every run ------------------------------------------------------------------------------

  /** Whatever the interleaving of deliveries, crashes, restarts, reclaims and replays, with any number of
      live workers: each logical event's effect is there at most once, only for added entries, and before
      any acknowledgement of an entry of that event; and no entry is lost. That the log has no duplicates is
      the assumption that applying an effect again changes nothing, which `Apply` builds in; how often it is
      applied again, `ApplicationsAreHandovers` bounds. */
  lemma EffectsAtMostOnce(operatorLabel: string, actions: seq<Action>)
    requires Runs(Init(operatorLabel), actions)
    ensures var s := After(Init(operatorLabel), actions); EffectsFirst(s) && Conserved(s)
  {
    InitInv(operatorLabel);
    RunKeepsInv(Init(operatorLabel), actions);
  }

  /** The log of effects only grows: nothing is undone, redone or moved. */
  lemma {:induction false} EffectsOnlyGrow(s: State, actions: seq<Action>)
    requires Runs(s, actions)
    ensures s.effects <= After(s, actions).effects
    ensures s.stream.Keys <= After(s, actions).stream.Keys && s.acked <= After(s, actions).acked
    ensures forall id | id in s.stream :: After(s, actions).stream[id] == s.stream[id]
    decreases |actions|
  {
    if actions != [] {
      GrowStep(s, actions[0]);
      EffectsOnlyGrow(Do(s, actions[0]), actions[1..]);
    }
  }

  lemma GrowStep(s: State, a: Action)
    requires Enabled(s, a)
    ensures s.effects <= Do(s, a).effects && s.acked <= Do(s, a).acked
    ensures forall id | id in s.stream :: id in Do(s, a).stream && Do(s, a).stream[id] == s.stream[id]
  {
    GroupFrame(s, a);
  }

  /** Once every event of the stream has had its effect, replays, crashes and restarts add none. */
  lemma {:induction false} NoFurtherEffects(s: State, actions: seq<Action>)
    requires Inv(s) && Runs(s, actions)
    requires forall id | id in s.stream :: s.stream[id] in s.effects
    requires forall k | 0 <= k < |actions| :: actions[k].Add? ==> actions[k].event in s.effects
    ensures After(s, actions).effects == s.effects
    decreases |actions|
  {
    if actions != [] {
      var rest := actions[1..];
      NoFurtherStep(s, actions[0]);
      forall k | 0 <= k < |rest| ensures rest[k].Add? ==> rest[k].event in s.effects {
        assert rest[k] == actions[k + 1];
      }
      NoFurtherEffects(Do(s, actions[0]), rest);
    }
  }

  lemma NoFurtherStep(s: State, a: Action)
    requires Inv(s) && Enabled(s, a)
    requires forall id | id in s.stream :: s.stream[id] in s.effects
    requires a.Add? ==> a.event in s.effects
    ensures Inv(Do(s, a)) && Do(s, a).effects == s.effects
    ensures forall id | id in Do(s, a).stream :: Do(s, a).stream[id] in s.effects
  {
    StepKeepsInv(s, a);
  }

  // --- Deliveries, in every run ---------------------------------------------------------------------------

  predicate HandsOut(a: Action, id: string)
  {
    (a.Deliver? || a.Reclaim?) && a.id == id
  }

  /** How often the entry was handed to a worker. */
  function Handovers(actions: seq<Action>, id: string): nat
  {
    if actions == [] then 0 else (if HandsOut(actions[0], id) then 1 else 0) + Handovers(actions[1..], id)
  }

  function Deliveries(s: State, id: string): nat
  {
    if id in s.pending then s.pending[id].deliveries else 0
  }

  lemma HandoutStep(s: State, a: Action, id: string)
    requires Inv(s) && Enabled(s, a) && (a.Deliver? || a.Reclaim?)
    ensures Deliveries(Do(s, a), id) == Deliveries(s, id) + if HandsOut(a, id) then 1 else 0
  {
  }

  lemma AckStep(s: State, w: string, id: string)
    requires Inv(s) && Enabled(s, Ack(w))
    ensures id in s.acked ==> id in Do(s, Ack(w)).acked
    ensures id !in Do(s, Ack(w)).acked ==> Deliveries(Do(s, Ack(w)), id) == Deliveries(s, id)
  {
  }

  lemma HandoverStep(s: State, a: Action, id: string)
    requires Inv(s) && Enabled(s, a)
    ensures id in s.acked ==> id in Do(s, a).acked
    ensures id !in Do(s, a).acked ==>
              Deliveries(Do(s, a), id) == Deliveries(s, id) + if HandsOut(a, id) then 1 else 0
  {
    GroupFrame(s, a);
    if a.Deliver? || a.Reclaim? {
      HandoutStep(s, a, id);
    } else if a.Ack? {
      AckStep(s, a.w, id);
    }
  }

  lemma {:induction false} HandoversAddUp(s: State, actions: seq<Action>, id: string)
    requires Inv(s) && Runs(s, actions)
    ensures id in s.acked ==> id in After(s, actions).acked
    ensures id !in After(s, actions).acked ==>
              Deliveries(After(s, actions), id) == Handovers(actions, id) + Deliveries(s, id)
    decreases |actions|
  {
    if actions != [] {
      StepKeepsInv(s, actions[0]);
      HandoverStep(s, actions[0], id);
      HandoversAddUp(Do(s, actions[0]), actions[1..], id);
    }
  }

  /** The delivery count of a pending entry is the number of times it was handed out, whoever got it. */
  lemma DeliveriesAreCounted(operatorLabel: string, actions: seq<Action>, id: string)
    requires Runs(Init(operatorLabel), actions) && id in After(Init(operatorLabel), actions).pending
    ensures After(Init(operatorLabel), actions).pending[id].deliveries == Handovers(actions, id)
  {
    InitInv(operatorLabel);
    RunKeepsInv(Init(operatorLabel), actions);
    HandoversAddUp(Init(operatorLabel), actions, id);
  }

  // --- Applications, in every run -------------------------------------------------------------------------

  predicate AppliesEntry(s: State, a: Action, id: string)
    requires Enabled(s, a)
  {
    a.Apply? && s.workers[a.w].id == id
  }

  /** How often a worker applied the effect of the entry. */
  function Applications(s: State, actions: seq<Action>, id: string): nat
    requires Runs(s, actions)
    decreases |actions|
  {
    if actions == [] then 0
    else
      (if AppliesEntry(s, actions[0], id) then 1 else 0) + Applications(Do(s, actions[0]), actions[1..], id)
  }

  /** The workers that have the entry and have not applied its effect yet. */
  function WorkingOn(s: State, id: string): set<string>
  {
    set w | w in s.workers && s.workers[w].Working? && s.workers[w].id == id
  }

  lemma OneMoreAtMost(before: set<string>, after: set<string>, w: string)
    requires after <= before + {w}
    ensures |after| <= |before| + 1
  {
    Subsets(after, before + {w});
  }

  lemma {:induction false} Subsets(small: set<string>, large: set<string>)
    requires small <= large
    ensures |small| <= |large|
    decreases small
  {
    if w :| w in small {
      Subsets(small - {w}, large - {w});
    }
  }

  lemma HandoutWorks(s: State, a: Action, id: string)
    requires Enabled(s, a) && HandsOut(a, id)
    ensures WorkingOn(Do(s, a), id) <= WorkingOn(s, id) + {a.w}
  {
  }

  lemma ApplyStopsWorking(s: State, w: string)
    requires Enabled(s, Apply(w))
    ensures w in WorkingOn(s, s.workers[w].id)
    ensures WorkingOn(Do(s, Apply(w)), s.workers[w].id) <= WorkingOn(s, s.workers[w].id) - {w}
  {
  }

  lemma OthersStartNoWork(s: State, a: Action, id: string)
    requires Enabled(s, a) && !HandsOut(a, id)
    ensures WorkingOn(Do(s, a), id) <= WorkingOn(s, id)
  {
  }

  lemma ApplicationStep(s: State, a: Action, id: string)
    requires Enabled(s, a)
    ensures (if AppliesEntry(s, a, id) then 1 else 0) + |WorkingOn(Do(s, a), id)|
         <= |WorkingOn(s, id)| + (if HandsOut(a, id) then 1 else 0)
  {
    var before, after := WorkingOn(s, id), WorkingOn(Do(s, a), id);
    if HandsOut(a, id) {
      HandoutWorks(s, a, id);
      OneMoreAtMost(before, after, a.w);
    } else if AppliesEntry(s, a, id) {
      ApplyStopsWorking(s, a.w);
      Subsets(after, before - {a.w});
    } else {
      OthersStartNoWork(s, a, id);
      Subsets(after, before);
    }
  }

  lemma {:induction false} ApplicationsAddUp(s: State, actions: seq<Action>, id: string)
    requires Runs(s, actions)
    ensures Applications(s, actions, id) <= |WorkingOn(s, id)| + Handovers(actions, id)
    decreases |actions|
  {
    if actions != [] {
      ApplicationStep(s, actions[0], id);
      ApplicationsAddUp(Do(s, actions[0]), actions[1..], id);
    }
  }

  /** An entry's effect is applied at most as often as the entry is handed out. */
  lemma ApplicationsAreHandovers(operatorLabel: string, actions: seq<Action>, id: string)
    requires Runs(Init(operatorLabel), actions)
    ensures Applications(Init(operatorLabel), actions, id) <= Handovers(actions, id)
  {
    ApplicationsAddUp(Init(operatorLabel), actions, id);
    assert WorkingOn(Init(operatorLabel), id) == {};
  }

  // --- Dead incarnations, in every run --------------------------------------------------------------------

  /** The incarnation is dead, or about to be killed by its own hand. */
  predicate Gone(s: State, w: string)
  {
    w in s.dead || In(s, w, Doomed)
  }

  predicate Acts(a: Action, w: string)
  {
    OfProcess(a) && a.w == w
  }

  /** After its crash an incarnation never does anything again but die: it starts, delivers, reclaims,
      applies and acknowledges nothing. */
  lemma {:induction false} GoneNeverActs(s: State, actions: seq<Action>, w: string)
    requires Inv(s) && Runs(s, actions) && Gone(s, w)
    ensures forall k | 0 <= k < |actions| :: Acts(actions[k], w) ==> actions[k].Kill? || actions[k].Die?
    ensures Gone(After(s, actions), w)
    decreases |actions|
  {
    if actions != [] {
      GoneStep(s, actions[0], w);
      GoneNeverActs(Do(s, actions[0]), actions[1..], w);
      forall k | 0 <= k < |actions|
        ensures Acts(actions[k], w) ==> actions[k].Kill? || actions[k].Die?
      {
        if k > 0 {
          assert actions[k] == actions[1..][k - 1];
        }
      }
    }
  }

  lemma GoneStep(s: State, a: Action, w: string)
    requires Inv(s) && Enabled(s, a) && Gone(s, w)
    ensures Inv(Do(s, a)) && Gone(Do(s, a), w)
    ensures Acts(a, w) ==> a.Kill? || a.Die?
  {
    StepKeepsInv(s, a);
    GoneStays(s, a, w);
  }

  lemma GoneStays(s: State, a: Action, w: string)
    requires (w in s.workers ==> w !in s.dead) && Enabled(s, a) && Gone(s, w)
    ensures Gone(Do(s, a), w)
    ensures Acts(a, w) ==> a.Kill? || a.Die?
  {
  }

  // --- The observation and the pending entry --------------------------------------------------------------

  /** The record of the crash agrees with the group's own record of the entry, and its owner is gone. */
  predicate Agrees(s: State, o: Observation)
  {
    && s.observed == Some(o)
    && o.sourceId in s.pending && s.pending[o.sourceId] == Pending(o.owner, o.attempts)
    && Gone(s, o.owner)
  }

  function Crash(s: State, w: string): Observation
    requires Enabled(s, Trap(w))
  {
    Observation(s.workers[w].id, w, s.workers[w].attempts)
  }

  /** In any run, with any number of live workers, the record agrees right after the crash if and only if
      the crashing worker still owned its entry. */
  lemma CrashAgreesIff(s: State, w: string)
    requires Inv(s) && Enabled(s, Trap(w))
    ensures Agrees(Do(s, Trap(w)), Crash(s, w))
       <==> s.workers[w].id in s.pending && s.pending[s.workers[w].id].owner == w
  {
    assert WorkerOk(s, w);
  }

  /** Steps that leave the record alone: no reclaim of its entry, no new arming, no other crash. */
  predicate Spares(a: Action, o: Observation)
  {
    !(a.Reclaim? && a.id == o.sourceId) && !a.ArmDelete? && !a.Trap?
  }

  /** The pending entry of a gone owner is left alone by every step but a reclaim. */
  lemma EntryOfGone(s: State, a: Action, id: string, owner: string)
    requires Inv(s) && Enabled(s, a) && Gone(s, owner)
    requires id in s.pending && s.pending[id].owner == owner
    ensures id in Do(s, a).pending && Do(s, a).pending[id] == s.pending[id] <==> !(a.Reclaim? && a.id == id)
  {
    GroupFrame(s, a);
  }

  /** Exactly these steps keep an agreeing record in agreement. */
  lemma StepKeepsAgreement(s: State, a: Action, o: Observation)
    requires Inv(s) && Enabled(s, a) && Agrees(s, o)
    ensures Agrees(Do(s, a), o) <==> Spares(a, o)
  {
    HarnessFrame(s, a);
    EntryOfGone(s, a, o.sourceId, o.owner);
    GoneStays(s, a, o.owner);
    if a.Trap? {
      assert Do(s, a).observed != Some(o);
    }
  }

  /** Once the owner is gone, an agreement that is broken never comes back. */
  lemma StepAgreementIff(s: State, a: Action, o: Observation)
    requires Inv(s) && Enabled(s, a) && Gone(s, o.owner)
    ensures Agrees(Do(s, a), o) <==> Agrees(s, o) && Spares(a, o)
  {
    GoneStays(s, a, o.owner);
    if Agrees(s, o) {
      StepKeepsAgreement(s, a, o);
    } else if Agrees(Do(s, a), o) {
      HarnessFrame(s, a);
      OwnedBefore(s, a, o.owner, o.sourceId);
      assert false;
    }
  }

  lemma {:induction false} AgreementIff(s: State, actions: seq<Action>, o: Observation)
    requires Inv(s) && Runs(s, actions) && Gone(s, o.owner)
    ensures Agrees(After(s, actions), o) <==> Agrees(s, o) && AllSpare(actions, o)
    decreases |actions|
  {
    if actions != [] {
      var a, rest := actions[0], actions[1..];
      GoneStep(s, a, o.owner);
      StepAgreementIff(s, a, o);
      AgreementIff(Do(s, a), rest, o);
      AllSpareStep(actions, o);
    }
  }

  predicate AllSpare(actions: seq<Action>, o: Observation)
  {
    forall k | 0 <= k < |actions| :: Spares(actions[k], o)
  }

  lemma AllSpareStep(actions: seq<Action>, o: Observation)
    requires actions != []
    ensures AllSpare(actions, o) <==> Spares(actions[0], o) && AllSpare(actions[1..], o)
  {
    if Spares(actions[0], o) && AllSpare(actions[1..], o) {
      forall k | 0 <= k < |actions| ensures Spares(actions[k], o) {
        assert k > 0 ==> actions[k] == actions[1..][k - 1];
      }
    }
  }

  /** The worker owns the entry it is busy with. */
  predicate Owns(s: State, w: string)
  {
    && w in s.workers && Busy(s.workers[w])
    && s.workers[w].id in s.pending && s.pending[s.workers[w].id].owner == w
  }

  /** The run goes on with a crash of this worker, and then with these steps. */
  predicate CrashRun(operatorLabel: string, before: seq<Action>, w: string, after: seq<Action>)
  {
    && Runs(Init(operatorLabel), before)
    && Enabled(After(Init(operatorLabel), before), Trap(w))
    && Runs(Do(After(Init(operatorLabel), before), Trap(w)), after)
  }

  lemma CrashRunIsRun(operatorLabel: string, before: seq<Action>, w: string, after: seq<Action>)
    requires CrashRun(operatorLabel, before, w, after)
    ensures Runs(Init(operatorLabel), before + ([Trap(w)] + after))
    ensures After(Init(operatorLabel), before + ([Trap(w)] + after))
         == After(Do(After(Init(operatorLabel), before), Trap(w)), after)
  {
    var s := After(Init(operatorLabel), before);
    assert ([Trap(w)] + after)[1..] == after;
    assert Runs(s, [Trap(w)] + after);
    RunsConcat(Init(operatorLabel), before, [Trap(w)] + after);
  }

  /** Crash agreement, exactly: in every run, with any number of live workers and any armings, the record of a
      crash agrees with the group at a later point if and only if the worker owned its entry when it crashed
      and every step since then has spared the record. */
  lemma CrashAgreementIff(operatorLabel: string, before: seq<Action>, w: string, after: seq<Action>)
    requires CrashRun(operatorLabel, before, w, after)
    ensures Runs(Init(operatorLabel), before + ([Trap(w)] + after))
    ensures var s := After(Init(operatorLabel), before);
            Agrees(After(Init(operatorLabel), before + ([Trap(w)] + after)), Crash(s, w))
            <==> Owns(s, w) && AllSpare(after, Crash(s, w))
    ensures forall k | 0 <= k < |after| :: after[k] != Ack(w)
  {
    var s := After(Init(operatorLabel), before);
    InitInv(operatorLabel);
    RunKeepsInv(Init(operatorLabel), before);
    CrashAgreesIff(s, w);
    StepKeepsInv(s, Trap(w));
    AgreementIff(Do(s, Trap(w)), after, Crash(s, w));
    CrashRunIsRun(operatorLabel, before, w, after);
    GoneNeverActs(Do(s, Trap(w)), after, w);
    forall k | 0 <= k < |after| ensures after[k] != Ack(w) {
      assert Acts(after[k], w) ==> after[k].Kill? || after[k].Die?;
    }
  }

  /** `assert_real_crashed_pending`, once the observation is there. */
  predicate HarnessAccepts(s: State)
  {
    && s.observed.Some?
    && var o := s.observed.value;
       && IsStreamId(o.sourceId) && IsIncarnation(s.operatorLabel, o.owner)
       && o.sourceId in s.pending
       && s.pending[o.sourceId].owner == o.owner && s.pending[o.sourceId].deliveries == o.attempts
  }

  lemma AgreementIsAccepted(s: State, o: Observation)
    requires Inv(s) && Agrees(s, o) && IsIncarnation(s.operatorLabel, o.owner)
    ensures HarnessAccepts(s)
  {
    assert o.sourceId in s.stream;
  }

  lemma {:induction false} LabelStays(s: State, actions: seq<Action>)
    requires Runs(s, actions)
    ensures After(s, actions).operatorLabel == s.operatorLabel
    decreases |actions|
  {
    if actions != [] {
      HarnessFrame(s, actions[0]);
      LabelStays(Do(s, actions[0]), actions[1..]);
    }
  }

  /** Where the record of a crash agrees, the harness's check passes. */
  lemma CrashIsAccepted(operatorLabel: string, before: seq<Action>, w: string, after: seq<Action>)
    requires CrashRun(operatorLabel, before, w, after)
    requires Agrees(After(Do(After(Init(operatorLabel), before), Trap(w)), after),
                    Crash(After(Init(operatorLabel), before), w))
    ensures HarnessAccepts(After(Do(After(Init(operatorLabel), before), Trap(w)), after))
  {
    var s := After(Init(operatorLabel), before);
    var t := Do(s, Trap(w));
    InitInv(operatorLabel);
    RunKeepsInv(Init(operatorLabel), before);
    StepKeepsInv(s, Trap(w));
    RunKeepsInv(t, after);
    HarnessFrame(s, Trap(w));
    LabelStays(t, after);
    AgreementIsAccepted(After(t, after), Crash(s, w));
  }

  // --- One live worker, any armings -----------------------------------------------------------------------

  /** What holds in runs with one live worker. */
  predicate Lone(s: State)
  {
    && (forall w, v | w in s.workers && v in s.workers :: w == v)
    && (forall w | w in s.workers :: LoneWorker(s, w))
    && s.crashes + (if s.armed then 1 else 0) <= s.armings
  }

  /** The one live worker owns the entry it is busy with, and is trapped only while armed. */
  predicate LoneWorker(s: State, w: string)
    requires w in s.workers
  {
    var phase := s.workers[w];
    && (Busy(phase) ==> phase.id in s.pending && s.pending[phase.id] == Pending(w, phase.attempts))
    && (phase.Trapped? ==> s.armed)
  }

  /** The acting worker still owns what it is busy with. */
  lemma ActorStaysLone(s: State, a: Action)
    requires Inv(s) && Lone(s) && Enabled(s, a) && OfProcess(a) && a.w in Do(s, a).workers
    ensures LoneWorker(Do(s, a), a.w)
  {
    assert a.w in s.workers ==> LoneWorker(s, a.w);
  }

  lemma OtherStaysLone(s: State, a: Action, w: string)
    requires Lone(s) && Enabled(s, a) && !OfProcess(a) && w in s.workers
    ensures w in Do(s, a).workers && LoneWorker(Do(s, a), w)
  {
    assert LoneWorker(s, w);
  }

  lemma StaysAlone(s: State, a: Action)
    requires Lone(s) && Enabled(s, a) && StartsAlone(s, a)
    ensures forall w, v | w in Do(s, a).workers && v in Do(s, a).workers :: w == v
    ensures OfProcess(a) ==> forall w | w in Do(s, a).workers :: w == a.w
  {
  }

  lemma CrashesStayPaid(s: State, a: Action)
    requires Lone(s) && Enabled(s, a)
    ensures Do(s, a).crashes + (if Do(s, a).armed then 1 else 0) <= Do(s, a).armings
  {
    HarnessFrame(s, a);
    if a.Trap? {
      assert LoneWorker(s, a.w);
    }
  }

  lemma StepKeepsLone(s: State, a: Action)
    requires Inv(s) && Lone(s) && Enabled(s, a) && StartsAlone(s, a)
    ensures Lone(Do(s, a))
  {
    var t := Do(s, a);
    StaysAlone(s, a);
    CrashesStayPaid(s, a);
    forall w | w in t.workers ensures LoneWorker(t, w) {
      if OfProcess(a) {
        ActorStaysLone(s, a);
      } else {
        WorkerFrame(s, a, w);
        OtherStaysLone(s, a, w);
      }
    }
  }

  lemma {:induction false} RunKeepsLone(s: State, actions: seq<Action>)
    requires Inv(s) && Lone(s) && LoneRun(s, actions)
    ensures Runs(s, actions) && Inv(After(s, actions)) && Lone(After(s, actions))
    decreases |actions|
  {
    if actions != [] {
      StepKeepsInv(s, actions[0]);
      StepKeepsLone(s, actions[0]);
      RunKeepsLone(Do(s, actions[0]), actions[1..]);
    }
  }

  lemma LoneState(operatorLabel: string, actions: seq<Action>)
    requires LoneRun(Init(operatorLabel), actions)
    ensures Runs(Init(operatorLabel), actions)
    ensures Inv(After(Init(operatorLabel), actions)) && Lone(After(Init(operatorLabel), actions))
  {
    InitInv(operatorLabel);
    RunKeepsLone(Init(operatorLabel), actions);
  }

  /** With one live worker, whenever the harness arms: crashes never exceed armings, not even the one that is
      still to come. */
  lemma CrashesWithinArmings(operatorLabel: string, actions: seq<Action>)
    requires LoneRun(Init(operatorLabel), actions)
    ensures Runs(Init(operatorLabel), actions)
    ensures var s := After(Init(operatorLabel), actions); s.crashes + (if s.armed then 1 else 0) <= s.armings
  {
    LoneState(operatorLabel, actions);
  }

  /** Crash agreement: if one worker was live up to its crash, then whatever follows, with however many workers
      and whatever armings, the recorded source id, owner and attempts are those of a still pending entry as
      long as every step spares the record, and exactly so long; the harness's check then passes, and the
      crashed incarnation never acknowledges anything. */
  lemma CrashAgreement(operatorLabel: string, before: seq<Action>, w: string, after: seq<Action>)
    requires LoneRun(Init(operatorLabel), before) && CrashRun(operatorLabel, before, w, after)
    ensures Runs(Init(operatorLabel), before + ([Trap(w)] + after))
    ensures var t, o := After(Init(operatorLabel), before + ([Trap(w)] + after)),
                        Crash(After(Init(operatorLabel), before), w);
            (Agrees(t, o) <==> AllSpare(after, o)) && (AllSpare(after, o) ==> HarnessAccepts(t))
    ensures forall k | 0 <= k < |after| :: after[k] != Ack(w)
  {
    var s := After(Init(operatorLabel), before);
    LoneState(operatorLabel, before);
    assert LoneWorker(s, w);
    CrashAgreementIff(operatorLabel, before, w, after);
    CrashRunIsRun(operatorLabel, before, w, after);
    if AllSpare(after, Crash(s, w)) {
      CrashIsAccepted(operatorLabel, before, w, after);
    }
  }

  // --- The attempts on the record, in every run -----------------------------------------------------------

  lemma {:induction false} HandoversSnoc(actions: seq<Action>, a: Action, id: string)
    ensures Handovers(actions + [a], id) == Handovers(actions, id) + if HandsOut(a, id) then 1 else 0
    decreases |actions|
  {
    var longer := actions + [a];
    if actions == [] {
      assert longer == [a] && longer[1..] == [];
    } else {
      assert longer[1..] == actions[1..] + [a];
      HandoversSnoc(actions[1..], a, id);
    }
  }

  /** A busy worker's count is the number of handovers if it still owns its entry, and fewer if it does not. */
  predicate CountKnown(s: State, w: string, actions: seq<Action>)
    requires w in s.workers
  {
    var phase := s.workers[w];
    Busy(phase) ==>
      && phase.attempts <= Handovers(actions, phase.id)
      && (phase.attempts == Handovers(actions, phase.id) <==> Owns(s, w))
  }

  lemma ActorCountKnown(s: State, a: Action, before: seq<Action>)
    requires Inv(s) && Enabled(s, a) && OfProcess(a) && a.w in Do(s, a).workers
    requires a.w in s.workers ==> CountKnown(s, a.w, before)
    requires a.Deliver? || a.Reclaim? ==> Deliveries(s, a.id) == Handovers(before, a.id)
    ensures CountKnown(Do(s, a), a.w, before + [a])
  {
    if Busy(Do(s, a).workers[a.w]) {
      HandoversSnoc(before, a, Do(s, a).workers[a.w].id);
    }
  }

  lemma OtherCountKnown(s: State, a: Action, w: string, before: seq<Action>)
    requires Inv(s) && Enabled(s, a) && !(OfProcess(a) && a.w == w) && w in s.workers
    requires CountKnown(s, w, before)
    ensures w in Do(s, a).workers && CountKnown(Do(s, a), w, before + [a])
  {
    WorkerFrame(s, a, w);
    var phase := s.workers[w];
    if Busy(phase) {
      HandoversSnoc(before, a, phase.id);
      OwnershipStep(s, a, w);
    }
  }

  /** Another worker's acknowledgement leaves the entries of this one alone. */
  lemma ForeignAck(s: State, other: string, w: string)
    requires Enabled(s, Ack(other)) && other != w && w in s.workers && Busy(s.workers[w])
    ensures Owns(Do(s, Ack(other)), w) <==> Owns(s, w)
  {
  }

  lemma ForeignHandout(s: State, a: Action, w: string)
    requires Enabled(s, a) && (a.Deliver? || a.Reclaim?) && a.w != w && w in s.workers && Busy(s.workers[w])
    ensures Owns(Do(s, a), w) <==> Owns(s, w) && !HandsOut(a, s.workers[w].id)
  {
  }

  /** Another process's step takes an entry away exactly by handing it out. */
  lemma OwnershipStep(s: State, a: Action, w: string)
    requires Inv(s) && Enabled(s, a) && !(OfProcess(a) && a.w == w) && w in s.workers && Busy(s.workers[w])
    ensures w in Do(s, a).workers
    ensures Owns(Do(s, a), w) <==> Owns(s, w) && !HandsOut(a, s.workers[w].id)
  {
    WorkerFrame(s, a, w);
    GroupFrame(s, a);
    if a.Ack? {
      ForeignAck(s, a.w, w);
    } else if a.Deliver? || a.Reclaim? {
      ForeignHandout(s, a, w);
    }
  }

  lemma PendingIsCounted(operatorLabel: string, before: seq<Action>, a: Action)
    requires Runs(Init(operatorLabel), before) && Enabled(After(Init(operatorLabel), before), a)
    requires a.Deliver? || a.Reclaim?
    ensures Deliveries(After(Init(operatorLabel), before), a.id) == Handovers(before, a.id)
  {
    InitInv(operatorLabel);
    RunKeepsInv(Init(operatorLabel), before);
    HandoversAddUp(Init(operatorLabel), before, a.id);
  }

  lemma CountStep(operatorLabel: string, before: seq<Action>, a: Action, w: string)
    requires Runs(Init(operatorLabel), before) && Enabled(After(Init(operatorLabel), before), a)
    requires var s := After(Init(operatorLabel), before); forall v | v in s.workers :: CountKnown(s, v, before)
    requires w in Do(After(Init(operatorLabel), before), a).workers
    ensures CountKnown(Do(After(Init(operatorLabel), before), a), w, before + [a])
  {
    var s := After(Init(operatorLabel), before);
    InitInv(operatorLabel);
    RunKeepsInv(Init(operatorLabel), before);
    if OfProcess(a) && a.w == w {
      if a.Deliver? || a.Reclaim? {
        PendingIsCounted(operatorLabel, before, a);
      }
      ActorCountKnown(s, a, before);
    } else {
      WorkerFrame(s, a, w);
      OtherCountKnown(s, a, w, before);
    }
  }

  lemma {:induction false} CountsAreKnown(operatorLabel: string, actions: seq<Action>, n: nat)
    requires Runs(Init(operatorLabel), actions) && n <= |actions|
    ensures Runs(Init(operatorLabel), actions[..n])
    ensures var s := After(Init(operatorLabel), actions[..n]);
            forall w | w in s.workers :: CountKnown(s, w, actions[..n])
    decreases n
  {
    if n == 0 {
      assert actions[..0] == [];
    } else {
      var before, a := actions[..n - 1], actions[n - 1];
      CountsAreKnown(operatorLabel, actions, n - 1);
      PrefixStep(Init(operatorLabel), actions, n - 1);
      var t := Do(After(Init(operatorLabel), before), a);
      assert actions[..n] == before + [a];
      forall w | w in t.workers ensures CountKnown(t, w, before + [a]) {
        CountStep(operatorLabel, before, a, w);
      }
    }
  }

  /** In every run the attempts on the record are the number of times the entry had been handed out if and only
      if the crashing worker still owned the entry; otherwise they are fewer. */
  lemma CrashCountsDeliveriesIff(operatorLabel: string, before: seq<Action>, w: string)
    requires Runs(Init(operatorLabel), before) && Enabled(After(Init(operatorLabel), before), Trap(w))
    ensures var s := After(Init(operatorLabel), before);
            var o := Crash(s, w);
            && o.attempts <= Handovers(before, o.sourceId)
            && (o.attempts == Handovers(before, o.sourceId) <==> Owns(s, w))
  {
    CountsAreKnown(operatorLabel, before, |before|);
    assert before[..|before|] == before;
    assert CountKnown(After(Init(operatorLabel), before), w, before);
  }

  /** With one live worker they always are. */
  lemma CrashCountsDeliveries(operatorLabel: string, before: seq<Action>, w: string)
    requires LoneRun(Init(operatorLabel), before)
    requires Runs(Init(operatorLabel), before) && Enabled(After(Init(operatorLabel), before), Trap(w))
    ensures var o := Crash(After(Init(operatorLabel), before), w);
            o.attempts == Handovers(before, o.sourceId)
  {
    LoneState(operatorLabel, before);
    assert LoneWorker(After(Init(operatorLabel), before), w);
    CrashCountsDeliveriesIff(operatorLabel, before, w);
  }

  // --- One live worker, armings only while disarmed -------------------------------------------------------

  /** What holds in orderly runs besides. */
  predicate Solo(s: State)
  {
    && Lone(s)
    && (s.armed || s.arming ==> s.observed.None?)
    && !(s.armed && s.arming)
    && s.crashes + (if s.armed then 1 else 0) == s.armings
  }

  lemma FlagsStaySolo(s: State, a: Action)
    requires Solo(s) && Enabled(s, a) && Orderly(s, a)
    ensures var t := Do(s, a);
            && (t.armed || t.arming ==> t.observed.None?) && !(t.armed && t.arming)
            && t.crashes + (if t.armed then 1 else 0) == t.armings
  {
    HarnessFrame(s, a);
    if a.Trap? {
      assert LoneWorker(s, a.w);
    }
  }

  lemma StepKeepsSolo(s: State, a: Action)
    requires Inv(s) && Solo(s) && Enabled(s, a) && Orderly(s, a)
    ensures Solo(Do(s, a))
  {
    StepKeepsLone(s, a);
    FlagsStaySolo(s, a);
  }

  lemma {:induction false} RunKeepsSolo(s: State, actions: seq<Action>)
    requires Inv(s) && Solo(s) && OrderlyRun(s, actions)
    ensures Runs(s, actions) && Inv(After(s, actions)) && Solo(After(s, actions))
    decreases |actions|
  {
    if actions != [] {
      StepKeepsInv(s, actions[0]);
      StepKeepsSolo(s, actions[0]);
      RunKeepsSolo(Do(s, actions[0]), actions[1..]);
    }
  }

  lemma OrderlyState(operatorLabel: string, actions: seq<Action>)
    requires OrderlyRun(Init(operatorLabel), actions)
    ensures Runs(Init(operatorLabel), actions)
    ensures Inv(After(Init(operatorLabel), actions)) && Solo(After(Init(operatorLabel), actions))
  {
    InitInv(operatorLabel);
    RunKeepsSolo(Init(operatorLabel), actions);
  }

  /** One crash per arming: never armed and observed at once, and every arming so far has crashed one worker,
      but for the one that is still armed. */
  lemma OneCrashPerArming(operatorLabel: string, actions: seq<Action>)
    requires OrderlyRun(Init(operatorLabel), actions)
    ensures Runs(Init(operatorLabel), actions)
    ensures var s := After(Init(operatorLabel), actions);
            && !(s.armed && s.observed.Some?)
            && s.crashes <= s.armings <= s.crashes + 1
            && (s.armings == s.crashes <==> !s.armed)
  {
    OrderlyState(operatorLabel, actions);
  }

  /** No reclaim of the record's entry, and no new arming. */
  predicate LeavesAlone(actions: seq<Action>, o: Observation)
  {
    forall k | 0 <= k < |actions| :: !(actions[k].Reclaim? && actions[k].id == o.sourceId) && !actions[k].ArmDelete?
  }

  /** Disarmed and with no arming under way, no worker crashes before the next arming. */
  lemma {:induction false} NoCrashUnarmed(s: State, actions: seq<Action>, o: Observation)
    requires Inv(s) && Solo(s) && !s.armed && !s.arming && OrderlyRun(s, actions) && LeavesAlone(actions, o)
    ensures AllSpare(actions, o)
    decreases |actions|
  {
    if actions != [] {
      var a, rest := actions[0], actions[1..];
      if a.Trap? {
        assert false;
      }
      HarnessFrame(s, a);
      StepKeepsInv(s, a);
      StepKeepsSolo(s, a);
      forall k | 0 <= k < |rest|
        ensures !(rest[k].Reclaim? && rest[k].id == o.sourceId) && !rest[k].ArmDelete?
      {
        assert rest[k] == actions[k + 1];
      }
      NoCrashUnarmed(Do(s, a), rest, o);
      AllSpareStep(actions, o);
    }
  }

  /** In orderly runs nothing but a reclaim of the entry or a new arming ends the agreement: no other worker
      crashes before. */
  lemma OrderlyCrashAgreement(operatorLabel: string, before: seq<Action>, w: string, after: seq<Action>)
    requires OrderlyRun(Init(operatorLabel), before) && CrashRun(operatorLabel, before, w, after)
    requires OrderlyRun(Do(After(Init(operatorLabel), before), Trap(w)), after)
    requires LeavesAlone(after, Crash(After(Init(operatorLabel), before), w))
    ensures Runs(Init(operatorLabel), before + ([Trap(w)] + after))
    ensures var t := After(Init(operatorLabel), before + ([Trap(w)] + after));
            Agrees(t, Crash(After(Init(operatorLabel), before), w)) && HarnessAccepts(t)
  {
    var s := After(Init(operatorLabel), before);
    OrderlyIsLone(Init(operatorLabel), before);
    OrderlyState(operatorLabel, before);
    assert LoneWorker(s, w);
    StepKeepsInv(s, Trap(w));
    StepKeepsSolo(s, Trap(w));
    NoCrashUnarmed(Do(s, Trap(w)), after, Crash(s, w));
    CrashAgreement(operatorLabel, before, w, after);
  }
}
