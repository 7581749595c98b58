/** The keys follow the protocol: along every run, what the crash point and the harness read from Redis is what
    the transition system says. */
module CrashRefinement {
  import opened Wrappers
  import opened Decimal
  import opened CrashProtocol
  import opened CrashSafety
  import opened CrashPoint

  /** What a step of the protocol does to the keys of its service. */
  function KeysAfter(keys: Keys, service: string, s: State, a: Action): Keys
    requires Enabled(s, a)
  {
    match a
    case ArmDelete => Unobserved(keys, service)
    case ArmSet => Armed(keys, service)
    case Trap(w) =>
      var o := Crash(s, w);
      Crashed(keys, service, o.sourceId, o.owner, o.attempts)
    case _ => keys
  }

  function KeysAfterRun(keys: Keys, service: string, s: State, actions: seq<Action>): Keys
    requires Runs(s, actions)
    decreases |actions|
  {
    if actions == [] then keys
    else KeysAfterRun(KeysAfter(keys, service, s, actions[0]), service, Do(s, actions[0]), actions[1..])
  }

  function RecordOf(o: Observation): Record
  {
    Record(o.sourceId, o.owner, OfNat(o.attempts))
  }

  predicate Represents(keys: Keys, service: string, s: State)
  {
    && (IsArmed(keys, service) <==> s.armed)
    && Observe(keys, service) == Ok(if s.observed.Some? then Some(RecordOf(s.observed.value)) else None)
  }

  lemma StepRefines(keys: Keys, service: string, s: State, a: Action)
    requires Inv(s) && Enabled(s, a) && Represents(keys, service, s)
    ensures Represents(KeysAfter(keys, service, s, a), service, Do(s, a))
  {
    KeysDiffer(service, service);
    HarnessFrame(s, a);
    if a.Trap? {
      TrapRefines(keys, service, s, a.w);
    }
  }

  lemma TrapRefines(keys: Keys, service: string, s: State, w: string)
    requires Inv(s) && Enabled(s, Trap(w))
    ensures Represents(KeysAfter(keys, service, s, Trap(w)), service, Do(s, Trap(w)))
  {
    var o := Crash(s, w);
    assert WorkerOk(s, w) && IsStreamId(o.sourceId) && IsIncarnation(s.operatorLabel, o.owner);
    ObservedAfterCrash(keys, service, o.sourceId, o.owner, o.attempts);
  }

  lemma {:induction false} RunRefines(keys: Keys, service: string, s: State, actions: seq<Action>)
    requires Inv(s) && Runs(s, actions) && Represents(keys, service, s)
    ensures Represents(KeysAfterRun(keys, service, s, actions), service, After(s, actions))
    decreases |actions|
  {
    if actions != [] {
      StepKeepsInv(s, actions[0]);
      StepRefines(keys, service, s, actions[0]);
      RunRefines(KeysAfter(keys, service, s, actions[0]), service, Do(s, actions[0]), actions[1..]);
    }
  }

  /** Starting without the two keys, every run of any number of workers. */
  lemma KeysFollowTheProtocol(keys: Keys, service: string, operatorLabel: string, actions: seq<Action>)
    requires Runs(Init(operatorLabel), actions)
    requires ArmedKey(service) !in keys && ObservedKey(service) !in keys
    ensures var s := After(Init(operatorLabel), actions);
            Represents(KeysAfterRun(keys, service, Init(operatorLabel), actions), service, s)
  {
    InitInv(operatorLabel);
    RunRefines(keys, service, Init(operatorLabel), actions);
  }

  // --- The harness's check of the crashed entry -----------------------------------------------------------

  /** A line of the group's pending list. */
  datatype PendingRow = PendingRow(sourceId: string, owner: string, idle: nat, deliveries: int)

  /** `XPENDING stream group id id 1` */
  function PendingRows(s: State, id: string, idle: nat): seq<PendingRow>
  {
    if id in s.pending then [PendingRow(id, s.pending[id].owner, idle, s.pending[id].deliveries)] else []
  }

  /** The record and the pending lines have their forms and say the same. */
  predicate RowsAgree(record: Record, rows: seq<PendingRow>, operatorLabel: string)
  {
    && IsStreamId(record.sourceId) && IsIncarnation(operatorLabel, record.owner)
    && |rows| == 1
    && rows[0].sourceId == record.sourceId && rows[0].owner == record.owner
    && ToInt(record.attempts) == Some(rows[0].deliveries)
  }

  /** On the texts of a represented state, the assertions hold if and only if the record agrees with the group
      in the state itself. */
  lemma AcceptsIff(s: State, record: Record, idle: nat)
    requires s.observed.Some? && record == RecordOf(s.observed.value)
    ensures HarnessAccepts(s) <==> RowsAgree(record, PendingRows(s, record.sourceId, idle), s.operatorLabel)
  {
    ToIntOfInt(s.observed.value.attempts);
  }

  /** The record and the lines are what Redis returns in this state of the protocol. */
  predicate ReadFrom(s: State, record: Record, rows: seq<PendingRow>, idle: nat)
  {
    && s.observed.Some? && record == RecordOf(s.observed.value)
    && rows == PendingRows(s, record.sourceId, idle)
  }

  /** The assertions of `assert_real_crashed_pending`, on the texts that Redis returns. Whatever state these
      were read from, they pass if and only if that state is one the harness accepts. */
  method AssertRealCrashedPending(record: Record, rows: seq<PendingRow>, operatorLabel: string)
    returns (r: Result<Record, Failure>)
    ensures r == Ok(record) <==> RowsAgree(record, rows, operatorLabel)
    ensures r.Ok? ==> r.value == record
    ensures forall s: State, idle | s.operatorLabel == operatorLabel && ReadFrom(s, record, rows, idle) ::
              r == Ok(record) <==> HarnessAccepts(s)
  {
    forall s: State, idle | s.operatorLabel == operatorLabel && ReadFrom(s, record, rows, idle)
      ensures RowsAgree(record, rows, operatorLabel) <==> HarnessAccepts(s)
    {
      AcceptsIff(s, record, idle);
    }
    if !IsStreamId(record.sourceId) || !(operatorLabel + ":" <= record.owner) || |rows| != 1 {
      return Err(AssertionFailed);
    }
    var row := rows[0];
    if row.sourceId != record.sourceId || row.owner != record.owner {
      return Err(AssertionFailed);
    }
    if ToInt(record.attempts) != Some(row.deliveries) {
      return Err(AssertionFailed);
    }
    return Ok(record);
  }
}
