/** The crash point before the acknowledgement and the harness's side of it, on the keys of a Redis server. */
module CrashPoint {
  import opened Wrappers
  import opened Decimal
  import Utf8

  // --- Redis ----------------------------------------------------------------------------------------------

  datatype Value = Text(text: string) | Hash(fields: map<string, string>)

  type Keys = map<string, Value>

  datatype Failure = WrongType | NotAscii | NoIdentity | AssertionFailed

  /** The commands in use. A command on a key that holds the other type fails and changes nothing. */
  class Redis {
    var keys: Keys

    constructor (keys: Keys)
      ensures this.keys == keys
    {
      this.keys := keys;
    }

    method Get(key: string) returns (r: Result<Option<string>, Failure>)
      ensures r == match Lookup(keys, key)
                   case None => Ok(None)
                   case Some(Text(text)) => Ok(Some(text))
                   case Some(Hash(_)) => Err(WrongType)
    {
      r := match Lookup(keys, key)
           case None => Ok(None)
           case Some(Text(text)) => Ok(Some(text))
           case Some(Hash(_)) => Err(WrongType);
    }

    method Delete(key: string)
      modifies this
      ensures keys == old(keys) - {key}
    {
      keys := keys - {key};
    }

    method Set(key: string, text: string)
      modifies this
      ensures keys == old(keys)[key := Text(text)]
    {
      keys := keys[key := Text(text)];
    }

    method SetFields(key: string, fields: map<string, string>) returns (r: Result<(), Failure>)
      modifies this
      ensures r.Err? <==> Lookup(old(keys), key).Some? && old(keys)[key].Text?
      ensures r.Err? ==> r == Err(WrongType) && keys == old(keys)
      ensures r.Ok? ==> keys == old(keys)[key := Hash(FieldsAt(old(keys), key) + fields)]
    {
      match Lookup(keys, key)
      case Some(Text(_)) => r := Err(WrongType);
      case _ =>
        keys := keys[key := Hash(FieldsAt(keys, key) + fields)];
        r := Ok(());
    }

    method GetFields(key: string, names: seq<string>) returns (r: Result<seq<Option<string>>, Failure>)
      ensures r.Err? <==> Lookup(keys, key).Some? && keys[key].Text?
      ensures r.Ok? ==> |r.value| == |names|
      ensures r.Ok? ==> forall i | 0 <= i < |names| :: r.value[i] == Field(keys, key, names[i])
    {
      match Lookup(keys, key)
      case Some(Text(_)) => r := Err(WrongType);
      case _ =>
        var now := keys;
        r := Ok(seq(|names|, i requires 0 <= i < |names| => Field(now, key, names[i])));
    }
  }

  function Lookup(keys: Keys, key: string): Option<Value>
  {
    if key in keys then Some(keys[key]) else None
  }

  function FieldsAt(keys: Keys, key: string): map<string, string>
  {
    match Lookup(keys, key)
    case Some(Hash(fields)) => fields
    case _ => map[]
  }

  function Field(keys: Keys, key: string, name: string): Option<string>
  {
    var fields := FieldsAt(keys, key);
    if name in fields then Some(fields[name]) else None
  }

  // --- Keys and services ----------------------------------------------------------------------------------

  const SERVICES := {"diagnostic", "email", "export"}
  const ARMED := "signaldesk:task14:crash:armed:"
  const OBSERVED := "signaldesk:task14:crash:observed:"

  function ArmedKey(service: string): string
  {
    ARMED + service
  }

  function ObservedKey(service: string): string
  {
    OBSERVED + service
  }

  predicate IsArmed(keys: Keys, service: string)
  {
    Lookup(keys, ArmedKey(service)) == Some(Text("1"))
  }

  /** The key of the record holds no string, so that a hash command on it works. */
  predicate Recordable(keys: Keys, service: string)
  {
    match Lookup(keys, ObservedKey(service))
    case Some(Text(_)) => false
    case _ => true
  }

  // --- The crash point ------------------------------------------------------------------------------------

  datatype EntryId = Bytes(bytes: seq<Utf8.byte>) | Chars(text: string)

  /** `_source_id`: the entry id as text; bytes must be ASCII. */
  function SourceId(entryId: EntryId): (id: Option<string>)
    ensures entryId.Chars? ==> id == Some(entryId.text)
    ensures entryId.Bytes? ==> (id.Some? <==> forall b | b in entryId.bytes :: b < 128)
    ensures entryId.Bytes? && id.Some? ==>
              |id.value| == |entryId.bytes| &&
              forall i | 0 <= i < |entryId.bytes| :: id.value[i] as int == entryId.bytes[i] as int
  {
    match entryId
    case Chars(text) => Some(text)
    case Bytes(bytes) =>
      if forall b | b in bytes :: b < 128 then
        Some(seq(|bytes|, i requires 0 <= i < |bytes| => bytes[i] as char))
      else None
  }

  /** An attribute of the consumer, as `getattr` sees it. */
  datatype Attribute = Absent | NotText | Str(text: string)

  /** The public identity; the private one only when there is no public attribute at all. */
  function Identity(public: Attribute, private: Attribute): (identity: Option<string>)
    ensures forall t: string ::
              (identity == Some(t) <==> t != "" && (public == Str(t) || (public == Absent && private == Str(t))))
  {
    var identity := if public.Absent? then private else public;
    if identity.Str? && identity.text != "" then Some(identity.text) else None
  }

  datatype Outcome = Passed(entryId: EntryId, attempts: int) | Raised(failure: Failure) | Killed

  function Mapping(sourceId: string, owner: string, attempts: int): map<string, string>
  {
    map["source_id" := sourceId, "owner" := owner, "attempts" := OfInt(attempts)]
  }

  /** The keys after the transaction. */
  function Crashed(keys: Keys, service: string, sourceId: string, owner: string, attempts: int): Keys
  {
    var key := ObservedKey(service);
    (keys - {ArmedKey(service)})[key := Hash(FieldsAt(keys, key) + Mapping(sourceId, owner, attempts))]
  }

  /** A service is armed by one key with the value `1`, and a crash removes that key and sets the three fields of
      another. */
  lemma KeysByName(keys: Keys, service: string, sourceId: string, owner: string, attempts: int)
    ensures IsArmed(keys, service)
       <==> Lookup(keys, "signaldesk:task14:crash:armed:" + service) == Some(Text("1"))
    ensures var armedKey, observedKey := "signaldesk:task14:crash:armed:" + service,
                                         "signaldesk:task14:crash:observed:" + service;
            var after := Crashed(keys, service, sourceId, owner, attempts);
            && after.Keys == keys.Keys - {armedKey} + {observedKey}
            && (forall key | key in after && key != observedKey :: after[key] == keys[key])
            && after[observedKey].Hash?
            && after[observedKey].fields == FieldsAt(keys, observedKey)
                 + map["source_id" := sourceId, "owner" := owner, "attempts" := OfInt(attempts)]
  {
    KeysDiffer(service, service);
  }

  /** A worker process whose consumer class has its `_ack` overwritten. */
  class Worker {
    const redis: Redis
    const service: string
    const public: Attribute
    const private: Attribute
    var alive: bool

    constructor (redis: Redis, service: string, public: Attribute, private: Attribute)
      ensures this.redis == redis && this.service == service && this.public == public && this.private == private
      ensures alive
    {
      this.redis, this.service, this.public, this.private := redis, service, public, private;
      alive := true;
    }

    /** `crash_before_ack`: passes the call on unless armed; armed, it either raises before it touches any key,
        or uses up the arming, leaves the record and dies. Only a record key of the wrong type makes it raise
        with the arming already used up. */
    method CrashBeforeAck(entryId: EntryId, attempts: int) returns (outcome: Outcome)
      requires alive
      modifies this, redis
      ensures var keys := old(redis.keys);
              var armed, id, owner := IsArmed(keys, service), SourceId(entryId), Identity(public, private);
              && (outcome.Killed? <==> armed && id.Some? && owner.Some? && Recordable(keys, service))
              && (outcome.Killed? ==> redis.keys == Crashed(keys, service, id.value, owner.value, attempts))
              && (alive <==> !outcome.Killed?)
              && (outcome.Passed? ==> !armed && outcome == Passed(entryId, attempts) && redis.keys == keys)
              && (outcome.Raised? && !armed ==>
                    ArmedKey(service) in keys && keys[ArmedKey(service)].Hash? && redis.keys == keys)
              && (outcome.Raised? && armed ==>
                    redis.keys == if id.None? || owner.None? then keys else keys - {ArmedKey(service)})
              && (outcome.Raised? ==>
                    outcome.failure == if !armed then WrongType else if id.None? then NotAscii
                                       else if owner.None? then NoIdentity else WrongType)
    {
      KeysDiffer(service, service);
      var armed := redis.Get(ArmedKey(service));
      if armed.Err? {
        return Raised(armed.error);
      }
      if armed.value == Some("1") {
        var sourceId := SourceId(entryId);
        if sourceId.None? {
          return Raised(NotAscii);
        }
        var identity := Identity(public, private);
        if identity.None? {
          return Raised(NoIdentity);
        }
        redis.Delete(ArmedKey(service));
        var recorded := redis.SetFields(
          ObservedKey(service), Mapping(sourceId.value, identity.value, attempts));
        if recorded.Err? {
          return Raised(recorded.error);
        }
        alive := false;
        return Killed;
      }
      return Passed(entryId, attempts);
    }
  }

  // --- The harness ----------------------------------------------------------------------------------------

  /** `arm_real_worker_crash` */
  method ArmRealWorkerCrash(redis: Redis, service: string) returns (r: Result<(), Failure>)
    modifies redis
    ensures r.Ok? <==> service in {"diagnostic", "email", "export"}
    ensures r.Err? ==> redis.keys == old(redis.keys)
    ensures r.Ok? ==> redis.keys == Armed(Unobserved(old(redis.keys), service), service)
    ensures r.Ok? ==>
              redis.keys == (old(redis.keys) - {"signaldesk:task14:crash:observed:" + service})
                            ["signaldesk:task14:crash:armed:" + service := Text("1")]
  {
    if service !in SERVICES {
      return Err(AssertionFailed);
    }
    redis.Delete(ObservedKey(service));
    redis.Set(ArmedKey(service), "1");
    return Ok(());
  }

  function Unobserved(keys: Keys, service: string): Keys
  {
    keys - {ObservedKey(service)}
  }

  function Armed(keys: Keys, service: string): Keys
  {
    keys[ArmedKey(service) := Text("1")]
  }

  datatype Record = Record(sourceId: string, owner: string, attempts: string)

  /** What the key of the record says: nothing, a whole record, or something that is neither. */
  function Observe(keys: Keys, service: string): Result<Option<Record>, Failure>
  {
    var key := ObservedKey(service);
    var sourceId, owner := Field(keys, key, "source_id"), Field(keys, key, "owner");
    var attempts := Field(keys, key, "attempts");
    if !Recordable(keys, service) then Err(AssertionFailed)
    else if sourceId.None? && owner.None? && attempts.None? then Ok(None)
    else if HasText(sourceId) && HasText(owner) && HasText(attempts) then
      Ok(Some(Record(sourceId.value, owner.value, attempts.value)))
    else Err(AssertionFailed)
  }

  predicate HasText(field: Option<string>)
  {
    field.Some? && field.value != ""
  }

  /** `crash_observation` */
  method CrashObservation(redis: Redis, service: string) returns (r: Result<Option<Record>, Failure>)
    ensures r == Observe(redis.keys, service)
  {
    var names := ["source_id", "owner", "attempts"];
    var raw := redis.GetFields(ObservedKey(service), names);
    if raw.Err? {
      return Err(AssertionFailed);
    }
    var none, whole := true, true;
    for i := 0 to |names|
      invariant none <==> forall j | 0 <= j < i :: raw.value[j].None?
      invariant whole <==> forall j | 0 <= j < i :: HasText(raw.value[j])
    {
      none := none && raw.value[i].None?;
      whole := whole && HasText(raw.value[i]);
    }
    assert raw.value == [raw.value[0], raw.value[1], raw.value[2]];
    if none {
      return Ok(None);
    }
    if !whole {
      return Err(AssertionFailed);
    }
    return Ok(Some(Record(raw.value[0].value, raw.value[1].value, raw.value[2].value)));
  }

  // --- What the two sides promise each other --------------------------------------------------------------

  /** The record key of one service is never the arming key of another. */
  lemma KeysDiffer(service: string, other: string)
    ensures ArmedKey(service) != ObservedKey(other)
    ensures service != other ==> ArmedKey(service) != ArmedKey(other) && ObservedKey(service) != ObservedKey(other)
  {
    assert ArmedKey(service)[24] == 'a' && ObservedKey(other)[24] == 'o';
    assert ArmedKey(service)[|ARMED|..] == service && ArmedKey(other)[|ARMED|..] == other;
    assert ObservedKey(service)[|OBSERVED|..] == service && ObservedKey(other)[|OBSERVED|..] == other;
  }

  /** After a crash the harness reads back what the worker knew, whatever an earlier record left behind; the
      attempts come back as the same number. Only an empty entry id spoils it. */
  lemma ObservedAfterCrash(keys: Keys, service: string, sourceId: string, owner: string, attempts: int)
    requires owner != ""
    ensures var after := Crashed(keys, service, sourceId, owner, attempts);
            && !IsArmed(after, service)
            && (sourceId == "" ==> Observe(after, service) == Err(AssertionFailed))
            && (sourceId != "" ==> Observe(after, service) == Ok(Some(Record(sourceId, owner, OfInt(attempts)))))
            && ToInt(OfInt(attempts)) == Some(attempts)
  {
    KeysDiffer(service, service);
    ToIntOfInt(attempts);
    NamesDiffer();
    assert OfInt(attempts) != "";
    var key := ObservedKey(service);
    var fields := FieldsAt(keys, key) + Mapping(sourceId, owner, attempts);
    assert FieldsAt(Crashed(keys, service, sourceId, owner, attempts), key) == fields;
    assert fields["source_id"] == sourceId && fields["owner"] == owner && fields["attempts"] == OfInt(attempts);
  }

  lemma NamesDiffer()
    ensures "source_id" != "owner" && "source_id" != "attempts" && "owner" != "attempts"
  {
    assert "source_id"[0] == 's' && "owner"[0] == 'o' && "attempts"[0] == 'a';
  }

  /** After arming, a service is armed and has no record. */
  lemma ArmedThenUnobserved(keys: Keys, service: string)
    ensures var after := Armed(Unobserved(keys, service), service);
            IsArmed(after, service) && Observe(after, service) == Ok(None)
  {
    KeysDiffer(service, service);
  }

  /** Arming and record of a service depend on its own two keys only. */
  lemma OwnKeysOnly(keys: Keys, others: Keys, service: string)
    requires Lookup(keys, ArmedKey(service)) == Lookup(others, ArmedKey(service))
    requires Lookup(keys, ObservedKey(service)) == Lookup(others, ObservedKey(service))
    ensures IsArmed(keys, service) == IsArmed(others, service) && Observe(keys, service) == Observe(others, service)
  {
    assert FieldsAt(keys, ObservedKey(service)) == FieldsAt(others, ObservedKey(service));
  }

  /** Arming or crashing one service is invisible to the others. */
  lemma OthersUnaffected(keys: Keys, service: string, other: string,
                         sourceId: string, owner: string, attempts: int)
    requires service != other
    ensures var armed, crashed := Armed(Unobserved(keys, service), service),
                                  Crashed(keys, service, sourceId, owner, attempts);
            && IsArmed(armed, other) == IsArmed(keys, other) == IsArmed(crashed, other)
            && Observe(armed, other) == Observe(keys, other) == Observe(crashed, other)
  {
    KeysDiffer(service, other);
    KeysDiffer(other, service);
    OwnKeysOnly(keys, Armed(Unobserved(keys, service), service), other);
    OwnKeysOnly(keys, Crashed(keys, service, sourceId, owner, attempts), other);
  }
}
