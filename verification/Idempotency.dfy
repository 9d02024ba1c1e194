/** The store, and executions as interleaved steps between their awaits. */
module IdempotencyModel {
  import opened Wrappers

  datatype Status<+T> = Processing | Completed(result: T)

  datatype Record<+T> = Record(fingerprint: string, status: Status<T>, expiresAt: Option<real>)

  datatype AcquireResult<+T> = Acquired | AlreadyCompleted(result: T) | AlreadyInFlight | FingerprintConflict

  type Records<T> = map<string, Record<T>>

  /** A zero expiry reads as none. */
  predicate Expired<T>(r: Record<T>, now: real) {
    r.expiresAt.Some? && r.expiresAt.value != 0.0 && r.expiresAt.value <= now
  }

  /** A zero time to live reads as none. */
  function ExpiryOf(ttlMs: Option<real>, now: real): Option<real> {
    if ttlMs.Some? && ttlMs.value != 0.0 then Some(now + ttlMs.value) else None
  }

  function Acquire<T>(records: Records<T>, key: string, fingerprint: string, ttlMs: Option<real>, now: real)
    : (Records<T>, AcquireResult<T>)
  {
    if key in records && !Expired(records[key], now) then
      (records,
       if records[key].fingerprint != fingerprint then FingerprintConflict
       else match records[key].status
            case Completed(result) => AlreadyCompleted(result)
            case Processing => AlreadyInFlight)
    else (records[key := Record(fingerprint, Processing, ExpiryOf(ttlMs, now))], Acquired)
  }

  function Complete<T>(records: Records<T>, key: string, fingerprint: string, result: T, ttlMs: Option<real>, now: real)
    : Records<T>
  {
    if key !in records || records[key].fingerprint != fingerprint then records
    else
      var kept := records[key].expiresAt;
      records[key := Record(fingerprint, Completed(result),
                            if ExpiryOf(ttlMs, now).Some? then ExpiryOf(ttlMs, now) else kept)]
  }

  function Release<T>(records: Records<T>, key: string, fingerprint: string): Records<T> {
    if key in records && records[key].fingerprint == fingerprint && records[key].status.Processing?
    then records - {key} else records
  }

  // --- the store, in clock readings ---

  /** A record acquired with a time to live answers by itself before its expiry, and is acquired anew from then on. */
  lemma AcquiredUntilExpiry<T>(records: Records<T>, key: string, f: string, g: string, ttl: real, now: real,
                             later: real)
    requires ttl > 0.0 && now + ttl != 0.0 && key !in records
    ensures Acquire(records, key, f, Some(ttl), now).1 == Acquired
    ensures var mine := Acquire(records, key, f, Some(ttl), now).0;
            Acquire(mine, key, g, None, later).1 ==
              if later >= now + ttl then Acquired else if g == f then AlreadyInFlight else FingerprintConflict
    ensures var mine := Acquire(records, key, f, None, now).0;
            Acquire(mine, key, g, None, later).1 == if g == f then AlreadyInFlight else FingerprintConflict
  {
  }

  /** A completed record answers with its result before its expiry, which completing may set anew. */
  lemma CompletedUntilExpiry<T>(records: Records<T>, key: string, f: string, g: string, result: T, ttl: real, now: real,
                                later: real)
    requires ttl > 0.0 && now + ttl != 0.0 && key in records && records[key].fingerprint == f
    ensures var done := Complete(records, key, f, result, Some(ttl), now);
            Acquire(done, key, g, None, later).1 ==
              if later >= now + ttl then Acquired else if g == f then AlreadyCompleted(result) else FingerprintConflict
    ensures records[key].expiresAt.None? ==>
              var done := Complete(records, key, f, result, None, now);
              Acquire(done, key, g, None, later).1 == if g == f then AlreadyCompleted(result) else FingerprintConflict
  {
  }

  /** Releasing a record that is processing frees its key for anyone; a completed one, or another's, stays. */
  lemma ReleasedIsFree<T>(records: Records<T>, key: string, f: string, g: string, now: real)
    requires key in records
    ensures records[key].fingerprint == f && records[key].status.Processing? ==>
              Acquire(Release(records, key, f), key, g, None, now).1 == Acquired
    ensures records[key].fingerprint != f || records[key].status.Completed? ==> Release(records, key, f) == records
    ensures records[key].fingerprint != f ==>
              forall result, ttl :: Complete(records, key, f, result, ttl, now) == records
  {
  }

  // --- executions ---

  datatype Outcome<+T> = Executed(result: T) | Replayed(result: T) | Conflict | InFlight | Failed

  /** Where an execution is suspended, or how it ended. */
  datatype Phase<+T> =
    | AfterAcquire(found: AcquireResult<T>, mayWait: bool)
    | Running
    | Completing(result: T)
    | Releasing
    | Waiting(on: nat)
    | Done(outcome: Outcome<T>)

  datatype Call<+T> = Call(key: string, fingerprint: string, phase: Phase<T>)

  datatype Settlement<+T> = Pending | Resolved(result: T) | Rejected

  /** A promise is named by the call that made it. No record has a time to live. */
  datatype World<+T> = World(
    records: map<string, Record<T>>,
    inFlight: map<string, nat>,
    promises: map<nat, Settlement<T>>,
    calls: map<nat, Call<T>>)

  datatype Event<+T> =
    | Execute(id: nat, key: string, fingerprint: string, mayWait: bool, now: real)
    | Resume(id: nat, now: real)
    | FnResolves(id: nat, result: T)
    | FnRejects(id: nat)

  function Start<T>(): World<T> {
    World(map[], map[], map[], map[])
  }

  predicate Enabled<T>(w: World<T>, ev: Event<T>) {
    match ev
    case Execute(id, _, _, _, _) => id !in w.calls
    case Resume(id, _) =>
      id in w.calls &&
      (match w.calls[id].phase
       case AfterAcquire(_, _) => true
       case Completing(_) => true
       case Releasing => true
       case Waiting(p) => p in w.promises && w.promises[p] != Pending
       case _ => false)
    case FnResolves(id, _) => id in w.calls && w.calls[id].phase.Running?
    case FnRejects(id) => id in w.calls && w.calls[id].phase.Running?
  }

  function Moved<T>(w: World<T>, id: nat, phase: Phase<T>): map<nat, Call<T>>
    requires id in w.calls
  {
    w.calls[id := w.calls[id].(phase := phase)]
  }

  /** From the call of `execute` to its first await. */
  function Begin<T>(w: World<T>, id: nat, key: string, fingerprint: string, mayWait: bool, now: real): World<T> {
    var (records, found) := Acquire(w.records, key, fingerprint, None, now);
    w.(records := records, calls := w.calls[id := Call(key, fingerprint, AfterAcquire(found, mayWait))])
  }

  /** From the result of `acquire` to the next await or the end. */
  function Proceed<T>(w: World<T>, id: nat, found: AcquireResult<T>, mayWait: bool): World<T>
    requires id in w.calls
  {
    var key := w.calls[id].key;
    match found
    case FingerprintConflict => w.(calls := Moved(w, id, Done(Conflict)))
    case AlreadyCompleted(result) => w.(calls := Moved(w, id, Done(Replayed(result))))
    case Acquired =>
      w.(promises := w.promises[id := Pending], inFlight := w.inFlight[key := id], calls := Moved(w, id, Running))
    case AlreadyInFlight =>
      w.(calls := Moved(w, id, if mayWait && key in w.inFlight then Waiting(w.inFlight[key]) else Done(InFlight)))
  }

  /** Settles the promise of the call and forgets whatever promise is in flight for its key. */
  function Conclude<T>(w: World<T>, id: nat, settlement: Settlement<T>, outcome: Outcome<T>): World<T>
    requires id in w.calls
  {
    w.(promises := w.promises[id := settlement], inFlight := w.inFlight - {w.calls[id].key},
       calls := Moved(w, id, Done(outcome)))
  }

  function Step<T>(w: World<T>, ev: Event<T>): World<T>
    requires Enabled(w, ev)
  {
    match ev
    case Execute(id, key, fingerprint, mayWait, now) => Begin(w, id, key, fingerprint, mayWait, now)
    case FnResolves(id, result) =>
      var c := w.calls[id];
      w.(records := Complete(w.records, c.key, c.fingerprint, result, None, 0.0),
          calls := Moved(w, id, Completing(result)))
    case FnRejects(id) =>
      var c := w.calls[id];
      w.(records := Release(w.records, c.key, c.fingerprint), calls := Moved(w, id, Releasing))
    case Resume(id, now) =>
      match w.calls[id].phase
      case AfterAcquire(found, mayWait) => Proceed(w, id, found, mayWait)
      case Completing(result) => Conclude(w, id, Resolved(result), Executed(result))
      case Releasing => Conclude(w, id, Rejected, Failed)
      case Waiting(p) =>
        match w.promises[p]
        case Resolved(result) => w.(calls := Moved(w, id, Done(Replayed(result))))
        case _ => Begin(w, id, w.calls[id].key, w.calls[id].fingerprint, false, now)
  }
}

module IdempotencyRuns {
  import opened Wrappers
  import opened IdempotencyModel

  // --- what every step keeps ---

  /** From acquiring the record until `fn` has settled. */
  predicate Owns<T>(c: Call<T>) {
    c.phase.Running? || (c.phase.AfterAcquire? && c.phase.found.Acquired?)
  }

  /** The result a call has been given, if any. */
  function Carried<T>(c: Call<T>): Option<T> {
    match c.phase
    case Completing(result) => Some(result)
    case Done(Executed(result)) => Some(result)
    case Done(Replayed(result)) => Some(result)
    case AfterAcquire(AlreadyCompleted(result), _) => Some(result)
    case _ => None
  }

  ghost predicate NoExpiry<T>(w: World<T>) {
    forall k | k in w.records :: w.records[k].expiresAt.None?
  }

  ghost predicate Owned<T>(w: World<T>) {
    forall id | id in w.calls && Owns(w.calls[id]) ::
      w.calls[id].key in w.records && w.records[w.calls[id].key] == Record(w.calls[id].fingerprint, Processing, None)
  }

  ghost predicate SoleOwners<T>(w: World<T>) {
    forall i, j | i in w.calls && j in w.calls && Owns(w.calls[i]) && Owns(w.calls[j])
        && w.calls[i].key == w.calls[j].key :: i == j
  }

  ghost predicate OwnerOf<T>(w: World<T>, k: string, id: nat) {
    id in w.calls && Owns(w.calls[id]) && w.calls[id].key == k
  }

  ghost predicate HasOwners<T>(w: World<T>) {
    forall k | k in w.records && w.records[k].status.Processing? :: exists id :: OwnerOf(w, k, id)
  }

  ghost predicate Holds<T>(w: World<T>, k: string, v: T) {
    k in w.records && w.records[k].status == Completed(v)
  }

  ghost predicate CarriesAgree<T>(w: World<T>) {
    forall id | id in w.calls && Carried(w.calls[id]).Some? :: Holds(w, w.calls[id].key, Carried(w.calls[id]).value)
  }

  predicate Unsettled<T>(c: Call<T>) {
    c.phase.Running? || c.phase.Completing? || c.phase.Releasing?
  }

  ghost predicate PromisesFit<T>(w: World<T>) {
    && (forall p | p in w.promises :: p in w.calls && (w.promises[p].Pending? <==> Unsettled(w.calls[p])))
    && (forall p | p in w.calls && Unsettled(w.calls[p]) :: p in w.promises)
  }

  ghost predicate PromisesHold<T>(w: World<T>) {
    forall p | p in w.promises && w.promises[p].Resolved? ::
        p in w.calls && Holds(w, w.calls[p].key, w.promises[p].result)
  }

  ghost predicate InFlightFits<T>(w: World<T>) {
    forall k | k in w.inFlight :: PromiseFor(w, w.inFlight[k], k)
  }

  ghost predicate WaitersFit<T>(w: World<T>) {
    forall id | id in w.calls && w.calls[id].phase.Waiting? :: PromiseFor(w, w.calls[id].phase.on, w.calls[id].key)
  }

  ghost predicate PromiseFor<T>(w: World<T>, p: nat, k: string) {
    p in w.promises && p in w.calls && w.calls[p].key == k
  }

  ghost predicate Inv<T>(w: World<T>) {
    && NoExpiry(w) && Owned(w) && SoleOwners(w) && HasOwners(w)
    && CarriesAgree(w) && PromisesFit(w) && PromisesHold(w) && InFlightFits(w) && WaitersFit(w)
  }

  // --- what one step does to calls, records and promises ---

  /** Only the stepping call moves. */
  lemma CallsStep<T>(w: World<T>, ev: Event<T>)
    requires Enabled(w, ev)
    ensures ev.id in Step(w, ev).calls && Step(w, ev).calls == w.calls[ev.id := Step(w, ev).calls[ev.id]]
  {
  }

  /** And keeps its key and its fingerprint. */
  lemma KeyStays<T>(w: World<T>, ev: Event<T>)
    requires Enabled(w, ev) && ev.id in w.calls
    ensures ev.id in Step(w, ev).calls
            && Step(w, ev).calls[ev.id] == w.calls[ev.id].(phase := Step(w, ev).calls[ev.id].phase)
  {
  }

  lemma StepKeepsNoExpiry<T>(w: World<T>, ev: Event<T>)
    requires Enabled(w, ev) && NoExpiry(w)
    ensures NoExpiry(Step(w, ev))
  {
  }

  /** A call comes to own a record only by creating it. */
  lemma OwnedByStep<T>(w: World<T>, ev: Event<T>)
    requires Enabled(w, ev) && NoExpiry(w) && ev.id in Step(w, ev).calls && Owns(Step(w, ev).calls[ev.id])
    ensures var k := Step(w, ev).calls[ev.id].key; OwnerOf(w, k, ev.id) || k !in w.records
  {
  }

  lemma OwnedRecord<T>(w: World<T>, ev: Event<T>)
    requires Enabled(w, ev) && NoExpiry(w) && Owned(w) && ev.id in Step(w, ev).calls && Owns(Step(w, ev).calls[ev.id])
    ensures var c := Step(w, ev).calls[ev.id];
            c.key in Step(w, ev).records && Step(w, ev).records[c.key] == Record(c.fingerprint, Processing, None)
  {
  }

  /** A record stays as it is while somebody else is at it. */
  lemma OthersRecordStays<T>(w: World<T>, ev: Event<T>, k: string, id: nat)
    requires Enabled(w, ev) && NoExpiry(w) && Owned(w) && SoleOwners(w) && OwnerOf(w, k, id) && id != ev.id
    ensures k in w.records && k in Step(w, ev).records && Step(w, ev).records[k] == w.records[k]
  {
  }

  lemma StepKeepsOwned<T>(w: World<T>, ev: Event<T>)
    requires Enabled(w, ev) && NoExpiry(w) && Owned(w) && SoleOwners(w)
    ensures Owned(Step(w, ev)) && SoleOwners(Step(w, ev))
  {
    hide Step, Enabled, NoExpiry, Owns;
    var w' := Step(w, ev);
    CallsStep(w, ev);
    if Owns(w'.calls[ev.id]) {
      OwnedByStep(w, ev);
      OwnedRecord(w, ev);
    }
    forall id | id in w'.calls && Owns(w'.calls[id])
      ensures var c := w'.calls[id]; c.key in w'.records && w'.records[c.key] == Record(c.fingerprint, Processing, None)
      ensures id != ev.id ==> OwnerOf(w, w'.calls[id].key, id)
    {
      if id != ev.id { OthersRecordStays(w, ev, w.calls[id].key, id); }
    }
  }

  lemma StepKeepsOwners<T>(w: World<T>, ev: Event<T>)
    requires Enabled(w, ev) && NoExpiry(w) && Owned(w) && SoleOwners(w) && HasOwners(w)
    ensures HasOwners(Step(w, ev))
  {
    hide Step, Enabled, NoExpiry, Owned, SoleOwners, Owns;
    var w' := Step(w, ev);
    CallsStep(w, ev);
    forall k | k in w'.records && w'.records[k].status.Processing? ensures exists id :: OwnerOf(w', k, id) {
      ProcessingByStep(w, ev, k);
      if !OwnerOf(w', k, ev.id) {
        var id :| OwnerOf(w, k, id);
        assert OwnerOf(w', k, id);
      }
    }
  }

  /** A record that is processing after the step was so before, or the stepping call owns it now. */
  lemma ProcessingByStep<T>(w: World<T>, ev: Event<T>, k: string)
    requires Enabled(w, ev) && NoExpiry(w) && Owned(w)
    requires k in Step(w, ev).records && Step(w, ev).records[k].status.Processing?
    ensures OwnerOf(Step(w, ev), k, ev.id) ||
            (k in w.records && w.records[k].status.Processing? && !OwnerOf(w, k, ev.id))
  {
  }

  /** A completed record never changes again. */
  lemma CompletedStays<T>(w: World<T>, ev: Event<T>, k: string, v: T)
    requires Enabled(w, ev) && NoExpiry(w) && Owned(w) && Holds(w, k, v)
    ensures Holds(Step(w, ev), k, v)
  {
  }

  /** What the stepping call carries, it carried before, or the record or a resolved promise holds it. */
  lemma CarriedByStep<T>(w: World<T>, ev: Event<T>, v: T)
    requires Enabled(w, ev) && NoExpiry(w) && Owned(w)
    requires ev.id in Step(w, ev).calls && Carried(Step(w, ev).calls[ev.id]) == Some(v)
    ensures Holds(Step(w, ev), Step(w, ev).calls[ev.id].key, v) ||
            (ev.id in w.calls && (Carried(w.calls[ev.id]) == Some(v) || ReplaysPromise(w, ev.id, v)))
  {
  }

  ghost predicate ReplaysPromise<T>(w: World<T>, id: nat, v: T) {
    id in w.calls && w.calls[id].phase.Waiting? && w.calls[id].phase.on in w.promises &&
    w.promises[w.calls[id].phase.on] == Resolved(v)
  }

  lemma StepKeepsCarries<T>(w: World<T>, ev: Event<T>)
    requires Enabled(w, ev) && NoExpiry(w) && Owned(w) && CarriesAgree(w) && PromisesHold(w) && WaitersFit(w)
    ensures CarriesAgree(Step(w, ev))
  {
    hide Step, Enabled, NoExpiry, Owned, Holds, Carried;
    var w' := Step(w, ev);
    CallsStep(w, ev);
    if ev.id in w.calls { KeyStays(w, ev); }
    forall id | id in w'.calls && Carried(w'.calls[id]).Some?
      ensures Holds(w', w'.calls[id].key, Carried(w'.calls[id]).value)
    {
      var v := Carried(w'.calls[id]).value;
      if id == ev.id { CarriedByStep(w, ev, v); }
      if !Holds(w', w'.calls[id].key, v) {
        assert Holds(w, w'.calls[id].key, v);
        CompletedStays(w, ev, w'.calls[id].key, v);
      }
    }
  }

  /** A step touches no promise but that of the stepping call. */
  lemma OtherPromisesStay<T>(w: World<T>, ev: Event<T>, p: nat)
    requires Enabled(w, ev) && p != ev.id
    ensures p in Step(w, ev).promises <==> p in w.promises
    ensures p in w.promises ==> Step(w, ev).promises[p] == w.promises[p]
  {
  }

  lemma OwnPromisePending<T>(w: World<T>, ev: Event<T>)
    requires Enabled(w, ev) && PromisesFit(w) && ev.id in Step(w, ev).calls && Unsettled(Step(w, ev).calls[ev.id])
    ensures ev.id in Step(w, ev).promises && Step(w, ev).promises[ev.id].Pending?
  {
  }

  lemma OwnPromiseSettled<T>(w: World<T>, ev: Event<T>)
    requires Enabled(w, ev) && PromisesFit(w) && ev.id in Step(w, ev).calls && !Unsettled(Step(w, ev).calls[ev.id])
    ensures ev.id in Step(w, ev).promises ==> !Step(w, ev).promises[ev.id].Pending?
  {
  }

  lemma StepKeepsPromises<T>(w: World<T>, ev: Event<T>)
    requires Enabled(w, ev) && PromisesFit(w)
    ensures PromisesFit(Step(w, ev))
  {
    hide Step, Enabled, Unsettled;
    var w' := Step(w, ev);
    CallsStep(w, ev);
    if Unsettled(w'.calls[ev.id]) { OwnPromisePending(w, ev); } else { OwnPromiseSettled(w, ev); }
    forall p | p != ev.id
      ensures (p in w'.promises <==> p in w.promises) && (p in w.promises ==> w'.promises[p] == w.promises[p])
    {
      OtherPromisesStay(w, ev, p);
    }
  }

  /** A promise resolves only from a completed call, with its result. */
  lemma PromiseMoves<T>(w: World<T>, ev: Event<T>, p: nat)
    requires Enabled(w, ev) && p in Step(w, ev).promises && Step(w, ev).promises[p].Resolved?
    ensures (p in w.promises && w.promises[p] == Step(w, ev).promises[p]) ||
            (p == ev.id && p in w.calls && Carried(w.calls[p]) == Some(Step(w, ev).promises[p].result))
  {
  }

  lemma StepKeepsPromisesHold<T>(w: World<T>, ev: Event<T>)
    requires Enabled(w, ev) && NoExpiry(w) && Owned(w) && CarriesAgree(w) && PromisesHold(w)
    ensures PromisesHold(Step(w, ev))
  {
    hide Step, Enabled, NoExpiry, Owned, Holds, Carried;
    var w' := Step(w, ev);
    CallsStep(w, ev);
    if ev.id in w.calls { KeyStays(w, ev); }
    forall p | p in w'.promises && w'.promises[p].Resolved?
      ensures p in w'.calls && Holds(w', w'.calls[p].key, w'.promises[p].result)
    {
      PromiseMoves(w, ev, p);
      CompletedStays(w, ev, w.calls[p].key, w'.promises[p].result);
    }
  }

  lemma PromisesRemain<T>(w: World<T>, ev: Event<T>, p: nat, k: string)
    requires Enabled(w, ev) && PromiseFor(w, p, k)
    ensures PromiseFor(Step(w, ev), p, k)
  {
  }

  lemma StepKeepsInFlight<T>(w: World<T>, ev: Event<T>)
    requires Enabled(w, ev) && InFlightFits(w)
    ensures InFlightFits(Step(w, ev))
  {
    var w' := Step(w, ev);
    forall k | k in w'.inFlight ensures PromiseFor(w', w'.inFlight[k], k) {
      if k in w.inFlight && w.inFlight[k] == w'.inFlight[k] { PromisesRemain(w, ev, w.inFlight[k], k); }
    }
  }

  lemma WaitsByStep<T>(w: World<T>, ev: Event<T>)
    requires Enabled(w, ev) && InFlightFits(w)
    ensures var w' := Step(w, ev);
            ev.id in w'.calls && (w'.calls[ev.id].phase.Waiting? ==>
              PromiseFor(w, w'.calls[ev.id].phase.on, w'.calls[ev.id].key))
  {
  }

  lemma StepKeepsWaiters<T>(w: World<T>, ev: Event<T>)
    requires Enabled(w, ev) && InFlightFits(w) && WaitersFit(w)
    ensures WaitersFit(Step(w, ev))
  {
    hide Step, Enabled, PromiseFor, InFlightFits;
    var w' := Step(w, ev);
    CallsStep(w, ev);
    WaitsByStep(w, ev);
    forall id | id in w'.calls && w'.calls[id].phase.Waiting?
      ensures PromiseFor(w', w'.calls[id].phase.on, w'.calls[id].key)
    {
      PromisesRemain(w, ev, w'.calls[id].phase.on, w'.calls[id].key);
    }
  }

  lemma StepKeepsInv<T>(w: World<T>, ev: Event<T>)
    requires Inv(w) && Enabled(w, ev)
    ensures Inv(Step(w, ev))
  {
    hide Step, Enabled, NoExpiry, Owned, SoleOwners, HasOwners, CarriesAgree, PromisesFit, PromisesHold, InFlightFits,
         WaitersFit;
    StepKeepsNoExpiry(w, ev);
    StepKeepsOwned(w, ev);
    StepKeepsOwners(w, ev);
    StepKeepsCarries(w, ev);
    StepKeepsPromises(w, ev);
    StepKeepsPromisesHold(w, ev);
    StepKeepsInFlight(w, ev);
    StepKeepsWaiters(w, ev);
  }

  // --- whole runs ---

  ghost predicate Stepped<T>(trace: seq<World<T>>, events: seq<Event<T>>, k: nat)
    requires k < |events| < |trace|
  {
    Enabled(trace[k], events[k]) && trace[k + 1] == Step(trace[k], events[k])
  }

  ghost predicate IsRun<T>(trace: seq<World<T>>, events: seq<Event<T>>) {
    && |trace| == |events| + 1 && trace[0] == Start()
    && forall k | 0 <= k < |events| :: Stepped(trace, events, k)
  }

  lemma {:induction false} RunInv<T>(trace: seq<World<T>>, events: seq<Event<T>>, k: nat)
    requires IsRun(trace, events) && k < |trace|
    ensures Inv(trace[k])
  {
    if k > 0 {
      hide Inv, Step, Enabled;
      RunInv(trace, events, k - 1);
      assert Stepped(trace, events, k - 1);
      StepKeepsInv(trace[k - 1], events[k - 1]);
    }
  }

  /** Runs of `fn` for one key never overlap. */
  lemma RunsNeverOverlap<T>(trace: seq<World<T>>, events: seq<Event<T>>, k: nat, i: nat, j: nat)
    requires IsRun(trace, events) && k < |trace| && i in trace[k].calls && j in trace[k].calls
    requires trace[k].calls[i].phase.Running? && trace[k].calls[j].phase.Running?
    requires trace[k].calls[i].key == trace[k].calls[j].key
    ensures i == j
  {
    RunInv(trace, events, k);
  }

  /** Event `i` is a success of `fn` for `key`. */
  ghost predicate Succeeds<T>(trace: seq<World<T>>, events: seq<Event<T>>, i: nat, key: string, v: T)
    requires i < |events| < |trace|
  {
    events[i].FnResolves? && events[i].result == v && events[i].id in trace[i].calls
        && trace[i].calls[events[i].id].key == key
  }

  lemma SuccessHolds<T>(w: World<T>, ev: Event<T>)
    requires Enabled(w, ev) && Owned(w) && ev.FnResolves?
    ensures Holds(Step(w, ev), w.calls[ev.id].key, ev.result)
  {
  }

  lemma {:induction false} HeldForever<T>(trace: seq<World<T>>, events: seq<Event<T>>, i: nat, j: nat, key: string,
                                          v: T)
    requires IsRun(trace, events) && i <= j < |trace| && Holds(trace[i], key, v)
    ensures Holds(trace[j], key, v)
    decreases j
  {
    if i < j {
      hide Step, Enabled, Holds;
      HeldForever(trace, events, i, j - 1, key, v);
      RunInv(trace, events, j - 1);
      assert Stepped(trace, events, j - 1);
      CompletedStays(trace[j - 1], events[j - 1], key, v);
    }
  }

  lemma HeldAfterSuccess<T>(trace: seq<World<T>>, events: seq<Event<T>>, i: nat, j: nat, key: string, v: T)
    requires IsRun(trace, events) && i < |events| && i < j < |trace| && Succeeds(trace, events, i, key, v)
    ensures Holds(trace[j], key, v)
  {
    hide Step, Holds;
    RunInv(trace, events, i);
    assert Stepped(trace, events, i);
    SuccessHolds(trace[i], events[i]);
    HeldForever(trace, events, i + 1, j, key, v);
  }

  /** After a success `fn` is never run again for that key. */
  lemma NothingRunsAfterSuccess<T>(trace: seq<World<T>>, events: seq<Event<T>>, i: nat, j: nat, key: string, v: T,
                                   id: nat)
    requires IsRun(trace, events) && i < |events| && i < j < |trace| && Succeeds(trace, events, i, key, v)
    requires id in trace[j].calls && trace[j].calls[id].key == key
    ensures !trace[j].calls[id].phase.Running?
  {
    HeldAfterSuccess(trace, events, i, j, key, v);
    RunInv(trace, events, j);
  }

  /** So it succeeds at most once. */
  lemma AtMostOneSuccess<T>(trace: seq<World<T>>, events: seq<Event<T>>, i: nat, j: nat, key: string, v: T, u: T)
    requires IsRun(trace, events) && i < |events| && j < |events|
    requires Succeeds(trace, events, i, key, v) && Succeeds(trace, events, j, key, u)
    ensures i == j
  {
    hide Step, Inv;
    assert Stepped(trace, events, i) && Stepped(trace, events, j);
    if i < j {
      NothingRunsAfterSuccess(trace, events, i, j, key, v, events[j].id);
    } else if j < i {
      NothingRunsAfterSuccess(trace, events, j, i, key, u, events[i].id);
    }
  }

  /** A completed record comes from a step of the record's key, and only from a success. */
  lemma HeldByStep<T>(w: World<T>, ev: Event<T>, key: string, v: T)
    requires Enabled(w, ev) && NoExpiry(w) && Holds(Step(w, ev), key, v)
    ensures Holds(w, key, v) || (ev.FnResolves? && ev.result == v && ev.id in w.calls && w.calls[ev.id].key == key)
  {
  }

  lemma {:induction false} HeldBySuccess<T>(trace: seq<World<T>>, events: seq<Event<T>>, j: nat, key: string, v: T)
    requires IsRun(trace, events) && j < |trace| && Holds(trace[j], key, v)
    ensures exists i: nat :: i < j && i < |events| && Succeeds(trace, events, i, key, v)
  {
    if j > 0 {
      hide Step, Enabled, Holds;
      RunInv(trace, events, j - 1);
      assert Stepped(trace, events, j - 1);
      HeldByStep(trace[j - 1], events[j - 1], key, v);
      if Holds(trace[j - 1], key, v) {
        HeldBySuccess(trace, events, j - 1, key, v);
      } else {
        assert Succeeds(trace, events, j - 1, key, v);
      }
    }
  }

  /** Every result handed out for a key, executed or replayed, is that of the one success. */
  lemma ReplaysCarryTheSuccess<T>(trace: seq<World<T>>, events: seq<Event<T>>, j: nat, id: nat, v: T)
    requires IsRun(trace, events) && j < |trace| && id in trace[j].calls && Carried(trace[j].calls[id]) == Some(v)
    ensures exists i: nat :: i < j && i < |events| && Succeeds(trace, events, i, trace[j].calls[id].key, v)
    ensures forall i: nat, u | i < j && i < |events| && Succeeds(trace, events, i, trace[j].calls[id].key, u) :: u == v
  {
    hide Succeeds;
    RunInv(trace, events, j);
    var key := trace[j].calls[id].key;
    HeldBySuccess(trace, events, j, key, v);
    forall i: nat, u | i < j && i < |events| && Succeeds(trace, events, i, key, u) ensures u == v {
      HeldAfterSuccess(trace, events, i, j, key, u);
    }
  }

  // --- what each call is answered ---

  /** The call takes no step between these two. */
  ghost predicate Untouched<T>(events: seq<Event<T>>, j: nat, k: nat, id: nat)
    requires k <= |events|
  {
    forall m | j <= m < k :: events[m].id != id
  }

  lemma {:induction false} StaysPut<T>(trace: seq<World<T>>, events: seq<Event<T>>, j: nat, k: nat, id: nat)
    requires IsRun(trace, events) && j <= k <= |events| && id in trace[j].calls && Untouched(events, j, k, id)
    ensures id in trace[k].calls && trace[k].calls[id] == trace[j].calls[id]
    decreases k
  {
    if j < k {
      hide Step, Enabled;
      StaysPut(trace, events, j, k - 1, id);
      assert Stepped(trace, events, k - 1);
      CallsStep(trace[k - 1], events[k - 1]);
    }
  }

  /** The record is completed with this result, under this fingerprint. */
  ghost predicate Settled<T>(w: World<T>, key: string, f: string, v: T) {
    key in w.records && w.records[key] == Record(f, Completed(v), None)
  }

  lemma SettledByStep<T>(w: World<T>, ev: Event<T>)
    requires Enabled(w, ev) && Owned(w) && ev.FnResolves?
    ensures Settled(Step(w, ev), w.calls[ev.id].key, w.calls[ev.id].fingerprint, ev.result)
  {
  }

  lemma SettledStays<T>(w: World<T>, ev: Event<T>, key: string, f: string, v: T)
    requires Enabled(w, ev) && Owned(w) && Settled(w, key, f, v)
    ensures Settled(Step(w, ev), key, f, v)
  {
  }

  lemma {:induction false} SettledForever<T>(trace: seq<World<T>>, events: seq<Event<T>>, i: nat, k: nat, v: T)
    requires IsRun(trace, events) && i < k <= |events| && events[i].FnResolves? && events[i].result == v
    ensures events[i].id in trace[i].calls
    ensures Settled(trace[k], trace[i].calls[events[i].id].key, trace[i].calls[events[i].id].fingerprint, v)
    decreases k
  {
    hide Step, Settled;
    RunInv(trace, events, k - 1);
    assert Stepped(trace, events, k - 1) && Stepped(trace, events, i);
    if i == k - 1 {
      SettledByStep(trace[i], events[i]);
    } else {
      SettledForever(trace, events, i, k - 1, v);
      var c := trace[i].calls[events[i].id];
      SettledStays(trace[k - 1], events[k - 1], c.key, c.fingerprint, v);
    }
  }

  /** Asking again for a settled key, and then going on. */
  lemma AskSettled<T>(w: World<T>, ev: Event<T>, f: string, v: T)
    requires Enabled(w, ev) && ev.Execute? && Settled(w, ev.key, f, v)
    ensures ev.id in Step(w, ev).calls
    ensures Step(w, ev).calls[ev.id].phase ==
              AfterAcquire(if ev.fingerprint == f then AlreadyCompleted(v) else FingerprintConflict, ev.mayWait)
  {
  }

  lemma ResumeFound<T>(w: World<T>, ev: Event<T>)
    requires Enabled(w, ev) && ev.Resume? && w.calls[ev.id].phase.AfterAcquire?
    ensures var (found, w') := (w.calls[ev.id].phase.found, Step(w, ev));
            && ev.id in w'.calls
            && (found.AlreadyCompleted? ==> w'.calls[ev.id].phase == Done(Replayed(found.result)))
            && (found.FingerprintConflict? ==> w'.calls[ev.id].phase == Done(Conflict))
            && (found.Acquired? ==> w'.calls[ev.id].phase == Running)
            && (found.AlreadyInFlight? && !w.calls[ev.id].phase.mayWait ==> w'.calls[ev.id].phase == Done(InFlight))
  {
  }

  /**
   * After a success, every call on that key with the fingerprint of the success is answered with its result, and every
   * call with another fingerprint with a conflict, as soon as it goes on.
   */
  lemma RetriesAreReplayed<T>(trace: seq<World<T>>, events: seq<Event<T>>, i: nat, j: nat, k: nat, v: T)
    requires IsRun(trace, events) && i < j < k < |events|
    requires events[i].FnResolves? && events[i].result == v && events[i].id in trace[i].calls
    requires events[j].Execute? && events[j].key == trace[i].calls[events[i].id].key
    requires events[k].Resume? && events[k].id == events[j].id && Untouched(events, j + 1, k, events[j].id)
    ensures events[j].id in trace[k + 1].calls
    ensures trace[k + 1].calls[events[j].id].phase ==
              if events[j].fingerprint == trace[i].calls[events[i].id].fingerprint then Done(Replayed(v))
              else Done(Conflict)
  {
    hide Step, Settled, Untouched;
    var c := trace[i].calls[events[i].id];
    SettledForever(trace, events, i, j, v);
    assert Stepped(trace, events, j) && Stepped(trace, events, k);
    AskSettled(trace[j], events[j], c.fingerprint, v);
    StaysPut(trace, events, j + 1, k, events[j].id);
    ResumeFound(trace[k], events[k]);
  }

  lemma ResumeSettled<T>(w: World<T>, ev: Event<T>)
    requires Enabled(w, ev) && ev.Resume?
    ensures var (phase, w') := (w.calls[ev.id].phase, Step(w, ev));
            && ev.id in w'.calls
            && (phase.Completing? ==> w'.calls[ev.id].phase == Done(Executed(phase.result)))
            && (phase.Releasing? ==> w'.calls[ev.id].phase == Done(Failed))
            && (phase.Waiting? ==> phase.on in w.promises)
            && (phase.Waiting? && w.promises[phase.on].Resolved? ==>
                  w'.calls[ev.id].phase == Done(Replayed(w.promises[phase.on].result)))
            && (phase.Waiting? && !w.promises[phase.on].Resolved? ==>
                  w'.calls[ev.id].phase.AfterAcquire? && !w'.calls[ev.id].phase.mayWait)
  {
  }

  lemma FnSettles<T>(w: World<T>, ev: Event<T>)
    requires Enabled(w, ev) && Owned(w) && (ev.FnResolves? || ev.FnRejects?)
    ensures ev.id in Step(w, ev).calls
    ensures ev.FnResolves? ==> Step(w, ev).calls[ev.id].phase == Completing(ev.result)
    ensures ev.FnRejects? ==> Step(w, ev).calls[ev.id].phase == Releasing && w.calls[ev.id].key !in Step(w, ev).records
  {
  }

  /**
   * A call whose `fn` resolves is answered with that result; one whose `fn` rejects fails, and leaves the key free for
   * the next call to run `fn` again.
   */
  lemma OwnOutcomeIsAnswered<T>(trace: seq<World<T>>, events: seq<Event<T>>, i: nat, k: nat)
    requires IsRun(trace, events) && i < k < |events| && (events[i].FnResolves? || events[i].FnRejects?)
    requires events[k].Resume? && events[k].id == events[i].id && Untouched(events, i + 1, k, events[i].id)
    ensures events[i].id in trace[k + 1].calls && events[i].id in trace[i].calls
    ensures trace[k + 1].calls[events[i].id].phase ==
              if events[i].FnResolves? then Done(Executed(events[i].result)) else Done(Failed)
    ensures events[i].FnRejects? ==> trace[i].calls[events[i].id].key !in trace[i + 1].records
  {
    hide Step, Untouched, Inv;
    assert Stepped(trace, events, i) && Stepped(trace, events, k);
    RunOwned(trace, events, i);
    FnSettles(trace[i], events[i]);
    StaysPut(trace, events, i + 1, k, events[i].id);
    ResumeSettled(trace[k], events[k]);
  }

  lemma RunOwned<T>(trace: seq<World<T>>, events: seq<Event<T>>, i: nat)
    requires IsRun(trace, events) && i < |trace|
    ensures Owned(trace[i]) && NoExpiry(trace[i]) && PromisesFit(trace[i]) && PromisesHold(trace[i])
  {
    RunInv(trace, events, i);
  }

  lemma ResolvedPromise<T>(w: World<T>, ev: Event<T>)
    requires Enabled(w, ev) && ev.Resume? && w.calls[ev.id].phase.Completing?
    ensures ev.id in Step(w, ev).promises && ev.id in Step(w, ev).calls && Step(w, ev).calls[ev.id].phase.Done?
    ensures Step(w, ev).promises[ev.id] == Resolved(w.calls[ev.id].phase.result)
  {
  }

  /** A call that waits for another is answered with the result of that one, once it is done. */
  lemma WaitersAreReplayed<T>(trace: seq<World<T>>, events: seq<Event<T>>, i: nat, j: nat, k: nat, p: nat, id: nat)
    requires IsRun(trace, events) && i < j < k < |events|
    requires events[i].FnResolves? && events[i].id == p
    requires events[j].Resume? && events[j].id == p && Untouched(events, i + 1, j, p)
    requires events[k].Resume? && events[k].id == id && id in trace[k].calls && trace[k].calls[id].phase == Waiting(p)
    ensures id in trace[k + 1].calls && trace[k + 1].calls[id].phase == Done(Replayed(events[i].result))
  {
    hide Step, Inv;
    assert Stepped(trace, events, i) && Stepped(trace, events, j) && Stepped(trace, events, k);
    RunOwned(trace, events, i);
    FnSettles(trace[i], events[i]);
    StaysPut(trace, events, i + 1, j, p);
    ResolvedPromise(trace[j], events[j]);
    ResolvedStays(trace, events, j + 1, k, p, events[i].result);
    ResumeSettled(trace[k], events[k]);
  }

  lemma PromiseSettledOnce<T>(w: World<T>, ev: Event<T>, p: nat, v: T)
    requires Enabled(w, ev) && PromisesFit(w) && p in w.promises && w.promises[p] == Resolved(v)
    requires p in w.calls && w.calls[p].phase.Done?
    ensures p in Step(w, ev).promises && Step(w, ev).promises[p] == Resolved(v)
    ensures p in Step(w, ev).calls && Step(w, ev).calls[p].phase.Done?
  {
  }

  lemma {:induction false} ResolvedStays<T>(trace: seq<World<T>>, events: seq<Event<T>>, j: nat, k: nat, p: nat, v: T)
    requires IsRun(trace, events) && j <= k <= |events|
    requires p in trace[j].promises && trace[j].promises[p] == Resolved(v)
    requires p in trace[j].calls && trace[j].calls[p].phase.Done?
    ensures p in trace[k].promises && trace[k].promises[p] == Resolved(v)
    ensures p in trace[k].calls && trace[k].calls[p].phase.Done?
    decreases k
  {
    if j < k {
      hide Step, Enabled, PromisesFit;
      ResolvedStays(trace, events, j, k - 1, p, v);
      assert Stepped(trace, events, k - 1);
      RunOwned(trace, events, k - 1);
      PromiseSettledOnce(trace[k - 1], events[k - 1], p, v);
    }
  }

  // --- progress ---

  /** While a call is not done, some `fn` is running or some call can go on. */
  lemma NeverStuck<T>(w: World<T>, id: nat)
    requires Inv(w) && id in w.calls && !w.calls[id].phase.Done?
    ensures exists j :: j in w.calls && (w.calls[j].phase.Running? || Enabled(w, Resume(j, 0.0)))
  {
    hide NoExpiry, Owned, SoleOwners, HasOwners, CarriesAgree, PromisesHold;
    if w.calls[id].phase.Waiting? && !Enabled(w, Resume(id, 0.0)) {
      var p := w.calls[id].phase.on;
      assert PromiseFor(w, p, w.calls[id].key);
      assert w.calls[p].phase.Running? || Enabled(w, Resume(p, 0.0));
    } else {
      assert w.calls[id].phase.Running? || Enabled(w, Resume(id, 0.0));
    }
  }

  /** Steps a call may still take. */
  function Left<T>(phase: Phase<T>): nat {
    match phase
    case AfterAcquire(_, mayWait) => if mayWait then 5 else 3
    case Waiting(_) => 4
    case Running => 2
    case Completing(_) => 1
    case Releasing => 1
    case Done(_) => 0
  }

  lemma StepConsumes<T>(w: World<T>, ev: Event<T>)
    requires Enabled(w, ev)
    ensures ev.id in Step(w, ev).calls
    ensures Left(Step(w, ev).calls[ev.id].phase) < if ev.id in w.calls then Left(w.calls[ev.id].phase) else 6
  {
  }

  function EventsOf<T>(events: seq<Event<T>>, id: nat): nat {
    if events == [] then 0 else EventsOf(events[..|events| - 1], id) + if events[|events| - 1].id == id then 1 else 0
  }

  /** No execution takes more than six steps, so every run of finitely many executions ends. */
  lemma {:induction false} ExecutionsEnd<T>(trace: seq<World<T>>, events: seq<Event<T>>, k: nat, id: nat)
    requires IsRun(trace, events) && k < |trace|
    ensures EventsOf(events[..k], id) + (if id in trace[k].calls then Left(trace[k].calls[id].phase) else 6) <= 6
  {
    if k > 0 {
      hide Step, Enabled, Left;
      ExecutionsEnd(trace, events, k - 1, id);
      assert Stepped(trace, events, k - 1);
      StepConsumes(trace[k - 1], events[k - 1]);
      CallsStep(trace[k - 1], events[k - 1]);
      assert events[..k][..k - 1] == events[..k - 1];
    }
  }

  // --- fingerprints ---

  /** The call was let in: its fingerprint was that of the record. */
  predicate Admitted<T>(c: Call<T>) {
    !(c.phase.AfterAcquire? && c.phase.found.FingerprintConflict?) && c.phase != Done(Conflict)
    && c.phase != Done(Failed) && !c.phase.Releasing?
  }

  /** The record under `key` has this fingerprint. */
  ghost predicate Marked<T>(w: World<T>, key: string, fingerprint: string) {
    key in w.records && w.records[key].fingerprint == fingerprint
  }

  ghost predicate FingerprintsAgree<T>(w: World<T>, key: string) {
    forall id | id in w.calls && w.calls[id].key == key && Admitted(w.calls[id]) ::
      Marked(w, key, w.calls[id].fingerprint)
  }

  /** An `fn` run for `key` is rejected. */
  ghost predicate RejectsKey<T>(w: World<T>, ev: Event<T>, key: string) {
    ev.FnRejects? && ev.id in w.calls && w.calls[ev.id].key == key
  }

  lemma FingerprintStays<T>(w: World<T>, ev: Event<T>, key: string, f: string)
    requires Enabled(w, ev) && NoExpiry(w) && !RejectsKey(w, ev, key) && Marked(w, key, f)
    ensures Marked(Step(w, ev), key, f)
  {
  }

  lemma AdmittedByStep<T>(w: World<T>, ev: Event<T>)
    requires Enabled(w, ev) && NoExpiry(w) && !ev.FnRejects?
    requires ev.id in Step(w, ev).calls && Admitted(Step(w, ev).calls[ev.id])
    ensures var c := Step(w, ev).calls[ev.id];
            Marked(Step(w, ev), c.key, c.fingerprint) || (ev.id in w.calls && Admitted(w.calls[ev.id]))
  {
  }

  lemma RejectedIsNotAdmitted<T>(w: World<T>, ev: Event<T>)
    requires Enabled(w, ev) && ev.FnRejects?
    ensures ev.id in Step(w, ev).calls && !Admitted(Step(w, ev).calls[ev.id])
  {
  }

  lemma StepKeepsFingerprints<T>(w: World<T>, ev: Event<T>, key: string)
    requires Enabled(w, ev) && NoExpiry(w) && !RejectsKey(w, ev, key) && FingerprintsAgree(w, key)
    ensures FingerprintsAgree(Step(w, ev), key)
  {
    hide Step, Enabled, NoExpiry, Admitted, Marked, RejectsKey;
    var w' := Step(w, ev);
    CallsStep(w, ev);
    if ev.id in w.calls { KeyStays(w, ev); }
    forall id | id in w'.calls && w'.calls[id].key == key && Admitted(w'.calls[id])
      ensures Marked(w', key, w'.calls[id].fingerprint)
    {
      if id == ev.id {
        if ev.FnRejects? { RejectedIsNotAdmitted(w, ev); } else { AdmittedByStep(w, ev); }
      }
      if id in w.calls && Admitted(w.calls[id]) { FingerprintStays(w, ev, key, w.calls[id].fingerprint); }
    }
  }

  /** Unless an `fn` for this key is rejected, only calls with the fingerprint of its record are let in. */
  lemma {:induction false} FingerprintsAgreeUnlessRejected<T>(trace: seq<World<T>>, events: seq<Event<T>>, k: nat,
                                                              key: string)
    requires IsRun(trace, events) && k < |trace|
    requires forall i | 0 <= i < k :: !RejectsKey(trace[i], events[i], key)
    ensures FingerprintsAgree(trace[k], key)
  {
    if k > 0 {
      hide Step, Enabled, FingerprintsAgree;
      FingerprintsAgreeUnlessRejected(trace, events, k - 1, key);
      RunInv(trace, events, k - 1);
      assert Stepped(trace, events, k - 1);
      StepKeepsFingerprints(trace[k - 1], events[k - 1], key);
    }
  }

  // --- whose fingerprint a result was made under ---

  /** The call made its result, or found it in the store. */
  predicate Earned<T>(c: Call<T>) {
    c.phase.Completing? || (c.phase.Done? && c.phase.outcome.Executed?)
    || (c.phase.AfterAcquire? && c.phase.found.AlreadyCompleted?)
  }

  ghost predicate EarnedUnder<T>(w: World<T>, key: string, fingerprint: string) {
    Marked(w, key, fingerprint) && w.records[key].status.Completed?
  }

  /** Earned results were made under the fingerprint of the call; a promise resolves only when its maker is done. */
  ghost predicate Honest<T>(w: World<T>) {
    && (forall id | id in w.calls && Earned(w.calls[id]) :: EarnedUnder(w, w.calls[id].key, w.calls[id].fingerprint))
    && (forall p | p in w.promises && w.promises[p].Resolved? :: p in w.calls && HasExecuted(w.calls[p]))
    && (forall k | k in w.inFlight :: Making(w, w.inFlight[k]))
  }

  predicate HasExecuted<T>(c: Call<T>) {
    c.phase.Done? && c.phase.outcome.Executed?
  }

  ghost predicate Making<T>(w: World<T>, p: nat) {
    p in w.calls && Unsettled(w.calls[p])
  }

  lemma EarnedStays<T>(w: World<T>, ev: Event<T>, key: string, f: string)
    requires Enabled(w, ev) && NoExpiry(w) && EarnedUnder(w, key, f)
    ensures EarnedUnder(Step(w, ev), key, f)
  {
  }

  lemma EarnedByStep<T>(w: World<T>, ev: Event<T>)
    requires Enabled(w, ev) && NoExpiry(w) && Owned(w) && ev.id in Step(w, ev).calls && Earned(Step(w, ev).calls[ev.id])
    ensures var c := Step(w, ev).calls[ev.id];
            EarnedUnder(Step(w, ev), c.key, c.fingerprint) || (ev.id in w.calls && Earned(w.calls[ev.id]))
  {
  }

  lemma ResolvedByStep<T>(w: World<T>, ev: Event<T>, p: nat)
    requires Enabled(w, ev) && p in Step(w, ev).promises && Step(w, ev).promises[p].Resolved?
    requires p in w.promises && w.promises[p].Resolved? ==> p in w.calls && HasExecuted(w.calls[p])
    ensures p in Step(w, ev).calls && HasExecuted(Step(w, ev).calls[p])
  {
  }

  lemma MakingByStep<T>(w: World<T>, ev: Event<T>, k: string)
    requires Enabled(w, ev) && InFlightFits(w) && k in Step(w, ev).inFlight
    requires k in w.inFlight ==> Making(w, w.inFlight[k])
    ensures Making(Step(w, ev), Step(w, ev).inFlight[k])
  {
    if k in w.inFlight { assert PromiseFor(w, w.inFlight[k], k); }
  }

  lemma StepKeepsHonest<T>(w: World<T>, ev: Event<T>)
    requires Enabled(w, ev) && Inv(w) && Honest(w)
    ensures Honest(Step(w, ev))
  {
    hide Step, Enabled, NoExpiry, Owned, SoleOwners, HasOwners, CarriesAgree, PromisesFit, PromisesHold, InFlightFits,
         WaitersFit, Earned, EarnedUnder, HasExecuted, Making;
    var w' := Step(w, ev);
    CallsStep(w, ev);
    if ev.id in w.calls { KeyStays(w, ev); }
    forall id | id in w'.calls && Earned(w'.calls[id])
      ensures EarnedUnder(w', w'.calls[id].key, w'.calls[id].fingerprint)
    {
      if id == ev.id { EarnedByStep(w, ev); }
      if id in w.calls && Earned(w.calls[id]) { EarnedStays(w, ev, w.calls[id].key, w.calls[id].fingerprint); }
    }
    forall p | p in w'.promises && w'.promises[p].Resolved? ensures p in w'.calls && HasExecuted(w'.calls[p]) {
      ResolvedByStep(w, ev, p);
    }
    forall k | k in w'.inFlight ensures Making(w', w'.inFlight[k]) {
      MakingByStep(w, ev, k);
    }
  }

  lemma {:induction false} RunHonest<T>(trace: seq<World<T>>, events: seq<Event<T>>, k: nat)
    requires IsRun(trace, events) && k < |trace|
    ensures Honest(trace[k])
  {
    if k > 0 {
      hide Step, Enabled, Honest, Inv;
      RunHonest(trace, events, k - 1);
      RunInv(trace, events, k - 1);
      assert Stepped(trace, events, k - 1);
      StepKeepsHonest(trace[k - 1], events[k - 1]);
    }
  }

  /** Step `j` hands the call the result of the promise of call `p`. */
  ghost predicate Replays<T>(w: World<T>, ev: Event<T>, id: nat, p: nat) {
    ev.Resume? && ev.id == id && id in w.calls && w.calls[id].phase == Waiting(p)
    && p in w.promises && w.promises[p].Resolved?
  }

  /** Before state `k` the call waited on the promise of call `p` and was handed its result. */
  ghost predicate WaitedFor<T>(trace: seq<World<T>>, events: seq<Event<T>>, k: nat, id: nat, p: nat)
    requires k <= |events| < |trace|
  {
    exists j: nat :: j < k && Replays(trace[j], events[j], id, p)
  }

  lemma DoneStays<T>(w: World<T>, ev: Event<T>, id: nat)
    requires Enabled(w, ev) && id in w.calls && w.calls[id].phase.Done?
    ensures id in Step(w, ev).calls && Step(w, ev).calls[id] == w.calls[id]
  {
  }

  lemma {:induction false} DoneForever<T>(trace: seq<World<T>>, events: seq<Event<T>>, i: nat, k: nat, id: nat)
    requires IsRun(trace, events) && i <= k < |trace| && id in trace[i].calls && trace[i].calls[id].phase.Done?
    ensures id in trace[k].calls && trace[k].calls[id] == trace[i].calls[id]
    decreases k
  {
    if i < k {
      hide Step, Enabled;
      DoneForever(trace, events, i, k - 1, id);
      assert Stepped(trace, events, k - 1);
      DoneStays(trace[k - 1], events[k - 1], id);
    }
  }

  /** A result taken from a promise is the one the record keeps under the fingerprint of the call that made it. */
  lemma WaitedResult<T>(trace: seq<World<T>>, events: seq<Event<T>>, k: nat, id: nat, p: nat)
    requires IsRun(trace, events) && k < |trace| && WaitedFor(trace, events, k, id, p)
    ensures id in trace[k].calls && p in trace[k].calls && trace[k].calls[id].key == trace[k].calls[p].key
    ensures EarnedUnder(trace[k], trace[k].calls[p].key, trace[k].calls[p].fingerprint)
  {
    hide EarnedUnder;
    var j: nat :| j < k && Replays(trace[j], events[j], id, p);
    RunHonest(trace, events, j);
    RunInv(trace, events, j);
    assert PromiseFor(trace[j], p, trace[j].calls[id].key);
    assert Stepped(trace, events, j);
    DoneForever(trace, events, j, k, p);
    DoneForever(trace, events, j + 1, k, id);
    RunHonest(trace, events, k);
  }

  /** A call that takes a result from the store, or makes it, does so under the fingerprint of the record. */
  lemma ReplayedByStep<T>(w: World<T>, ev: Event<T>)
    requires Enabled(w, ev) && Honest(w) && ev.id in Step(w, ev).calls
    requires Carried(Step(w, ev).calls[ev.id]).Some? && !Earned(Step(w, ev).calls[ev.id])
    ensures ev.id in w.calls && (Earned(w.calls[ev.id]) || exists p :: Replays(w, ev, ev.id, p))
  {
    if !Earned(w.calls[ev.id]) { assert Replays(w, ev, ev.id, w.calls[ev.id].phase.on); }
  }

  lemma {:induction false} CarriedUnder<T>(trace: seq<World<T>>, events: seq<Event<T>>, k: nat, id: nat)
    requires IsRun(trace, events) && k < |trace| && id in trace[k].calls && Carried(trace[k].calls[id]).Some?
    requires forall p :: !WaitedFor(trace, events, k, id, p)
    ensures EarnedUnder(trace[k], trace[k].calls[id].key, trace[k].calls[id].fingerprint)
  {
    hide Step, Enabled, EarnedUnder, Inv, Earned, Carried;
    RunHonest(trace, events, k);
    if !Earned(trace[k].calls[id]) && k > 0 {
      var w, ev := trace[k - 1], events[k - 1];
      assert Stepped(trace, events, k - 1);
      RunInv(trace, events, k - 1);
      RunHonest(trace, events, k - 1);
      CallsStep(w, ev);
      var before: nat := k - 1;
      forall p | Replays(w, ev, id, p) ensures false { WaitedEarlier(trace, events, k, id, p); }
      forall p | WaitedFor(trace, events, before, id, p) ensures false { WaitedEarlier(trace, events, k, id, p); }
      if id == ev.id {
        ReplayedByStep(w, ev);
        KeyStays(w, ev);
      } else {
        CarriedUnder(trace, events, before, id);
      }
      NoExpiryHeld(w);
      EarnedStays(w, ev, w.calls[id].key, w.calls[id].fingerprint);
    }
  }

  lemma WaitedEarlier<T>(trace: seq<World<T>>, events: seq<Event<T>>, k: nat, id: nat, p: nat)
    requires 0 < k <= |events| < |trace|
    requires WaitedFor(trace, events, k - 1, id, p) || Replays(trace[k - 1], events[k - 1], id, p)
    ensures WaitedFor(trace, events, k, id, p)
  {
    hide Replays;
  }

  lemma NoExpiryHeld<T>(w: World<T>)
    requires Inv(w)
    ensures NoExpiry(w)
  {
  }

  /**
   * A call that was handed a result has the fingerprint the record was made under, unless it took the result from a
   * promise made under another one, and then it has not.
   */
  lemma ReplaysAcrossFingerprintsIff<T>(trace: seq<World<T>>, events: seq<Event<T>>, k: nat, id: nat)
    requires IsRun(trace, events) && k < |trace| && id in trace[k].calls && Carried(trace[k].calls[id]).Some?
    ensures trace[k].calls[id].key in trace[k].records
    ensures trace[k].records[trace[k].calls[id].key].fingerprint != trace[k].calls[id].fingerprint <==>
            exists p :: WaitedFor(trace, events, k, id, p) && p in trace[k].calls &&
                        trace[k].calls[p].fingerprint != trace[k].calls[id].fingerprint
  {
    assert k <= |events| < |trace|;
    hide IsRun, WaitedFor, Carried;
    if p :| WaitedFor(trace, events, k, id, p) {
      forall q | WaitedFor(trace, events, k, id, q)
        ensures q in trace[k].calls && Marked(trace[k], trace[k].calls[id].key, trace[k].calls[q].fingerprint)
      {
        WaitedResult(trace, events, k, id, q);
      }
    } else {
      CarriedUnder(trace, events, k, id);
    }
  }

  // --- when that cannot happen ---

  /** The call has found an operation in flight and is about to wait for it. */
  predicate AboutToWait<T>(c: Call<T>) {
    c.phase == AfterAcquire(AlreadyInFlight, true)
  }

  /** Event `r` rejects an `fn` of the same key while the call is about to wait. */
  ghost predicate RejectsMeanwhile<T>(w: World<T>, ev: Event<T>, id: nat) {
    id in w.calls && AboutToWait(w.calls[id]) && RejectsKey(w, ev, w.calls[id].key)
  }

  /** What the call is about to wait for, or waits for, has its fingerprint, or will not resolve. */
  ghost predicate WaitsWell<T>(w: World<T>, id: nat) {
    id in w.calls ==>
      var c := w.calls[id];
      && (AboutToWait(c) ==> Marked(w, c.key, c.fingerprint))
      && (c.phase.Waiting? ==> c.phase.on in w.calls && AwaitsOwn(w.calls[c.phase.on], c.fingerprint))
  }

  predicate AwaitsOwn<T>(c: Call<T>, fingerprint: string) {
    c.fingerprint == fingerprint || c.phase.Releasing? || c.phase == Done(Failed)
  }

  lemma AwaitedStays<T>(w: World<T>, ev: Event<T>, p: nat, f: string)
    requires Enabled(w, ev) && p in w.calls && AwaitsOwn(w.calls[p], f)
    ensures p in Step(w, ev).calls && AwaitsOwn(Step(w, ev).calls[p], f)
  {
    CallsStep(w, ev);
    if p == ev.id && w.calls[p].fingerprint == f {
      hide Step, Enabled;
      KeyStays(w, ev);
    }
  }

  lemma AboutToWaitByStep<T>(w: World<T>, ev: Event<T>)
    requires Enabled(w, ev) && NoExpiry(w) && ev.id in Step(w, ev).calls && AboutToWait(Step(w, ev).calls[ev.id])
    ensures var c := Step(w, ev).calls[ev.id]; Marked(Step(w, ev), c.key, c.fingerprint)
  {
  }

  /** The promise in flight is one of the record's fingerprint, or already bound to fail. */
  lemma InFlightAwaited<T>(w: World<T>, k: string, f: string)
    requires Owned(w) && InFlightFits(w) && Honest(w) && Marked(w, k, f) && k in w.inFlight
    ensures w.inFlight[k] in w.calls && AwaitsOwn(w.calls[w.inFlight[k]], f)
  {
    assert PromiseFor(w, w.inFlight[k], k);
    assert Making(w, w.inFlight[k]);
    var c := w.calls[w.inFlight[k]];
    assert c.phase.Running? ==> Owns(c);
    assert c.phase.Completing? ==> Earned(c);
  }

  lemma WaitingByStep<T>(w: World<T>, ev: Event<T>)
    requires Enabled(w, ev) && ev.id in Step(w, ev).calls && Step(w, ev).calls[ev.id].phase.Waiting?
    ensures ev.id in w.calls && AboutToWait(w.calls[ev.id])
    ensures var c := w.calls[ev.id];
            c.key in w.inFlight && Step(w, ev).calls[ev.id] == c.(phase := Waiting(w.inFlight[c.key]))
  {
  }

  lemma StepKeepsWaitsWell<T>(w: World<T>, ev: Event<T>, id: nat)
    requires Enabled(w, ev) && Inv(w) && Honest(w) && WaitsWell(w, id) && !RejectsMeanwhile(w, ev, id)
    ensures WaitsWell(Step(w, ev), id)
  {
    hide Step, Enabled, NoExpiry, Owned, SoleOwners, HasOwners, CarriesAgree, PromisesFit, PromisesHold, InFlightFits,
         WaitersFit, Honest, Marked, AwaitsOwn;
    var w' := Step(w, ev);
    CallsStep(w, ev);
    if id == ev.id {
      if AboutToWait(w'.calls[id]) { AboutToWaitByStep(w, ev); }
      if w'.calls[id].phase.Waiting? {
        WaitingByStep(w, ev);
        InFlightAwaited(w, w.calls[id].key, w.calls[id].fingerprint);
        AwaitedStays(w, ev, w'.calls[id].phase.on, w.calls[id].fingerprint);
      }
    } else if id in w.calls {
      if AboutToWait(w.calls[id]) { FingerprintStays(w, ev, w.calls[id].key, w.calls[id].fingerprint); }
      if w.calls[id].phase.Waiting? { AwaitedStays(w, ev, w.calls[id].phase.on, w.calls[id].fingerprint); }
    }
  }

  lemma RunStepWaitsWell<T>(trace: seq<World<T>>, events: seq<Event<T>>, k: nat, id: nat)
    requires IsRun(trace, events) && k < |events| && WaitsWell(trace[k], id)
             && !RejectsMeanwhile(trace[k], events[k], id)
    ensures WaitsWell(trace[k + 1], id)
  {
    hide Step, Enabled, Honest, Inv, WaitsWell, RejectsMeanwhile;
    RunInv(trace, events, k);
    RunHonest(trace, events, k);
    assert Stepped(trace, events, k);
    StepKeepsWaitsWell(trace[k], events[k], id);
  }

  lemma {:induction false} RunWaitsWell<T>(trace: seq<World<T>>, events: seq<Event<T>>, k: nat, id: nat)
    requires IsRun(trace, events) && k < |trace| && forall r: nat | r < k :: !RejectsMeanwhile(trace[r], events[r], id)
    ensures WaitsWell(trace[k], id)
  {
    if k > 0 {
      hide Stepped, WaitsWell, RejectsMeanwhile;
      RunWaitsWell(trace, events, k - 1, id);
      RunStepWaitsWell(trace, events, k - 1, id);
    }
  }

  /**
   * Unless an `fn` of the same key is rejected between the call's finding it in flight and its starting to wait, a
   * result the call is handed was made under its own fingerprint.
   */
  lemma OwnFingerprintUnlessRejectedMeanwhile<T>(trace: seq<World<T>>, events: seq<Event<T>>, k: nat, id: nat)
    requires IsRun(trace, events) && k < |trace| && id in trace[k].calls && Carried(trace[k].calls[id]).Some?
    requires forall r: nat | r < k :: !RejectsMeanwhile(trace[r], events[r], id)
    ensures Marked(trace[k], trace[k].calls[id].key, trace[k].calls[id].fingerprint)
  {
    ReplaysAcrossFingerprintsIff(trace, events, k, id);
    forall p | WaitedFor(trace, events, k, id, p)
      ensures p in trace[k].calls && trace[k].calls[p].fingerprint == trace[k].calls[id].fingerprint
    {
      hide *;
      hide Step, Enabled, Inv;
      WaitedByOwn(trace, events, k, id, p);
    }
  }

  lemma WaitedByOwn<T>(trace: seq<World<T>>, events: seq<Event<T>>, k: nat, id: nat, p: nat)
    requires IsRun(trace, events) && k < |trace| && WaitedFor(trace, events, k, id, p)
    requires forall r: nat | r < k :: !RejectsMeanwhile(trace[r], events[r], id)
    ensures id in trace[k].calls && p in trace[k].calls
            && trace[k].calls[p].fingerprint == trace[k].calls[id].fingerprint
  {
    hide Inv;
    var j: nat :| j < k && Replays(trace[j], events[j], id, p);
    RunHonest(trace, events, j);
    RunWaitsWell(trace, events, j, id);
    assert Stepped(trace, events, j);
    DoneForever(trace, events, j, k, p);
    DoneForever(trace, events, j + 1, k, id);
  }

  // --- a run that crosses fingerprints, one step at a time ---

  /** An event that can happen and leads from `w` to `w'`. */
  ghost predicate Goes<T>(w: World<T>, ev: Event<T>, w': World<T>) {
    Enabled(w, ev) && w' == Step(w, ev)
  }

  lemma GoAcquire<T>(w: World<T>, id: nat, key: string, f: string)
    requires id !in w.calls && key !in w.records
    ensures Goes(w, Execute(id, key, f, true, 0.0),
                 w.(records := w.records[key := Record(f, Processing, None)],
                    calls := w.calls[id := Call(key, f, AfterAcquire(Acquired, true))]))
  {
  }

  lemma GoRun<T>(w: World<T>, id: nat)
    requires id in w.calls && w.calls[id].phase == AfterAcquire(Acquired, true)
    ensures Goes(w, Resume(id, 0.0),
                 w.(promises := w.promises[id := Pending], inFlight := w.inFlight[w.calls[id].key := id],
                    calls := Moved(w, id, Running)))
  {
  }

  lemma GoBusy<T>(w: World<T>, id: nat, key: string, f: string)
    requires id !in w.calls && key in w.records && w.records[key] == Record(f, Processing, None)
    ensures Goes(w, Execute(id, key, f, true, 0.0),
                 w.(calls := w.calls[id := Call(key, f, AfterAcquire(AlreadyInFlight, true))]))
  {
  }

  lemma GoReject<T>(w: World<T>, id: nat)
    requires id in w.calls && w.calls[id].phase.Running?
    requires w.calls[id].key in w.records
             && w.records[w.calls[id].key] == Record(w.calls[id].fingerprint, Processing, None)
    ensures Goes(w, FnRejects(id), w.(records := w.records - {w.calls[id].key}, calls := Moved(w, id, Releasing)))
  {
  }

  lemma GoWait<T>(w: World<T>, id: nat)
    requires id in w.calls && w.calls[id].phase == AfterAcquire(AlreadyInFlight, true) && w.calls[id].key in w.inFlight
    ensures Goes(w, Resume(id, 0.0), w.(calls := Moved(w, id, Waiting(w.inFlight[w.calls[id].key]))))
  {
  }

  lemma GoResolve<T>(w: World<T>, id: nat, v: T)
    requires id in w.calls && w.calls[id].phase.Running?
    requires w.calls[id].key in w.records
             && w.records[w.calls[id].key] == Record(w.calls[id].fingerprint, Processing, None)
    ensures Goes(w, FnResolves(id, v),
                 w.(records := w.records[w.calls[id].key := Record(w.calls[id].fingerprint, Completed(v), None)],
                    calls := Moved(w, id, Completing(v))))
  {
  }

  lemma GoConclude<T>(w: World<T>, id: nat, v: T)
    requires id in w.calls && w.calls[id].phase == Completing(v)
    ensures Goes(w, Resume(id, 0.0),
                 w.(promises := w.promises[id := Resolved(v)], inFlight := w.inFlight - {w.calls[id].key},
                    calls := Moved(w, id, Done(Executed(v)))))
  {
  }

  lemma GoReplay<T>(w: World<T>, id: nat, v: T)
    requires ReplaysPromise(w, id, v)
    ensures Goes(w, Resume(id, 0.0), w.(calls := Moved(w, id, Done(Replayed(v)))))
  {
  }

  lemma Then<T>(trace: seq<World<T>>, events: seq<Event<T>>, ev: Event<T>, w: World<T>)
    requires IsRun(trace, events) && Goes(trace[|trace| - 1], ev, w)
    ensures IsRun(trace + [w], events + [ev])
  {
    hide Step, Enabled;
    forall k | 0 <= k < |events| + 1 ensures Stepped(trace + [w], events + [ev], k) {
      if k < |events| { assert Stepped(trace, events, k); }
    }
  }

  /**
   * Call 0 runs with `f`, call 2 asks with `f`, call 0 fails, call 1 starts with `g`, and call 2 is suspended
   * on it.
   */
  lemma CrossedWait<T>() returns (trace: seq<World<T>>, events: seq<Event<T>>)
    ensures IsRun(trace, events)
    ensures var w := trace[|trace| - 1];
            && w.records == map["k" := Record("g", Processing, None)]
            && 1 in w.calls && w.calls[1] == Call("k", "g", Running)
            && 2 in w.calls && w.calls[2] == Call("k", "f", Waiting(1))
  {
    hide Goes;
    var w0: World<T> := Start();
    GoAcquire(w0, 0, "k", "f");
    var w1 := w0.(records := w0.records["k" := Record("f", Processing, None)],
                  calls := w0.calls[0 := Call("k", "f", AfterAcquire(Acquired, true))]);
    GoRun(w1, 0);
    var w2 := w1.(promises := w1.promises[0 := Pending], inFlight := w1.inFlight["k" := 0],
                  calls := Moved(w1, 0, Running));
    GoBusy(w2, 2, "k", "f");
    var w3 := w2.(calls := w2.calls[2 := Call("k", "f", AfterAcquire(AlreadyInFlight, true))]);
    GoReject(w3, 0);
    var w4 := w3.(records := w3.records - {"k"}, calls := Moved(w3, 0, Releasing));
    GoAcquire(w4, 1, "k", "g");
    var w5 := w4.(records := w4.records["k" := Record("g", Processing, None)],
                  calls := w4.calls[1 := Call("k", "g", AfterAcquire(Acquired, true))]);
    GoRun(w5, 1);
    var w6 := w5.(promises := w5.promises[1 := Pending], inFlight := w5.inFlight["k" := 1],
                  calls := Moved(w5, 1, Running));
    GoWait(w6, 2);
    var w7 := w6.(calls := Moved(w6, 2, Waiting(1)));
    Then([w0], [], Execute(0, "k", "f", true, 0.0), w1);
    Then([w0, w1], [Execute(0, "k", "f", true, 0.0)], Resume(0, 0.0), w2);
    trace, events := [w0] + [w1] + [w2], [Execute(0, "k", "f", true, 0.0)] + [Resume(0, 0.0)];
    Then(trace, events, Execute(2, "k", "f", true, 0.0), w3);
    trace, events := trace + [w3], events + [Execute(2, "k", "f", true, 0.0)];
    Then(trace, events, FnRejects(0), w4);
    trace, events := trace + [w4], events + [FnRejects(0)];
    Then(trace, events, Execute(1, "k", "g", true, 0.0), w5);
    trace, events := trace + [w5], events + [Execute(1, "k", "g", true, 0.0)];
    Then(trace, events, Resume(1, 0.0), w6);
    trace, events := trace + [w6], events + [Resume(1, 0.0)];
    Then(trace, events, Resume(2, 0.0), w7);
    trace, events := trace + [w7], events + [Resume(2, 0.0)];
  }

  /** So after a rejection a call may be handed the result of a call with another fingerprint. */
  lemma RejectionMayCrossFingerprints<T>(v: T) returns (trace: seq<World<T>>, events: seq<Event<T>>)
    ensures IsRun(trace, events)
    ensures var w := trace[|trace| - 1];
            && 2 in w.calls && w.calls[2] == Call("k", "f", Done(Replayed(v)))
            && "k" in w.records && w.records["k"] == Record("g", Completed(v), None)
  {
    hide Goes;
    trace, events := CrossedWait();
    var w7 := trace[|trace| - 1];
    RunInv(trace, events, |trace| - 1);
    hide Inv;
    GoResolve(w7, 1, v);
    var w8 := w7.(records := w7.records["k" := Record("g", Completed(v), None)], calls := Moved(w7, 1, Completing(v)));
    Then(trace, events, FnResolves(1, v), w8);
    trace, events := trace + [w8], events + [FnResolves(1, v)];
    GoConclude(w8, 1, v);
    var w9 := w8.(promises := w8.promises[1 := Resolved(v)], inFlight := w8.inFlight - {"k"},
                  calls := Moved(w8, 1, Done(Executed(v))));
    Then(trace, events, Resume(1, 0.0), w9);
    trace, events := trace + [w9], events + [Resume(1, 0.0)];
    GoReplay(w9, 2, v);
    var w10 := w9.(calls := Moved(w9, 2, Done(Replayed(v))));
    Then(trace, events, Resume(2, 0.0), w10);
    trace, events := trace + [w10], events + [Resume(2, 0.0)];
  }
}

/** The source's two classes. */
module Idempotency {
  import opened Wrappers
  import opened IdempotencyModel
  import opened IdempotencyRuns

  class InMemoryIdempotencyStore<T> {
    var records: map<string, Record<T>>

    constructor ()
      ensures records == map[]
    {
      records := map[];
    }

    method AcquireKey(key: string, fingerprint: string, ttlMs: Option<real>, now: real)
      returns (found: AcquireResult<T>)
      modifies this
      ensures (records, found) == Acquire(old(records), key, fingerprint, ttlMs, now)
    {
      if key in records {
        var existing := records[key];
        if Expired(existing, now) {
          records := records - {key};
        } else {
          if existing.fingerprint != fingerprint {
            return FingerprintConflict;
          }
          match existing.status {
            case Completed(result) => return AlreadyCompleted(result);
            case Processing => return AlreadyInFlight;
          }
        }
      }
      ghost var before := records;
      records := records[key := Record(fingerprint, Processing, ExpiryOf(ttlMs, now))];
      assert before == old(records) || before == old(records) - {key};
      assert records == old(records)[key := Record(fingerprint, Processing, ExpiryOf(ttlMs, now))];
      return Acquired;
    }

    method CompleteKey(key: string, fingerprint: string, result: T, ttlMs: Option<real>, now: real)
      modifies this
      ensures records == Complete(old(records), key, fingerprint, result, ttlMs, now)
    {
      if key !in records || records[key].fingerprint != fingerprint {
        return;
      }
      var existing := records[key];
      existing := existing.(status := Completed(result));
      if ttlMs.Some? && ttlMs.value != 0.0 {
        existing := existing.(expiresAt := Some(now + ttlMs.value));
      }
      records := records[key := existing];
    }

    method ReleaseKey(key: string, fingerprint: string)
      modifies this
      ensures records == Release(old(records), key, fingerprint)
    {
      if key in records && records[key].fingerprint == fingerprint && records[key].status.Processing? {
        records := records - {key};
      }
    }
  }

  /** Each method is one synchronous section of `execute`, without a time to live. */
  class IdempotencyEngine<T> {
    const store: InMemoryIdempotencyStore<T>
    var inFlightPromises: map<string, nat>
    var promises: map<nat, Settlement<T>>
    var calls: map<nat, Call<T>>

    function Value(): World<T>
      reads this, store
    {
      World(store.records, inFlightPromises, promises, calls)
    }

    ghost predicate Valid()
      reads this, store
    {
      Inv(Value())
    }

    constructor ()
      ensures Valid() && fresh(store) && Value() == Start()
    {
      store := new InMemoryIdempotencyStore();
      inFlightPromises, promises, calls := map[], map[], map[];
    }

    method Execute(id: nat, key: string, fingerprint: string, mayWait: bool, now: real)
      requires Valid() && Enabled(Value(), Event<T>.Execute(id, key, fingerprint, mayWait, now))
      modifies this, store
      ensures Valid() && Value() == Step(old(Value()), Event<T>.Execute(id, key, fingerprint, mayWait, now))
    {
      hide Inv;
      StepKeepsInv(Value(), Event<T>.Execute(id, key, fingerprint, mayWait, now));
      var found := store.AcquireKey(key, fingerprint, None, now);
      calls := calls[id := Call(key, fingerprint, AfterAcquire(found, mayWait))];
    }

    method AfterAcquireResult(id: nat, now: real)
      requires Valid() && id in calls && calls[id].phase.AfterAcquire?
      modifies this
      ensures Valid() && Value() == Step(old(Value()), Event<T>.Resume(id, now))
    {
      hide Inv;
      StepKeepsInv(Value(), Event<T>.Resume(id, now));
      var call := calls[id];
      match call.phase.found {
        case FingerprintConflict => calls := calls[id := call.(phase := Done(Conflict))];
        case AlreadyCompleted(result) => calls := calls[id := call.(phase := Done(Replayed(result)))];
        case Acquired =>
          promises := promises[id := Pending];
          inFlightPromises := inFlightPromises[call.key := id];
          calls := calls[id := call.(phase := Running)];
        case AlreadyInFlight =>
          if call.phase.mayWait && call.key in inFlightPromises {
            calls := calls[id := call.(phase := Waiting(inFlightPromises[call.key]))];
          } else {
            calls := calls[id := call.(phase := Done(InFlight))];
          }
      }
    }

    method AfterFnResolves(id: nat, result: T)
      requires Valid() && id in calls && calls[id].phase.Running?
      modifies this, store
      ensures Valid() && Value() == Step(old(Value()), Event<T>.FnResolves(id, result))
    {
      hide Inv;
      StepKeepsInv(Value(), Event<T>.FnResolves(id, result));
      store.CompleteKey(calls[id].key, calls[id].fingerprint, result, None, 0.0);
      calls := calls[id := calls[id].(phase := Completing(result))];
    }

    method AfterFnRejects(id: nat)
      requires Valid() && id in calls && calls[id].phase.Running?
      modifies this, store
      ensures Valid() && Value() == Step(old(Value()), Event<T>.FnRejects(id))
    {
      hide Inv;
      StepKeepsInv(Value(), Event<T>.FnRejects(id));
      store.ReleaseKey(calls[id].key, calls[id].fingerprint);
      calls := calls[id := calls[id].(phase := Releasing)];
    }

    method AfterComplete(id: nat, now: real)
      requires Valid() && id in calls && calls[id].phase.Completing?
      modifies this
      ensures Valid() && Value() == Step(old(Value()), Event<T>.Resume(id, now))
    {
      hide Inv;
      StepKeepsInv(Value(), Event<T>.Resume(id, now));
      var result := calls[id].phase.result;
      promises := promises[id := Resolved(result)];
      inFlightPromises := inFlightPromises - {calls[id].key};
      calls := calls[id := calls[id].(phase := Done(Executed(result)))];
    }

    method AfterRelease(id: nat, now: real)
      requires Valid() && id in calls && calls[id].phase.Releasing?
      modifies this
      ensures Valid() && Value() == Step(old(Value()), Event<T>.Resume(id, now))
    {
      hide Inv;
      StepKeepsInv(Value(), Event<T>.Resume(id, now));
      promises := promises[id := Rejected];
      inFlightPromises := inFlightPromises - {calls[id].key};
      calls := calls[id := calls[id].(phase := Done(Failed))];
    }

    /** The awaited promise settled: replay its result, or start over without waiting again. */
    method AfterWait(id: nat, now: real)
      requires Valid() && id in calls && calls[id].phase.Waiting? && Enabled(Value(), Event<T>.Resume(id, now))
      modifies this, store
      ensures Valid() && Value() == Step(old(Value()), Event<T>.Resume(id, now))
    {
      hide Inv;
      StepKeepsInv(Value(), Event<T>.Resume(id, now));
      var call := calls[id];
      if promises[call.phase.on].Resolved? {
        calls := calls[id := call.(phase := Done(Replayed(promises[call.phase.on].result)))];
      } else {
        var found := store.AcquireKey(call.key, call.fingerprint, None, now);
        calls := calls[id := Call(call.key, call.fingerprint, AfterAcquire(found, false))];
      }
    }
  }
}
