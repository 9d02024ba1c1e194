/** The lease table as a value, and what each operation does to it at one clock reading. */
module LeaseModel {

  const MAX_LEASE_DURATION_MS := 2_147_483_647

  type Duration = d: int | 0 < d <= MAX_LEASE_DURATION_MS witness 1

  datatype Record = Record(ownerToken: string, acquiredAt: real, expiresAt: real)

  datatype Config = Config(leaseDurationMs: Duration, maxResources: nat, sweepIntervalMs: nat) {
    predicate Valid() { maxResources > 0 && sweepIntervalMs > 0 }
  }

  datatype Table = Table(leases: map<string, Record>, lastSweepAt: real)

  datatype Outcome =
    | Acquired(lease: Record)
    | Busy(heldUntil: real)
    | CapacityExhausted(maxResources: nat)
    | Renewed(lease: Record)
    | Released
    | NotFound
    | Expired
    | OwnershipMismatch
    | Swept(removed: nat)

  /** The leases that are valid at `now`: the interval is half-open. */
  function Live(leases: map<string, Record>, now: real): map<string, Record> {
    map k | k in leases && leases[k].expiresAt > now :: leases[k]
  }

  function SweepExpired(t: Table, now: real): Table {
    Table(Live(t.leases, now), now)
  }

  function Acquire(cfg: Config, t: Table, key: string, duration: Duration, token: string, now: real): (Table, Outcome) {
    var t1 := if now - t.lastSweepAt >= cfg.sweepIntervalMs as real then SweepExpired(t, now) else t;
    if key in t1.leases && t1.leases[key].expiresAt > now then (t1, Busy(t1.leases[key].expiresAt))
    else
      var t2 := if key !in t1.leases && |t1.leases| >= cfg.maxResources then SweepExpired(t1, now) else t1;
      if key !in t1.leases && |t2.leases| >= cfg.maxResources then (t2, CapacityExhausted(cfg.maxResources))
      else
        var record := Record(token, now, now + duration as real);
        (t2.(leases := t2.leases[key := record]), Acquired(record))
  }

  function Renew(t: Table, key: string, token: string, duration: Duration, now: real): (Table, Outcome) {
    if key !in t.leases then (t, NotFound)
    else if !(t.leases[key].expiresAt > now) then (t.(leases := t.leases - {key}), Expired)
    else if token != t.leases[key].ownerToken then (t, OwnershipMismatch)
    else
      var record := t.leases[key].(expiresAt := now + duration as real);
      (t.(leases := t.leases[key := record]), Renewed(record))
  }

  function Release(t: Table, key: string, token: string, now: real): (Table, Outcome) {
    if key !in t.leases then (t, NotFound)
    else if !(t.leases[key].expiresAt > now) then (t.(leases := t.leases - {key}), Expired)
    else if token != t.leases[key].ownerToken then (t, OwnershipMismatch)
    else (t.(leases := t.leases - {key}), Released)
  }

  lemma LiveIsSmaller(leases: map<string, Record>, now: real)
    ensures |Live(leases, now)| <= |leases|
    ensures |Live(leases, now)| == |leases| ==> Live(leases, now) == leases
  {
    var live := Live(leases, now);
    assert live.Keys <= leases.Keys;
    KeysSubset(live.Keys, leases.Keys);
  }

  lemma KeysSubset(a: set<string>, b: set<string>)
    requires a <= b
    ensures |a| <= |b| && (|a| == |b| ==> a == b)
  {
    assert b == a + (b - a);
  }
}

module LeaseRuns {
  import opened LeaseModel

  datatype Event =
    | AcquireAt(key: string, duration: Duration, token: string, now: real)
    | RenewAt(key: string, token: string, duration: Duration, now: real)
    | ReleaseAt(key: string, token: string, now: real)
    | SweepAt(now: real)

  function Apply(cfg: Config, t: Table, ev: Event): (Table, Outcome) {
    match ev
    case AcquireAt(key, duration, token, now) => Acquire(cfg, t, key, duration, token, now)
    case RenewAt(key, token, duration, now) => Renew(t, key, token, duration, now)
    case ReleaseAt(key, token, now) => Release(t, key, token, now)
    case SweepAt(now) =>
      LiveIsSmaller(t.leases, now);
      (SweepExpired(t, now), Swept(|t.leases| - |Live(t.leases, now)|))
  }

  // --- cleanup is invisible ---

  /** Whether a lapsed lease has already been swept shows only in the wording of a refusal. */
  function Observed(o: Outcome): Outcome {
    match o
    case Expired => NotFound
    case Swept(_) => Swept(0)
    case _ => o
  }

  /** Two tables that hold the same valid leases at `now`, both within the cap. */
  ghost predicate SameLive(cfg: Config, a: Table, b: Table, now: real) {
    && Live(a.leases, now) == Live(b.leases, now)
    && |a.leases| <= cfg.maxResources && |b.leases| <= cfg.maxResources
  }

  lemma LiveLater(a: map<string, Record>, b: map<string, Record>, now: real, later: real)
    requires Live(a, now) == Live(b, now) && now <= later
    ensures Live(a, later) == Live(b, later)
  {
    forall k ensures k in Live(a, later) <==> k in Live(b, later) {
      assert k in Live(a, later) ==> k in Live(a, now);
      assert k in Live(b, later) ==> k in Live(b, now);
    }
    forall k | k in Live(a, later) ensures Live(a, later)[k] == Live(b, later)[k] {
      assert k in Live(a, now) && k in Live(b, now);
    }
  }

  lemma LiveTwice(leases: map<string, Record>, now: real)
    ensures Live(Live(leases, now), now) == Live(leases, now)
  {
  }

  lemma LiveSet(leases: map<string, Record>, key: string, record: Record, now: real)
    requires record.expiresAt > now
    ensures Live(leases[key := record], now) == Live(leases, now)[key := record]
  {
  }

  lemma LiveDrop(leases: map<string, Record>, key: string, now: real)
    ensures Live(leases - {key}, now) == Live(leases, now) - {key}
  {
  }

  lemma InsertSize(leases: map<string, Record>, key: string, record: Record)
    ensures |leases[key := record]| == |leases| + (if key in leases then 0 else 1)
  {
    var after := leases[key := record];
    assert |after| == |after.Keys| && |leases| == |leases.Keys|;
    assert after.Keys == leases.Keys + {key};
  }

  /** Sweeping before deciding, or not, leaves the same valid leases and no more entries. */
  lemma SweepHarmless(t: Table, now: real)
    ensures Live(SweepExpired(t, now).leases, now) == Live(t.leases, now)
    ensures |SweepExpired(t, now).leases| <= |t.leases|
  {
    LiveTwice(t.leases, now);
    LiveIsSmaller(t.leases, now);
  }

  /** What acquire does, said in terms of the valid leases alone. */
  ghost predicate AcquireIsByLive(cfg: Config, t: Table, key: string, duration: Duration, token: string, now: real,
                                  t': Table, outcome: Outcome) {
    var live, record := Live(t.leases, now), Record(token, now, now + duration as real);
    && |t'.leases| <= cfg.maxResources
    && outcome == (if key in live then Busy(live[key].expiresAt)
                   else if |live| >= cfg.maxResources then CapacityExhausted(cfg.maxResources)
                   else Acquired(record))
    && Live(t'.leases, now) == if outcome.Acquired? then live[key := record] else live
  }

  lemma AcquireByLive(cfg: Config, t: Table, key: string, duration: Duration, token: string, now: real)
    requires |t.leases| <= cfg.maxResources
    ensures var (t', outcome) := Acquire(cfg, t, key, duration, token, now);
            AcquireIsByLive(cfg, t, key, duration, token, now, t', outcome)
  {
    var t1 := if now - t.lastSweepAt >= cfg.sweepIntervalMs as real then SweepExpired(t, now) else t;
    SweepHarmless(t, now);
    SweepHarmless(t1, now);
    var live, record := Live(t.leases, now), Record(token, now, now + duration as real);
    LiveIsSmaller(t1.leases, now);
    LiveSet(t1.leases, key, record, now);
    InsertSize(t1.leases, key, record);
    var t2 := SweepExpired(t1, now);
    LiveSet(t2.leases, key, record, now);
    InsertSize(t2.leases, key, record);
    assert key in t1.leases && key !in live ==> live != t1.leases;
  }

  lemma SameLiveStep(cfg: Config, a: Table, b: Table, ev: Event, before: real)
    requires cfg.Valid() && SameLive(cfg, a, b, before) && before <= ev.now
    ensures var ((a', x), (b', y)) := (Apply(cfg, a, ev), Apply(cfg, b, ev));
            SameLive(cfg, a', b', ev.now) && Observed(x) == Observed(y)
  {
    var now := ev.now;
    LiveLater(a.leases, b.leases, before, now);
    match ev
    case AcquireAt(key, duration, token, _) =>
      AcquireByLive(cfg, a, key, duration, token, now);
      AcquireByLive(cfg, b, key, duration, token, now);
    case RenewAt(key, token, duration, _) =>
      RenewByLive(cfg, a, key, token, duration, now);
      RenewByLive(cfg, b, key, token, duration, now);
    case ReleaseAt(key, token, _) =>
      ReleaseByLive(cfg, a, key, token, now);
      ReleaseByLive(cfg, b, key, token, now);
    case SweepAt(_) =>
      LiveTwice(a.leases, now);
      LiveTwice(b.leases, now);
      LiveIsSmaller(a.leases, now);
      LiveIsSmaller(b.leases, now);
  }

  lemma RenewByLive(cfg: Config, t: Table, key: string, token: string, duration: Duration, now: real)
    requires |t.leases| <= cfg.maxResources
    ensures var (t', outcome) := Renew(t, key, token, duration, now);
            var live := Live(t.leases, now);
            && |t'.leases| <= cfg.maxResources
            && (key !in live ==> Observed(outcome) == NotFound && Live(t'.leases, now) == live)
            && (key in live && token != live[key].ownerToken ==> outcome == OwnershipMismatch && t' == t)
            && (key in live && token == live[key].ownerToken ==>
                  var record := live[key].(expiresAt := now + duration as real);
                  outcome == Renewed(record) && Live(t'.leases, now) == live[key := record])
  {
    var (t', outcome) := Renew(t, key, token, duration, now);
    LiveDrop(t.leases, key, now);
    LiveMember(t.leases, now);
    DropShrinks(t.leases, key);
    if outcome.Renewed? {
      LiveSet(t.leases, key, outcome.lease, now);
      assert t'.leases.Keys == t.leases.Keys;
      assert |t'.leases| == |t'.leases.Keys|;
    }
  }

  lemma ReleaseByLive(cfg: Config, t: Table, key: string, token: string, now: real)
    requires |t.leases| <= cfg.maxResources
    ensures var (t', outcome) := Release(t, key, token, now);
            var live := Live(t.leases, now);
            && |t'.leases| <= cfg.maxResources
            && (key !in live ==> Observed(outcome) == NotFound && Live(t'.leases, now) == live)
            && (key in live && token != live[key].ownerToken ==> outcome == OwnershipMismatch && t' == t)
            && (key in live && token == live[key].ownerToken ==>
                  outcome == Released && Live(t'.leases, now) == live - {key})
  {
    LiveDrop(t.leases, key, now);
    LiveMember(t.leases, now);
    DropShrinks(t.leases, key);
    hide Live;
  }

  lemma DropShrinks(leases: map<string, Record>, key: string)
    ensures |leases - {key}| <= |leases|
  {
    KeysSubset((leases - {key}).Keys, leases.Keys);
    assert |(leases - {key}).Keys| == |leases - {key}| && |leases.Keys| == |leases|;
  }

  ghost predicate ClockForward(events: seq<Event>, from: real)
    decreases events
  {
    events == [] || (from <= events[0].now && ClockForward(events[1..], events[0].now))
  }

  function Outcomes(cfg: Config, t: Table, events: seq<Event>): seq<Outcome>
    decreases events
  {
    if events == [] then []
    else
      var (t', o) := Apply(cfg, t, events[0]);
      [Observed(o)] + Outcomes(cfg, t', events[1..])
  }

  /** Whatever was or was not swept before, the same calls get the same answers from now on. */
  lemma {:induction false} CleanupInvisible(cfg: Config, a: Table, b: Table, events: seq<Event>, now: real)
    requires cfg.Valid() && SameLive(cfg, a, b, now) && ClockForward(events, now)
    ensures Outcomes(cfg, a, events) == Outcomes(cfg, b, events)
    decreases events
  {
    if events != [] {
      SameLiveStep(cfg, a, b, events[0], now);
      CleanupInvisible(cfg, Apply(cfg, a, events[0]).0, Apply(cfg, b, events[0]).0, events[1..], events[0].now);
    }
  }

  // --- what a holder and others are answered, in clock readings ---

  /** A resource with no lease that still runs, and room for it, is acquired from now for exactly the duration. */
  lemma AcquireAnswers(cfg: Config, t: Table, key: string, duration: Duration, token: string, now: real)
    requires |t.leases| <= cfg.maxResources
    ensures var (t', outcome) := Acquire(cfg, t, key, duration, token, now);
            && (key in t.leases && now < t.leases[key].expiresAt ==> outcome == Busy(t.leases[key].expiresAt))
            && (!(key in t.leases && now < t.leases[key].expiresAt) && RunningCount(t, now) >= cfg.maxResources ==>
                  outcome == CapacityExhausted(cfg.maxResources))
            && (!(key in t.leases && now < t.leases[key].expiresAt) && RunningCount(t, now) < cfg.maxResources ==>
                  outcome == Acquired(Record(token, now, now + duration as real)) &&
                  key in t'.leases && t'.leases[key] == Record(token, now, now + duration as real))
            && forall other | other != key && other in t.leases && now < t.leases[other].expiresAt ::
                 other in t'.leases && t'.leases[other] == t.leases[other]
  {
    AcquireByLive(cfg, t, key, duration, token, now);
    var (t', outcome) := Acquire(cfg, t, key, duration, token, now);
    LiveMember(t.leases, now);
    LiveMember(t'.leases, now);
    RunningIsLive(t, now);
    hide Acquire;
    var live := Live(t.leases, now);
    forall other | other != key && other in t.leases && now < t.leases[other].expiresAt
      ensures other in t'.leases && t'.leases[other] == t.leases[other]
    {
      assert other in live && other in Live(t'.leases, now);
      assert Live(t'.leases, now)[other] == live[other];
    }
    if outcome.Acquired? { assert key in Live(t'.leases, now) && Live(t'.leases, now)[key] == outcome.lease; }
  }

  /** How many leases still run. */
  function RunningCount(t: Table, now: real): nat {
    |set k | k in t.leases && now < t.leases[k].expiresAt|
  }

  lemma RunningIsLive(t: Table, now: real)
    ensures RunningCount(t, now) == |Live(t.leases, now)|
  {
    assert Live(t.leases, now).Keys == set k | k in t.leases && now < t.leases[k].expiresAt;
    assert |Live(t.leases, now).Keys| == |Live(t.leases, now)|;
  }

  /**
   * After a resource was acquired at `start` for `duration`: until `start + duration` nobody else gets it, its token
   * renews it from now on for a new duration, or frees it at once, and no other token does; from then on it has lapsed.
   */
  lemma HolderAnswers(cfg: Config, t: Table, key: string, duration: Duration, token: string, start: real,
                      other: string, more: Duration, now: real)
    requires |t.leases| <= cfg.maxResources && Acquire(cfg, t, key, duration, token, start).1.Acquired?
    ensures var (held, end) := (Acquire(cfg, t, key, duration, token, start).0, start + duration as real);
            && |held.leases| <= cfg.maxResources
            && (now < end ==> Acquire(cfg, held, key, more, other, now).1 == Busy(end))
            && (now >= end ==> !Acquire(cfg, held, key, more, other, now).1.Busy?)
            && Renew(held, key, other, more, now).1 ==
                 (if now >= end then Expired else if other != token then OwnershipMismatch
                  else Renewed(Record(token, start, now + more as real)))
            && Release(held, key, other, now).1 ==
                 (if now >= end then Expired else if other != token then OwnershipMismatch else Released)
  {
    AcquireAnswers(cfg, t, key, duration, token, start);
    AcquireByLive(cfg, t, key, duration, token, start);
    var held := Acquire(cfg, t, key, duration, token, start).0;
    hide Live;
    AcquireAnswers(cfg, held, key, more, other, now);
  }

  /** A renewed lease runs until the new end, a released or lapsed one is gone: asked again, it is not found. */
  lemma AfterwardsAnswers(cfg: Config, t: Table, key: string, token: string, duration: Duration, now: real,
                          other: string, more: Duration, later: real)
    requires |t.leases| <= cfg.maxResources
    ensures Renew(t, key, token, duration, now).1.Renewed? ==>
              var (renewed, end) := (Renew(t, key, token, duration, now).0, now + duration as real);
              (Acquire(cfg, renewed, key, more, other, later).1 == Busy(end) <==> later < end) &&
              Release(renewed, key, token, later).1 == (if later < end then Released else Expired)
    ensures Release(t, key, token, now).1 in {Released, Expired} ==>
              var freed := Release(t, key, token, now).0;
              Renew(freed, key, other, more, later).1 == NotFound && Release(freed, key, other, later).1 == NotFound &&
              !Acquire(cfg, freed, key, more, other, later).1.Busy?
    ensures Renew(t, key, token, duration, now).1 == Expired ==>
              Renew(Renew(t, key, token, duration, now).0, key, other, more, later).1 == NotFound
    ensures key !in t.leases ==>
              Renew(t, key, token, duration, now).1 == NotFound && Release(t, key, token, now).1 == NotFound
  {
    RenewByLive(cfg, t, key, token, duration, now);
    ReleaseByLive(cfg, t, key, token, now);
    AcquireAnswers(cfg, Renew(t, key, token, duration, now).0, key, more, other, later);
    AcquireAnswers(cfg, Release(t, key, token, now).0, key, more, other, later);
    hide Live, Acquire;
  }

  // --- mutual exclusion over time ---

  /** A grant covers [start, end): up to its release or its last promised expiry. */
  datatype Grant = Grant(resource: string, token: string, start: real, end: real)

  /** The table, the last clock reading, and every grant ever made. */
  datatype World = World(t: Table, clock: real, grants: seq<Grant>)

  function EndGrant(grants: seq<Grant>, token: string, end: real): (r: seq<Grant>)
    ensures |r| == |grants|
  {
    seq(|grants|, i requires 0 <= i < |grants| =>
      if grants[i].token == token then grants[i].(end := end) else grants[i])
  }

  /** The clock never runs backwards, and a fresh token is one never issued before. */
  ghost predicate Enabled(w: World, ev: Event) {
    && w.clock <= ev.now
    && (ev.AcquireAt? ==> forall i | 0 <= i < |w.grants| :: w.grants[i].token != ev.token)
  }

  function Step(cfg: Config, w: World, ev: Event): World {
    var (t', outcome) := Apply(cfg, w.t, ev);
    World(t', ev.now,
          match outcome
          case Acquired(lease) =>
            if ev.AcquireAt?
            then w.grants + [Grant(ev.key, lease.ownerToken, lease.acquiredAt, lease.expiresAt)]
            else w.grants
          case Renewed(lease) => EndGrant(w.grants, lease.ownerToken, lease.expiresAt)
          case Released => if ev.ReleaseAt? then EndGrant(w.grants, ev.token, ev.now) else w.grants
          case _ => w.grants)
  }

  ghost predicate IsRun(cfg: Config, trace: seq<World>, events: seq<Event>) {
    && |trace| == |events| + 1 && trace[0].t.leases == map[] && trace[0].grants == []
    && forall i | 0 <= i < |events| :: Stepped(cfg, trace, events, i)
  }

  ghost predicate Stepped(cfg: Config, trace: seq<World>, events: seq<Event>, i: nat)
    requires i < |events| < |trace|
  {
    Enabled(trace[i], events[i]) && trace[i + 1] == Step(cfg, trace[i], events[i])
  }

  ghost predicate TokensDistinct(grants: seq<Grant>) {
    forall i, j | 0 <= i < j < |grants| :: grants[i].token != grants[j].token
  }

  /** Grants on one resource follow one another without overlap. */
  ghost predicate Disjoint(grants: seq<Grant>) {
    && (forall i | 0 <= i < |grants| :: grants[i].start <= grants[i].end)
    && forall i, j | 0 <= i < j < |grants| && grants[i].resource == grants[j].resource ::
         grants[i].end <= grants[j].start
  }

  /** A grant still running is the one the table holds, and it is the last on its resource. */
  ghost predicate RunningIsHeld(w: World) {
    && (forall i | 0 <= i < |w.grants| :: w.grants[i].start <= w.clock)
    && (forall i | 0 <= i < |w.grants| && w.grants[i].end > w.clock :: Held(w, w.grants[i]))
    && (forall k | k in w.t.leases && w.t.leases[k].expiresAt > w.clock ::
          exists i :: 0 <= i < |w.grants| && w.grants[i] == GrantOf(k, w.t.leases[k]))
  }

  function GrantOf(k: string, r: Record): Grant {
    Grant(k, r.ownerToken, r.acquiredAt, r.expiresAt)
  }

  ghost predicate Held(w: World, g: Grant) {
    g.resource in w.t.leases && GrantOf(g.resource, w.t.leases[g.resource]) == g
  }

  ghost predicate Inv(cfg: Config, w: World) {
    |w.t.leases| <= cfg.maxResources && TokensDistinct(w.grants) && Disjoint(w.grants) && RunningIsHeld(w)
  }

  lemma LiveMember(leases: map<string, Record>, now: real)
    ensures forall k :: k in Live(leases, now) <==> k in leases && leases[k].expiresAt > now
    ensures forall k | k in Live(leases, now) :: Live(leases, now)[k] == leases[k]
  {
  }

  /** Time passing, and lapsed leases being dropped, keep the books in order. */
  lemma TimePasses(cfg: Config, w: World, t': Table, now: real)
    requires Inv(cfg, w) && w.clock <= now && |t'.leases| <= cfg.maxResources
    requires Live(t'.leases, now) == Live(w.t.leases, now)
    ensures Inv(cfg, World(t', now, w.grants))
  {
    hide Live;
    var w' := World(t', now, w.grants);
    LiveMember(w.t.leases, now);
    LiveMember(t'.leases, now);
    forall i | 0 <= i < |w'.grants| && w'.grants[i].end > now
      ensures Held(w', w'.grants[i])
    {
      assert Held(w, w.grants[i]);
      assert w.grants[i].resource in Live(w.t.leases, now);
    }
    forall k | k in t'.leases && t'.leases[k].expiresAt > now
      ensures exists i :: 0 <= i < |w'.grants| && w'.grants[i] == GrantOf(k, t'.leases[k])
    {
      assert k in Live(t'.leases, now);
      assert k in w.t.leases && w.t.leases[k].expiresAt > w.clock;
    }
  }

  /** A new grant starts after everything granted before on that resource has ended. */
  lemma AppendedDisjoint(w: World, key: string, r: Record)
    requires TokensDistinct(w.grants) && Disjoint(w.grants) && RunningIsHeld(w) && key !in Live(w.t.leases, w.clock)
    requires r.acquiredAt == w.clock < r.expiresAt
    requires forall i | 0 <= i < |w.grants| :: w.grants[i].token != r.ownerToken
    ensures var grants := w.grants + [GrantOf(key, r)]; TokensDistinct(grants) && Disjoint(grants)
  {
    hide Live;
    LiveMember(w.t.leases, w.clock);
    assert forall i | 0 <= i < |w.grants| && w.grants[i].end > w.clock :: Held(w, w.grants[i]);
    assert forall i | 0 <= i < |w.grants| && w.grants[i].resource == key :: w.grants[i].end <= w.clock;
  }

  lemma AppendedHeld(w: World, t': Table, key: string, r: Record)
    requires RunningIsHeld(w) && r.acquiredAt == w.clock < r.expiresAt
    requires key !in Live(w.t.leases, w.clock) && Live(t'.leases, w.clock) == Live(w.t.leases, w.clock)[key := r]
    ensures RunningIsHeld(World(t', w.clock, w.grants + [GrantOf(key, r)]))
  {
    hide Live;
    var w' := World(t', w.clock, w.grants + [GrantOf(key, r)]);
    LiveMember(w.t.leases, w.clock);
    LiveMember(t'.leases, w.clock);
    forall i | 0 <= i < |w'.grants| && w'.grants[i].end > w.clock
      ensures Held(w', w'.grants[i])
    {
      if i < |w.grants| {
        assert Held(w, w.grants[i]);
        assert w.grants[i].resource in Live(w.t.leases, w.clock);
      }
      assert w'.grants[i].resource in Live(t'.leases, w.clock);
    }
    forall k | k in t'.leases && t'.leases[k].expiresAt > w.clock
      ensures exists i :: 0 <= i < |w'.grants| && w'.grants[i] == GrantOf(k, t'.leases[k])
    {
      assert k in Live(t'.leases, w.clock);
      if k == key {
        assert w'.grants[|w.grants|] == GrantOf(k, t'.leases[k]);
      } else {
        var i :| 0 <= i < |w.grants| && w.grants[i] == GrantOf(k, w.t.leases[k]);
        assert w'.grants[i] == w.grants[i];
      }
    }
  }

  lemma GrantAppended(cfg: Config, w: World, t': Table, key: string, r: Record)
    requires Inv(cfg, w) && |t'.leases| <= cfg.maxResources && key !in Live(w.t.leases, w.clock)
    requires r.acquiredAt == w.clock < r.expiresAt
    requires forall i | 0 <= i < |w.grants| :: w.grants[i].token != r.ownerToken
    requires Live(t'.leases, w.clock) == Live(w.t.leases, w.clock)[key := r]
    ensures Inv(cfg, World(t', w.clock, w.grants + [GrantOf(key, r)]))
  {
    hide Live, TokensDistinct, Disjoint, RunningIsHeld;
    AppendedDisjoint(w, key, r);
    AppendedHeld(w, t', key, r);
  }

  /** The grant behind a valid lease is the last one on its resource; ending it leaves the others alone. */
  ghost predicate OnlyEnded(w: World, grants: seq<Grant>, n: nat, key: string, end: real) {
    && |grants| == |w.grants| && n < |grants|
    && key in w.t.leases && w.grants[n] == GrantOf(key, w.t.leases[key])
    && grants[n] == w.grants[n].(end := end)
    && (forall j | 0 <= j < |grants| && j != n :: grants[j] == w.grants[j])
    && (forall j | n < j < |grants| :: grants[j].resource != key)
  }

  lemma EndsOne(w: World, key: string, end: real) returns (n: nat)
    requires TokensDistinct(w.grants) && Disjoint(w.grants) && RunningIsHeld(w) && key in Live(w.t.leases, w.clock)
    ensures key in w.t.leases && OnlyEnded(w, EndGrant(w.grants, w.t.leases[key].ownerToken, end), n, key, end)
  {
    hide Live;
    LiveMember(w.t.leases, w.clock);
    n :| 0 <= n < |w.grants| && w.grants[n] == GrantOf(key, w.t.leases[key]);
    assert forall j | 0 <= j < |w.grants| && j != n :: w.grants[j].token != w.grants[n].token;
    assert forall j | n < j < |w.grants| && w.grants[j].resource == key :: w.grants[n].end <= w.grants[j].start;
  }

  lemma EndedDisjoint(w: World, grants: seq<Grant>, n: nat, key: string, end: real)
    requires TokensDistinct(w.grants) && Disjoint(w.grants) && RunningIsHeld(w) && end >= w.clock
    requires OnlyEnded(w, grants, n, key, end)
    ensures TokensDistinct(grants) && Disjoint(grants)
  {
    hide Held;
    assert forall j | 0 <= j < |grants| ::
           grants[j].token == w.grants[j].token && grants[j].resource == w.grants[j].resource;
    assert forall j | 0 <= j < |grants| :: grants[j].start == w.grants[j].start;
  }

  /** The valid leases after the change are those before, but for the one under `key`. */
  lemma EndedLeases(w: World, t': Table, grants: seq<Grant>, n: nat, key: string, end: real)
    requires key in Live(w.t.leases, w.clock) && OnlyEnded(w, grants, n, key, end)
    requires var live := Live(w.t.leases, w.clock);
             Live(t'.leases, w.clock) ==
               if end > w.clock then live[key := live[key].(expiresAt := end)] else live - {key}
    ensures forall k :: (k in t'.leases && t'.leases[k].expiresAt > w.clock) <==>
                        (k in w.t.leases && w.t.leases[k].expiresAt > w.clock && (k == key ==> end > w.clock))
    ensures forall k | k in t'.leases && t'.leases[k].expiresAt > w.clock ::
              GrantOf(k, t'.leases[k]) == if k == key then grants[n] else GrantOf(k, w.t.leases[k])
  {
    hide Live;
    var live := Live(w.t.leases, w.clock);
    LiveMember(w.t.leases, w.clock);
    LiveMember(t'.leases, w.clock);
    forall k ensures (k in t'.leases && t'.leases[k].expiresAt > w.clock) <==>
                     (k in live && (k == key ==> end > w.clock)) {
      assert k in Live(t'.leases, w.clock) <==> k in t'.leases && t'.leases[k].expiresAt > w.clock;
    }
    forall k | k in t'.leases && t'.leases[k].expiresAt > w.clock
      ensures GrantOf(k, t'.leases[k]) == if k == key then grants[n] else GrantOf(k, w.t.leases[k])
    {
      assert Live(t'.leases, w.clock)[k] == t'.leases[k];
      assert live[k] == w.t.leases[k];
    }
  }

  lemma EndedHeld(w: World, t': Table, grants: seq<Grant>, n: nat, key: string, end: real)
    requires RunningIsHeld(w) && end >= w.clock && key in Live(w.t.leases, w.clock)
    requires OnlyEnded(w, grants, n, key, end)
    requires forall j | 0 <= j < n && w.grants[j].resource == key :: w.grants[j].end <= w.grants[n].start
    requires var live := Live(w.t.leases, w.clock);
             Live(t'.leases, w.clock) ==
               if end > w.clock then live[key := live[key].(expiresAt := end)] else live - {key}
    ensures RunningIsHeld(World(t', w.clock, grants))
  {
    var w' := World(t', w.clock, grants);
    assert w.t.leases[key].expiresAt > w.clock by { LiveMember(w.t.leases, w.clock); }
    EndedLeases(w, t', grants, n, key, end);
    hide Live;
    forall i | 0 <= i < |grants| && grants[i].end > w.clock
      ensures Held(w', grants[i])
    {
      assert i != n ==> Held(w, w.grants[i]) && grants[i].resource != key;
    }
    forall k | k in t'.leases && t'.leases[k].expiresAt > w.clock
      ensures exists i :: 0 <= i < |grants| && grants[i] == GrantOf(k, t'.leases[k])
    {
      if k == key {
        assert grants[n] == GrantOf(k, t'.leases[k]);
      } else {
        var i :| 0 <= i < |w.grants| && w.grants[i] == GrantOf(k, w.t.leases[k]);
        assert grants[i] == w.grants[i];
      }
    }
  }

  /** The running grant of `key` gets a new end: renewed into the future, or cut off now. */
  lemma GrantEnded(cfg: Config, w: World, t': Table, key: string, end: real)
    requires Inv(cfg, w) && |t'.leases| <= cfg.maxResources && key in Live(w.t.leases, w.clock) && end >= w.clock
    requires var live := Live(w.t.leases, w.clock);
             Live(t'.leases, w.clock) ==
               if end > w.clock then live[key := live[key].(expiresAt := end)] else live - {key}
    ensures key in w.t.leases
    ensures Inv(cfg, World(t', w.clock, EndGrant(w.grants, w.t.leases[key].ownerToken, end)))
  {
    hide Live, EndGrant, RunningIsHeld, TokensDistinct;
    var n := EndsOne(w, key, end);
    var grants := EndGrant(w.grants, w.t.leases[key].ownerToken, end);
    assert forall j | 0 <= j < n && w.grants[j].resource == key :: w.grants[j].end <= w.grants[n].start;
    hide OnlyEnded, Disjoint;
    EndedDisjoint(w, grants, n, key, end);
    EndedHeld(w, t', grants, n, key, end);
  }

  lemma StepKeepsInv(cfg: Config, w: World, ev: Event)
    requires cfg.Valid() && Inv(cfg, w) && Enabled(w, ev)
    ensures Inv(cfg, Step(cfg, w, ev))
  {
    hide Inv, Live, Acquire, Renew, Release, EndGrant;
    var now := ev.now;
    var (t', outcome) := Apply(cfg, w.t, ev);
    SizeBounded(cfg, w);
    assert Inv(cfg, w.(clock := now)) by { TimePasses(cfg, w, w.t, now); }
    match ev
    case AcquireAt(key, duration, token, _) =>
      AcquireByLive(cfg, w.t, key, duration, token, now);
      if outcome.Acquired? {
        GrantAppended(cfg, w.(clock := now), t', key, outcome.lease);
      } else {
        TimePasses(cfg, w, t', now);
      }
    case RenewAt(key, token, duration, _) =>
      RenewByLive(cfg, w.t, key, token, duration, now);
      LiveMember(w.t.leases, now);
      if outcome.Renewed? {
        GrantEnded(cfg, w.(clock := now), t', key, now + duration as real);
      } else {
        TimePasses(cfg, w, t', now);
      }
    case ReleaseAt(key, token, _) =>
      ReleaseByLive(cfg, w.t, key, token, now);
      LiveMember(w.t.leases, now);
      if outcome.Released? {
        GrantEnded(cfg, w.(clock := now), t', key, now);
      } else {
        TimePasses(cfg, w, t', now);
      }
    case SweepAt(_) =>
      SweepHarmless(w.t, now);
      TimePasses(cfg, w, t', now);
  }

  lemma SizeBounded(cfg: Config, w: World)
    requires Inv(cfg, w)
    ensures |w.t.leases| <= cfg.maxResources
  {
  }

  lemma {:induction false} RunInv(cfg: Config, trace: seq<World>, events: seq<Event>, i: nat)
    requires cfg.Valid() && IsRun(cfg, trace, events) && i < |trace|
    ensures Inv(cfg, trace[i])
  {
    hide Step, Enabled;
    if i > 0 {
      RunInv(cfg, trace, events, i - 1);
      assert Stepped(cfg, trace, events, i - 1);
      StepKeepsInv(cfg, trace[i - 1], events[i - 1]);
    }
  }

  /** Over every run: leases on one resource never overlap in time, and the table never outgrows its cap. */
  lemma MutualExclusion(cfg: Config, trace: seq<World>, events: seq<Event>, n: nat)
    requires cfg.Valid() && IsRun(cfg, trace, events) && n < |trace|
    ensures |trace[n].t.leases| <= cfg.maxResources
    ensures forall i, j | 0 <= i < j < |trace[n].grants|
              && trace[n].grants[i].resource == trace[n].grants[j].resource ::
              trace[n].grants[i].start <= trace[n].grants[i].end <= trace[n].grants[j].start <= trace[n].grants[j].end
  {
    RunInv(cfg, trace, events, n);
  }

  /** A token other than the one of the lease that is valid right now changes no valid lease on any resource,
      and the valid lease it was aimed at stays exactly as it is. */
  lemma StrangerChangesNothing(cfg: Config, t: Table, ev: Event)
    requires (ev.RenewAt? || ev.ReleaseAt?) && |t.leases| <= cfg.maxResources
    requires ev.key in Live(t.leases, ev.now) ==> Live(t.leases, ev.now)[ev.key].ownerToken != ev.token
    ensures Live(Apply(cfg, t, ev).0.leases, ev.now) == Live(t.leases, ev.now)
    ensures Apply(cfg, t, ev).1 in {NotFound, Expired, OwnershipMismatch}
  {
    hide Live;
    if ev.RenewAt? {
      RenewByLive(cfg, t, ev.key, ev.token, ev.duration, ev.now);
    } else {
      ReleaseByLive(cfg, t, ev.key, ev.token, ev.now);
    }
  }

  /** The grant is over, or was on another resource, or another grant on the resource came after it. */
  ghost predicate Outlived(w: World, a: nat, key: string, now: real)
    requires a < |w.grants|
  {
    || w.grants[a].resource != key
    || w.grants[a].end <= now
    || exists b :: a < b < |w.grants| && w.grants[b].resource == key
  }

  /** The valid lease of a resource does not have the token of a grant that is outlived there. */
  lemma OutlivedIsNotLive(cfg: Config, w: World, a: nat, key: string, now: real)
    requires Inv(cfg, w) && w.clock <= now && a < |w.grants| && Outlived(w, a, key, now) && key in Live(w.t.leases, now)
    ensures Live(w.t.leases, now)[key].ownerToken != w.grants[a].token
  {
    LiveMember(w.t.leases, now);
    hide Live;
    var lease := w.t.leases[key];
    var n :| 0 <= n < |w.grants| && w.grants[n] == GrantOf(key, lease);
    assert n != a;
  }

  /**
   * Over every run, the token of a grant that has ended or been followed by another, or that was made for another
   * resource, can neither renew nor release a lease: no valid lease and no grant changes.
   */
  lemma OutlivedTokenChangesNothing(cfg: Config, trace: seq<World>, events: seq<Event>, i: nat, a: nat)
    requires cfg.Valid() && IsRun(cfg, trace, events) && i < |events| && a < |trace[i].grants|
    requires events[i].RenewAt? || events[i].ReleaseAt?
    requires events[i].token == trace[i].grants[a].token && Outlived(trace[i], a, events[i].key, events[i].now)
    ensures Live(trace[i + 1].t.leases, events[i].now) == Live(trace[i].t.leases, events[i].now)
    ensures trace[i + 1].grants == trace[i].grants
  {
    hide Live, Apply, Inv, Outlived;
    var w, ev := trace[i], events[i];
    RunInv(cfg, trace, events, i);
    assert Stepped(cfg, trace, events, i);
    SizeBounded(cfg, w);
    if ev.key in Live(w.t.leases, ev.now) { OutlivedIsNotLive(cfg, w, a, ev.key, ev.now); }
    StrangerChangesNothing(cfg, w.t, ev);
  }
}

module LeaseManagers {
  import opened Wrappers
  import opened LeaseModel

  class LeaseManager {
    const config: Config
    var leases: map<string, Record>
    var lastSweepAt: real

    function Value(): Table
      reads this
    {
      Table(leases, lastSweepAt)
    }

    constructor (config: Config, now: real)
      requires config.Valid()
      ensures this.config == config && Value() == Table(map[], now)
    {
      this.config := config;
      leases := map[];
      lastSweepAt := now;
    }

    method Acquire(key: string, leaseDurationMs: Option<Duration>, now: real, freshToken: string)
      returns (outcome: Outcome)
      modifies this
      ensures (Value(), outcome) ==
                LeaseModel.Acquire(config, old(Value()), key,
                                   if leaseDurationMs.Some? then leaseDurationMs.value else config.leaseDurationMs,
                                   freshToken, now)
    {
      var durationMs := if leaseDurationMs.None? then config.leaseDurationMs else leaseDurationMs.value;
      if now - lastSweepAt >= config.sweepIntervalMs as real {
        var swept := SweepExpired(now);
      }
      if key in leases && leases[key].expiresAt > now {
        return Busy(leases[key].expiresAt);
      }
      if key !in leases && |leases| >= config.maxResources {
        var swept := SweepExpired(now);
        if |leases| >= config.maxResources {
          return CapacityExhausted(config.maxResources);
        }
      }
      var record := Record(freshToken, now, now + durationMs as real);
      leases := leases[key := record];
      return Acquired(record);
    }

    method Renew(key: string, ownerToken: string, leaseDurationMs: Option<Duration>, now: real)
      returns (outcome: Outcome)
      modifies this
      ensures (Value(), outcome) ==
                LeaseModel.Renew(old(Value()), key, ownerToken,
                                 if leaseDurationMs.Some? then leaseDurationMs.value else config.leaseDurationMs, now)
    {
      var durationMs := if leaseDurationMs.None? then config.leaseDurationMs else leaseDurationMs.value;
      if key !in leases {
        return NotFound;
      }
      if !(leases[key].expiresAt > now) {
        leases := leases - {key};
        return Expired;
      }
      if ownerToken != leases[key].ownerToken {
        return OwnershipMismatch;
      }
      leases := leases[key := leases[key].(expiresAt := now + durationMs as real)];
      return Renewed(leases[key]);
    }

    method Release(key: string, ownerToken: string, now: real) returns (outcome: Outcome)
      modifies this
      ensures (Value(), outcome) == LeaseModel.Release(old(Value()), key, ownerToken, now)
    {
      if key !in leases {
        return NotFound;
      }
      if !(leases[key].expiresAt > now) {
        leases := leases - {key};
        return Expired;
      }
      if ownerToken != leases[key].ownerToken {
        return OwnershipMismatch;
      }
      leases := leases - {key};
      return Released;
    }

    /** Removes lapsed leases one by one and counts them. */
    method SweepExpired(now: real) returns (removed: nat)
      modifies this
      ensures Value() == LeaseModel.SweepExpired(old(Value()), now)
      ensures removed == |old(leases)| - |Live(old(leases), now)|
    {
      lastSweepAt := now;
      removed := 0;
      var rest := leases.Keys;
      ghost var all := leases;
      while rest != {}
        invariant rest <= all.Keys && leases.Keys <= all.Keys && lastSweepAt == now
        invariant forall k | k in leases :: leases[k] == all[k]
        invariant forall k | k in all :: k in leases <==> k in rest || all[k].expiresAt > now
        invariant |leases| + removed == |all|
        decreases rest
      {
        var key :| key in rest;
        rest := rest - {key};
        if !(leases[key].expiresAt > now) {
          assert leases.Keys == (leases - {key}).Keys + {key};
          leases := leases - {key};
          removed := removed + 1;
        }
      }
      assert leases == Live(all, now);
    }
  }
}
