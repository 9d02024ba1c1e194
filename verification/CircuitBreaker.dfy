/** The breaker as a value: what each synchronous section does to the fields. */
module BreakerModel {
  import opened Wrappers

  datatype CircuitState = Closed | Open | HalfOpen

  /** A probe ticket; the serial number stands for the object's identity. */
  datatype Ticket = Ticket(serial: nat, generation: nat)

  datatype Config = Config(failureThreshold: nat, cooldownMs: int, halfOpenProbeLimit: nat) {
    predicate Valid() {
      failureThreshold > 0 && cooldownMs > 0 && halfOpenProbeLimit > 0
    }
  }

  datatype Breaker = Breaker(
    state: CircuitState, generation: nat, openedAt: Option<real>, consecutiveFailures: nat, halfOpenSuccesses: nat,
    activeProbes: set<Ticket>, nextSerial: nat,
    successfulCalls: nat, countedFailures: nat, nonCountedErrors: nat, rejectedCalls: nat)

  datatype Reason = RejectedOpen | RejectedHalfOpenLimit

  datatype Admission = Admitted(generation: nat, ticket: Option<Ticket>) | Rejected(reason: Reason)

  /** How an operation ended: `Unclassified` is a classifier that threw. */
  datatype Ending = Success | Counted | Neutral | Unclassified

  const INITIAL: Breaker := Breaker(Closed, 0, None, 0, 0, {}, 0, 0, 0, 0, 0)

  predicate CooledDown(cfg: Config, openedAt: real, now: real) {
    now - openedAt >= cfg.cooldownMs as real
  }

  function CurrentProbes(b: Breaker): set<Ticket> {
    set t | t in b.activeProbes && t.generation == b.generation
  }

  function Refresh(cfg: Config, b: Breaker, now: real): Breaker {
    if b.state.Open? && b.openedAt.Some? && CooledDown(cfg, b.openedAt.value, now) then
      b.(state := HalfOpen, generation := b.generation + 1, openedAt := None, consecutiveFailures := 0,
         halfOpenSuccesses := 0)
    else b
  }

  function Admit(cfg: Config, b: Breaker): (Breaker, Admission) {
    match b.state
    case Open => (b.(rejectedCalls := b.rejectedCalls + 1), Rejected(RejectedOpen))
    case Closed => (b, Admitted(b.generation, None))
    case HalfOpen =>
      if |b.activeProbes| >= cfg.halfOpenProbeLimit ||
         b.halfOpenSuccesses + |CurrentProbes(b)| >= cfg.halfOpenProbeLimit
      then (b.(rejectedCalls := b.rejectedCalls + 1), Rejected(RejectedHalfOpenLimit))
      else
        var t := Ticket(b.nextSerial, b.generation);
        (b.(activeProbes := b.activeProbes + {t}, nextSerial := b.nextSerial + 1), Admitted(b.generation, Some(t)))
  }

  function Execute(cfg: Config, b: Breaker, now: real): (Breaker, Admission) {
    Admit(cfg, Refresh(cfg, b, now))
  }

  function ToOpen(b: Breaker, now: real): Breaker {
    b.(state := Open, generation := b.generation + 1, openedAt := Some(now), halfOpenSuccesses := 0)
  }

  function ToClosed(b: Breaker): Breaker {
    b.(state := Closed, generation := b.generation + 1, openedAt := None, consecutiveFailures := 0,
       halfOpenSuccesses := 0)
  }

  function RecordSuccess(cfg: Config, b: Breaker, generation: nat): Breaker {
    if generation != b.generation || b.state.Open? then b
    else if b.state.Closed? then b.(consecutiveFailures := 0)
    else
      var b' := b.(halfOpenSuccesses := b.halfOpenSuccesses + 1);
      if b'.halfOpenSuccesses == cfg.halfOpenProbeLimit then ToClosed(b') else b'
  }

  function RecordCountedFailure(cfg: Config, b: Breaker, generation: nat, now: real): Breaker {
    if generation != b.generation || b.state.Open? then b
    else if b.state.HalfOpen? then ToOpen(b, now)
    else
      var b' := b.(consecutiveFailures := b.consecutiveFailures + 1);
      if b'.consecutiveFailures < cfg.failureThreshold then b' else ToOpen(b', now)
  }

  function CountEnding(b: Breaker, e: Ending): Breaker {
    match e
    case Success => b.(successfulCalls := b.successfulCalls + 1)
    case Counted => b.(countedFailures := b.countedFailures + 1)
    case Neutral => b.(nonCountedErrors := b.nonCountedErrors + 1)
    case Unclassified => b
  }

  function Retire(b: Breaker, ticket: Option<Ticket>): Breaker {
    if ticket.Some? then b.(activeProbes := b.activeProbes - {ticket.value}) else b
  }

  function Settle(cfg: Config, b: Breaker, generation: nat, ticket: Option<Ticket>, e: Ending, now: real): Breaker {
    var counted := CountEnding(b, e);
    var recorded :=
      match e
      case Success => RecordSuccess(cfg, counted, generation)
      case Counted => RecordCountedFailure(cfg, counted, generation, now)
      case Neutral => counted
      case Unclassified => counted;
    Retire(recorded, ticket)
  }
}

/** The breaker among its callers: every interleaving of admissions and settlements. */
module BreakerRuns {
  import opened Wrappers
  import opened BreakerModel

  datatype Call = Call(generation: nat, ticket: Option<Ticket>)

  datatype Settlement = Settlement(generation: nat, ending: Ending)

  /** A breaker, the admitted calls that have not settled, and the settlements so far, oldest first. */
  datatype World = World(b: Breaker, live: map<nat, Call>, nextCall: nat, log: seq<Settlement>)

  datatype Event =
    | Arrive(now: real)
    | Finish(call: nat, ending: Ending, now: real)
    | Look(now: real)

  const START: World := World(INITIAL, map[], 0, [])

  predicate Enabled(w: World, ev: Event) {
    ev.Finish? ==> ev.call in w.live
  }

  function Step(cfg: Config, w: World, ev: Event): World
    requires Enabled(w, ev)
  {
    match ev
    case Arrive(now) =>
      var (b, admission) := Execute(cfg, w.b, now);
      if admission.Admitted? then
        World(b, w.live[w.nextCall := Call(admission.generation, admission.ticket)], w.nextCall + 1, w.log)
      else w.(b := b)
    case Finish(call, ending, now) =>
      var c := w.live[call];
      World(Settle(cfg, w.b, c.generation, c.ticket, ending, now), w.live - {call}, w.nextCall,
            w.log + [Settlement(c.generation, ending)])
    case Look(now) => w.(b := Refresh(cfg, w.b, now))
  }

  /** `trace[0]` is the start; each next world is one enabled step away. */
  ghost predicate IsRun(cfg: Config, trace: seq<World>, events: seq<Event>) {
    && |trace| == |events| + 1 && trace[0] == START
    && forall i | 0 <= i < |events| :: Enabled(trace[i], events[i]) && trace[i + 1] == Step(cfg, trace[i], events[i])
  }

  /** Counted failures of generation `g` since its last success; neutral endings are transparent. */
  function TrailingFailures(log: seq<Settlement>, g: nat): nat {
    if log == [] then 0
    else
      var last, rest := log[|log| - 1], log[..|log| - 1];
      if last.generation != g || last.ending.Neutral? || last.ending.Unclassified? then TrailingFailures(rest, g)
      else if last.ending.Success? then 0
      else TrailingFailures(rest, g) + 1
  }

  function Successes(log: seq<Settlement>, g: nat): nat {
    if log == [] then 0
    else Successes(log[..|log| - 1], g) +
         (if log[|log| - 1] == Settlement(g, Success) then 1 else 0)
  }

  /** The settlements of generation `g` that say success or counted failure. */
  function Decisive(log: seq<Settlement>, g: nat): (r: seq<Ending>)
    ensures forall i | 0 <= i < |r| :: r[i].Success? || r[i].Counted?
  {
    if log == [] then []
    else
      var last, rest := log[|log| - 1], Decisive(log[..|log| - 1], g);
      if last.generation == g && (last.ending.Success? || last.ending.Counted?) then rest + [last.ending] else rest
  }

  ghost predicate LastAllCounted(d: seq<Ending>, n: nat) {
    |d| >= n && forall i | |d| - n <= i < |d| :: d[i] == Counted
  }

  lemma {:induction false} TrailingIsLastCounted(log: seq<Settlement>, g: nat, n: nat)
    ensures TrailingFailures(log, g) >= n <==> LastAllCounted(Decisive(log, g), n)
    decreases |log|
  {
    if log != [] {
      var last, rest := log[|log| - 1], log[..|log| - 1];
      var d, e := Decisive(rest, g), Decisive(log, g);
      TrailingIsLastCounted(rest, g, n);
      if last.generation == g && last.ending.Counted? && n > 0 {
        TrailingIsLastCounted(rest, g, n - 1);
        assert e == d + [Counted];
        if LastAllCounted(e, n) {
          forall i | |d| - (n - 1) <= i < |d| ensures d[i] == Counted { assert e[i] == d[i]; }
        }
      } else if last.generation == g && last.ending.Success? && n > 0 {
        assert e == d + [Success];
        assert e[|e| - 1] == Success;
      }
    }
  }

  /** Tickets and unsettled probe calls are in one-to-one correspondence. */
  ghost predicate TicketsMatch(w: World) {
    && (forall id | id in w.live :: id < w.nextCall && w.live[id].generation <= w.b.generation)
    && (forall id | id in w.live && w.live[id].ticket.Some? ::
          w.live[id].ticket.value in w.b.activeProbes && w.live[id].ticket.value.generation == w.live[id].generation)
    && (forall id, jd | id in w.live && jd in w.live && id != jd && w.live[id].ticket.Some? ::
          w.live[id].ticket != w.live[jd].ticket)
    && (forall t | t in w.b.activeProbes :: t.serial < w.b.nextSerial && t.generation <= w.b.generation)
  }

  /** Only the current generation's calls may act on the current state, and they are of the right kind. */
  ghost predicate CallsFit(w: World) {
    forall id | id in w.live && w.live[id].generation == w.b.generation ::
      match w.b.state
      case Closed => w.live[id].ticket.None?
      case HalfOpen => w.live[id].ticket.Some?
      case Open => false
  }

  ghost predicate CountersFit(cfg: Config, w: World) {
    && (forall s | s in w.log :: s.generation <= w.b.generation)
    && (w.b.state.Open? <==> w.b.openedAt.Some?)
    && |w.b.activeProbes| <= cfg.halfOpenProbeLimit
    && (w.b.state.Closed? ==>
          w.b.consecutiveFailures == TrailingFailures(w.log, w.b.generation) < cfg.failureThreshold)
    && (w.b.state.HalfOpen? ==>
          && w.b.halfOpenSuccesses == Successes(w.log, w.b.generation) < cfg.halfOpenProbeLimit
          && w.b.halfOpenSuccesses + |CurrentProbes(w.b)| <= cfg.halfOpenProbeLimit
          && Settlement(w.b.generation, Counted) !in w.log)
    && (w.b.state.Open? ==> forall s | s in w.log :: s.generation < w.b.generation)
  }

  ghost predicate Inv(cfg: Config, w: World) {
    TicketsMatch(w) && CallsFit(w) && CountersFit(cfg, w)
  }

  lemma {:induction false} FreshGeneration(log: seq<Settlement>, g: nat)
    requires forall s | s in log :: s.generation < g
    ensures TrailingFailures(log, g) == 0 && Successes(log, g) == 0
    decreases |log|
  {
    if log != [] {
      assert log[|log| - 1] in log;
      FreshGeneration(log[..|log| - 1], g);
    }
  }

  lemma LogAppend(log: seq<Settlement>, s: Settlement, g: nat)
    ensures TrailingFailures(log + [s], g) ==
              if s.generation != g || s.ending.Neutral? || s.ending.Unclassified? then TrailingFailures(log, g)
              else if s.ending.Success? then 0 else TrailingFailures(log, g) + 1
    ensures Successes(log + [s], g) == Successes(log, g) + (if s == Settlement(g, Success) then 1 else 0)
  {
    assert (log + [s])[..|log|] == log;
  }

  lemma RefreshKeepsInv(cfg: Config, w: World, now: real)
    requires cfg.Valid() && Inv(cfg, w)
    ensures Inv(cfg, w.(b := Refresh(cfg, w.b, now)))
  {
    var b := Refresh(cfg, w.b, now);
    if b != w.b {
      FreshGeneration(w.log, b.generation);
      assert CurrentProbes(b) == {};
    }
  }

  /** An admission attempt on a breaker whose clock has already been consulted. */
  function Entered(cfg: Config, w: World): World {
    var (b, admission) := Admit(cfg, w.b);
    if admission.Admitted? then
      World(b, w.live[w.nextCall := Call(admission.generation, admission.ticket)], w.nextCall + 1, w.log)
    else w.(b := b)
  }

  lemma EnterKeepsTickets(cfg: Config, w: World)
    requires Inv(cfg, w)
    ensures TicketsMatch(Entered(cfg, w)) && CallsFit(Entered(cfg, w))
  {
    hide CountersFit, CurrentProbes;
  }

  lemma SameProbes(b: Breaker, c: Breaker)
    requires b.activeProbes == c.activeProbes && b.generation == c.generation
    ensures CurrentProbes(b) == CurrentProbes(c)
  {
  }

  lemma EnterKeepsCounters(cfg: Config, w: World)
    requires Inv(cfg, w)
    ensures CountersFit(cfg, Entered(cfg, w))
  {
    hide CallsFit, TrailingFailures, Successes;
    var t := Ticket(w.b.nextSerial, w.b.generation);
    assert t !in w.b.activeProbes;
    hide TicketsMatch;
    var b := w.b.(activeProbes := w.b.activeProbes + {t});
    assert CurrentProbes(b) == CurrentProbes(w.b) + {t};
    assert |CurrentProbes(b)| == |CurrentProbes(w.b)| + 1;
    assert |b.activeProbes| == |w.b.activeProbes| + 1;
    hide CurrentProbes;
    var after := Entered(cfg, w).b;
    if after.activeProbes == b.activeProbes {
      SameProbes(b, after);
    } else {
      SameProbes(w.b, after);
    }
  }

  lemma ArriveKeepsInv(cfg: Config, w: World, now: real)
    requires cfg.Valid() && Inv(cfg, w)
    ensures Inv(cfg, Step(cfg, w, Arrive(now)))
  {
    hide Refresh, Admit, TicketsMatch, CallsFit, CountersFit;
    var w1 := w.(b := Refresh(cfg, w.b, now));
    RefreshKeepsInv(cfg, w, now);
    EnterKeepsTickets(cfg, w1);
    EnterKeepsCounters(cfg, w1);
    assert Step(cfg, w, Arrive(now)) == Entered(cfg, w1);
  }

  /** The call that settles: its generation, ticket and what is left of the others. */
  lemma FinishKeepsTickets(cfg: Config, w: World, call: nat, ending: Ending, now: real)
    requires cfg.Valid() && Inv(cfg, w) && call in w.live
    ensures TicketsMatch(Step(cfg, w, Finish(call, ending, now)))
  {
    var c := w.live[call];
    var w' := Step(cfg, w, Finish(call, ending, now));
    assert w'.b.activeProbes == if c.ticket.Some? then w.b.activeProbes - {c.ticket.value} else w.b.activeProbes;
    assert w'.b.generation >= w.b.generation && w'.b.nextSerial == w.b.nextSerial;
  }

  lemma FinishKeepsCalls(cfg: Config, w: World, call: nat, ending: Ending, now: real)
    requires cfg.Valid() && Inv(cfg, w) && call in w.live
    ensures CallsFit(Step(cfg, w, Finish(call, ending, now)))
  {
    var w' := Step(cfg, w, Finish(call, ending, now));
    assert w'.b.generation == w.b.generation ==> w'.b.state == w.b.state;
  }

  lemma FinishKeepsCounters(cfg: Config, w: World, call: nat, ending: Ending, now: real)
    requires cfg.Valid() && Inv(cfg, w) && call in w.live
    ensures CountersFit(cfg, Step(cfg, w, Finish(call, ending, now)))
  {
    var c := w.live[call];
    var w' := Step(cfg, w, Finish(call, ending, now));
    var s := Settlement(c.generation, ending);
    assert w'.log == w.log + [s];
    forall x | x in w'.log ensures x in w.log || x == s { }
    LogAppend(w.log, s, w.b.generation);
    if w'.b.generation == w.b.generation {
      ProbesShrink(w, c, w'.b);
    } else {
      FreshGeneration(w'.log, w'.b.generation);
      assert |w'.b.activeProbes| <= |w.b.activeProbes|;
    }
  }

  lemma ProbesShrink(w: World, c: Call, b: Breaker)
    requires b.generation == w.b.generation && b.activeProbes == Retire(w.b, c.ticket).activeProbes
    requires c.ticket.Some? ==> c.ticket.value in w.b.activeProbes && c.ticket.value.generation == c.generation
    ensures |b.activeProbes| <= |w.b.activeProbes|
    ensures |CurrentProbes(b)| == |CurrentProbes(w.b)| -
              (if c.ticket.Some? && c.generation == b.generation then 1 else 0)
  {
    if c.ticket.Some? {
      var t := c.ticket.value;
      assert CurrentProbes(b) == CurrentProbes(w.b) - {t};
    } else {
      assert CurrentProbes(b) == CurrentProbes(w.b);
    }
  }

  lemma StepKeepsInv(cfg: Config, w: World, ev: Event)
    requires cfg.Valid() && Inv(cfg, w) && Enabled(w, ev)
    ensures Inv(cfg, Step(cfg, w, ev))
  {
    match ev
    case Arrive(now) => ArriveKeepsInv(cfg, w, now);
    case Look(now) => RefreshKeepsInv(cfg, w, now);
    case Finish(call, ending, now) =>
      FinishKeepsTickets(cfg, w, call, ending, now);
      FinishKeepsCalls(cfg, w, call, ending, now);
      FinishKeepsCounters(cfg, w, call, ending, now);
  }

  lemma {:induction false} RunInv(cfg: Config, trace: seq<World>, events: seq<Event>, i: nat)
    requires cfg.Valid() && IsRun(cfg, trace, events) && i < |trace|
    ensures Inv(cfg, trace[i])
  {
    hide Step;
    if i == 0 {
      assert CurrentProbes(INITIAL) == {};
    } else {
      RunInv(cfg, trace, events, i - 1);
      assert trace[i - 1 + 1] == Step(cfg, trace[i - 1], events[i - 1]);
      StepKeepsInv(cfg, trace[i - 1], events[i - 1]);
    }
  }

  lemma RunStep(cfg: Config, trace: seq<World>, events: seq<Event>, i: nat)
    requires cfg.Valid() && IsRun(cfg, trace, events) && i < |events|
    ensures Inv(cfg, trace[i]) && Enabled(trace[i], events[i])
    ensures trace[i + 1] == Step(cfg, trace[i], events[i]) && Inv(cfg, trace[i + 1])
  {
    hide Step, Inv, Enabled;
    RunInv(cfg, trace, events, i);
    RunInv(cfg, trace, events, i + 1);
  }

  /** Whenever half-open: spent and outstanding probes of this cycle, and outstanding probes of all cycles,
      stay within the limit. */
  lemma ProbeBudget(cfg: Config, trace: seq<World>, events: seq<Event>, i: nat)
    requires cfg.Valid() && IsRun(cfg, trace, events) && i < |trace|
    ensures var b := trace[i].b;
            && |b.activeProbes| <= cfg.halfOpenProbeLimit
            && (b.state.HalfOpen? ==> b.halfOpenSuccesses + |CurrentProbes(b)| <= cfg.halfOpenProbeLimit)
    ensures trace[i].b.activeProbes ==
              set id | id in trace[i].live && trace[i].live[id].ticket.Some? :: trace[i].live[id].ticket.value
  {
    RunInv(cfg, trace, events, i);
    ProbesAreLive(cfg, trace, events, i);
  }

  /** Every ticket in the set belongs to a call that has not settled, so a slot is never leaked. */
  ghost predicate ProbesLive(w: World) {
    forall t | t in w.b.activeProbes :: exists id :: id in w.live && w.live[id].ticket == Some(t)
  }

  lemma StepKeepsProbesLive(cfg: Config, w: World, ev: Event)
    requires Enabled(w, ev) && TicketsMatch(w) && ProbesLive(w)
    ensures ProbesLive(Step(cfg, w, ev))
  {
    var w' := Step(cfg, w, ev);
    forall t | t in w'.b.activeProbes
      ensures exists id :: id in w'.live && w'.live[id].ticket == Some(t)
    {
      if t in w.b.activeProbes {
        var id :| id in w.live && w.live[id].ticket == Some(t);
        assert id in w'.live && w'.live[id].ticket == Some(t);
      } else {
        assert w.nextCall in w'.live && w'.live[w.nextCall].ticket == Some(t);
      }
    }
  }

  lemma {:induction false} ProbesAreLive(cfg: Config, trace: seq<World>, events: seq<Event>, i: nat)
    requires cfg.Valid() && IsRun(cfg, trace, events) && i < |trace|
    ensures ProbesLive(trace[i])
  {
    hide Step, Enabled, TicketsMatch, CallsFit, CountersFit, ProbesLive;
    if i == 0 {
      StartProbesLive();
    } else {
      ProbesAreLive(cfg, trace, events, i - 1);
      RunStep(cfg, trace, events, i - 1);
      StepKeepsProbesLive(cfg, trace[i - 1], events[i - 1]);
    }
  }

  lemma StartProbesLive()
    ensures ProbesLive(START)
  {
  }

  /** The breaker closes on exactly the success that makes `halfOpenProbeLimit` successes in this cycle,
      and then no other probe of the cycle is in flight and none of them failed. */
  lemma ClosesExactly(cfg: Config, trace: seq<World>, events: seq<Event>, i: nat)
    requires cfg.Valid() && IsRun(cfg, trace, events) && i < |events| && trace[i].b.state.HalfOpen?
    ensures var (w, w', g) := (trace[i], trace[i + 1], trace[i].b.generation);
            && (w'.b.state.Closed? <==> Successes(w'.log, g) == cfg.halfOpenProbeLimit)
            && (w'.b.state.Closed? ==>
                  && Settlement(g, Counted) !in w'.log
                  && forall id | id in w'.live :: w'.live[id].generation != g)
  {
    var w, w', g, ev := trace[i], trace[i + 1], trace[i].b.generation, events[i];
    RunInv(cfg, trace, events, i);
    if ev.Finish? {
      LogAppend(w.log, Settlement(w.live[ev.call].generation, ev.ending), g);
      if w'.b.state.Closed? {
        LastProbe(cfg, w, ev.call);
      }
    }
  }

  lemma LastProbe(cfg: Config, w: World, call: nat)
    requires Inv(cfg, w) && call in w.live && w.live[call].generation == w.b.generation && w.b.state.HalfOpen?
    requires w.b.halfOpenSuccesses == cfg.halfOpenProbeLimit - 1
    ensures forall id | id in w.live && id != call :: w.live[id].generation != w.b.generation
  {
    forall id | id in w.live && id != call && w.live[id].generation == w.b.generation
      ensures false
    {
      var t, u := w.live[call].ticket.value, w.live[id].ticket.value;
      assert t in CurrentProbes(w.b) && u in CurrentProbes(w.b) && t != u;
      TwoMembers(CurrentProbes(w.b), t, u);
    }
  }

  lemma TwoMembers(s: set<Ticket>, t: Ticket, u: Ticket)
    requires t in s && u in s && t != u
    ensures |s| >= 2
  {
    assert s == {t, u} + (s - {t, u});
  }

  /** A result from an earlier cycle changes one lifetime counter and frees its own slot: nothing else. */
  lemma StaleIsInert(cfg: Config, w: World, call: nat, ending: Ending, now: real)
    requires call in w.live && w.live[call].generation != w.b.generation
    ensures var b' := Step(cfg, w, Finish(call, ending, now)).b;
            b' == CountEnding(w.b, ending).(activeProbes := b'.activeProbes) &&
            b'.activeProbes ==
              w.b.activeProbes - (if w.live[call].ticket.Some? then {w.live[call].ticket.value} else {})
  {
  }

  /** From CLOSED, one step opens the breaker exactly when the last `failureThreshold` decisive settlements
      of the generation were all counted failures. */
  lemma OpensExactly(cfg: Config, trace: seq<World>, events: seq<Event>, i: nat)
    requires cfg.Valid() && IsRun(cfg, trace, events) && i < |events| && trace[i].b.state.Closed?
    ensures trace[i + 1].b.state.Open? <==>
              LastAllCounted(Decisive(trace[i + 1].log, trace[i].b.generation), cfg.failureThreshold)
    ensures !trace[i + 1].b.state.HalfOpen?
  {
    hide Step, Inv, Enabled, LastAllCounted, Decisive, TrailingFailures;
    RunStep(cfg, trace, events, i);
    OpensOnThreshold(cfg, trace[i], events[i]);
    TrailingIsLastCounted(trace[i + 1].log, trace[i].b.generation, cfg.failureThreshold);
  }

  lemma OpensOnThreshold(cfg: Config, w: World, ev: Event)
    requires Inv(cfg, w) && Enabled(w, ev) && w.b.state.Closed?
    ensures var w' := Step(cfg, w, ev);
            && (w'.b.state.Open? <==> TrailingFailures(w'.log, w.b.generation) >= cfg.failureThreshold)
            && !w'.b.state.HalfOpen?
  {
    hide TrailingFailures, Successes, TicketsMatch;
    if ev.Finish? {
      LogAppend(w.log, Settlement(w.live[ev.call].generation, ev.ending), w.b.generation);
    }
  }

  ghost predicate NoReadingCools(cfg: Config, openedAt: real, events: seq<Event>, i: nat, j: nat)
    requires i <= j <= |events|
  {
    forall k | i <= k < j && !events[k].Finish? :: events[k].now - openedAt < cfg.cooldownMs as real
  }

  /** Once open at `t`, no operation is invoked until some reading is at least `cooldownMs` after `t`,
      whatever settles in the meantime and however the clock jumps. */
  lemma {:induction false} CooldownBlocks(cfg: Config, trace: seq<World>, events: seq<Event>, i: nat, j: nat)
    requires cfg.Valid() && IsRun(cfg, trace, events) && i <= j < |trace|
    requires trace[i].b.state.Open? && trace[i].b.openedAt.Some?
    requires NoReadingCools(cfg, trace[i].b.openedAt.value, events, i, j)
    ensures trace[j].b.state.Open? && trace[j].b.openedAt == trace[i].b.openedAt
    ensures trace[j].nextCall == trace[i].nextCall && trace[j].b.generation == trace[i].b.generation
    decreases j
  {
    if i < j {
      hide IsRun, Config.Valid;
      CooldownBlocks(cfg, trace, events, i, j - 1);
      RunStaysOpen(cfg, trace, events, j - 1);
    }
  }

  lemma RunStaysOpen(cfg: Config, trace: seq<World>, events: seq<Event>, k: nat)
    requires cfg.Valid() && IsRun(cfg, trace, events) && k < |events|
    requires trace[k].b.state.Open? && trace[k].b.openedAt.Some?
    requires !events[k].Finish? ==> events[k].now - trace[k].b.openedAt.value < cfg.cooldownMs as real
    ensures trace[k + 1].b.state.Open? && trace[k + 1].b.openedAt == trace[k].b.openedAt
    ensures trace[k + 1].nextCall == trace[k].nextCall && trace[k + 1].b.generation == trace[k].b.generation
  {
    hide Step, Inv, Enabled;
    RunStep(cfg, trace, events, k);
    StaysOpen(cfg, trace[k], events[k]);
  }

  lemma StaysOpen(cfg: Config, w: World, ev: Event)
    requires Inv(cfg, w) && Enabled(w, ev) && w.b.state.Open? && w.b.openedAt.Some?
    requires !ev.Finish? ==> ev.now - w.b.openedAt.value < cfg.cooldownMs as real
    ensures var w' := Step(cfg, w, ev);
            w'.b.state.Open? && w'.b.openedAt == w.b.openedAt && w'.nextCall == w.nextCall &&
            w'.b.generation == w.b.generation
  {
  }

  // --- the answers, in clock readings and numbers of calls ---

  /** An open breaker stays open, admitting nothing, on exactly the readings less than `cooldownMs` after its anchor;
      any later reading starts a half-open cycle of the next generation. */
  lemma OpenExactlyUntil(cfg: Config, trace: seq<World>, events: seq<Event>, i: nat)
    requires cfg.Valid() && IsRun(cfg, trace, events) && i < |events|
    requires trace[i].b.state.Open? && !events[i].Finish?
    ensures trace[i].b.openedAt.Some?
    ensures var (b, b') := (trace[i].b, trace[i + 1].b);
            if events[i].now - b.openedAt.value < cfg.cooldownMs as real then
              b'.state == Open && b'.openedAt == b.openedAt && b'.generation == b.generation &&
              trace[i + 1].live == trace[i].live && trace[i + 1].nextCall == trace[i].nextCall
            else
              b'.state == HalfOpen && b'.openedAt == None && b'.generation == b.generation + 1 &&
              b'.halfOpenSuccesses == 0 && b'.consecutiveFailures == 0
  {
    hide Inv, Enabled;
    RunStep(cfg, trace, events, i);
    OpenHasAnchor(cfg, trace[i]);
  }

  lemma OpenHasAnchor(cfg: Config, w: World)
    requires Inv(cfg, w) && w.b.state.Open?
    ensures w.b.openedAt.Some?
  {
  }

  /** The anchor is the reading of the settlement that opened the breaker. */
  lemma {:induction false} AnchorIsTheOpening(cfg: Config, trace: seq<World>, events: seq<Event>, j: nat)
    returns (i: nat)
    requires cfg.Valid() && IsRun(cfg, trace, events) && j < |trace| && trace[j].b.state.Open?
    ensures i < j && !trace[i].b.state.Open? && events[i].Finish? && trace[j].b.openedAt == Some(events[i].now)
    ensures forall k | i < k <= j :: trace[k].b.state.Open?
  {
    RunStep(cfg, trace, events, j - 1);
    if trace[j - 1].b.state.Open? {
      i := AnchorIsTheOpening(cfg, trace, events, j - 1);
      KeepsAnchor(cfg, trace[j - 1], events[j - 1]);
    } else {
      i := j - 1;
      OpensByFinish(cfg, trace[i], events[i]);
    }
  }

  lemma KeepsAnchor(cfg: Config, w: World, ev: Event)
    requires Inv(cfg, w) && Enabled(w, ev) && w.b.state.Open? && Step(cfg, w, ev).b.state.Open?
    ensures Step(cfg, w, ev).b.openedAt == w.b.openedAt
  {
  }

  lemma OpensByFinish(cfg: Config, w: World, ev: Event)
    requires Inv(cfg, w) && Enabled(w, ev) && !w.b.state.Open? && Step(cfg, w, ev).b.state.Open?
    ensures ev.Finish? && Step(cfg, w, ev).b.openedAt == Some(ev.now)
  {
  }

  /** From HALF_OPEN, exactly a counted failure of the current cycle opens the breaker again. */
  lemma ReopensExactly(cfg: Config, trace: seq<World>, events: seq<Event>, i: nat)
    requires cfg.Valid() && IsRun(cfg, trace, events) && i < |events| && trace[i].b.state.HalfOpen?
    ensures trace[i + 1].b.state.Open? <==>
              && events[i].Finish? && events[i].ending == Counted && events[i].call in trace[i].live
              && trace[i].live[events[i].call].generation == trace[i].b.generation
  {
    hide Inv;
    RunStep(cfg, trace, events, i);
  }

  /** How many probes of the current cycle are unsettled. */
  function CurrentCount(b: Breaker): nat {
    |set t | t in b.activeProbes && t.generation == b.generation|
  }

  /**
   * A closed breaker admits every call. An open one admits a call on a reading at least `cooldownMs` after the anchor,
   * unless late probes of earlier cycles hold every slot, and refuses the others as open. A half-open one admits while
   * slots and this cycle's share last.
   */
  lemma AdmissionAnswers(cfg: Config, trace: seq<World>, events: seq<Event>, i: nat)
    requires cfg.Valid() && IsRun(cfg, trace, events) && i < |events| && events[i].Arrive?
    ensures trace[i].b.state.Open? ==> trace[i].b.openedAt.Some?
    ensures var (b, limit, answer) := (trace[i].b, cfg.halfOpenProbeLimit, Execute(cfg, trace[i].b, events[i].now).1);
            var early := b.state.Open? && events[i].now - b.openedAt.value < cfg.cooldownMs as real;
            && (b.state.Closed? ==> answer == Admitted(b.generation, None))
            && (early ==> answer == Rejected(RejectedOpen))
            && (b.state.Open? && !early ==>
                  answer == if |b.activeProbes| < limit
                            then Admitted(b.generation + 1, Some(Ticket(b.nextSerial, b.generation + 1)))
                            else Rejected(RejectedHalfOpenLimit))
            && (b.state.HalfOpen? ==>
                  answer == if |b.activeProbes| < limit && b.halfOpenSuccesses + CurrentCount(b) < limit
                            then Admitted(b.generation, Some(Ticket(b.nextSerial, b.generation)))
                            else Rejected(RejectedHalfOpenLimit))
    ensures var (w, w', answer) := (trace[i], trace[i + 1], Execute(cfg, trace[i].b, events[i].now).1);
            if answer.Admitted? then
              w'.nextCall == w.nextCall + 1 && w'.live == w.live[w.nextCall := Call(answer.generation, answer.ticket)]
            else
              w'.nextCall == w.nextCall && w'.live == w.live
  {
    hide TicketsMatch, CallsFit, CountersFit;
    RunStep(cfg, trace, events, i);
    var b := trace[i].b;
    if b.state.Open? {
      OpenHasAnchor(cfg, trace[i]);
      NoCurrentProbes(cfg, trace[i]);
      assert CurrentProbes(b.(state := HalfOpen, generation := b.generation + 1, openedAt := None,
                              consecutiveFailures := 0, halfOpenSuccesses := 0)) == {};
    }
    assert |CurrentProbes(b)| == CurrentCount(b);
  }

  lemma NoCurrentProbes(cfg: Config, w: World)
    requires Inv(cfg, w)
    ensures forall t | t in w.b.activeProbes :: t.generation < w.b.generation + 1
  {
  }

  /** The failures a closed breaker reports are those since its last success, and at opening exactly the threshold. */
  lemma ReportedFailures(cfg: Config, trace: seq<World>, events: seq<Event>, i: nat, n: nat)
    requires cfg.Valid() && IsRun(cfg, trace, events) && i < |events| && trace[i].b.state.Closed?
    ensures n <= trace[i].b.consecutiveFailures <==> LastAllCounted(Decisive(trace[i].log, trace[i].b.generation), n)
    ensures trace[i + 1].b.state.Open? ==> trace[i + 1].b.consecutiveFailures == cfg.failureThreshold
  {
    hide LastAllCounted, Decisive, TrailingFailures, Step, Inv, Enabled;
    RunStep(cfg, trace, events, i);
    TrailingIsLastCounted(trace[i].log, trace[i].b.generation, n);
    FailuresCounted(cfg, trace[i], events[i]);
  }

  lemma FailuresCounted(cfg: Config, w: World, ev: Event)
    requires Inv(cfg, w) && Enabled(w, ev) && w.b.state.Closed?
    ensures w.b.consecutiveFailures == TrailingFailures(w.log, w.b.generation)
    ensures Step(cfg, w, ev).b.state.Open? ==> Step(cfg, w, ev).b.consecutiveFailures == cfg.failureThreshold
  {
    hide TrailingFailures, TicketsMatch, CallsFit;
  }

  lemma StepClearsSuccesses(cfg: Config, w: World, ev: Event)
    requires Enabled(w, ev) && (!w.b.state.HalfOpen? ==> w.b.halfOpenSuccesses == 0)
    ensures !Step(cfg, w, ev).b.state.HalfOpen? ==> Step(cfg, w, ev).b.halfOpenSuccesses == 0
  {
  }

  /** The half-open successes reported are those of this cycle, and none outside one. */
  lemma {:induction false} ReportedSuccesses(cfg: Config, trace: seq<World>, events: seq<Event>, i: nat)
    requires cfg.Valid() && IsRun(cfg, trace, events) && i < |trace|
    ensures trace[i].b.halfOpenSuccesses ==
              if trace[i].b.state.HalfOpen? then Successes(trace[i].log, trace[i].b.generation) else 0
  {
    RunInv(cfg, trace, events, i);
    if i > 0 {
      hide Step, TicketsMatch, CallsFit, TrailingFailures, Successes;
      ReportedSuccesses(cfg, trace, events, i - 1);
      RunStep(cfg, trace, events, i - 1);
      StepClearsSuccesses(cfg, trace[i - 1], events[i - 1]);
    }
  }

  // --- the lifetime counters ---

  function Ended(log: seq<Settlement>, e: Ending): nat {
    if log == [] then 0 else Ended(log[..|log| - 1], e) + if log[|log| - 1].ending == e then 1 else 0
  }

  function Arrivals(events: seq<Event>): nat {
    if events == [] then 0 else Arrivals(events[..|events| - 1]) + if events[|events| - 1].Arrive? then 1 else 0
  }

  ghost predicate Tallied(w: World, events: seq<Event>) {
    && w.b.successfulCalls == Ended(w.log, Success)
    && w.b.countedFailures == Ended(w.log, Counted)
    && w.b.nonCountedErrors == Ended(w.log, Neutral)
    && w.b.rejectedCalls + w.nextCall == Arrivals(events)
    && w.nextCall == |w.live| + |w.log|
  }

  lemma EndedAppend(log: seq<Settlement>, s: Settlement, e: Ending)
    ensures Ended(log + [s], e) == Ended(log, e) + if s.ending == e then 1 else 0
  {
    assert (log + [s])[..|log|] == log;
  }

  lemma LiveInsert(live: map<nat, Call>, id: nat, c: Call)
    requires id !in live
    ensures |live[id := c]| == |live| + 1
  {
    assert live[id := c].Keys == live.Keys + {id};
    assert |live[id := c].Keys| == |live[id := c]| && |live.Keys| == |live|;
  }

  lemma LiveRemove(live: map<nat, Call>, id: nat)
    requires id in live
    ensures |live - {id}| == |live| - 1
  {
    assert live.Keys == (live - {id}).Keys + {id};
    assert |(live - {id}).Keys| == |live - {id}| && |live.Keys| == |live|;
  }

  /** What an arrival does to the numbers. */
  lemma ArriveCounts(cfg: Config, w: World, now: real)
    requires TicketsMatch(w)
    ensures var w' := Step(cfg, w, Arrive(now));
            && w'.b.successfulCalls == w.b.successfulCalls && w'.b.countedFailures == w.b.countedFailures
            && w'.b.nonCountedErrors == w.b.nonCountedErrors && w'.log == w.log
            && w'.b.rejectedCalls + w'.nextCall == w.b.rejectedCalls + w.nextCall + 1
            && |w'.live| - w'.nextCall == |w.live| - w.nextCall
  {
    var admission := Execute(cfg, w.b, now).1;
    if admission.Admitted? { LiveInsert(w.live, w.nextCall, Call(admission.generation, admission.ticket)); }
    hide TicketsMatch;
  }

  lemma FinishCounts(cfg: Config, w: World, call: nat, ending: Ending, now: real)
    requires call in w.live
    ensures var w' := Step(cfg, w, Finish(call, ending, now));
            && w'.b.successfulCalls == w.b.successfulCalls + (if ending == Success then 1 else 0)
            && w'.b.countedFailures == w.b.countedFailures + (if ending == Counted then 1 else 0)
            && w'.b.nonCountedErrors == w.b.nonCountedErrors + (if ending == Neutral then 1 else 0)
            && w'.b.rejectedCalls == w.b.rejectedCalls && w'.nextCall == w.nextCall
            && w'.log == w.log + [Settlement(w.live[call].generation, ending)] && |w'.live| == |w.live| - 1
  {
    LiveRemove(w.live, call);
  }

  lemma StepCounts(cfg: Config, w: World, ev: Event, events: seq<Event>)
    requires Enabled(w, ev) && TicketsMatch(w) && Tallied(w, events)
    ensures Tallied(Step(cfg, w, ev), events + [ev])
  {
    hide Ended, TicketsMatch;
    assert (events + [ev])[..|events|] == events;
    match ev
    case Finish(call, ending, now) =>
      var s := Settlement(w.live[call].generation, ending);
      FinishCounts(cfg, w, call, ending, now);
      hide Step;
      EndedAppend(w.log, s, Success);
      EndedAppend(w.log, s, Counted);
      EndedAppend(w.log, s, Neutral);
    case Arrive(now) =>
      ArriveCounts(cfg, w, now);
      hide Step;
    case Look(_) =>
  }

  lemma {:induction false} RunCounts(cfg: Config, trace: seq<World>, events: seq<Event>, i: nat)
    requires cfg.Valid() && IsRun(cfg, trace, events) && i < |trace|
    ensures Tallied(trace[i], events[..i])
  {
    if i > 0 {
      hide Step, CallsFit, CountersFit, TicketsMatch, Tallied;
      RunCounts(cfg, trace, events, i - 1);
      RunStep(cfg, trace, events, i - 1);
      StepCounts(cfg, trace[i - 1], events[i - 1], events[..i - 1]);
      assert events[..i - 1] + [events[i - 1]] == events[..i];
    }
  }

  /**
   * Over every run: each counter is the number of calls that ended that way, every arrival was refused or admitted, and
   * every admitted call is unsettled or in the log once.
   */
  lemma LifetimeCounters(cfg: Config, trace: seq<World>, events: seq<Event>, i: nat)
    requires cfg.Valid() && IsRun(cfg, trace, events) && i < |trace|
    ensures trace[i].b.successfulCalls == Ended(trace[i].log, Success)
    ensures trace[i].b.countedFailures == Ended(trace[i].log, Counted)
    ensures trace[i].b.nonCountedErrors == Ended(trace[i].log, Neutral)
    ensures trace[i].b.rejectedCalls + trace[i].nextCall == Arrivals(events[..i])
    ensures trace[i].nextCall == |trace[i].live| + |trace[i].log|
  {
    hide IsRun, Ended, Arrivals;
    RunCounts(cfg, trace, events, i);
  }

  /** Half-open with nothing outstanding, the next call is let through. */
  lemma AdmitsWhenIdle(cfg: Config, trace: seq<World>, events: seq<Event>, i: nat, now: real)
    requires cfg.Valid() && IsRun(cfg, trace, events) && i < |trace|
    requires trace[i].b.state.HalfOpen? && trace[i].b.activeProbes == {}
    ensures Execute(cfg, trace[i].b, now).1.Admitted?
  {
    RunInv(cfg, trace, events, i);
    assert CurrentProbes(trace[i].b) == {};
  }

  /** One probe, if it is admitted, succeeding. */
  function AfterRound(cfg: Config, w: World, now: real): World {
    var w1 := Step(cfg, w, Arrive(now));
    if w.nextCall in w1.live then Step(cfg, w1, Finish(w.nextCall, Success, now)) else w1
  }

  /** Up to `k` probes, one after another, each admitted and successful. */
  function Rounds(cfg: Config, w: World, k: nat, now: real): World
    decreases k
  {
    if k == 0 then w
    else Rounds(cfg, AfterRound(cfg, w, now), k - 1, now)
  }

  lemma OneRound(cfg: Config, w: World, now: real)
    requires cfg.Valid() && Inv(cfg, w) && w.b.state.HalfOpen? && w.b.activeProbes == {}
    ensures var w1 := Step(cfg, w, Arrive(now));
            w.nextCall in w1.live &&
            var w2 := Step(cfg, w1, Finish(w.nextCall, Success, now));
            Inv(cfg, w2) && AfterRound(cfg, w, now) == w2 &&
            if w.b.halfOpenSuccesses + 1 < cfg.halfOpenProbeLimit then
              w2.b.state.HalfOpen? && w2.b.activeProbes == {} && w2.b.halfOpenSuccesses == w.b.halfOpenSuccesses + 1
            else w2.b.state.Closed?
  {
    assert CurrentProbes(w.b) == {};
    StepKeepsInv(cfg, w, Arrive(now));
    var w1 := Step(cfg, w, Arrive(now));
    StepKeepsInv(cfg, w1, Finish(w.nextCall, Success, now));
    hide TicketsMatch, CallsFit, CountersFit;
  }

  lemma {:induction false} RecoversFrom(cfg: Config, w: World, now: real)
    requires cfg.Valid() && Inv(cfg, w) && w.b.state.HalfOpen? && w.b.activeProbes == {}
    ensures w.b.halfOpenSuccesses < cfg.halfOpenProbeLimit
    ensures Rounds(cfg, w, cfg.halfOpenProbeLimit - w.b.halfOpenSuccesses, now).b.state.Closed?
    decreases cfg.halfOpenProbeLimit - w.b.halfOpenSuccesses
  {
    hide Inv, Step;
    SuccessesBelow(cfg, w);
    OneRound(cfg, w, now);
    if w.b.halfOpenSuccesses + 1 < cfg.halfOpenProbeLimit {
      RecoversFrom(cfg, AfterRound(cfg, w, now), now);
    } else {
      assert Rounds(cfg, AfterRound(cfg, w, now), 0, now) == AfterRound(cfg, w, now);
    }
  }

  /** Recovery: at any point of any run, half-open with nothing outstanding, exactly the missing successes
      close the breaker. */
  lemma Recovers(cfg: Config, trace: seq<World>, events: seq<Event>, i: nat, now: real)
    requires cfg.Valid() && IsRun(cfg, trace, events) && i < |trace|
    requires trace[i].b.state.HalfOpen? && trace[i].b.activeProbes == {}
    ensures trace[i].b.halfOpenSuccesses < cfg.halfOpenProbeLimit
    ensures Rounds(cfg, trace[i], cfg.halfOpenProbeLimit - trace[i].b.halfOpenSuccesses, now).b.state.Closed?
  {
    hide Inv, Step;
    RunInv(cfg, trace, events, i);
    RecoversFrom(cfg, trace[i], now);
  }

  lemma SuccessesBelow(cfg: Config, w: World)
    requires Inv(cfg, w) && w.b.state.HalfOpen?
    ensures w.b.halfOpenSuccesses < cfg.halfOpenProbeLimit
  {
  }
}

module CircuitBreakers {
  import opened Wrappers
  import opened BreakerModel

  class CircuitBreaker {
    const config: Config
    var state: CircuitState
    var generation: nat
    var openedAt: Option<real>
    var consecutiveFailures: nat
    var halfOpenSuccesses: nat
    var activeProbes: set<Ticket>
    var nextSerial: nat
    var successfulCalls: nat
    var countedFailures: nat
    var nonCountedErrors: nat
    var rejectedCalls: nat

    function Value(): Breaker
      reads this
    {
      Breaker(state, generation, openedAt, consecutiveFailures, halfOpenSuccesses, activeProbes, nextSerial,
              successfulCalls, countedFailures, nonCountedErrors, rejectedCalls)
    }

    /** An open breaker has a cooldown anchor. */
    predicate Valid()
      reads this
    {
      config.Valid() && (state.Open? ==> openedAt.Some?)
    }

    constructor (config: Config)
      requires config.Valid()
      ensures Valid() && Value() == INITIAL && this.config == config
    {
      this.config := config;
      state, generation, openedAt := Closed, 0, None;
      consecutiveFailures, halfOpenSuccesses, activeProbes, nextSerial := 0, 0, {}, 0;
      successfulCalls, countedFailures, nonCountedErrors, rejectedCalls := 0, 0, 0, 0;
    }

    method Execute(now: real) returns (admission: Admission)
      requires Valid()
      modifies this
      ensures Valid() && (Value(), admission) == BreakerModel.Execute(config, old(Value()), now)
    {
      RefreshOpenState(now);
      if state.Open? {
        rejectedCalls := rejectedCalls + 1;
        return Rejected(RejectedOpen);
      }
      var ticket := None;
      if state.HalfOpen? {
        var currentProbeCount := CurrentGenerationProbeCount();
        if |activeProbes| >= config.halfOpenProbeLimit ||
           halfOpenSuccesses + currentProbeCount >= config.halfOpenProbeLimit {
          rejectedCalls := rejectedCalls + 1;
          return Rejected(RejectedHalfOpenLimit);
        }
        ticket := Some(Ticket(nextSerial, generation));
        nextSerial := nextSerial + 1;
        activeProbes := activeProbes + {ticket.value};
      }
      return Admitted(generation, ticket);
    }

    /** What runs, without interruption, when an admitted operation ends. */
    method Settle(admittedGeneration: nat, ticket: Option<Ticket>, ending: Ending, now: real)
      requires Valid()
      modifies this
      ensures Valid() && Value() == BreakerModel.Settle(config, old(Value()), admittedGeneration, ticket, ending, now)
    {
      hide BreakerModel.RecordSuccess, BreakerModel.RecordCountedFailure;
      match ending {
        case Success =>
          successfulCalls := successfulCalls + 1;
          RecordSuccess(admittedGeneration);
        case Counted =>
          countedFailures := countedFailures + 1;
          RecordCountedFailure(admittedGeneration, now);
        case Neutral =>
          nonCountedErrors := nonCountedErrors + 1;
        case Unclassified =>
      }
      if ticket.Some? {
        activeProbes := activeProbes - {ticket.value};
      }
    }

    method GetSnapshot(now: real) returns (b: Breaker)
      requires Valid()
      modifies this
      ensures Valid() && Value() == Refresh(config, old(Value()), now) == b
    {
      RefreshOpenState(now);
      b := Value();
    }

    method RecordSuccess(admittedGeneration: nat)
      requires Valid()
      modifies this
      ensures Valid() && Value() == BreakerModel.RecordSuccess(config, old(Value()), admittedGeneration)
    {
      if admittedGeneration != generation {
        return;
      }
      if state.Closed? {
        consecutiveFailures := 0;
        return;
      }
      if state.HalfOpen? {
        halfOpenSuccesses := halfOpenSuccesses + 1;
        if halfOpenSuccesses == config.halfOpenProbeLimit {
          TransitionToClosed();
        }
      }
    }

    method RecordCountedFailure(admittedGeneration: nat, now: real)
      requires Valid()
      modifies this
      ensures Valid() && Value() == BreakerModel.RecordCountedFailure(config, old(Value()), admittedGeneration, now)
    {
      if admittedGeneration != generation {
        return;
      }
      if state.HalfOpen? {
        TransitionToOpen(now);
        return;
      }
      if !state.Closed? {
        return;
      }
      var nextFailureCount := consecutiveFailures + 1;
      if nextFailureCount < config.failureThreshold {
        consecutiveFailures := nextFailureCount;
        return;
      }
      if admittedGeneration == generation && state.Closed? {
        consecutiveFailures := nextFailureCount;
        TransitionToOpen(now);
      }
    }

    method RefreshOpenState(now: real)
      requires Valid()
      modifies this
      ensures Valid() && Value() == Refresh(config, old(Value()), now)
    {
      if !state.Open? {
        return;
      }
      if CooledDown(config, openedAt.value, now) && state.Open? {
        state := HalfOpen;
        generation := generation + 1;
        openedAt := None;
        consecutiveFailures := 0;
        halfOpenSuccesses := 0;
      }
    }

    method TransitionToOpen(now: real)
      requires Valid()
      modifies this
      ensures Valid() && Value() == ToOpen(old(Value()), now)
    {
      state := Open;
      generation := generation + 1;
      openedAt := Some(now);
      halfOpenSuccesses := 0;
    }

    method TransitionToClosed()
      requires Valid()
      modifies this
      ensures Valid() && Value() == ToClosed(old(Value()))
    {
      state := Closed;
      generation := generation + 1;
      openedAt := None;
      consecutiveFailures := 0;
      halfOpenSuccesses := 0;
    }

    method CurrentGenerationProbeCount() returns (count: nat)
      ensures count == |CurrentProbes(Value())|
    {
      count := 0;
      var rest := activeProbes;
      ghost var seen: set<Ticket> := {};
      assert CurrentProbes(Value().(activeProbes := {})) == {};
      while rest != {}
        invariant rest <= activeProbes && seen == activeProbes - rest
        invariant count == |CurrentProbes(Value().(activeProbes := seen))|
        decreases rest
      {
        var ticket :| ticket in rest;
        ghost var before := CurrentProbes(Value().(activeProbes := seen));
        rest := rest - {ticket};
        seen := seen + {ticket};
        ghost var now := CurrentProbes(Value().(activeProbes := seen));
        if ticket.generation == generation {
          assert now == before + {ticket};
          count := count + 1;
        } else {
          assert now == before;
        }
      }
      assert seen == activeProbes;
    }
  }
}
