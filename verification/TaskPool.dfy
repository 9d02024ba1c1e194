/** The pool's shared variables and the atomic steps between two awaits. */
module TaskPoolModel {
  import opened Wrappers

  /** Terminal outcome of one task; `V` is whatever tasks produce or throw. */
  datatype TaskResult<V> = Fulfilled(value: V) | Rejected(reason: V) | Cancelled(reason: V) | TimedOut(timeoutMs: nat)

  /** A worker is at its loop head, waiting for a task's promise, or has returned. */
  datatype Worker = Ready | Busy(index: nat) | Gone

  datatype Options = Options(concurrency: nat, timeoutMs: Option<nat>) {
    predicate Valid() { concurrency > 0 }
  }

  datatype Pool<V> = Pool(
    n: nat, options: Options, nextIndex: nat, workers: seq<Worker>,
    active: set<nat>, timers: set<nat>, outcome: map<nat, TaskResult<V>>, results: map<nat, TaskResult<V>>,
    cancellation: Option<V>, returned: Option<seq<TaskResult<V>>>)

  datatype Event<V> =
    | Turn(worker: nat)
    | Settle(worker: nat, value: V, ok: bool)
    | Timeout(task: nat)
    | Abort(reason: V)
    | Finish

  function Min(a: nat, b: nat): nat { if a < b then a else b }

  /** Before the first step; a signal that is already aborted starts no worker. */
  function Start<V>(n: nat, options: Options, aborted: Option<V>): Pool<V> {
    Pool(n, options, 0, if aborted.Some? then [] else seq(Min(options.concurrency, n), _ => Ready),
         {}, {}, map[], map[], aborted, None)
  }

  function WriteOnce<V>(outcome: map<nat, TaskResult<V>>, i: nat, r: TaskResult<V>): map<nat, TaskResult<V>> {
    if i in outcome then outcome else outcome[i := r]
  }

  predicate Enabled<V>(p: Pool<V>, ev: Event<V>) {
    && p.returned.None?
    && match ev
       case Turn(w) => w < |p.workers| && p.workers[w].Ready?
       case Settle(w, _, _) => w < |p.workers| && p.workers[w].Busy?
       case Timeout(i) => i in p.timers && p.options.timeoutMs.Some?
       case Abort(_) => p.cancellation.None?
       case Finish => forall w | 0 <= w < |p.workers| :: p.workers[w].Gone?
  }

  function Settlement<V>(value: V, ok: bool): TaskResult<V> {
    if ok then Fulfilled(value) else Rejected(value)
  }

  /** Cancelling every running task that has no outcome yet. */
  function CancelAll<V>(outcome: map<nat, TaskResult<V>>, active: set<nat>, reason: V): map<nat, TaskResult<V>> {
    map i | i in outcome.Keys + active :: if i in outcome then outcome[i] else Cancelled(reason)
  }

  /** The holes of the result array, after cancellation, become cancelled. */
  function Filled<V>(p: Pool<V>): seq<Option<TaskResult<V>>> {
    seq(p.n, i => if i in p.results then Some(p.results[i])
                  else if p.cancellation.Some? then Some(Cancelled(p.cancellation.value)) else None)
  }

  predicate AllSome<V>(s: seq<Option<TaskResult<V>>>) {
    forall i | 0 <= i < |s| :: s[i].Some?
  }

  function Values<V>(s: seq<Option<TaskResult<V>>>): (r: seq<TaskResult<V>>)
    requires AllSome(s)
  {
    seq(|s|, i requires 0 <= i < |s| => s[i].value)
  }

  function Step<V>(p: Pool<V>, ev: Event<V>): Pool<V>
    requires Enabled(p, ev)
  {
    match ev
    case Turn(w) =>
      if p.cancellation.Some? || p.nextIndex >= p.n then p.(workers := p.workers[w := Gone])
      else
        var i := p.nextIndex;
        p.(nextIndex := i + 1, workers := p.workers[w := Busy(i)], active := p.active + {i},
           timers := if p.options.timeoutMs.Some? then p.timers + {i} else p.timers)
    case Settle(w, value, ok) =>
      var i := p.workers[w].index;
      var outcome := WriteOnce(p.outcome, i, Settlement(value, ok));
      p.(workers := p.workers[w := Ready], active := p.active - {i}, timers := p.timers - {i}, outcome := outcome,
         results := p.results[i := outcome[i]])
    case Timeout(i) =>
      p.(timers := p.timers - {i}, outcome := WriteOnce(p.outcome, i, TimedOut(p.options.timeoutMs.value)))
    case Abort(reason) =>
      p.(cancellation := Some(reason), outcome := CancelAll(p.outcome, p.active, reason), timers := p.timers - p.active)
    case Finish =>
      var slots := Filled(p);
      if AllSome(slots) then p.(returned := Some(Values(slots))) else p
  }
}

module TaskPoolRuns {
  import opened Wrappers
  import opened TaskPoolModel

  ghost predicate IsRun<V>(n: nat, options: Options, aborted: Option<V>, trace: seq<Pool<V>>, events: seq<Event<V>>) {
    && |trace| == |events| + 1 && trace[0] == Start(n, options, aborted)
    && forall k | 0 <= k < |events| :: Stepped(trace, events, k)
  }

  ghost predicate Stepped<V>(trace: seq<Pool<V>>, events: seq<Event<V>>, k: nat)
    requires k < |events| < |trace|
  {
    Enabled(trace[k], events[k]) && trace[k + 1] == Step(trace[k], events[k])
  }

  ghost function BusyTasks(workers: seq<Worker>): set<nat> {
    set w | 0 <= w < |workers| && workers[w].Busy? :: workers[w].index
  }

  ghost predicate DistinctTasks(workers: seq<Worker>) {
    forall v, w | 0 <= v < w < |workers| && workers[v].Busy? && workers[w].Busy? ::
      workers[v].index != workers[w].index
  }

  ghost predicate WorkersFit<V>(p: Pool<V>) {
    && p.options.Valid() && |p.workers| <= Min(p.options.concurrency, p.n)
    && p.active == BusyTasks(p.workers) && DistinctTasks(p.workers)
    && (p.cancellation.None? ==> |p.workers| == Min(p.options.concurrency, p.n))
    && (forall w | 0 <= w < |p.workers| && p.workers[w].Gone? :: p.cancellation.Some? || p.nextIndex >= p.n)
  }

  ghost predicate SlotsFit<V>(p: Pool<V>) {
    && p.nextIndex <= p.n
    && (forall i :: i in p.active || i in p.results <==> 0 <= i < p.nextIndex)
    && p.active !! p.results.Keys
    && p.timers <= p.active
    && (forall i | i in p.results :: i in p.outcome && p.results[i] == p.outcome[i])
    && (forall i | i in p.outcome :: i < p.nextIndex)
    && (p.cancellation.Some? ==> p.active <= p.outcome.Keys)
  }

  ghost predicate ReturnFits<V>(p: Pool<V>) {
    p.returned.Some? ==> AllSome(Filled(p)) && p.returned.value == Values(Filled(p)) && p.active == {}
  }

  ghost predicate Inv<V>(p: Pool<V>) {
    WorkersFit(p) && SlotsFit(p) && ReturnFits(p)
  }

  lemma BusyUpdate(workers: seq<Worker>, w: nat, x: Worker)
    requires w < |workers| && DistinctTasks(workers)
    requires x.Busy? ==> x.index !in BusyTasks(workers)
    ensures DistinctTasks(workers[w := x])
    ensures BusyTasks(workers[w := x]) ==
              BusyTasks(workers) - (if workers[w].Busy? then {workers[w].index} else {})
                                 + (if x.Busy? then {x.index} else {})
  {
    var ws := workers[w := x];
    forall i | i in BusyTasks(workers) && !(workers[w].Busy? && workers[w].index == i)
      ensures i in BusyTasks(ws)
    {
      var v :| 0 <= v < |workers| && workers[v].Busy? && workers[v].index == i;
      assert ws[v] == workers[v];
    }
    if x.Busy? { assert ws[w].index == x.index; }
    forall i | i in BusyTasks(ws)
      ensures i in BusyTasks(workers) || (x.Busy? && i == x.index)
      ensures workers[w].Busy? && workers[w].index == i ==> x.Busy? && i == x.index
    {
      var v :| 0 <= v < |ws| && ws[v].Busy? && ws[v].index == i;
      if v != w { assert workers[v].Busy? && workers[v].index == i; }
    }
  }

  lemma StepKeepsWorkers<V>(p: Pool<V>, ev: Event<V>)
    requires Inv(p) && Enabled(p, ev)
    ensures WorkersFit(Step(p, ev))
  {
    hide BusyTasks, DistinctTasks, Filled;
    match ev
    case Turn(w) =>
      BusyUpdate(p.workers, w, Gone);
      assert p.nextIndex !in p.active;
      BusyUpdate(p.workers, w, Busy(p.nextIndex));
    case Settle(w, value, ok) => BusyUpdate(p.workers, w, Ready);
    case _ =>
  }

  lemma StepKeepsSlots<V>(p: Pool<V>, ev: Event<V>)
    requires Inv(p) && Enabled(p, ev)
    ensures SlotsFit(Step(p, ev))
  {
    hide DistinctTasks, Filled;
    if ev.Settle? {
      assert p.workers[ev.worker].index in p.active;
    }
  }

  lemma StepKeepsReturn<V>(p: Pool<V>, ev: Event<V>)
    requires Inv(p) && Enabled(p, ev)
    ensures ReturnFits(Step(p, ev))
  {
    if ev.Finish? {
      assert BusyTasks(p.workers) == {};
      assert Filled(Step(p, ev)) == Filled(p);
    }
  }

  lemma StepKeepsInv<V>(p: Pool<V>, ev: Event<V>)
    requires Inv(p) && Enabled(p, ev)
    ensures Inv(Step(p, ev))
  {
    hide Step, WorkersFit, SlotsFit, ReturnFits;
    StepKeepsWorkers(p, ev);
    StepKeepsSlots(p, ev);
    StepKeepsReturn(p, ev);
  }

  lemma {:induction false} RunInv<V>(n: nat, options: Options, aborted: Option<V>, trace: seq<Pool<V>>,
                                     events: seq<Event<V>>, k: nat)
    requires options.Valid() && IsRun(n, options, aborted, trace, events) && k < |trace|
    ensures Inv(trace[k]) && trace[k].n == n && trace[k].options == options
  {
    hide Inv, Enabled;
    if k == 0 {
      StartInv(n, options, aborted);
    } else {
      RunInv(n, options, aborted, trace, events, k - 1);
      assert Stepped(trace, events, k - 1);
      StepKeepsInv(trace[k - 1], events[k - 1]);
    }
  }

  lemma StartInv<V>(n: nat, options: Options, aborted: Option<V>)
    requires options.Valid()
    ensures Inv(Start(n, options, aborted))
  {
    assert BusyTasks(Start(n, options, aborted).workers) == {};
  }

  lemma RunStep<V>(n: nat, options: Options, aborted: Option<V>, trace: seq<Pool<V>>, events: seq<Event<V>>, k: nat)
    requires options.Valid() && IsRun(n, options, aborted, trace, events) && k < |events|
    ensures Inv(trace[k]) && Enabled(trace[k], events[k]) && trace[k + 1] == Step(trace[k], events[k])
    ensures Inv(trace[k + 1]) && trace[k].n == n
  {
    hide Inv, Enabled, Step;
    RunInv(n, options, aborted, trace, events, k);
    RunInv(n, options, aborted, trace, events, k + 1);
    assert Stepped(trace, events, k);
  }

  // --- the concurrency ceiling ---

  lemma {:induction false} FewBusy(workers: seq<Worker>)
    ensures |BusyTasks(workers)| <= |workers|
  {
    if workers != [] {
      var k := |workers| - 1;
      var front, last := workers[..k], workers[k];
      FewBusy(front);
      var extra := if last.Busy? then {last.index} else {};
      forall i | i in BusyTasks(workers) ensures i in BusyTasks(front) + extra {
        var w :| 0 <= w < |workers| && workers[w].Busy? && workers[w].index == i;
        if w < k { assert front[w] == workers[w]; }
      }
      assert |BusyTasks(workers)| <= |BusyTasks(front) + extra| by {
        SubsetSize(BusyTasks(workers), BusyTasks(front) + extra);
      }
    }
  }

  lemma {:induction false} SubsetSize(a: set<nat>, b: set<nat>)
    requires a <= b
    ensures |a| <= |b|
  {
    assert b == a + (b - a);
  }

  /** At no point are more than `concurrency` task promises unsettled. */
  lemma ConcurrencyCeiling<V>(n: nat, options: Options, aborted: Option<V>, trace: seq<Pool<V>>,
                              events: seq<Event<V>>, k: nat)
    requires options.Valid() && IsRun(n, options, aborted, trace, events) && k < |trace|
    ensures |trace[k].active| <= options.concurrency && |trace[k].active| <= n
  {
    RunInv(n, options, aborted, trace, events, k);
    FewBusy(trace[k].workers);
  }

  lemma {:induction false} IdlesOrBusy(workers: seq<Worker>)
    requires DistinctTasks(workers) && forall w | 0 <= w < |workers| :: workers[w].Busy?
    ensures |BusyTasks(workers)| == |workers|
  {
    if workers != [] {
      var k := |workers| - 1;
      var front, last := workers[..k], workers[k];
      IdlesOrBusy(front);
      forall i ensures i in BusyTasks(workers) <==> i in BusyTasks(front) || i == last.index {
        if i in BusyTasks(workers) {
          var w :| 0 <= w < |workers| && workers[w].Busy? && workers[w].index == i;
          if w < k { assert front[w] == workers[w]; }
        }
        if i in BusyTasks(front) {
          var w :| 0 <= w < |front| && front[w].Busy? && front[w].index == i;
          assert workers[w] == front[w];
        }
        if i == last.index { assert workers[k].index == i; }
      }
      assert forall w | 0 <= w < k :: front[w].index != last.index;
      assert BusyTasks(workers) == BusyTasks(front) + {last.index};
    }
  }

  /** And while tasks are left to start, as many as that run, or a worker is about to take the next. */
  lemma NoIdleWorkers<V>(n: nat, options: Options, aborted: Option<V>, trace: seq<Pool<V>>, events: seq<Event<V>>,
                         k: nat)
    requires options.Valid() && IsRun(n, options, aborted, trace, events) && k < |trace|
    requires trace[k].cancellation.None? && trace[k].nextIndex < n && forall w :: !Enabled(trace[k], Event<V>.Turn(w))
    requires trace[k].returned.None?
    ensures |trace[k].active| == if options.concurrency < n then options.concurrency else n
  {
    RunInv(n, options, aborted, trace, events, k);
    var workers := trace[k].workers;
    forall w | 0 <= w < |workers| ensures workers[w].Busy? {
      assert !Enabled(trace[k], Event<V>.Turn(w));
    }
    IdlesOrBusy(workers);
  }

  // --- starting ---

  /** Step `k` starts task `i`. */
  ghost predicate Starts<V>(trace: seq<Pool<V>>, events: seq<Event<V>>, k: nat, i: nat)
    requires k < |events| < |trace|
  {
    i !in trace[k].active && i in trace[k + 1].active
  }

  /** Tasks start in index order, each at most once, and none once cancellation has been observed. */
  lemma StartsInOrder<V>(n: nat, options: Options, aborted: Option<V>, trace: seq<Pool<V>>, events: seq<Event<V>>,
                         k: nat, i: nat)
    requires options.Valid() && IsRun(n, options, aborted, trace, events) && k < |events|
    requires Starts(trace, events, k, i)
    ensures i == trace[k].nextIndex && trace[k + 1].nextIndex == i + 1 && trace[k].cancellation.None?
    ensures forall l, j: nat | 0 <= l < k && Starts(trace, events, l, j) :: j < i
  {
    hide Inv, Step, Enabled;
    RunStep(n, options, aborted, trace, events, k);
    StartStep(trace[k], events[k], i);
    forall l, j: nat | 0 <= l < k && Starts(trace, events, l, j)
      ensures j < i
    {
      RunStep(n, options, aborted, trace, events, l);
      StartStep(trace[l], events[l], j);
      NextIndexGrows(n, options, aborted, trace, events, l + 1, k);
    }
  }

  lemma StartStep<V>(p: Pool<V>, ev: Event<V>, i: nat)
    requires Enabled(p, ev) && i !in p.active && i in Step(p, ev).active
    ensures i == p.nextIndex && Step(p, ev).nextIndex == i + 1 && p.cancellation.None?
  {
  }

  lemma {:induction false} NextIndexGrows<V>(n: nat, options: Options, aborted: Option<V>, trace: seq<Pool<V>>,
                                             events: seq<Event<V>>, l: nat, k: nat)
    requires options.Valid() && IsRun(n, options, aborted, trace, events) && l <= k < |trace|
    ensures trace[l].nextIndex <= trace[k].nextIndex
    decreases k
  {
    if l < k {
      NextIndexGrows(n, options, aborted, trace, events, l, k - 1);
      RunStep(n, options, aborted, trace, events, k - 1);
    }
  }

  // --- timers ---

  ghost predicate TimersFit<V>(p: Pool<V>) {
    p.timers == if p.options.timeoutMs.Some? then p.active - p.outcome.Keys else {}
  }

  lemma StepKeepsTimers<V>(p: Pool<V>, ev: Event<V>)
    requires SlotsFit(p) && Enabled(p, ev) && TimersFit(p)
    requires ev.Settle? ==> ev.worker < |p.workers| && p.workers[ev.worker].Busy?
    ensures TimersFit(Step(p, ev)) && Step(p, ev).options == p.options
  {
    if ev.Turn? { assert p.nextIndex !in p.outcome; }
  }

  /** With a timeout configured a timer runs for exactly the running tasks that have no outcome; without, none does. */
  lemma {:induction false} TimersRun<V>(n: nat, options: Options, aborted: Option<V>, trace: seq<Pool<V>>,
                                        events: seq<Event<V>>, k: nat)
    requires options.Valid() && IsRun(n, options, aborted, trace, events) && k < |trace|
    ensures trace[k].options == options
    ensures trace[k].timers == if options.timeoutMs.Some? then trace[k].active - trace[k].outcome.Keys else {}
  {
    RunInv(n, options, aborted, trace, events, k);
    if k > 0 {
      hide WorkersFit, SlotsFit, ReturnFits, Step, Enabled;
      TimersRun(n, options, aborted, trace, events, k - 1);
      RunStep(n, options, aborted, trace, events, k - 1);
      if events[k - 1].Settle? { SettlesBusy(trace[k - 1], events[k - 1]); }
      StepKeepsTimers(trace[k - 1], events[k - 1]);
    }
  }

  lemma SettlesBusy<V>(p: Pool<V>, ev: Event<V>)
    requires Enabled(p, ev) && ev.Settle?
    ensures ev.worker < |p.workers| && p.workers[ev.worker].Busy?
  {
  }

  // --- the first terminal event decides ---

  /** What `ev` would make of running task `i`, if it concerns it at all. */
  function Verdict<V>(p: Pool<V>, ev: Event<V>, i: nat): Option<TaskResult<V>> {
    match ev
    case Settle(w, value, ok) =>
      if w < |p.workers| && p.workers[w] == Busy(i) then Some(Settlement(value, ok)) else None
    case Timeout(t) => if t == i && p.options.timeoutMs.Some? then Some(TimedOut(p.options.timeoutMs.value)) else None
    case Abort(reason) => if i in p.active then Some(Cancelled(reason)) else None
    case _ => None
  }

  /** Step `k` is the first that says anything final about task `i`. */
  ghost predicate FirstTerminal<V>(trace: seq<Pool<V>>, events: seq<Event<V>>, k: nat, i: nat)
    requires k < |events| < |trace|
  {
    && Verdict(trace[k], events[k], i).Some?
    && forall l | 0 <= l < k :: Verdict(trace[l], events[l], i).None?
  }

  lemma {:induction false} NoVerdictNoOutcome<V>(n: nat, options: Options, aborted: Option<V>, trace: seq<Pool<V>>,
                                                 events: seq<Event<V>>, k: nat, i: nat)
    requires options.Valid() && IsRun(n, options, aborted, trace, events) && k < |trace|
    requires forall l | 0 <= l < k :: Verdict(trace[l], events[l], i).None?
    ensures i !in trace[k].outcome
    decreases k
  {
    if k > 0 {
      NoVerdictNoOutcome(n, options, aborted, trace, events, k - 1, i);
      RunStep(n, options, aborted, trace, events, k - 1);
      assert Verdict(trace[k - 1], events[k - 1], i).None?;
      hide Inv;
      OutcomeOnlyByVerdict(trace[k - 1], events[k - 1], i);
    }
  }

  /** An outcome once written stays; one is written only by a verdict, and then it is that verdict. */
  lemma OutcomeOnlyByVerdict<V>(p: Pool<V>, ev: Event<V>, i: nat)
    requires Enabled(p, ev)
    ensures var after := Step(p, ev).outcome;
            if i in p.outcome then i in after && after[i] == p.outcome[i]
            else if Verdict(p, ev, i).Some? then i in after && after[i] == Verdict(p, ev, i).value
            else i !in after
  {
  }

  /** From its first terminal event on, a task's outcome is that event's, whatever happens later. */
  lemma {:induction false} FirstTerminalWins<V>(n: nat, options: Options, aborted: Option<V>, trace: seq<Pool<V>>,
                                                events: seq<Event<V>>, k: nat, i: nat, m: nat)
    requires options.Valid() && IsRun(n, options, aborted, trace, events) && k < m < |trace|
    requires FirstTerminal(trace, events, k, i)
    ensures i in trace[m].outcome && trace[m].outcome[i] == Verdict(trace[k], events[k], i).value
    decreases m
  {
    hide Inv, Verdict, Step, Enabled;
    RunStep(n, options, aborted, trace, events, m - 1);
    OutcomeOnlyByVerdict(trace[m - 1], events[m - 1], i);
    if m == k + 1 {
      NoVerdictNoOutcome(n, options, aborted, trace, events, k, i);
    } else {
      FirstTerminalWins(n, options, aborted, trace, events, k, i, m - 1);
    }
  }

  /** When the pool returns there is one result per task, in input order: a started task's first terminal
      outcome, and "cancelled" with the signal's reason for the tasks that never started. */
  lemma ReturnedResults<V>(n: nat, options: Options, aborted: Option<V>, trace: seq<Pool<V>>, events: seq<Event<V>>,
                           m: nat, i: nat)
    requires options.Valid() && IsRun(n, options, aborted, trace, events) && m < |trace|
    requires trace[m].returned.Some? && i < n
    ensures |trace[m].returned.value| == n
    ensures i < trace[m].nextIndex ==>
              i in trace[m].outcome && trace[m].returned.value[i] == trace[m].outcome[i] &&
              exists k | 0 <= k < m :: FirstTerminal(trace, events, k, i) &&
                trace[m].returned.value[i] == Verdict(trace[k], events[k], i).value
    ensures i >= trace[m].nextIndex ==>
              trace[m].cancellation.Some? && trace[m].returned.value[i] == Cancelled(trace[m].cancellation.value)
  {
    RunInv(n, options, aborted, trace, events, m);
    var p := trace[m];
    assert Filled(p)[i].Some?;
    if i < p.nextIndex {
      assert i in p.results;
      var k := SomeFirstTerminal(n, options, aborted, trace, events, m, i);
      FirstTerminalWins(n, options, aborted, trace, events, k, i, m);
    }
  }

  /** The event ends task `i`: its promise settles, its timer fires, or the pool is aborted while it runs. */
  ghost predicate Ends<V>(p: Pool<V>, ev: Event<V>, i: nat) {
    || (ev.Settle? && ev.worker < |p.workers| && p.workers[ev.worker] == Busy(i))
    || (ev.Timeout? && ev.task == i)
    || (ev.Abort? && i in p.active)
  }

  lemma EndsIffVerdict<V>(p: Pool<V>, ev: Event<V>, i: nat)
    requires Enabled(p, ev)
    ensures Ends(p, ev, i) <==> Verdict(p, ev, i).Some?
    ensures Ends(p, ev, i) && ev.Settle? ==>
              Verdict(p, ev, i) == Some(if ev.ok then Fulfilled(ev.value) else Rejected(ev.value))
    ensures Ends(p, ev, i) && ev.Timeout? ==>
              p.options.timeoutMs.Some? && Verdict(p, ev, i) == Some(TimedOut(p.options.timeoutMs.value))
    ensures Ends(p, ev, i) && ev.Abort? ==> Verdict(p, ev, i) == Some(Cancelled(ev.reason))
  {
  }

  /** What a returned list says of a task, by the first event that ended it. */
  lemma ReturnedByFirstEnd<V>(n: nat, options: Options, aborted: Option<V>, trace: seq<Pool<V>>, events: seq<Event<V>>,
                              k: nat, m: nat, i: nat)
    requires options.Valid() && IsRun(n, options, aborted, trace, events) && k < m < |trace|
    requires trace[m].returned.Some? && i < n
    requires Ends(trace[k], events[k], i) && forall l | 0 <= l < k :: !Ends(trace[l], events[l], i)
    ensures |trace[m].returned.value| == n
    ensures events[k].Settle? && events[k].ok ==> trace[m].returned.value[i] == Fulfilled(events[k].value)
    ensures events[k].Settle? && !events[k].ok ==> trace[m].returned.value[i] == Rejected(events[k].value)
    ensures events[k].Timeout? ==>
              options.timeoutMs.Some? && trace[m].returned.value[i] == TimedOut(options.timeoutMs.value)
    ensures events[k].Abort? ==> trace[m].returned.value[i] == Cancelled(events[k].reason)
  {
    hide Inv, Step, Enabled, Ends, Verdict;
    forall l | 0 <= l <= k ensures Ends(trace[l], events[l], i) <==> Verdict(trace[l], events[l], i).Some? {
      RunStep(n, options, aborted, trace, events, l);
      EndsIffVerdict(trace[l], events[l], i);
    }
    RunInv(n, options, aborted, trace, events, k);
    FirstTerminalWins(n, options, aborted, trace, events, k, i, m);
    RunStep(n, options, aborted, trace, events, k);
    EndsIffVerdict(trace[k], events[k], i);
    ReturnedResults(n, options, aborted, trace, events, m, i);
    StartedHasOutcome(n, options, aborted, trace, events, m, i);
  }

  lemma StartedHasOutcome<V>(n: nat, options: Options, aborted: Option<V>, trace: seq<Pool<V>>, events: seq<Event<V>>,
                             m: nat, i: nat)
    requires options.Valid() && IsRun(n, options, aborted, trace, events) && m < |trace|
    ensures i in trace[m].outcome ==> i < trace[m].nextIndex
  {
    RunInv(n, options, aborted, trace, events, m);
  }

  lemma SomeFirstTerminal<V>(n: nat, options: Options, aborted: Option<V>, trace: seq<Pool<V>>,
                                                events: seq<Event<V>>, m: nat, i: nat) returns (k: nat)
    requires options.Valid() && IsRun(n, options, aborted, trace, events) && m < |trace|
    requires i in trace[m].outcome
    ensures k < m && FirstTerminal(trace, events, k, i)
  {
    hide Inv, Verdict, Step, Enabled;
    if forall l | 0 <= l < m :: Verdict(trace[l], events[l], i).None? {
      NoVerdictNoOutcome(n, options, aborted, trace, events, m, i);
    }
    k :| 0 <= k < m && Verdict(trace[k], events[k], i).Some?;
    while exists j :: 0 <= j < k && Verdict(trace[j], events[j], i).Some?
      invariant k < m && Verdict(trace[k], events[k], i).Some?
      decreases k
    {
      var j :| 0 <= j < k && Verdict(trace[j], events[j], i).Some?;
      k := j;
    }
  }

  // --- progress ---

  function Weight(w: Worker): nat {
    match w
    case Ready => 1
    case Busy(_) => 2
    case Gone => 0
  }

  function TotalWeight(workers: seq<Worker>): nat {
    if workers == [] then 0 else TotalWeight(workers[..|workers| - 1]) + Weight(workers[|workers| - 1])
  }

  lemma {:induction false} WeightUpdate(workers: seq<Worker>, w: nat, x: Worker)
    requires w < |workers|
    ensures TotalWeight(workers[w := x]) == TotalWeight(workers) - Weight(workers[w]) + Weight(x)
    decreases |workers|
  {
    hide Weight;
    var k := |workers| - 1;
    if w < k {
      WeightUpdate(workers[..k], w, x);
      assert workers[w := x][..k] == workers[..k][w := x];
    } else {
      assert workers[w := x][..k] == workers[..k];
    }
  }

  /** What is left to do: unstarted tasks, then running workers, then timers, cancellation and the return. */
  function Remaining<V>(p: Pool<V>): nat
    requires p.nextIndex <= p.n
  {
    4 * (p.n - p.nextIndex) + TotalWeight(p.workers) + |p.timers| + (if p.cancellation.None? then 1 else 0) +
    (if p.returned.None? then 1 else 0)
  }

  /** Every step consumes some of what is left, so no schedule goes on for ever. */
  lemma StepConsumes<V>(p: Pool<V>, ev: Event<V>)
    requires Inv(p) && Enabled(p, ev)
    ensures p.nextIndex <= p.n && Step(p, ev).nextIndex <= p.n == Step(p, ev).n
    ensures Remaining(Step(p, ev)) < Remaining(p)
  {
    hide WorkersFit, TotalWeight, ReturnFits, Filled;
    assert p.nextIndex <= p.n;
    var q := Step(p, ev);
    match ev
    case Turn(w) =>
      hide SlotsFit;
      WeightUpdate(p.workers, w, Gone);
      WeightUpdate(p.workers, w, Busy(p.nextIndex));
      assert |p.timers + {p.nextIndex}| <= |p.timers| + 1;
    case Settle(w, value, ok) =>
      hide SlotsFit;
      WeightUpdate(p.workers, w, Ready);
      SubsetSize(q.timers, p.timers);
    case Timeout(i) =>
      hide SlotsFit;
      assert p.timers == q.timers + {i};
    case Abort(reason) =>
      hide SlotsFit;
      SubsetSize(q.timers, p.timers);
    case Finish =>
      AllSlotsFilled(p);
  }

  /** The "completed without a result" error is unreachable. */
  lemma AllSlotsFilled<V>(p: Pool<V>)
    requires Inv(p) && Enabled(p, Finish)
    ensures AllSome(Filled(p)) && Step(p, Finish).returned.Some?
  {
    assert p.active == {};
    if p.cancellation.None? {
      assert p.n > 0 ==> p.workers[0].Gone?;
      assert forall i | 0 <= i < p.n :: i in p.results;
    }
  }

  /** A pool that has not returned can always step, unless every worker is waiting for a task to settle. */
  lemma NeverStuck<V>(p: Pool<V>)
    requires Inv(p) && p.returned.None?
    ensures (exists w :: Enabled(p, Turn(w))) || Enabled(p, Finish) || p.active != {}
  {
    if w :| 0 <= w < |p.workers| && p.workers[w].Ready? {
      assert Enabled(p, Turn(w));
    } else if w :| 0 <= w < |p.workers| && p.workers[w].Busy? {
      assert p.workers[w].index in p.active;
    }
  }

  /** Termination: no run has more steps than there was work at the start, and a pool that has not returned and is
      not waiting for a task to settle can always step. */
  lemma {:induction false} RunsEnd<V>(n: nat, options: Options, aborted: Option<V>, trace: seq<Pool<V>>,
                                      events: seq<Event<V>>, k: nat)
    requires options.Valid() && IsRun(n, options, aborted, trace, events) && k < |trace|
    ensures trace[k].nextIndex <= trace[k].n && k + Remaining(trace[k]) <= Remaining(Start(n, options, aborted))
    ensures trace[k].returned.Some? || trace[k].active != {} || Enabled(trace[k], Event<V>.Finish) ||
            exists w :: Enabled(trace[k], Event<V>.Turn(w))
    decreases k
  {
    RunInv(n, options, aborted, trace, events, k);
    if trace[k].returned.None? {
      NeverStuck(trace[k]);
    }
    hide Remaining, Step, Enabled, WorkersFit, ReturnFits;
    if k > 0 {
      RunsEnd(n, options, aborted, trace, events, k - 1);
      RunStep(n, options, aborted, trace, events, k - 1);
      StepConsumes(trace[k - 1], events[k - 1]);
    }
  }
}

module TaskPools {
  import opened Wrappers
  import opened TaskPoolModel
  import opened TaskPoolRuns

  lemma CancelOne<V>(outcome: map<nat, TaskResult<V>>, done: set<nat>, task: nat, reason: V)
    ensures CancelAll(outcome, done + {task}, reason) ==
              WriteOnce(CancelAll(outcome, done, reason), task, Cancelled(reason))
  {
  }

  class TaskPool<V(==)> {
    const n: nat
    const options: Options
    var nextIndex: nat
    var workers: seq<Worker>
    var activeTasks: set<nat>
    var timers: set<nat>
    var outcome: map<nat, TaskResult<V>>
    var results: map<nat, TaskResult<V>>
    var cancellation: Option<V>
    var returned: Option<seq<TaskResult<V>>>

    function Value(): Pool<V>
      reads this
    {
      Pool(n, options, nextIndex, workers, activeTasks, timers, outcome, results, cancellation, returned)
    }

    ghost predicate Valid()
      reads this
    {
      options.Valid() && Inv(Value())
    }

    constructor (n: nat, options: Options, aborted: Option<V>)
      requires options.Valid()
      ensures Valid() && Value() == Start(n, options, aborted)
    {
      this.n := n;
      this.options := options;
      nextIndex, activeTasks, timers, outcome, results, returned := 0, {}, {}, map[], map[], None;
      cancellation := aborted;
      workers := if aborted.Some? then [] else seq(Min(options.concurrency, n), _ => Ready);
      new;
      StartInv(n, options, aborted);
    }

    /** A worker at its loop head: leave, or take the next task and run it up to its first await. */
    method Turn(worker: nat)
      requires Valid() && Enabled(Value(), Event<V>.Turn(worker))
      modifies this
      ensures Valid() && Value() == Step(old(Value()), Event<V>.Turn(worker))
    {
      hide Inv;
      StepKeepsInv(Value(), Event<V>.Turn(worker));
      if cancellation.Some? {
        workers := workers[worker := Gone];
        return;
      }
      if nextIndex >= n {
        workers := workers[worker := Gone];
        return;
      }
      var index := nextIndex;
      nextIndex := nextIndex + 1;
      workers := workers[worker := Busy(index)];
      activeTasks := activeTasks + {index};
      if options.timeoutMs.Some? {
        timers := timers + {index};
      }
    }

    /** The task's promise settled: record unless something else was first, free the slot, store the result. */
    method Settle(worker: nat, value: V, ok: bool)
      requires Valid() && Enabled(Value(), Event<V>.Settle(worker, value, ok))
      modifies this
      ensures Valid() && Value() == Step(old(Value()), Event<V>.Settle(worker, value, ok))
    {
      hide Inv;
      StepKeepsInv(Value(), Event<V>.Settle(worker, value, ok));
      var index := workers[worker].index;
      if index !in outcome {
        outcome := outcome[index := if ok then Fulfilled(value) else Rejected(value)];
      }
      timers := timers - {index};
      activeTasks := activeTasks - {index};
      results := results[index := outcome[index]];
      workers := workers[worker := Ready];
    }

    method Timeout(task: nat)
      requires Valid() && Enabled(Value(), Event<V>.Timeout(task))
      modifies this
      ensures Valid() && Value() == Step(old(Value()), Event<V>.Timeout(task))
    {
      hide Inv;
      StepKeepsInv(Value(), Event<V>.Timeout(task));
      timers := timers - {task};
      if task !in outcome {
        outcome := outcome[task := TimedOut(options.timeoutMs.value)];
      }
    }

    /** The abort listener: cancel the running tasks one by one. */
    method ObserveCancellation(reason: V)
      requires Valid() && Enabled(Value(), Abort(reason))
      modifies this
      ensures Valid() && Value() == Step(old(Value()), Abort(reason))
    {
      hide Inv;
      StepKeepsInv(Value(), Abort(reason));
      cancellation := Some(reason);
      assert CancelAll(outcome, {}, reason) == outcome;
      hide CancelAll;
      var rest := activeTasks;
      assert activeTasks - rest == {};
      while rest != {}
        invariant rest <= activeTasks
        invariant unchanged(`nextIndex, `workers, `activeTasks, `results, `returned) && cancellation == Some(reason)
        invariant outcome == CancelAll(old(outcome), activeTasks - rest, reason)
        invariant timers == old(timers) - (activeTasks - rest)
        decreases rest
      {
        var task :| task in rest;
        ghost var done := activeTasks - rest;
        rest := rest - {task};
        assert activeTasks - rest == done + {task};
        CancelOne(old(outcome), done, task, reason);
        if task !in outcome {
          outcome := outcome[task := Cancelled(reason)];
        }
        timers := timers - {task};
      }
      assert activeTasks - rest == activeTasks;
      assert timers == old(timers) - activeTasks;
    }

    /** After the last worker: fill the holes left by cancellation and hand the results over in input order. */
    method Finish() returns (all: seq<TaskResult<V>>)
      requires Valid() && Enabled(Value(), Event<V>.Finish)
      modifies this
      ensures Valid() && Value() == Step(old(Value()), Event<V>.Finish)
      ensures returned == Some(all) && |all| == n
    {
      StepKeepsInv(Value(), Event<V>.Finish);
      AllSlotsFilled(Value());
      hide Inv;
      ghost var slots := Filled(Value());
      all := [];
      for index := 0 to n
        invariant |all| == index && Value() == old(Value())
        invariant all == Values(slots)[..index]
      {
        assert slots[index].Some?;
        all := all + [if index in results then results[index] else Cancelled(cancellation.value)];
      }
      returned := Some(all);
    }
  }
}
