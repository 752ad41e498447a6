/** The lifecycle polling controller and every order of its events. */
module RefreshController {
  import opened Bytes
  import opened Arithmetic

  /** A scheduled callback: the run that scheduled it and its delay. */
  datatype Timer = Timer(run: nat, delayMs: int)

  /**
   * The controller's fields together with its environment: timers still pending, cancelled
   * timers whose callback may yet arrive, and ticks that have begun and not settled.
   */
  datatype State = State(
    intervalMs: int, jitterMs: int,
    active: bool, disposed: bool, tickInFlight: bool, runId: nat, timerHandle: Option<nat>,
    completedTicks: nat, startedRuns: nat, skippedBusyFires: nat,
    pending: map<nat, Timer>, cancelled: map<nat, Timer>, ticks: map<nat, nat>, nextId: nat)

  // ---------------------------------------------------------------------
  // Steps
  // ---------------------------------------------------------------------

  /** The base interval plus a jitter step that wraps every four ticks. */
  function Delay(tickIndex: nat, intervalMs: int, jitterMs: int): (d: int)
    ensures intervalMs <= d <= intervalMs + 3 * Max(0, (jitterMs + 2) / 4)
  {
    intervalMs + (tickIndex % 4) * Max(0, (jitterMs + 2) / 4)
  }

  function CancelTimer(s: State): State {
    if s.timerHandle.None? then s
    else
      var h := s.timerHandle.value;
      if h !in s.pending then s.(timerHandle := None)
      else s.(timerHandle := None, pending := s.pending - {h}, cancelled := s.cancelled[h := s.pending[h]])
  }

  function Schedule(s: State, run: nat, delayMs: int): State {
    var c := CancelTimer(s);
    c.(timerHandle := Some(c.nextId), pending := c.pending[c.nextId := Timer(run, delayMs)], nextId := c.nextId + 1)
  }

  function NextDelay(s: State): int {
    Delay(s.completedTicks, s.intervalMs, s.jitterMs)
  }

  function Start(s: State, immediate: bool): State {
    if s.disposed || s.active then s
    else
      var started := s.(active := true, runId := s.runId + 1, startedRuns := s.startedRuns + 1);
      Schedule(started, started.runId, if immediate then 0 else NextDelay(s))
  }

  function Stop(s: State): State {
    if !s.active && s.timerHandle.None? then s.(runId := s.runId + 1)
    else CancelTimer(s.(active := false, runId := s.runId + 1))
  }

  function Dispose(s: State): State {
    Stop(s).(disposed := true)
  }

  /** The callback of a timer of `run`. */
  function FireRun(s: State, run: nat): State {
    var fired := s.(timerHandle := None);
    if !fired.active || run != fired.runId || fired.disposed then fired
    else if fired.tickInFlight then
      Schedule(fired.(skippedBusyFires := fired.skippedBusyFires + 1), run, NextDelay(fired))
    else
      var armed := Schedule(fired, run, NextDelay(fired));
      armed.(tickInFlight := true, ticks := armed.ticks[armed.nextId := run], nextId := armed.nextId + 1)
  }

  predicate Fires(s: State, h: nat) {
    h in s.pending || h in s.cancelled
  }

  function RunOf(s: State, h: nat): nat
    requires Fires(s, h)
  {
    if h in s.pending then s.pending[h].run else s.cancelled[h].run
  }

  /** A timer's callback arrives, even if the timer was cancelled; it arrives once. */
  function Fire(s: State, h: nat): State
    requires Fires(s, h)
  {
    FireRun(s.(pending := s.pending - {h}, cancelled := s.cancelled - {h}), RunOf(s, h))
  }

  /** A tick settles, whether it succeeded or failed. */
  function Settle(s: State, k: nat): State
    requires k in s.ticks
  {
    var run := s.ticks[k];
    var settled := s.(tickInFlight := false, ticks := s.ticks - {k});
    if run != settled.runId || settled.disposed then settled
    else settled.(completedTicks := settled.completedTicks + 1)
  }

  // ---------------------------------------------------------------------
  // Event sequences
  // ---------------------------------------------------------------------

  datatype Event = StartEvent(immediate: bool) | StopEvent | DisposeEvent | FireEvent(timer: nat) | SettleEvent(tick: nat)

  predicate Possible(s: State, e: Event) {
    match e
    case FireEvent(h) => Fires(s, h)
    case SettleEvent(k) => k in s.ticks
    case _ => true
  }

  function Next(s: State, e: Event): State
    requires Possible(s, e)
  {
    match e
    case StartEvent(immediate) => Start(s, immediate)
    case StopEvent => Stop(s)
    case DisposeEvent => Dispose(s)
    case FireEvent(h) => Fire(s, h)
    case SettleEvent(k) => Settle(s, k)
  }

  /**
   * What has happened: the timers and ticks that a stop or dispose has overtaken, whether
   * there was a dispose, how many ticks settled without having been overtaken, the timers of a
   * run during which the callback of an overtaken timer arrived, and how many callbacks that
   * were not overtaken arrived while a tick was outstanding.
   */
  datatype History = History(overtaken: set<nat>, disposed: bool, ownSettles: nat, disturbed: set<nat>, busyFires: nat)

  function Recorded(s: State, past: History, e: Event): History {
    match e
    case StopEvent => past.(overtaken := past.overtaken + s.pending.Keys + s.cancelled.Keys + s.ticks.Keys)
    case DisposeEvent => past.(overtaken := past.overtaken + s.pending.Keys + s.cancelled.Keys + s.ticks.Keys, disposed := true)
    case SettleEvent(k) => if k in past.overtaken then past else past.(ownSettles := past.ownSettles + 1)
    case FireEvent(h) =>
      if h in past.overtaken then past.(disturbed := past.disturbed + (s.pending.Keys - past.overtaken))
      else if s.ticks != map[] then past.(busyFires := past.busyFires + 1)
      else past
    case StartEvent(_) => past
  }

  function Initial(intervalMs: int, jitterMs: int): State {
    State(intervalMs, jitterMs, false, false, false, 0, None, 0, 0, 0, map[], map[], map[], 0)
  }

  datatype Execution = Execution(state: State, past: History)

  /** The states after every possible event sequence. */
  ghost predicate ReachedBy(x: Execution, intervalMs: int, jitterMs: int, events: seq<Event>)
    decreases |events|
  {
    if events == [] then x == Execution(Initial(intervalMs, jitterMs), History({}, false, 0, {}, 0))
    else
      var n := |events| - 1;
      exists before: Execution ::
        && ReachedBy(before, intervalMs, jitterMs, events[..n])
        && Possible(before.state, events[n])
        && x == Execution(Next(before.state, events[n]), Recorded(before.state, before.past, events[n]))
  }

  // ---------------------------------------------------------------------
  // What every event keeps
  // ---------------------------------------------------------------------

  /** Identifiers are issued once; runs never exceed the current one; cancelled timers are of earlier runs. */
  ghost predicate Bookkeeping(s: State) {
    && (forall h :: h in s.pending ==> h < s.nextId && s.pending[h].run <= s.runId && h !in s.cancelled && h !in s.ticks)
    && (forall h :: h in s.cancelled ==> h < s.nextId && s.cancelled[h].run < s.runId && h !in s.ticks)
    && (forall k :: k in s.ticks ==> k < s.nextId && s.ticks[k] <= s.runId)
  }

  /** At most one tick is outstanding, and the busy flag says whether one is. */
  ghost predicate OneTick(s: State) {
    && (forall j, k :: j in s.ticks && k in s.ticks ==> j == k)
    && (s.tickInFlight <==> exists k :: k in s.ticks)
  }

  /** A pending timer of the current run. */
  ghost predicate Current(s: State, h: nat) {
    h in s.pending && s.pending[h].run == s.runId
  }

  /** An active controller has exactly one current timer, an inactive one has none. */
  ghost predicate OneTimer(s: State) {
    && (forall g, h :: Current(s, g) && Current(s, h) ==> g == h)
    && (s.active <==> exists h :: Current(s, h))
    && (s.timerHandle.Some? ==> Current(s, s.timerHandle.value))
    && (s.disposed ==> !s.active)
  }

  /** A timer or tick is of an earlier run exactly when a stop or dispose has overtaken it. */
  ghost predicate HistorySound(s: State, past: History) {
    && (forall h :: h in s.pending ==> (h in past.overtaken <==> s.pending[h].run != s.runId))
    && (forall h :: h in s.cancelled ==> h in past.overtaken)
    && (forall k :: k in s.ticks ==> (k in past.overtaken <==> s.ticks[k] != s.runId))
    && (forall k :: k in s.ticks && s.ticks[k] == s.runId ==> s.active)
    && (forall i :: i in past.overtaken ==> i < s.nextId)
    && s.disposed == past.disposed && s.completedTicks == past.ownSettles
  }

  ghost predicate Invariant(x: Execution) {
    Bookkeeping(x.state) && OneTick(x.state) && OneTimer(x.state) && HistorySound(x.state, x.past)
  }

  /** Nothing is current in an inactive controller. */
  lemma InactiveHasNoTimer(s: State, h: nat)
    requires OneTimer(s) && !s.active && h in s.pending
    ensures s.pending[h].run != s.runId
  {
    assert !Current(s, h);
  }

  lemma StartKeeps(s: State, past: History, immediate: bool)
    requires Invariant(Execution(s, past))
    ensures Invariant(Execution(Start(s, immediate), past))
  {
    if !s.disposed && !s.active {
      var s' := Start(s, immediate);
      forall h | h in s.pending ensures s.pending[h].run != s.runId {
        InactiveHasNoTimer(s, h);
      }
      assert s.timerHandle.None?;
      assert s'.pending == s.pending[s.nextId := s'.pending[s.nextId]];
      assert Current(s', s.nextId);
    }
  }

  /** After a stop every timer is of an earlier run, whatever was cancelled on the way. */
  lemma StopEffect(s: State)
    requires Bookkeeping(s)
    ensures var s' := Stop(s);
            && s' == s.(active := false, runId := s.runId + 1, timerHandle := None, pending := s'.pending, cancelled := s'.cancelled)
            && MovedOnly(s, s')
  {
    if s.timerHandle.Some? && s.timerHandle.value in s.pending {
      assert Stop(s).pending == s.pending - {s.timerHandle.value};
    }
  }

  /** Timers only move from pending to cancelled. */
  ghost predicate MovedOnly(s: State, s': State) {
    && (forall h :: h in s'.pending ==> h in s.pending && s'.pending[h] == s.pending[h] && h !in s'.cancelled)
    && (forall h :: h in s'.cancelled ==> Fires(s, h) && s'.cancelled[h].run == RunOf(s, h))
  }

  lemma StopBooks(s: State)
    requires Bookkeeping(s)
    ensures Bookkeeping(Stop(s))
  {
    StopEffect(s);
    hide Stop;
  }

  lemma StopTimers(s: State)
    requires Bookkeeping(s) && OneTimer(s)
    ensures OneTimer(Stop(s))
  {
    StopEffect(s);
    hide Stop;
    assert forall h :: !Current(Stop(s), h);
  }

  lemma StopHistory(s: State, past: History)
    requires Bookkeeping(s) && HistorySound(s, past)
    ensures HistorySound(Stop(s), Recorded(s, past, StopEvent))
  {
    StopEffect(s);
    hide Stop;
  }

  lemma StopKeeps(s: State, past: History)
    requires Invariant(Execution(s, past))
    ensures Invariant(Execution(Stop(s), Recorded(s, past, StopEvent)))
  {
    StopEffect(s);
    StopBooks(s);
    StopTimers(s);
    StopHistory(s, past);
    hide Stop, Bookkeeping, OneTimer, HistorySound;
  }

  lemma DisposeKeeps(s: State, past: History)
    requires Invariant(Execution(s, past))
    ensures Invariant(Execution(Dispose(s), Recorded(s, past, DisposeEvent)))
  {
    StopEffect(s);
    StopKeeps(s, past);
    hide Stop, Bookkeeping, OneTimer, HistorySound, OneTick;
    MarkDisposed(Stop(s), Recorded(s, past, StopEvent));
  }

  lemma MarkDisposed(s: State, past: History)
    requires Invariant(Execution(s, past)) && !s.active
    ensures Invariant(Execution(s.(disposed := true), past.(disposed := true)))
  {
    var s' := s.(disposed := true);
    assert forall h :: Current(s', h) <==> Current(s, h);
  }

  lemma SettleKeeps(s: State, past: History, k: nat)
    requires Invariant(Execution(s, past)) && k in s.ticks
    ensures Invariant(Execution(Settle(s, k), Recorded(s, past, SettleEvent(k))))
  {
    var s' := Settle(s, k);
    assert forall j :: j !in s'.ticks;
    assert forall h :: Current(s', h) <==> Current(s, h);
  }

  /** A callback of an earlier run only drops the handle. */
  lemma StaleFireKeeps(s: State, past: History, h: nat)
    requires Invariant(Execution(s, past)) && Fires(s, h) && RunOf(s, h) != s.runId
    ensures Invariant(Execution(Fire(s, h), past))
    ensures Fire(s, h).ticks == s.ticks && (Fire(s, h).active ==> s.active)
  {
    var s' := Fire(s, h);
    assert forall g :: Current(s', g) <==> Current(s, g);
  }

  /** The callback of the current timer arms the next one, and begins a tick unless one is running. */
  lemma CurrentFireEffect(s: State, past: History, h: nat)
    requires Invariant(Execution(s, past)) && Fires(s, h) && RunOf(s, h) == s.runId
    ensures var s' := Fire(s, h);
            && s.active && h in s.pending && h !in s.cancelled && Current(s, h)
            && s'.pending == (s.pending - {h})[s.nextId := Timer(s.runId, NextDelay(s))]
            && s'.cancelled == s.cancelled
            && s'.ticks == (if s.tickInFlight then s.ticks else s.ticks[s.nextId + 1 := s.runId])
            && s' == s.(pending := s'.pending, ticks := s'.ticks, timerHandle := Some(s.nextId), nextId := s'.nextId,
                        tickInFlight := true, skippedBusyFires := s'.skippedBusyFires)
            && s'.nextId == (if s.tickInFlight then s.nextId + 1 else s.nextId + 2)
  {
    assert h in s.pending;
    assert Current(s, h);
    assert s.cancelled - {h} == s.cancelled;
  }

  lemma CurrentFireKeeps(s: State, past: History, h: nat)
    requires Invariant(Execution(s, past)) && Fires(s, h) && RunOf(s, h) == s.runId
    ensures Invariant(Execution(Fire(s, h), past))
  {
    CurrentFireEffect(s, past, h);
    hide Fire;
    FireTimers(s, h, Fire(s, h));
    FireBooks(s, h, Fire(s, h));
    FireHistory(s, past, h, Fire(s, h));
    hide OneTimer, Bookkeeping, HistorySound;
    if !s.tickInFlight {
      assert s.nextId + 1 in Fire(s, h).ticks;
    }
  }

  lemma FireBooks(s: State, h: nat, s': State)
    requires Bookkeeping(s) && Current(s, h)
    requires s'.pending == (s.pending - {h})[s.nextId := Timer(s.runId, NextDelay(s))]
    requires s'.ticks == (if s.tickInFlight then s.ticks else s.ticks[s.nextId + 1 := s.runId])
    requires s'.runId == s.runId && s'.cancelled == s.cancelled
    requires s'.nextId == if s.tickInFlight then s.nextId + 1 else s.nextId + 2
    ensures Bookkeeping(s')
  {
  }

  lemma FireHistory(s: State, past: History, h: nat, s': State)
    requires Bookkeeping(s) && HistorySound(s, past) && Current(s, h) && s.active
    requires s'.pending == (s.pending - {h})[s.nextId := Timer(s.runId, NextDelay(s))]
    requires s'.ticks == (if s.tickInFlight then s.ticks else s.ticks[s.nextId + 1 := s.runId])
    requires s'.runId == s.runId && s'.cancelled == s.cancelled && s'.active
    requires s'.nextId == if s.tickInFlight then s.nextId + 1 else s.nextId + 2
    requires s'.disposed == s.disposed && s'.completedTicks == s.completedTicks
    ensures HistorySound(s', past)
  {
  }

  lemma FireTimers(s: State, h: nat, s': State)
    requires Bookkeeping(s) && OneTimer(s) && Current(s, h) && s.active
    requires s'.pending == (s.pending - {h})[s.nextId := Timer(s.runId, NextDelay(s))]
    requires s'.runId == s.runId && s'.active && s'.disposed == s.disposed && s'.timerHandle == Some(s.nextId)
    ensures OneTimer(s')
  {
    forall g ensures Current(s', g) <==> g == s.nextId {
      if g in s'.pending && g != s.nextId {
        assert Current(s, g) <==> s.pending[g].run == s.runId;
      }
    }
    assert Current(s', s.nextId);
  }

  lemma EventKeeps(x: Execution, e: Event)
    requires Invariant(x) && Possible(x.state, e)
    ensures Invariant(Execution(Next(x.state, e), Recorded(x.state, x.past, e)))
  {
    hide Invariant, Start, Stop, Dispose, Fire, Settle;
    var s, past := x.state, x.past;
    match e
    case StartEvent(immediate) => StartKeeps(s, past, immediate);
    case StopEvent => StopKeeps(s, past);
    case DisposeEvent => DisposeKeeps(s, past);
    case SettleEvent(k) => SettleKeeps(s, past, k);
    case FireEvent(h) =>
      if RunOf(s, h) == s.runId {
        CurrentFireKeeps(s, past, h);
      } else {
        StaleFireKeeps(s, past, h);
      }
      SameButFires(Fire(s, h), past, Recorded(s, past, e));
  }

  lemma SameButFires(s: State, past: History, past': History)
    requires Invariant(Execution(s, past)) && past' == past.(disturbed := past'.disturbed, busyFires := past'.busyFires)
    ensures Invariant(Execution(s, past'))
  {
  }

  /** The controller holds the handle of a pending timer unless a late callback disturbed it. */
  ghost predicate HandleSound(x: Execution) {
    && (forall h :: h in x.state.pending ==> (x.state.timerHandle == Some(h) <==> h !in x.past.disturbed))
    && (forall h :: h in x.past.disturbed ==> h < x.state.nextId)
  }

  lemma StopKeepsHandle(s: State, past: History)
    requires HandleSound(Execution(s, past))
    ensures HandleSound(Execution(Stop(s), past))
    ensures Stop(s).pending.Keys == set h | h in s.pending && h in past.disturbed
  {
  }

  lemma StartKeepsHandle(s: State, past: History, immediate: bool)
    requires Invariant(Execution(s, past)) && HandleSound(Execution(s, past))
    ensures HandleSound(Execution(Start(s, immediate), past))
  {
    hide Bookkeeping, OneTick, HistorySound;
    if !s.disposed && !s.active {
      assert s.timerHandle.None?;
    }
  }

  lemma FireKeepsHandle(s: State, past: History, h: nat)
    requires Invariant(Execution(s, past)) && HandleSound(Execution(s, past)) && Fires(s, h)
    ensures HandleSound(Execution(Fire(s, h), Recorded(s, past, FireEvent(h))))
  {
    if RunOf(s, h) == s.runId {
      CurrentFireEffect(s, past, h);
      hide Fire;
      assert forall g :: g in s.pending && g != h ==> s.timerHandle != Some(g);
    } else {
      assert h in past.overtaken;
      assert Fire(s, h).timerHandle == None && Fire(s, h).pending == s.pending - {h};
    }
  }

  lemma EventKeepsHandle(x: Execution, e: Event)
    requires Invariant(x) && HandleSound(x) && Possible(x.state, e)
    ensures HandleSound(Execution(Next(x.state, e), Recorded(x.state, x.past, e)))
  {
    hide Invariant, Start, Stop, Fire;
    var s, past := x.state, x.past;
    match e
    case StartEvent(immediate) => StartKeepsHandle(s, past, immediate);
    case StopEvent => StopKeepsHandle(s, past);
    case DisposeEvent => StopKeepsHandle(s, past);
    case FireEvent(h) => FireKeepsHandle(s, past, h);
    case SettleEvent(k) =>
  }

  // ---------------------------------------------------------------------
  // Flags and counters, read off the events
  // ---------------------------------------------------------------------

  ghost predicate DisposedIn(events: seq<Event>) {
    exists i :: 0 <= i < |events| && events[i].DisposeEvent?
  }

  /** The event at `i` is a start that no stop has followed. */
  ghost predicate StartsUnstopped(events: seq<Event>, i: nat) {
    i < |events| && events[i].StartEvent? && forall j :: i < j < |events| ==> !events[j].StopEvent?
  }

  /** The controller was started, not stopped since, and never disposed. */
  ghost predicate RunningAfter(events: seq<Event>) {
    !DisposedIn(events) && exists i :: StartsUnstopped(events, i)
  }

  /** The starts that found the controller neither running nor disposed. */
  ghost function RunsIn(events: seq<Event>): nat {
    if events == [] then 0
    else
      var n := |events| - 1;
      RunsIn(events[..n]) + if events[n].StartEvent? && !DisposedIn(events[..n]) && !RunningAfter(events[..n]) then 1 else 0
  }

  lemma DisposedStep(events: seq<Event>)
    requires events != []
    ensures DisposedIn(events) <==> DisposedIn(events[..|events| - 1]) || events[|events| - 1].DisposeEvent?
  {
    var before := events[..|events| - 1];
    assert forall i :: 0 <= i < |before| ==> before[i] == events[i];
    if DisposedIn(before) {
      var i :| 0 <= i < |before| && before[i].DisposeEvent?;
      assert events[i].DisposeEvent?;
    }
  }

  lemma RunningStep(events: seq<Event>)
    requires events != []
    ensures var before, last := events[..|events| - 1], events[|events| - 1];
            RunningAfter(events) <==>
            && !DisposedIn(before)
            && match last
               case StartEvent(_) => true
               case StopEvent => false
               case DisposeEvent => false
               case _ => RunningAfter(before)
  {
    DisposedStep(events);
    hide DisposedIn;
    var n := |events| - 1;
    var before, last := events[..n], events[n];
    assert forall i :: 0 <= i < n ==> before[i] == events[i];
    if i: nat :| StartsUnstopped(before, i) {
      assert !last.StopEvent? ==> StartsUnstopped(events, i);
    }
    if i: nat :| StartsUnstopped(events, i) {
      assert i < n ==> StartsUnstopped(before, i);
    }
    assert last.StartEvent? ==> StartsUnstopped(events, n);
  }

  /** How one event moves the flags and counters. */
  lemma StepCounters(x: Execution, e: Event)
    requires Invariant(x) && Possible(x.state, e)
    ensures var s, s' := x.state, Next(x.state, e);
            && s'.intervalMs == s.intervalMs && s'.jitterMs == s.jitterMs
            && s'.disposed == (s.disposed || e.DisposeEvent?)
            && (s'.active <==> match e
                               case StartEvent(_) => !s.disposed
                               case StopEvent => false
                               case DisposeEvent => false
                               case _ => s.active)
            && s'.startedRuns == (if e.StartEvent? && !s.disposed && !s.active then s.startedRuns + 1 else s.startedRuns)
            && s'.skippedBusyFires - s.skippedBusyFires == Recorded(s, x.past, e).busyFires - x.past.busyFires
  {
    if e.FireEvent? {
      FireCounters(x, e.timer);
      hide Fire;
    }
    hide Bookkeeping, HistorySound, OneTick, Delay;
  }

  lemma FireCounters(x: Execution, h: nat)
    requires Invariant(x) && Fires(x.state, h)
    ensures var s, s' := x.state, Fire(x.state, h);
            && s'.intervalMs == s.intervalMs && s'.jitterMs == s.jitterMs
            && s'.disposed == s.disposed && s'.active == s.active && s'.startedRuns == s.startedRuns
            && s'.skippedBusyFires == s.skippedBusyFires + if h !in x.past.overtaken && s.ticks != map[] then 1 else 0
  {
    var s := x.state;
    hide Delay;
    assert s.tickInFlight <==> s.ticks != map[];
    if RunOf(s, h) == s.runId {
      CurrentFireEffect(s, x.past, h);
    }
  }

  /** What the flags and counters of every reached state say about the events. */
  lemma {:induction false} CountersAre(x: Execution, intervalMs: int, jitterMs: int, events: seq<Event>)
    requires ReachedBy(x, intervalMs, jitterMs, events)
    ensures x.state.intervalMs == intervalMs && x.state.jitterMs == jitterMs
    ensures x.state.disposed <==> DisposedIn(events)
    ensures x.state.active <==> RunningAfter(events)
    ensures x.state.startedRuns == RunsIn(events)
    ensures x.state.skippedBusyFires == x.past.busyFires
    decreases |events|
  {
    if events != [] {
      hide Invariant, HandleSound, Next, Recorded, DisposedIn, RunningAfter;
      var n := |events| - 1;
      var before: Execution :|
        && ReachedBy(before, intervalMs, jitterMs, events[..n])
        && Possible(before.state, events[n])
        && x == Execution(Next(before.state, events[n]), Recorded(before.state, before.past, events[n]));
      CountersAre(before, intervalMs, jitterMs, events[..n]);
      ReachedInvariant(before, intervalMs, jitterMs, events[..n]);
      StepCounters(before, events[n]);
      DisposedStep(events);
      RunningStep(events);
    }
  }

  // ---------------------------------------------------------------------
  // Delays
  // ---------------------------------------------------------------------

  /**
   * The delay starts at the interval, grows by one step per completed tick and starts over every
   * four ticks; a step is a quarter of the jitter, halves rounded up, and none for a negative one.
   */
  lemma DelayLaws(tick: nat, intervalMs: int, jitterMs: int)
    ensures Delay(0, intervalMs, jitterMs) == intervalMs
    ensures Delay(tick + 4, intervalMs, jitterMs) == Delay(tick, intervalMs, jitterMs)
    ensures var step := Delay(1, intervalMs, jitterMs) - intervalMs;
            && (tick % 4 != 3 ==> Delay(tick + 1, intervalMs, jitterMs) == Delay(tick, intervalMs, jitterMs) + step)
            && (jitterMs >= 0 ==> -2 < 4 * step - jitterMs <= 2)
            && (jitterMs < 0 ==> step == 0)
  {
    var step := Max(0, (jitterMs + 2) / 4);
    forall t: nat ensures Delay(t, intervalMs, jitterMs) == intervalMs + (t % 4) * step {
    }
    assert (tick + 4) % 4 == tick % 4;
    if tick % 4 != 3 {
      assert (tick + 1) % 4 == tick % 4 + 1;
      assert (tick % 4 + 1) * step == (tick % 4) * step + step;
    }
  }

  /** A start that takes effect arms one new timer: at once if asked, else after the next delay. */
  lemma StartSchedules(x: Execution, intervalMs: int, jitterMs: int, events: seq<Event>, immediate: bool)
    requires ReachedBy(x, intervalMs, jitterMs, events)
    ensures DisposedIn(events) || RunningAfter(events) ==> Start(x.state, immediate) == x.state
    ensures !DisposedIn(events) && !RunningAfter(events) ==>
              var s, s', h := x.state, Start(x.state, immediate), x.state.nextId;
              && h !in s.pending && h !in s.cancelled && h !in s.ticks
              && s'.timerHandle == Some(h)
              && s'.pending == s.pending[h := Timer(s'.runId, if immediate then 0 else Delay(x.past.ownSettles, intervalMs, jitterMs))]
              && s'.cancelled == s.cancelled && s'.ticks == s.ticks && s'.tickInFlight == s.tickInFlight
  {
    hide ReachedBy, DisposedIn, RunningAfter, Delay;
    ReachedInvariant(x, intervalMs, jitterMs, events);
    CountersAre(x, intervalMs, jitterMs, events);
    assert Bookkeeping(x.state) && HistorySound(x.state, x.past);
  }

  /** A callback that was not overtaken arms the next timer after the next delay; an overtaken one arms none. */
  lemma FireSchedules(x: Execution, intervalMs: int, jitterMs: int, events: seq<Event>, h: nat)
    requires ReachedBy(x, intervalMs, jitterMs, events) && Fires(x.state, h)
    ensures var s, s', g := x.state, Fire(x.state, h), x.state.nextId;
            && g !in s.pending && g !in s.cancelled && g !in s.ticks
            && s'.pending == if h in x.past.overtaken then s.pending - {h}
                             else (s.pending - {h})[g := Timer(s.runId, Delay(x.past.ownSettles, intervalMs, jitterMs))]
  {
    hide ReachedBy, Delay;
    ReachedInvariant(x, intervalMs, jitterMs, events);
    CountersAre(x, intervalMs, jitterMs, events);
    var s := x.state;
    assert Bookkeeping(s) && HistorySound(s, x.past);
    if RunOf(s, h) == s.runId {
      CurrentFireEffect(s, x.past, h);
      hide Fire;
    }
  }

  // ---------------------------------------------------------------------
  // Theorems
  // ---------------------------------------------------------------------

  lemma {:induction false} ReachedInvariant(x: Execution, intervalMs: int, jitterMs: int, events: seq<Event>)
    requires ReachedBy(x, intervalMs, jitterMs, events)
    ensures Invariant(x) && HandleSound(x)
    decreases |events|
  {
    if events == [] {
      assert forall h :: !Current(x.state, h);
    } else {
      hide Invariant, HandleSound, Next, Recorded;
      var n := |events| - 1;
      var before: Execution :|
        && ReachedBy(before, intervalMs, jitterMs, events[..n])
        && Possible(before.state, events[n])
        && x == Execution(Next(before.state, events[n]), Recorded(before.state, before.past, events[n]));
      ReachedInvariant(before, intervalMs, jitterMs, events[..n]);
      EventKeeps(before, events[n]);
      EventKeepsHandle(before, events[n]);
    }
  }

  /** At most one tick is ever outstanding, across all runs. */
  lemma AtMostOneTick(x: Execution, intervalMs: int, jitterMs: int, events: seq<Event>)
    requires ReachedBy(x, intervalMs, jitterMs, events)
    ensures forall j, k :: j in x.state.ticks && k in x.state.ticks ==> j == k
    ensures x.state.tickInFlight <==> exists k :: k in x.state.ticks
  {
    hide ReachedBy, Bookkeeping, OneTimer, HistorySound;
    ReachedInvariant(x, intervalMs, jitterMs, events);
  }

  /** An active controller has exactly one pending timer of its run; an inactive one has none. */
  lemma ExactlyOneCurrentTimer(x: Execution, intervalMs: int, jitterMs: int, events: seq<Event>)
    requires ReachedBy(x, intervalMs, jitterMs, events)
    ensures x.state.active <==> exists h :: Current(x.state, h)
    ensures forall g, h :: Current(x.state, g) && Current(x.state, h) ==> g == h
    ensures x.past.disposed ==> !x.state.active
  {
    hide ReachedBy, Bookkeeping, OneTick;
    ReachedInvariant(x, intervalMs, jitterMs, events);
  }

  /**
   * A callback begins a tick exactly when no stop or dispose has come since its timer was
   * scheduled and no tick is outstanding; so callbacks of cancelled timers, of earlier runs
   * and after disposal begin none.
   */
  lemma BeginsTickIff(x: Execution, intervalMs: int, jitterMs: int, events: seq<Event>, h: nat)
    requires ReachedBy(x, intervalMs, jitterMs, events) && Fires(x.state, h)
    ensures Fire(x.state, h).ticks != x.state.ticks <==>
            h !in x.past.overtaken && forall k :: k !in x.state.ticks
    ensures h in x.state.cancelled ==> h in x.past.overtaken
    ensures x.past.disposed ==> h in x.past.overtaken
  {
    hide ReachedBy;
    ReachedInvariant(x, intervalMs, jitterMs, events);
    var s := x.state;
    if RunOf(s, h) == s.runId {
      CurrentFireEffect(s, x.past, h);
      hide Fire;
      assert s.nextId + 1 !in s.ticks;
    } else {
      StaleFireKeeps(s, x.past, h);
    }
  }

  /** The completed-tick counter counts exactly the ticks that settled before any stop or dispose. */
  lemma CompletedTicksAreOwnSettles(x: Execution, intervalMs: int, jitterMs: int, events: seq<Event>)
    requires ReachedBy(x, intervalMs, jitterMs, events)
    ensures x.state.completedTicks == x.past.ownSettles
  {
    hide ReachedBy, Bookkeeping, OneTimer, OneTick;
    ReachedInvariant(x, intervalMs, jitterMs, events);
  }

  /**
   * What a stop leaves pending: exactly the timers during whose run the callback of an overtaken
   * timer arrived, because that callback made the controller forget their handle.
   */
  lemma StopLeavesDisturbed(x: Execution, intervalMs: int, jitterMs: int, events: seq<Event>)
    requires ReachedBy(x, intervalMs, jitterMs, events)
    ensures Stop(x.state).pending.Keys == set h | h in x.state.pending && h in x.past.disturbed
    ensures !x.state.active ==> forall h :: h in x.state.pending ==> h in x.past.disturbed && h in x.past.overtaken
  {
    hide ReachedBy, Bookkeeping, OneTick;
    ReachedInvariant(x, intervalMs, jitterMs, events);
    StopKeepsHandle(x.state, x.past);
    if !x.state.active {
      forall h | h in x.state.pending ensures x.state.pending[h].run != x.state.runId {
        InactiveHasNoTimer(x.state, h);
      }
    }
  }

  lemma ReachedStep(x: Execution, intervalMs: int, jitterMs: int, events: seq<Event>, e: Event)
    requires ReachedBy(x, intervalMs, jitterMs, events) && Possible(x.state, e)
    ensures ReachedBy(Execution(Next(x.state, e), Recorded(x.state, x.past, e)), intervalMs, jitterMs, events + [e])
  {
    hide Next, Recorded;
    assert (events + [e])[..|events|] == events;
  }

  /** Start, stop, start, the late callback of the first timer, stop: the second timer stays pending. */
  lemma DisturbedRun(intervalMs: int, jitterMs: int) returns (x: Execution, events: seq<Event>)
    ensures ReachedBy(x, intervalMs, jitterMs, events) && !x.state.active && x.state.pending != map[]
    ensures events == [StartEvent(false), StopEvent, StartEvent(false), FireEvent(0), StopEvent]
  {
    hide ReachedBy, Delay;
    x, events := Execution(Initial(intervalMs, jitterMs), History({}, false, 0, {}, 0)), [];
    assert ReachedBy(x, intervalMs, jitterMs, events) by { ReachedInitially(intervalMs, jitterMs); }
    x, events := DisturbedStep(x, intervalMs, jitterMs, events, StartEvent(false));
    assert x.state.pending.Keys == {0} && x.state.timerHandle == Some(0) && x.state.nextId == 1;
    x, events := DisturbedStep(x, intervalMs, jitterMs, events, StopEvent);
    assert x.state.pending == map[] && x.state.cancelled.Keys == {0} && x.state.timerHandle == None;
    x, events := DisturbedStep(x, intervalMs, jitterMs, events, StartEvent(false));
    assert x.state.pending.Keys == {1} && x.state.cancelled.Keys == {0} && x.state.cancelled[0].run == 1 && x.state.runId == 3;
    x, events := DisturbedStep(x, intervalMs, jitterMs, events, FireEvent(0));
    assert x.state.pending.Keys == {1} && x.state.timerHandle == None && x.state.active;
    x, events := DisturbedStep(x, intervalMs, jitterMs, events, StopEvent);
    assert 1 in x.state.pending;
  }

  lemma DisturbedStep(x: Execution, intervalMs: int, jitterMs: int, events: seq<Event>, e: Event)
    returns (x': Execution, events': seq<Event>)
    requires ReachedBy(x, intervalMs, jitterMs, events) && Possible(x.state, e)
    ensures x' == Execution(Next(x.state, e), Recorded(x.state, x.past, e)) && events' == events + [e]
    ensures ReachedBy(x', intervalMs, jitterMs, events')
  {
    hide Next, Recorded, ReachedBy;
    x', events' := Execution(Next(x.state, e), Recorded(x.state, x.past, e)), events + [e];
    ReachedStep(x, intervalMs, jitterMs, events, e);
  }

  lemma ReachedInitially(intervalMs: int, jitterMs: int)
    ensures ReachedBy(Execution(Initial(intervalMs, jitterMs), History({}, false, 0, {}, 0)), intervalMs, jitterMs, [])
  {
  }

  // ---------------------------------------------------------------------
  // The controller
  // ---------------------------------------------------------------------

  class LifecycleAutoRefreshController {
    const intervalMs: int
    const jitterMs: int
    var active: bool
    var disposed: bool
    var tickInFlight: bool
    var runId: nat
    var timerHandle: Option<nat>
    var completedTicks: nat
    var startedRuns: nat
    var skippedBusyFires: nat
    // The scheduler and the outstanding promises.
    var pending: map<nat, Timer>
    var cancelled: map<nat, Timer>
    var ticks: map<nat, nat>
    var nextId: nat

    ghost function View(): State
      reads this
    {
      State(intervalMs, jitterMs, active, disposed, tickInFlight, runId, timerHandle, completedTicks, startedRuns,
            skippedBusyFires, pending, cancelled, ticks, nextId)
    }

    constructor (interval: int, jitter: int)
      ensures View() == Initial(interval, jitter)
    {
      intervalMs, jitterMs := interval, jitter;
      active, disposed, tickInFlight, runId, timerHandle := false, false, false, 0, None;
      completedTicks, startedRuns, skippedBusyFires := 0, 0, 0;
      pending, cancelled, ticks, nextId := map[], map[], map[], 0;
    }

    method CancelCurrentTimer()
      modifies this
      ensures View() == CancelTimer(old(View()))
    {
      if timerHandle.Some? {
        var h := timerHandle.value;
        if h in pending {
          cancelled := cancelled[h := pending[h]];
          pending := pending - {h};
        }
        timerHandle := None;
      }
    }

    method ScheduleTimer(run: nat, delayMs: int)
      modifies this
      ensures View() == Schedule(old(View()), run, delayMs)
    {
      hide CancelTimer;
      CancelCurrentTimer();
      timerHandle := Some(nextId);
      pending := pending[nextId := Timer(run, delayMs)];
      nextId := nextId + 1;
    }

    method StartPolling(immediate: bool)
      modifies this
      ensures View() == Start(old(View()), immediate)
    {
      hide Schedule, Delay;
      if disposed || active {
        return;
      }
      active := true;
      runId := runId + 1;
      startedRuns := startedRuns + 1;
      ScheduleTimer(runId, if immediate then 0 else Delay(completedTicks, intervalMs, jitterMs));
    }

    method StopPolling()
      modifies this
      ensures View() == Stop(old(View()))
    {
      hide CancelTimer;
      if !active && timerHandle.None? {
        runId := runId + 1;
        return;
      }
      active := false;
      runId := runId + 1;
      CancelCurrentTimer();
    }

    method DisposeController()
      modifies this
      ensures View() == Dispose(old(View()))
    {
      hide Stop;
      StopPolling();
      disposed := true;
    }

    method TimerFires(h: nat)
      requires Fires(View(), h)
      modifies this
      ensures View() == Fire(old(View()), h)
    {
      hide FireRun;
      var run := if h in pending then pending[h].run else cancelled[h].run;
      pending, cancelled := pending - {h}, cancelled - {h};
      Callback(run);
    }

    method Callback(run: nat)
      modifies this
      ensures View() == FireRun(old(View()), run)
    {
      hide Schedule, Delay;
      timerHandle := None;
      if !active || run != runId || disposed {
        return;
      }
      if tickInFlight {
        skippedBusyFires := skippedBusyFires + 1;
        ScheduleTimer(run, Delay(completedTicks, intervalMs, jitterMs));
        return;
      }
      ScheduleTimer(run, Delay(completedTicks, intervalMs, jitterMs));
      tickInFlight := true;
      ticks := ticks[nextId := run];
      nextId := nextId + 1;
    }

    method TickSettles(k: nat)
      requires k in View().ticks
      modifies this
      ensures View() == Settle(old(View()), k)
    {
      var run := ticks[k];
      tickInFlight := false;
      ticks := ticks - {k};
      if run != runId || disposed {
        return;
      }
      completedTicks := completedTicks + 1;
    }
  }
}
