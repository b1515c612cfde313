/**
 The event scheduler with its worker thread (src/Schedule/Scheduler.cpp), any number of threads that insert and
 flush, and the clock, as a state machine: one step is one stretch of code under the mutex.
 */
module SchedulerRuns {
  import opened StableOrder
  import S = Scheduler

  /** The clock counts nanoseconds; time() gives the whole seconds of it. */
  const SECOND := 1_000_000_000

  function Time(clock: nat): nat { clock / SECOND }

  /** The worker: not there, about to read the clock, taking due events, about to sleep, asleep, or ended. */
  datatype Worker =
    | Absent
    | AtTop
    | Draining(lookedAt: nat)
    | Deciding(lookedAt: nat)
    | Asleep(deadline: int, lookedAt: nat, sleptAt: nat, notified: bool)
    | Ended

  /** Events are known by their times here, in seconds. */
  datatype State = State(times: seq<int>, threadIsRunning: bool, shuttingDown: bool, worker: Worker, now: nat)

  datatype Action =
    | Insert(at: int) | Flush(chosen: seq<bool>) | Shutdown | Tick(elapsed: nat)
    | ReadClock | Shift | Decide | Wake

  function Identity(t: int): int { t }

  predicate Enabled(s: State, a: Action) {
    match a
    case Flush(chosen) => |chosen| == |s.times|
    case ReadClock => s.worker == AtTop
    case Shift => s.worker.Draining?
    case Decide => s.worker.Deciding?
    case Wake => s.worker.Asleep?
    case _ => true
  }

  function Notify(w: Worker): Worker { if w.Asleep? then w.(notified := true) else w }

  /** The times whose event the flush does not choose. */
  function Spared(times: seq<int>, chosen: seq<bool>): seq<int>
    requires |times| == |chosen|
  {
    if times == [] then []
    else if chosen[0] then Spared(times[1..], chosen[1..])
    else [times[0]] + Spared(times[1..], chosen[1..])
  }

  function Step(s: State, a: Action): State
    requires Enabled(s, a)
  {
    match a
    case Insert(at) =>
      if s.times == [] then
        s.(times := [at], threadIsRunning := true, worker := if s.threadIsRunning then s.worker else AtTop)
      else
        s.(times := StableOrder.Insert(Identity, s.times, at),
           worker := if at < s.times[0] then Notify(s.worker) else s.worker)
    case Flush(chosen) =>
      if s.times == [] then s
      else s.(times := Spared(s.times, chosen), worker := if chosen[0] then Notify(s.worker) else s.worker)
    case Shutdown => s.(shuttingDown := true, worker := if s.times != [] then Notify(s.worker) else s.worker)
    case Tick(elapsed) => s.(now := s.now + elapsed)
    case ReadClock => s.(worker := Draining(s.now))
    case Shift =>
      if s.times != [] && s.times[0] <= Time(s.worker.lookedAt) then s.(times := s.times[1..])
      else s.(worker := Deciding(s.worker.lookedAt))
    case Decide =>
      if s.times == [] then s.(threadIsRunning := false, worker := Absent)
      else
        var timeToSleep := s.times[0] - Time(s.worker.lookedAt);
        if timeToSleep <= 0 then s.(worker := AtTop)
        else if s.shuttingDown then s.(worker := Ended)
        else s.(worker := Asleep(s.now + timeToSleep * SECOND, s.worker.lookedAt, s.now, false))
    case Wake => s.(worker := if s.shuttingDown then Ended else AtTop)
  }

  /** What every step keeps. */
  ghost predicate Inv(s: State) {
    && Sorted(Identity, s.times)
    && (s.threadIsRunning <==> s.worker != Absent)
    && (s.worker == Ended ==> s.shuttingDown)
    && (s.times != [] ==> s.threadIsRunning)
    && (s.worker.Draining? || s.worker.Deciding? ==> s.worker.lookedAt <= s.now)
    && (s.worker.Asleep? ==> s.worker.lookedAt <= s.worker.sleptAt <= s.now)
    && (s.worker.Asleep? && !s.worker.notified ==>
          s.times != [] && !s.shuttingDown
          && s.worker.deadline == s.times[0] * SECOND + Late(s.worker.lookedAt, s.worker.sleptAt))
  }

  /** What a sleeper is late by: the time between its two looks at the clock, and the part of a second it dropped. */
  function Late(lookedAt: nat, sleptAt: nat): int { (sleptAt - lookedAt) + lookedAt % SECOND }

  lemma {:induction false} SparedSorted(times: seq<int>, chosen: seq<bool>)
    requires |times| == |chosen| && Sorted(Identity, times)
    ensures Sorted(Identity, Spared(times, chosen)) && forall t :: t in Spared(times, chosen) ==> t in times
  {
    if times != [] {
      SparedSorted(times[1..], chosen[1..]);
      if !chosen[0] { SortedCons(Identity, times[0], Spared(times[1..], chosen[1..])); }
    }
  }

  lemma StepKeepsInv(s: State, a: Action)
    requires Inv(s) && Enabled(s, a)
    ensures Inv(Step(s, a))
  {
    match a
    case Insert(at) => InsertSorted(Identity, s.times, at);
    case Flush(chosen) => SparedSorted(s.times, chosen);
    case Shutdown =>
    case Tick(_) =>
    case ReadClock =>
    case Shift =>
    case Decide =>
    case Wake =>
  }

  function Run(s: State, actions: seq<Action>): State
    requires IsRun(s, actions)
    decreases |actions|
  {
    if actions == [] then s else Run(Step(s, actions[0]), actions[1..])
  }

  predicate IsRun(s: State, actions: seq<Action>)
    decreases |actions|
  {
    actions == [] || (Enabled(s, actions[0]) && IsRun(Step(s, actions[0]), actions[1..]))
  }

  lemma {:induction false} RunKeepsInv(s: State, actions: seq<Action>)
    requires IsRun(s, actions) && Inv(s)
    ensures Inv(Run(s, actions))
    decreases |actions|
  {
    if actions != [] {
      StepKeepsInv(s, actions[0]);
      RunKeepsInv(Step(s, actions[0]), actions[1..]);
    }
  }

  const INITIAL := State([], false, false, Absent, 0)

  /** Over all interleavings: a list that is not empty has a worker, unless a shutdown ended it. */
  lemma EventsHaveWorker(actions: seq<Action>)
    requires IsRun(INITIAL, actions)
    ensures var s := Run(INITIAL, actions);
            s.times != [] ==> s.worker != Absent && (s.worker == Ended ==> s.shuttingDown)
  {
    RunKeepsInv(INITIAL, actions);
  }

  /**
   A worker that sleeps without a wake-up on its way wakes too late for the first event by exactly the time that
   passed between its two looks at the clock, and the part of a second that the first look dropped; so it is on time
   exactly if none passed and the first look was at a whole second.
   */
  lemma SleeperDeadline(actions: seq<Action>)
    requires IsRun(INITIAL, actions)
    ensures var s := Run(INITIAL, actions);
            s.worker.Asleep? && !s.worker.notified ==>
              && s.times != [] && !s.shuttingDown && s.worker.lookedAt <= s.worker.sleptAt
              && s.worker.deadline == s.times[0] * SECOND + Late(s.worker.lookedAt, s.worker.sleptAt)
              && ((forall t :: t in s.times ==> s.worker.deadline <= t * SECOND)
                  <==> s.worker.sleptAt == s.worker.lookedAt && s.worker.lookedAt % SECOND == 0)
  {
    RunKeepsInv(INITIAL, actions);
    var s := Run(INITIAL, actions);
    assert forall t :: t in s.times ==> s.times[0] <= t;
    if s.times != [] { assert s.times[0] in s.times; }
  }

  /**
   Over all interleavings, a worker that takes an event takes the first one, whose time has come, and leaves the others;
   and when it takes none, no event was due when it looked at the clock.
   */
  lemma TakenWhenDue(actions: seq<Action>)
    requires IsRun(INITIAL, actions) && Enabled(Run(INITIAL, actions), Shift)
    ensures var s := Run(INITIAL, actions);
            var s' := Step(s, Shift);
            if s'.worker == s.worker then
              && s.times != [] && s'.times == s.times[1..] && s.times[0] * SECOND <= s.now
              && forall t :: t in s.times ==> s.times[0] <= t
            else s'.times == s.times && forall t :: t in s.times ==> s.worker.lookedAt < t * SECOND
  {
    RunKeepsInv(INITIAL, actions);
    var s := Run(INITIAL, actions);
    assert forall t :: t in s.times ==> s.times[0] <= t;
  }

  // ---- the list of the object is the list of the runs ----------------------------------------------

  function Times(es: seq<S.Event>): (ts: seq<int>)
    ensures |ts| == |es|
  {
    if es == [] then [] else [es[0].scheduledAt] + Times(es[1..])
  }

  /** Which events of a list a flush chooses. */
  function Choices(matches: nat -> bool, es: seq<S.Event>): (cs: seq<bool>)
    ensures |cs| == |es|
  {
    if es == [] then [] else [matches(es[0].what)] + Choices(matches, es[1..])
  }

  lemma {:induction false} InsertTimes(es: seq<S.Event>, e: S.Event)
    ensures Times(StableOrder.Insert(S.TimeOf, es, e)) == StableOrder.Insert(Identity, Times(es), e.scheduledAt)
  {
    if es != [] {
      InsertTimes(es[1..], e);
      assert Times(es)[1..] == Times(es[1..]);
    }
  }

  lemma {:induction false} FlushTimes(es: seq<S.Event>, matches: nat -> bool)
    ensures Times(Filter(S.Spared(matches), es)) == Spared(Times(es), Choices(matches, es))
  {
    if es != [] {
      FlushTimes(es[1..], matches);
      assert Times(es)[1..] == Times(es[1..]) && Choices(matches, es)[1..] == Choices(matches, es[1..]);
    }
  }

  /** The object is in the state of the run; its flag of a wake-up is that of the worker in its wait. */
  ghost predicate Agrees(scheduler: S.Scheduler, s: State)
    reads scheduler
  {
    && s.times == Times(scheduler.events) && s.threadIsRunning == scheduler.threadIsRunning
    && s.shuttingDown == scheduler.isShuttingDown && (s.worker.Asleep? ==> s.worker.notified == scheduler.notified)
  }

  lemma TimesFirst(es: seq<S.Event>)
    ensures Times(es) == [] <==> es == []
    ensures es != [] ==> Times(es)[0] == es[0].scheduledAt && Times(es)[1..] == Times(es[1..])
  {
  }

  /** An insertion into the object is the step of the runs. */
  method InsertInRun(ghost s: State, scheduler: S.Scheduler, newEvent: S.Event) returns (ghost s': State)
    requires scheduler.Valid() && newEvent !in scheduler.events && Agrees(scheduler, s)
    modifies scheduler, newEvent, scheduler.events
    ensures s' == Step(s, Insert(newEvent.scheduledAt)) && scheduler.Valid() && Agrees(scheduler, s')
  {
    InsertTimes(scheduler.events, newEvent);
    TimesFirst(scheduler.events);
    hide StableOrder.Insert, Times;
    ghost var es := scheduler.events;
    var started := scheduler.InsertEvent(newEvent);
    s' := Step(s, Insert(newEvent.scheduledAt));
    if es == [] { OneTime(newEvent); }
  }

  lemma OneTime(e: S.Event)
    ensures Times(StableOrder.Insert(S.TimeOf, [], e)) == [e.scheduledAt]
  {
  }

  /** So is a flush, with the choices that it makes. */
  method FlushInRun(ghost s: State, scheduler: S.Scheduler, useFilter: bool, matches: nat -> bool)
    returns (ghost s': State)
    requires scheduler.Valid() && Agrees(scheduler, s)
    modifies scheduler, scheduler.events
    ensures var chosen := Choices(S.Chosen(useFilter, matches), old(scheduler.events));
            && Enabled(s, Flush(chosen)) && s' == Step(s, Flush(chosen)) && scheduler.Valid() && Agrees(scheduler, s')
  {
    ghost var es, chosen := scheduler.events, Choices(S.Chosen(useFilter, matches), scheduler.events);
    FlushTimes(es, S.Chosen(useFilter, matches));
    TimesFirst(es);
    hide Filter, Times, Spared;
    var removed := scheduler.Flush(useFilter, matches);
    s' := Step(s, Flush(chosen));
    if es == [] { NothingSpared(S.Chosen(useFilter, matches)); }
  }

  lemma NothingSpared(matches: nat -> bool)
    ensures Filter(S.Spared(matches), []) == []
  {
  }

  /** So is taking a due event. */
  method ShiftInRun(ghost s: State, scheduler: S.Scheduler, currTime: int) returns (event: S.Event?, ghost s': State)
    requires scheduler.Valid() && Agrees(scheduler, s) && s.worker.Draining? && currTime == Time(s.worker.lookedAt)
    modifies scheduler
    ensures s' == Step(s, Shift) && scheduler.Valid() && Agrees(scheduler, s')
    ensures event == null <==> s'.worker.Deciding?
  {
    TimesFirst(scheduler.events);
    event := scheduler.ShiftEvent(currTime);
    s' := Step(s, Shift);
  }

  method ShutdownInRun(ghost s: State, scheduler: S.Scheduler) returns (ghost s': State)
    requires scheduler.Valid() && Agrees(scheduler, s)
    modifies scheduler
    ensures s' == Step(s, Action.Shutdown) && scheduler.Valid() && Agrees(scheduler, s')
  {
    TimesFirst(scheduler.events);
    scheduler.Shutdown();
    s' := Step(s, Action.Shutdown);
  }
}
