/** The instances of schedules that run on a node, and what the workflow scheduler has marked when they stop. */
module WorkflowStops {
  import opened WorkflowPlaces

  /** The scheduler, and the instances that run, with the schedule that each belongs to. */
  datatype Engine = Engine(places: Places, live: map<nat, nat>)

  /** What the database says of the schedules at the start: the running instance of each, or 0. */
  datatype Rows = Rows(schedule: nat -> Schedule, instance: nat -> nat, next: nat -> int, known: nat -> bool)

  /**
   A step of the scheduler alone; the end of an instance; an instance that joins, because it is resumed at the start or
   migrated from another node; or the load of the schedules at the start.
   */
  datatype Event =
    | Scheduler(action: Action) | End(instance: nat, success: bool, next: int) | Join(instance: nat, id: nat)
    | Load(rows: Rows)

  /** The instance that a step starts. */
  predicate Starts(m: Places, a: Action) {
    a.Ring? && a.start.Started? && a.id in m && m[a.id].Pending?
    && Passes(m[a.id].schedule, a.elected, a.runningElsewhere)
  }

  function Loaded(rows: Rows, id: nat): Place {
    if rows.instance(id) != 0 then Running(rows.schedule(id), rows.instance(id))
    else if rows.known(id) then Pending(rows.schedule(id), rows.next(id)) else Unplaced
  }

  /** One step. A stop that finds an active schedule not running has no successor: the engine does not survive it. */
  ghost predicate NextEngine(e: Engine, ev: Event, e': Engine) {
    match ev
    case Scheduler(a) =>
      && !a.Stop? && Next(e.places, a, e'.places)
      && if Starts(e.places, a) then a.start.instance !in e.live && e'.live == e.live[a.start.instance := a.id]
         else e'.live == e.live
    case End(w, success, next) =>
      w in e.live && Next(e.places, Stop(e.live[w], success, next), e'.places) && e'.live == e.live - {w}
    case Join(w, id) => 0 < w && w !in e.live && e' == e.(live := e.live[w := id])
    case Load(rows) =>
      && (forall id :: id in e.places ==> e.places[id] == Unplaced && rows.schedule(id).id == id)
      && e'.live == e.live && e'.places.Keys == e.places.Keys
      && forall id :: id in e.places ==> e'.places[id] == Loaded(rows, id)
  }

  ghost predicate IsEngineRun(es: seq<Engine>, evs: seq<Event>) {
    |es| == |evs| + 1 && forall i :: 0 <= i < |evs| ==> NextEngine(es[i], evs[i], es[i + 1])
  }

  /** The constructed scheduler: every active schedule has an entry, none is placed, and no instance runs yet. */
  ghost predicate AtStart(e: Engine) { e.live == map[] && forall id :: id in e.places ==> e.places[id] == Unplaced }

  /** The stop of an instance finds its schedule gone, or marked as running that very instance. */
  predicate OwnEntry(e: Engine, w: nat)
    requires w in e.live
  {
    var id := e.live[w];
    id in e.places ==> e.places[id].Running? && e.places[id].instance == w
  }

  predicate OwnEntries(e: Engine) { forall w :: w in e.live ==> OwnEntry(e, w) }

  /** A reload brings in a schedule that was not active while an instance of it runs. */
  predicate Restores(e: Engine, ev: Event, w: nat) {
    && ev.Scheduler? && ev.action.Reload? && w in e.live
    && e.live[w] !in e.places && e.live[w] in Ids(ev.action.active)
  }

  /** An instance of an active schedule joins that is not the one which the schedule is marked as running. */
  predicate JoinsActive(e: Engine, ev: Event) {
    && ev.Join? && ev.id in e.places && !(e.places[ev.id].Running? && e.places[ev.id].instance == ev.instance)
  }

  ghost predicate Exposes(e: Engine, ev: Event) { JoinsActive(e, ev) || exists w: nat :: Restores(e, ev, w) }

  lemma ActiveMember(active: seq<Schedule>, id: nat) returns (s: Schedule)
    requires id in Ids(active)
    ensures s in active && s.id == id
  {
    var i :| 0 <= i < |active| && Ids(active)[i] == id;
    s := active[i];
  }

  lemma StepKeepsOwnEntries(e: Engine, ev: Event, e': Engine)
    requires NextEngine(e, ev, e') && OwnEntries(e) && 0 !in e.live && !Exposes(e, ev)
    ensures OwnEntries(e') && 0 !in e'.live
  {
    forall w | w in e'.live
      ensures OwnEntry(e', w)
    {
      if w in e.live {
        assert OwnEntry(e, w);
        assert !Restores(e, ev, w);
        if ev.Scheduler? && ev.action.Reload? && e.live[w] in e'.places {
          var s := ActiveMember(ev.action.active, e.live[w]);
        }
      }
    }
  }

  lemma ExposingStep(e: Engine, ev: Event, e': Engine)
    requires NextEngine(e, ev, e') && Exposes(e, ev) && 0 !in e.live
    ensures !OwnEntries(e')
  {
    if w: nat :| Restores(e, ev, w) {
      var s := ActiveMember(ev.action.active, e.live[w]);
      assert w in e'.live && !OwnEntry(e', w);
    } else {
      assert ev.instance in e'.live && !OwnEntry(e', ev.instance);
    }
  }

  /** Over every run: as long as no step exposes it, each instance of an active schedule has its own entry. */
  lemma {:induction false} RunKeepsOwnEntries(es: seq<Engine>, evs: seq<Event>, i: nat)
    requires IsEngineRun(es, evs) && OwnEntries(es[0]) && 0 !in es[0].live && i < |es|
    requires forall k :: 0 <= k < i ==> !Exposes(es[k], evs[k])
    ensures OwnEntries(es[i]) && 0 !in es[i].live
  {
    if i > 0 {
      RunKeepsOwnEntries(es, evs, i - 1);
      StepKeepsOwnEntries(es[i - 1], evs[i - 1], es[i]);
    }
  }

  lemma {:induction false} NoInstanceZero(es: seq<Engine>, evs: seq<Event>, i: nat)
    requires IsEngineRun(es, evs) && 0 !in es[0].live && i < |es|
    ensures 0 !in es[i].live
  {
    if i > 0 {
      NoInstanceZero(es, evs, i - 1);
      assert NextEngine(es[i - 1], evs[i - 1], es[i]);
    }
  }

  /**
   Over every run from the constructed scheduler: in every state each stop would find its schedule gone or marked as
   running that instance, if and only if no reload brings in a schedule of which an instance runs, and no instance of
   an active schedule joins that the schedule is not marked as running.
   */
  lemma StopsSafeExactly(es: seq<Engine>, evs: seq<Event>)
    requires IsEngineRun(es, evs) && AtStart(es[0])
    ensures (forall i :: 0 <= i < |es| ==> OwnEntries(es[i])) <==> forall k :: 0 <= k < |evs| ==> !Exposes(es[k], evs[k])
  {
    if k :| 0 <= k < |evs| && Exposes(es[k], evs[k]) {
      NoInstanceZero(es, evs, k);
      ExposingStep(es[k], evs[k], es[k + 1]);
    } else {
      forall i | 0 <= i < |es|
        ensures OwnEntries(es[i])
      {
        RunKeepsOwnEntries(es, evs, i);
      }
    }
  }

  // ---- where a schedule with an instance has gone --------------------------------------------------

  /** A reload that drops a schedule while an instance of it runs. */
  predicate Drops(e: Engine, ev: Event, w: nat) {
    && ev.Scheduler? && ev.action.Reload? && w in e.live
    && e.live[w] in e.places && e.live[w] !in Ids(ev.action.active)
  }

  /** An instance joins whose schedule is not active. */
  predicate JoinsGone(e: Engine, ev: Event, w: nat) { ev.Join? && ev.instance == w && ev.id !in e.places }

  /** An instance runs throughout a stretch of a run, under one schedule. */
  predicate LiveAll(es: seq<Engine>, w: nat, i: nat, j: nat) {
    i <= j < |es| && w in es[j].live && forall k :: i <= k <= j ==> w in es[k].live && es[k].live[w] == es[j].live[w]
  }

  /** A running instance whose schedule is not active has seen the reload that dropped it, or joined when it was not. */
  lemma {:induction false} GoneBefore(es: seq<Engine>, evs: seq<Event>, w: nat, j: nat) returns (i: nat)
    requires IsEngineRun(es, evs) && AtStart(es[0])
    requires j < |es| && w in es[j].live && es[j].live[w] !in es[j].places
    ensures i < j && LiveAll(es, w, i + 1, j) && (Drops(es[i], evs[i], w) || JoinsGone(es[i], evs[i], w))
  {
    var e, ev := es[j - 1], evs[j - 1];
    assert NextEngine(e, ev, es[j]);
    if w !in e.live || e.live[w] in e.places {
      i := j - 1;
    } else {
      i := GoneBefore(es, evs, w, j - 1);
    }
  }

  // ---- what a stop does that finds no entry of its own ---------------------------------------------

  /** If the schedule is active and not running, the engine does not survive it. */
  lemma StopIsFatal(e: Engine, w: nat, success: bool, next: int)
    requires w in e.live && e.live[w] in e.places && !e.places[e.live[w]].Running?
    ensures !exists e' :: NextEngine(e, End(w, success, next), e')
  {
  }

  /** If it is running another instance, that one is left without its entry. */
  lemma StopFreesOther(e: Engine, w: nat, v: nat, success: bool, next: int, e': Engine)
    requires NextEngine(e, End(w, success, next), e') && e.live[w] in e.places
    requires v in e.live && v != w && e.live[v] == e.live[w]
    ensures v in e'.live && e'.live[v] in e'.places && !e'.places[e'.live[v]].Running?
  {
  }

  /** The load gives each instance its entry exactly if the database names it for its schedule. */
  lemma LoadHealsExactly(e: Engine, rows: Rows, e': Engine)
    requires NextEngine(e, Load(rows), e') && 0 !in e.live
    ensures OwnEntries(e') <==> forall w :: w in e.live && e.live[w] in e.places ==> rows.instance(e.live[w]) == w
  {
    if forall w :: w in e.live && e.live[w] in e.places ==> rows.instance(e.live[w]) == w {
      forall w | w in e'.live
        ensures OwnEntry(e', w)
      {
      }
    }
    if OwnEntries(e') {
      forall w | w in e.live && e.live[w] in e.places
        ensures rows.instance(e.live[w]) == w
      {
        assert OwnEntry(e', w);
      }
    }
  }

  // ---- a run for each cause ------------------------------------------------------------------------

  /** The engine at the start, with one active schedule. */
  function StartWith(s: Schedule): Engine { Engine(map[s.id := Unplaced], map[]) }

  /** What the database says of one schedule without an instance. */
  function NoInstances(s: Schedule): Rows { Rows(_ => s, _ => 0, _ => 0, _ => true) }

  function PendingIn(s: Schedule): Engine { Engine(map[s.id := Pending(s, 0)], map[]) }

  lemma LoadsPending(s: Schedule)
    ensures AtStart(StartWith(s)) && NextEngine(StartWith(s), Load(NoInstances(s)), PendingIn(s))
  {
  }

  /** An instance is resumed, and ends before the schedules are loaded. */
  lemma ResumedEndsAtOnce(s: Schedule, w: nat, success: bool, next: int) returns (es: seq<Engine>, evs: seq<Event>)
    requires w > 0
    ensures IsEngineRun(es, evs) && es[0] == StartWith(s) && evs == [Join(w, s.id)] && w in es[1].live
    ensures !exists e' :: NextEngine(es[1], End(w, success, next), e')
  {
    evs := [Join(w, s.id)];
    es := [StartWith(s), StartWith(s).(live := map[w := s.id])];
    StopIsFatal(es[1], w, success, next);
  }

  /** An instance is resumed, but its row is gone when the schedules are loaded: the schedule is pending beside it. */
  lemma ResumedWithoutRow(s: Schedule, w: nat, success: bool, next: int) returns (es: seq<Engine>, evs: seq<Event>)
    requires w > 0
    ensures IsEngineRun(es, evs) && es[0] == StartWith(s) && evs == [Join(w, s.id), Load(NoInstances(s))]
    ensures w in es[2].live && s.id in es[2].places && es[2].places[s.id].Pending?
    ensures !exists e' :: NextEngine(es[2], End(w, success, next), e')
  {
    evs := [Join(w, s.id), Load(NoInstances(s))];
    var live := map[w := s.id];
    es := [StartWith(s), StartWith(s).(live := live), PendingIn(s).(live := live)];
    StopIsFatal(es[2], w, success, next);
  }

  /** An instance is migrated to a node on which its schedule is pending. */
  lemma MigratedEnds(s: Schedule, w: nat, success: bool, next: int) returns (es: seq<Engine>, evs: seq<Event>)
    requires w > 0
    ensures IsEngineRun(es, evs) && es[0] == StartWith(s) && evs == [Load(NoInstances(s)), Join(w, s.id)]
    ensures w in es[2].live && !exists e' :: NextEngine(es[2], End(w, success, next), e')
  {
    LoadsPending(s);
    evs := [Load(NoInstances(s)), Join(w, s.id)];
    es := [StartWith(s), PendingIn(s), PendingIn(s).(live := map[w := s.id])];
    StopIsFatal(es[2], w, success, next);
  }

  /** The reload of a list, with the next time 0 for all. */
  function Read(active: seq<Schedule>): Event { Scheduler(Action.Reload(active, _ => 0, _ => true)) }

  function Starting(s: Schedule, w: Positive): Event { Scheduler(Ring(s.id, true, false, Started(w), 0)) }

  /** A schedule is dropped while its instance runs, and comes back. */
  lemma RestoredEnds(s: Schedule, w: Positive, success: bool, next: int) returns (es: seq<Engine>, evs: seq<Event>)
    ensures IsEngineRun(es, evs) && es[0] == StartWith(s)
    ensures evs == [Load(NoInstances(s)), Starting(s, w), Read([]), Read([s])]
    ensures w in es[4].live && !exists e' :: NextEngine(es[4], End(w, success, next), e')
  {
    LoadsPending(s);
    evs := [Load(NoInstances(s)), Starting(s, w), Read([]), Read([s])];
    var live := map[w as nat := s.id];
    es := [StartWith(s), PendingIn(s), Engine(map[s.id := Running(s, w)], live), Engine(map[], live),
           PendingIn(s).(live := live)];
    assert Ids([]) == [] && Ids([s]) == [s.id];
    assert NextEngine(es[1], evs[1], es[2]);
    assert NextEngine(es[2], evs[2], es[3]);
    assert NextEngine(es[3], evs[3], es[4]);
    StopIsFatal(es[4], w, success, next);
  }
}
