/**
 Where the workflow scheduler (src/Schedule/WorkflowScheduler.cpp) has each active schedule, and its steps: what the
 arrays and the event list of the scheduler stand for.
 */
module WorkflowPlaces {
  import opened StableOrder

  datatype OnFailure = CONTINUE | SUSPEND

  datatype Schedule = Schedule(id: nat, node: string, onFailure: OnFailure)

  datatype Option<T> = None | Some(value: T)

  /** An event of the list, with the schedule it is to start. */
  datatype Alarm = Alarm(scheduledAt: int, schedule: Schedule)

  /** An entry marked as running has instance 0 if the instance died before it had its workflow. */
  datatype Place =
    | Unplaced
    | Pending(schedule: Schedule, at: int)
    | Running(schedule: Schedule, instance: nat)
    | Suspended

  type Places = map<nat, Place>

  type Positive = n: int | 0 < n witness 1

  /** How an attempt to create and start a workflow instance ends. */
  datatype Start =
    | NoWorkflow            // before the workflow text is loaded: the destructor reports no stop
    | Refused               // with the text loaded: the destructor reports a stop without errors
    | Started(instance: Positive)

  function ByTime(): Alarm -> int { (a: Alarm) => a.scheduledAt }

  /** A schedule under its own id. */
  predicate OwnId(id: nat, p: Place) {
    (p.Pending? || p.Running?) ==> p.schedule.id == id
  }

  // ---- the two representations ---------------------------------------------------------------------

  /** The event list has exactly one event for each pending schedule, and no other; in the order of time. */
  ghost predicate ListAgrees(list: seq<Alarm>, m: Places) {
    && Sorted(ByTime(), list)
    && (forall i, j :: 0 <= i < j < |list| ==> list[i].schedule.id != list[j].schedule.id)
    && (forall a :: a in list ==> a.schedule.id in m && m[a.schedule.id] == Pending(a.schedule, a.scheduledAt))
    && (forall id :: id in m && m[id].Pending? ==> Alarm(m[id].at, m[id].schedule) in list)
  }

  /** One slot of the arrays: filled exactly for a running schedule. */
  predicate SlotAgrees(p: Place, executing: Option<Schedule>, instance: nat) {
    if p.Running? then executing == Some(p.schedule) && instance == p.instance else executing == None && instance == 0
  }

  predicate Ascending(ids: seq<nat>) { forall i, j :: 0 <= i < j < |ids| ==> ids[i] < ids[j] }

  /** The arrays have exactly one slot for each active schedule. */
  ghost predicate SlotsAgree(ids: seq<nat>, executing: seq<Option<Schedule>>, instances: seq<nat>, m: Places) {
    && Ascending(ids) && |executing| == |instances| == |ids|
    && (forall k :: 0 <= k < |ids| ==> ids[k] in m && SlotAgrees(m[ids[k]], executing[k], instances[k]))
    && (forall id :: id in m ==> id in ids && OwnId(id, m[id]))
  }

  lemma {:induction false} InsertDistinct(list: seq<Alarm>, a: Alarm)
    requires forall i, j :: 0 <= i < j < |list| ==> list[i].schedule.id != list[j].schedule.id
    requires forall b :: b in list ==> b.schedule.id != a.schedule.id
    ensures var r := Insert(ByTime(), list, a);
            (forall i, j :: 0 <= i < j < |r| ==> r[i].schedule.id != r[j].schedule.id)
            && forall b :: b in r <==> b == a || b in list
  {
    if list != [] && list[0].scheduledAt <= a.scheduledAt {
      InsertDistinct(list[1..], a);
      assert list == [list[0]] + list[1..];
      var r := Insert(ByTime(), list, a);
      forall i, j | 0 <= i < j < |r|
        ensures r[i].schedule.id != r[j].schedule.id
      {
        if i == 0 { assert r[j] in Insert(ByTime(), list[1..], a); }
      }
    }
  }

  /** A schedule that is not pending becomes so. */
  lemma ListGains(list: seq<Alarm>, m: Places, s: Schedule, at: int)
    requires ListAgrees(list, m) && s.id in m && !m[s.id].Pending?
    ensures ListAgrees(Insert(ByTime(), list, Alarm(at, s)), m[s.id := Pending(s, at)])
  {
    hide Insert;
    InsertDistinct(list, Alarm(at, s));
    InsertSorted(ByTime(), list, Alarm(at, s));
  }

  /** The first of the list leaves it. */
  lemma ListLoses(list: seq<Alarm>, m: Places, p: Place)
    requires ListAgrees(list, m) && list != [] && !p.Pending? && forall id :: id in m ==> OwnId(id, m[id])
    ensures list[0].schedule.id in m && ListAgrees(list[1..], m[list[0].schedule.id := p])
  {
    var id := list[0].schedule.id;
    assert list == [list[0]] + list[1..];
    forall i, j | 0 <= i < j < |list[1..]|
      ensures list[1..][i].schedule.id != list[1..][j].schedule.id
    {
      assert list[i + 1].schedule.id != list[j + 1].schedule.id;
    }
    forall a | a in list[1..]
      ensures a.schedule.id != id
    {
      var i :| 0 <= i < |list| - 1 && list[1..][i] == a;
      assert list[i + 1] == a;
    }
    forall j | j in m && m[j].Pending? && j != id
      ensures Alarm(m[j].at, m[j].schedule) in list[1..]
    {
      assert m[j].schedule.id == j;
    }
  }

  /** What happens to schedules that are not pending is nothing to the list. */
  lemma ListIgnores(list: seq<Alarm>, m: Places, id: nat, p: Place)
    requires ListAgrees(list, m) && !(id in m && m[id].Pending?) && !p.Pending?
    ensures ListAgrees(list, m[id := p])
  {
  }

  lemma SlotChanges(ids: seq<nat>, executing: seq<Option<Schedule>>, instances: seq<nat>, m: Places, k: nat,
                    p: Place, e: Option<Schedule>, w: nat)
    requires SlotsAgree(ids, executing, instances, m) && k < |ids| && SlotAgrees(p, e, w) && OwnId(ids[k], p)
    ensures SlotsAgree(ids, executing[k := e], instances[k := w], m[ids[k] := p])
  {
    var m' := m[ids[k] := p];
    forall j | 0 <= j < |ids|
      ensures ids[j] in m' && SlotAgrees(m'[ids[j]], executing[k := e][j], instances[k := w][j])
    {
      assert j != k ==> ids[j] != ids[k];
    }
  }

  lemma SlotOf(ids: seq<nat>, executing: seq<Option<Schedule>>, instances: seq<nat>, m: Places, k: nat)
    requires SlotsAgree(ids, executing, instances, m) && k < |ids|
    ensures ids[k] in m && SlotAgrees(m[ids[k]], executing[k], instances[k]) && OwnId(ids[k], m[ids[k]])
  {
  }

  lemma NoSlot(ids: seq<nat>, executing: seq<Option<Schedule>>, instances: seq<nat>, m: Places, id: nat)
    requires SlotsAgree(ids, executing, instances, m)
    ensures id in m <==> id in ids
  {
  }

  lemma NotListed(list: seq<Alarm>, m: Places, id: nat)
    requires ListAgrees(list, m) && (id in m ==> !m[id].Pending?)
    ensures forall i :: 0 <= i < |list| ==> list[i].schedule.id != id
  {
    forall i | 0 <= i < |list|
      ensures list[i].schedule.id != id
    {
      assert list[i] in list;
    }
  }

  /**
   Every active schedule is in exactly one place: the counts of its events and of its slots in use never add up to
   more than one, and to nothing only if it is suspended or not placed yet.
   */
  lemma ExactlyOnePlace(list: seq<Alarm>, ids: seq<nat>, executing: seq<Option<Schedule>>, instances: seq<nat>,
                        m: Places, k: nat)
    requires ListAgrees(list, m) && SlotsAgree(ids, executing, instances, m) && k < |ids|
    ensures var events := set i | 0 <= i < |list| && list[i].schedule.id == ids[k] :: i;
            |events| + (if executing[k].Some? then 1 else 0)
              == if m[ids[k]].Pending? || m[ids[k]].Running? then 1 else 0
  {
    SlotOf(ids, executing, instances, m, k);
    var id := ids[k];
    var events := set i | 0 <= i < |list| && list[i].schedule.id == id :: i;
    if m[id].Pending? {
      var i :| 0 <= i < |list| && list[i] == Alarm(m[id].at, m[id].schedule);
      assert events == {i};
    } else {
      NotListed(list, m, id);
      assert events == {};
    }
  }

  // ---- the steps -----------------------------------------------------------------------------------

  /** Whether an alarm goes on to start an instance: on a node that is not elected, or with one running, it does not. */
  predicate Passes(s: Schedule, elected: bool, runningElsewhere: bool) {
    s.node == "any" ==> elected && !runningElsewhere
  }

  /** Where the alarm of a pending schedule takes it; `next` is the next time of the schedule. */
  function AfterAlarm(s: Schedule, elected: bool, runningElsewhere: bool, start: Start, next: int): Place {
    if !Passes(s, elected, runningElsewhere) then Pending(s, next)
    else match start
      case NoWorkflow => Running(s, 0)
      case Refused => Pending(s, next)
      case Started(instance) => Running(s, instance)
  }

  function AfterStop(s: Schedule, success: bool, next: int): Place {
    if success || s.onFailure == CONTINUE then Pending(s, next) else Suspended
  }

  /** A reload finds an instance that it carries over. */
  predicate Carried(m: Places, id: nat) { id in m && m[id].Running? && m[id].instance != 0 }

  /** Where a reload takes a schedule of the new list; one whose workflow is not known cannot be put into the list. */
  function AfterReload(m: Places, s: Schedule, next: int, known: bool): Place {
    if Carried(m, s.id) then Running(s, m[s.id].instance) else if known then Pending(s, next) else Unplaced
  }

  function Ids(active: seq<Schedule>): (ids: seq<nat>)
    ensures |ids| == |active| && forall i :: 0 <= i < |active| ==> ids[i] == active[i].id
  {
    seq(|active|, i requires 0 <= i < |active| => active[i].id)
  }

  ghost predicate IsReload(m: Places, active: seq<Schedule>, next: nat -> int, known: nat -> bool, m': Places) {
    && (forall id :: id in m' <==> id in Ids(active))
    && forall s :: s in active ==> s.id in m' && m'[s.id] == AfterReload(m, s, next(s.id), known(s.id))
  }

  /** A reload comes with the next times of the schedules, and with which of them have a workflow that is known. */
  datatype Action =
    | Ring(id: nat, elected: bool, runningElsewhere: bool, start: Start, next: int)
    | Stop(id: nat, success: bool, next: int)
    | Reload(active: seq<Schedule>, times: nat -> int, known: nat -> bool)

  /** One step. An instance stops only while its schedule is marked as running it, or has gone. */
  ghost predicate Next(m: Places, a: Action, m': Places) {
    match a
    case Ring(id, elected, runningElsewhere, start, next) =>
      && id in m && m[id].Pending?
      && (forall j :: j in m && m[j].Pending? ==> m[id].at <= m[j].at)
      && m' == m[id := AfterAlarm(m[id].schedule, elected, runningElsewhere, start, next)]
    case Stop(id, success, next) =>
      && (id in m ==> m[id].Running?)
      && m' == if id in m then m[id := AfterStop(m[id].schedule, success, next)] else m
    case Reload(active, times, known) => Ascending(Ids(active)) && IsReload(m, active, times, known, m')
  }

  ghost predicate IsRun(trace: seq<Places>, actions: seq<Action>) {
    |trace| == |actions| + 1 && forall i :: 0 <= i < |actions| ==> Next(trace[i], actions[i], trace[i + 1])
  }

  // ---- which schedules have a place ----------------------------------------------------------------

  /** The schedules that are active after a run, given those before it. */
  function ActiveAfter(ids: set<nat>, actions: seq<Action>): set<nat>
    decreases |actions|
  {
    if actions == [] then ids
    else
      var last := actions[|actions| - 1];
      if last.Reload? then (set id | id in Ids(last.active)) else ActiveAfter(ids, actions[..|actions| - 1])
  }

  /** Over every run: the schedules with an entry are those of the last reload. */
  lemma {:induction false} RunKeepsEntries(trace: seq<Places>, actions: seq<Action>)
    requires IsRun(trace, actions)
    ensures trace[|actions|].Keys == ActiveAfter(trace[0].Keys, actions)
    decreases |actions|
  {
    hide Next, ActiveAfter;
    if actions == [] {
      NoActions(trace[0].Keys);
    } else {
      var n := |actions| - 1;
      RunKeepsEntries(trace[..n + 1], actions[..n]);
      assert Next(trace[n], actions[n], trace[n + 1]);
      ActiveStep(trace[0].Keys, trace[n], actions, trace[n + 1]);
    }
  }

  lemma NoActions(ids: set<nat>)
    ensures ActiveAfter(ids, []) == ids
  {
  }

  lemma ActiveStep(ids: set<nat>, m: Places, actions: seq<Action>, m': Places)
    requires actions != [] && m.Keys == ActiveAfter(ids, actions[..|actions| - 1])
    requires Next(m, actions[|actions| - 1], m')
    ensures m'.Keys == ActiveAfter(ids, actions)
  {
  }

  // ---- neither pending nor running an instance -----------------------------------------------------

  /** The ways to be active without an alarm or an instance: not placed, suspended, or marked as running nothing. */
  datatype Idleness = Lost | Halted | Stuck

  predicate IsIdle(m: Places, id: nat, kind: Idleness) {
    id in m && match kind
      case Lost => m[id] == Unplaced
      case Halted => m[id] == Suspended
      case Stuck => m[id].Running? && m[id].instance == 0
  }

  /** The steps that bring a schedule there. */
  predicate Idles(m: Places, a: Action, id: nat, kind: Idleness) {
    match kind
    case Lost => a.Reload? && id in Ids(a.active) && !a.known(id) && !Carried(m, id)
    case Halted => a.Stop? && a.id == id && !a.success && id in m && m[id].Running? && m[id].schedule.onFailure == SUSPEND
    case Stuck => a.Ring? && a.id == id && a.start == NoWorkflow && id in m && m[id].Pending?
                  && (m[id].schedule.node == "any" ==> a.elected && !a.runningElsewhere)
  }

  /** The steps that take it away: a reload, or the stop of another instance of the schedule. */
  predicate Ends(a: Action, id: nat, kind: Idleness) {
    a.Reload? || (kind == Stuck && a.Stop? && a.id == id)
  }

  lemma IdleStep(m: Places, a: Action, m': Places, id: nat, kind: Idleness)
    requires Next(m, a, m')
    ensures IsIdle(m', id, kind) <==> Idles(m, a, id, kind) || (IsIdle(m, id, kind) && !Ends(a, id, kind))
  {
    if a.Reload? && id in m' {
      var i :| 0 <= i < |a.active| && Ids(a.active)[i] == id;
      assert a.active[i] in a.active;
    }
  }

  /** Some step brought the schedule there, and none since has taken it away. */
  ghost predicate IdledSince(trace: seq<Places>, actions: seq<Action>, id: nat, kind: Idleness)
    requires |trace| == |actions| + 1
  {
    exists i :: IdledAt(trace, actions, id, kind, i)
  }

  ghost predicate IdledAt(trace: seq<Places>, actions: seq<Action>, id: nat, kind: Idleness, i: nat)
    requires |trace| == |actions| + 1
  {
    i < |actions| && Idles(trace[i], actions[i], id, kind) && forall j :: i < j < |actions| ==> !Ends(actions[j], id, kind)
  }

  /**
   Over every run in which no schedule is idle at first: an active schedule is without a place exactly if the last
   reload did not know its workflow and carried no instance over; suspended exactly if an instance of it failed since;
   and marked as running nothing exactly if an alarm has since gone on to an instance that died before it had its
   workflow, and no stop has come for the schedule.
   */
  lemma {:induction false} IdleExactly(trace: seq<Places>, actions: seq<Action>, id: nat, kind: Idleness)
    requires IsRun(trace, actions) && !IsIdle(trace[0], id, kind)
    ensures IsIdle(trace[|actions|], id, kind) <==> IdledSince(trace, actions, id, kind)
    decreases |actions|
  {
    hide Next, IsIdle, Idles, Ends;
    if actions != [] {
      var n := |actions| - 1;
      IdleExactly(trace[..n + 1], actions[..n], id, kind);
      assert Next(trace[n], actions[n], trace[n + 1]);
      IdleStep(trace[n], actions[n], trace[n + 1], id, kind);
      SinceStep(trace, actions, n, id, kind);
    }
  }

  lemma SinceStep(trace: seq<Places>, actions: seq<Action>, n: nat, id: nat, kind: Idleness)
    requires |trace| == n + 2 && |actions| == n + 1
    ensures IdledSince(trace, actions, id, kind)
       <==> Idles(trace[n], actions[n], id, kind)
            || (IdledSince(trace[..n + 1], actions[..n], id, kind) && !Ends(actions[n], id, kind))
  {
    hide Idles, Ends;
    var shorter := trace[..n + 1];
    assert forall i :: 0 <= i < n ==> trace[i] == shorter[i] && actions[i] == actions[..n][i];
    if Idles(trace[n], actions[n], id, kind) {
      assert IdledAt(trace, actions, id, kind, n);
    }
    if IdledSince(shorter, actions[..n], id, kind) && !Ends(actions[n], id, kind) {
      var i :| IdledAt(shorter, actions[..n], id, kind, i);
      assert IdledAt(trace, actions, id, kind, i);
    }
    if i: nat :| IdledAt(trace, actions, id, kind, i) && i < n {
      assert IdledAt(shorter, actions[..n], id, kind, i);
    }
  }

  /**
   Over every run from placed schedules: those with an entry are those of the last reload, and each is pending or
   running an instance, unless it is idle for one of the three reasons.
   */
  lemma RunKeepsPlaces(trace: seq<Places>, actions: seq<Action>)
    requires IsRun(trace, actions) && forall id, kind :: !IsIdle(trace[0], id, kind)
    ensures var m := trace[|actions|];
            && m.Keys == ActiveAfter(trace[0].Keys, actions)
            && forall id :: id in m ==>
                 || m[id].Pending? || Carried(m, id) || IdledSince(trace, actions, id, Lost)
                 || IdledSince(trace, actions, id, Halted) || IdledSince(trace, actions, id, Stuck)
  {
    RunKeepsEntries(trace, actions);
    var m := trace[|actions|];
    forall id | id in m
      ensures || m[id].Pending? || Carried(m, id) || IdledSince(trace, actions, id, Lost)
              || IdledSince(trace, actions, id, Halted) || IdledSince(trace, actions, id, Stuck)
    {
      IdleExactly(trace, actions, id, Lost);
      IdleExactly(trace, actions, id, Halted);
      IdleExactly(trace, actions, id, Stuck);
    }
  }

  /**
   Over every run: until a reload, or a stop for the schedule, a schedule marked as running nothing stays so, and it does
   not ring; the reload makes it pending again, if its workflow is known then.
   */
  lemma {:induction false} StuckUntilReload(trace: seq<Places>, actions: seq<Action>, id: nat)
    requires IsRun(trace, actions) && IsIdle(trace[0], id, Stuck)
    requires forall i :: 0 <= i < |actions| ==> !(actions[i].Stop? && actions[i].id == id)
    requires forall i :: 0 <= i < |actions| - 1 ==> !actions[i].Reload?
    ensures forall i :: 0 <= i < |actions| ==> trace[i].Keys >= {id} && trace[i][id] == trace[0][id]
                                               && !(actions[i].Ring? && actions[i].id == id)
    ensures actions != [] && actions[|actions| - 1].Reload? && id in trace[|actions|] ==>
              trace[|actions|][id] == Unplaced || trace[|actions|][id].Pending?
    ensures actions != [] && !actions[|actions| - 1].Reload? ==>
              id in trace[|actions|] && trace[|actions|][id] == trace[0][id]
    decreases |actions|
  {
    if actions != [] {
      var n := |actions| - 1;
      StuckUntilReload(trace[..n + 1], actions[..n], id);
      assert forall i :: 0 <= i < n ==> actions[i] == actions[..n][i];
      StuckStep(trace[n], actions[n], trace[n + 1], id);
    }
  }

  lemma StuckStep(m: Places, a: Action, m': Places, id: nat)
    requires Next(m, a, m') && IsIdle(m, id, Stuck) && !(a.Stop? && a.id == id)
    ensures !(a.Ring? && a.id == id) && (!a.Reload? ==> id in m' && m'[id] == m[id])
    ensures a.Reload? && id in m' ==> m'[id] == Unplaced || m'[id].Pending?
  {
    if a.Reload? && id in m' {
      var i :| 0 <= i < |a.active| && Ids(a.active)[i] == id;
      assert a.active[i] in a.active;
    }
  }

  // ---- running instances ---------------------------------------------------------------------------

  /** No reload in the run drops a schedule. */
  predicate StaysActive(id: nat, actions: seq<Action>) {
    forall i :: 0 <= i < |actions| && actions[i].Reload? ==> id in Ids(actions[i].active)
  }

  /**
   An instance keeps its schedule marked as running under its own id until it stops, through every alarm of other
   schedules and every reload that keeps the schedule; in particular the schedule does not ring meanwhile.
   */
  lemma {:induction false} RunningUntilStopped(trace: seq<Places>, actions: seq<Action>, id: nat, instance: nat)
    requires IsRun(trace, actions) && id in trace[0] && trace[0][id].Running? && trace[0][id].instance == instance > 0
    requires StaysActive(id, actions) && forall i :: 0 <= i < |actions| ==> !(actions[i].Stop? && actions[i].id == id)
    ensures var m := trace[|actions|]; id in m && m[id].Running? && m[id].instance == instance
    ensures forall i :: 0 <= i < |actions| ==> !(actions[i].Ring? && actions[i].id == id)
    decreases |actions|
  {
    if actions != [] {
      var n := |actions| - 1;
      RunningUntilStopped(trace[..n + 1], actions[..n], id, instance);
      var a := actions[n];
      assert Next(trace[n], a, trace[n + 1]);
      if a.Reload? {
        var i :| 0 <= i < |a.active| && Ids(a.active)[i] == id;
        assert a.active[i] in a.active;
      }
      assert forall i :: 0 <= i < n ==> actions[i] == actions[..n][i];
    }
  }

  // ---- where instances come from -------------------------------------------------------------------

  /** An alarm of the schedule after which it is marked as running, with the given instance or 0. */
  predicate StartsAt(m: Places, a: Action, id: nat, instance: nat) {
    && a.Ring? && a.id == id && id in m && m[id].Pending?
    && (m[id].schedule.node == "any" ==> a.elected && !a.runningElsewhere)
    && match a.start
       case NoWorkflow => instance == 0
       case Refused => false
       case Started(started) => instance == started
  }

  /**
   Over every run, in particular through all reloads: a schedule that is marked as running, and was not at first, has
   been so with this instance since an alarm of it; and on node "any" that alarm came while the node was elected and the
   schedule ran nowhere else.
   */
  lemma {:induction false} RunningSince(trace: seq<Places>, actions: seq<Action>, id: nat) returns (i: nat)
    requires IsRun(trace, actions) && !(id in trace[0] && trace[0][id].Running?)
    requires id in trace[|actions|] && trace[|actions|][id].Running?
    ensures i < |actions| && StartsAt(trace[i], actions[i], id, trace[|actions|][id].instance)
    ensures forall j :: i < j <= |actions| ==>
              id in trace[j] && trace[j][id].Running? && trace[j][id].instance == trace[|actions|][id].instance
    decreases |actions|
  {
    var n := |actions| - 1;
    RunningStep(trace[n], actions[n], trace[n + 1], id);
    if StartsAt(trace[n], actions[n], id, trace[n + 1][id].instance) {
      i := n;
    } else {
      i := RunningSince(trace[..n + 1], actions[..n], id);
    }
  }

  lemma RunningStep(m: Places, a: Action, m': Places, id: nat)
    requires Next(m, a, m') && id in m' && m'[id].Running?
    ensures StartsAt(m, a, id, m'[id].instance)
            || (id in m && m[id].Running? && m[id].instance == m'[id].instance)
  {
    if a.Reload? {
      var i :| 0 <= i < |a.active| && Ids(a.active)[i] == id;
      assert a.active[i] in a.active;
    }
  }

  /** An alarm marks its schedule as running exactly if the start gets that far; on node "any", only where elected. */
  lemma SkippedWhereNotElected(trace: seq<Places>, actions: seq<Action>, i: nat)
    requires IsRun(trace, actions) && i < |actions| && actions[i].Ring?
    ensures var Ring(id, elected, runningElsewhere, start, next) := actions[i];
            && id in trace[i] && trace[i][id].Pending? && id in trace[i + 1]
            && (trace[i + 1][id].Running?
                <==> (trace[i][id].schedule.node == "any" ==> elected && !runningElsewhere) && start != Refused)
            && (!trace[i + 1][id].Running? ==> trace[i + 1][id] == Pending(trace[i][id].schedule, next))
  {
    assert Next(trace[i], actions[i], trace[i + 1]);
  }
}
