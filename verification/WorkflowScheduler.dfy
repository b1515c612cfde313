/** The workflow scheduler (src/Schedule/WorkflowScheduler.cpp): parallel arrays of schedules, and a list of alarms. */
module WorkflowScheduler {
  import opened StableOrder
  import opened WorkflowPlaces

  /** The binary search; -1 if the id is not there. */
  method Lookup(ids: array<nat>, numIds: nat, id: nat) returns (r: int)
    requires numIds == ids.Length && Ascending(ids[..])
    ensures if id in ids[..] then 0 <= r < ids.Length && ids[r] == id else r == -1
  {
    var begin, end := 0, numIds as int - 1;
    while begin <= end
      invariant 0 <= begin <= end + 1 <= ids.Length
      invariant forall k :: 0 <= k < begin || end < k < ids.Length ==> ids[k] != id
      decreases end - begin
    {
      var middle := (end + begin) / 2;
      assert ids[..][middle] == ids[middle];
      if ids[middle] == id {
        return middle;
      }
      if ids[middle] < id {
        assert forall k :: begin <= k < middle ==> ids[..][k] < ids[..][middle];
        begin := middle + 1;
      } else {
        assert forall k :: middle < k <= end ==> ids[..][middle] < ids[..][k];
        end := middle - 1;
      }
    }
    return -1;
  }

  ghost predicate ActiveList(active: seq<Schedule>) { Ascending(Ids(active)) }

  /** The schedules without a place: those of the list just read. */
  function NonePlaced(active: seq<Schedule>): (m: Places)
    ensures forall id :: id in m <==> id in Ids(active)
    ensures forall id :: id in m ==> m[id] == Unplaced
  {
    map id | id in Ids(active) :: Unplaced
  }

  ghost predicate AllUnplaced(m: Places) { forall id :: id in m ==> m[id] == Unplaced }

  ghost predicate OneRowEach(rows: seq<(Schedule, nat)>, m: Places) {
    && (forall i, j :: 0 <= i < j < |rows| ==> rows[i].0.id != rows[j].0.id)
    && (forall id :: id in m <==> id in RowIds(rows))
  }

  function RowIds(rows: seq<(Schedule, nat)>): (ids: seq<nat>)
    ensures |ids| == |rows| && forall i :: 0 <= i < |rows| ==> ids[i] == rows[i].0.id
  {
    seq(|rows|, i requires 0 <= i < |rows| => rows[i].0.id)
  }

  /** Where a row of the database puts its schedule. */
  function RowTarget(row: (Schedule, nat), next: nat -> int, known: nat -> bool): Place {
    if row.1 != 0 then Running(row.0, row.1) else if known(row.0.id) then Pending(row.0, next(row.0.id)) else Unplaced
  }

  function RowTargets(rows: seq<(Schedule, nat)>, next: nat -> int, known: nat -> bool): (ps: seq<Place>)
    ensures |ps| == |rows| && forall i :: 0 <= i < |rows| ==> ps[i] == RowTarget(rows[i], next, known)
  {
    seq(|rows|, i requires 0 <= i < |rows| => RowTarget(rows[i], next, known))
  }

  function ReloadTargets(m: Places, active: seq<Schedule>, next: nat -> int, known: nat -> bool): (ps: seq<Place>)
    ensures |ps| == |active|
    ensures forall i :: 0 <= i < |active| ==> ps[i] == AfterReload(m, active[i], next(active[i].id), known(active[i].id))
  {
    seq(|active|, i requires 0 <= i < |active| => AfterReload(m, active[i], next(active[i].id), known(active[i].id)))
  }

  /** The first k of the ids have the place meant for them, the others none. */
  ghost predicate Filled(ids: seq<nat>, targets: seq<Place>, k: nat, m: Places) {
    && |targets| == |ids|
    && (forall i, j :: 0 <= i < j < |ids| ==> ids[i] != ids[j])
    && (forall id :: id in m <==> id in ids)
    && forall i :: 0 <= i < |ids| ==> m[ids[i]] == if i < k then targets[i] else Unplaced
  }

  lemma FreeSlots(active: seq<Schedule>, executing: seq<Option<Schedule>>, instances: seq<nat>)
    requires ActiveList(active) && |executing| == |instances| == |active|
    requires forall k :: 0 <= k < |active| ==> executing[k] == None && instances[k] == 0
    ensures SlotsAgree(Ids(active), executing, instances, NonePlaced(active)) && ListAgrees([], NonePlaced(active))
  {
  }

  lemma NoneFilled(active: seq<Schedule>, targets: seq<Place>)
    requires ActiveList(active) && |targets| == |active|
    ensures Filled(Ids(active), targets, 0, NonePlaced(active))
  {
    var ids := Ids(active);
    assert forall i, j :: 0 <= i < j < |ids| ==> ids[i] < ids[j];
  }

  lemma FillOne(ids: seq<nat>, targets: seq<Place>, k: nat, m: Places)
    requires Filled(ids, targets, k, m) && k < |ids|
    ensures ids[k] in m && m[ids[k]] == Unplaced && Filled(ids, targets, k + 1, m[ids[k] := targets[k]])
  {
    assert ids[k] in ids;
  }

  lemma AllReloaded(m: Places, active: seq<Schedule>, next: nat -> int, known: nat -> bool, m': Places)
    requires Filled(Ids(active), ReloadTargets(m, active, next, known), |active|, m')
    ensures IsReload(m, active, next, known, m') && m'.Keys == set s | s in active :: s.id
    ensures forall s :: s in active ==>
              m'[s.id] == if s.id in m && m[s.id].Running? && m[s.id].instance != 0 then Running(s, m[s.id].instance)
                          else if known(s.id) then Pending(s, next(s.id)) else Unplaced
  {
    forall s | s in active
      ensures s.id in m' && m'[s.id] == AfterReload(m, s, next(s.id), known(s.id))
    {
      var i :| 0 <= i < |active| && active[i] == s;
      assert Ids(active)[i] == s.id;
    }
  }

  lemma RowsFill(rows: seq<(Schedule, nat)>, next: nat -> int, known: nat -> bool, m: Places)
    requires AllUnplaced(m) && OneRowEach(rows, m)
    ensures Filled(RowIds(rows), RowTargets(rows, next, known), 0, m)
  {
    var ids := RowIds(rows);
    assert forall i :: 0 <= i < |ids| ==> ids[i] in m;
  }

  lemma AllRows(rows: seq<(Schedule, nat)>, next: nat -> int, known: nat -> bool, m: Places)
    requires Filled(RowIds(rows), RowTargets(rows, next, known), |rows|, m)
    ensures forall r :: r in rows ==> r.0.id in m && m[r.0.id] == RowTarget(r, next, known)
  {
    var ids := RowIds(rows);
    forall r | r in rows
      ensures r.0.id in m && m[r.0.id] == RowTarget(r, next, known)
    {
      var i :| 0 <= i < |rows| && rows[i] == r;
      assert ids[i] == r.0.id;
    }
  }

  class WorkflowScheduler {
    var wfsIds: array<nat>
    var wfsInstances: array<nat>
    var wfsExecuting: array<Option<Schedule>>
    var numWfs: nat
    var alarms: seq<Alarm>
    ghost var places: Places

    ghost predicate SlotsValid()
      reads `wfsIds, `wfsInstances, `wfsExecuting, `numWfs, `places, wfsIds, wfsInstances, wfsExecuting
    {
      && numWfs == wfsIds.Length == wfsInstances.Length == wfsExecuting.Length
      && wfsIds != wfsInstances
      && SlotsAgree(wfsIds[..], wfsExecuting[..], wfsInstances[..], places)
    }

    /** Arrays and list stand for the places. */
    ghost predicate Valid()
      reads this, wfsIds, wfsInstances, wfsExecuting
    {
      SlotsValid() && ListAgrees(alarms, places)
    }

    constructor (active: seq<Schedule>)
      requires ActiveList(active)
      ensures Valid() && places == NonePlaced(active) && alarms == []
      ensures fresh(wfsIds) && fresh(wfsInstances) && fresh(wfsExecuting)
    {
      wfsIds, wfsInstances, wfsExecuting := new nat[0], new nat[0], new Option<Schedule>[0];
      alarms := [];
      new;
      Init(active);
    }

    /** Arrays for a new list, all slots free. */
    method Init(active: seq<Schedule>)
      requires ActiveList(active) && alarms == []
      modifies `wfsIds, `wfsInstances, `wfsExecuting, `numWfs, `places
      ensures Valid() && places == NonePlaced(active)
      ensures fresh(wfsIds) && fresh(wfsInstances) && fresh(wfsExecuting)
    {
      hide SlotsAgree, ListAgrees;
      var n := |active|;
      var ids := new nat[n];
      for i := 0 to n
        invariant forall k :: 0 <= k < i ==> ids[k] == active[k].id
      {
        ids[i] := active[i].id;
      }
      var instances := new nat[n](_ => 0);
      var executing := new Option<Schedule>[n](_ => None);
      numWfs, wfsIds, wfsInstances, wfsExecuting := n, ids, instances, executing;
      places := NonePlaced(active);
      FreeSlots(active, executing[..], instances[..]);
      assert wfsIds[..] == Ids(active);
    }

    lemma Parts()
      requires Valid()
      ensures SlotsValid() && numWfs == wfsIds.Length == wfsInstances.Length == wfsExecuting.Length
    {
    }

    method LookupWfs(id: nat) returns (r: int)
      requires SlotsValid()
      ensures if id in places then 0 <= r < numWfs && wfsIds[r] == id else r == -1
    {
      r := Lookup(wfsIds, numWfs, id);
      NoSlot(wfsIds[..], wfsExecuting[..], wfsInstances[..], places, id);
    }

    /** Fill or free slot k; the schedule of the slot is not in the list before or after. */
    method SetSlot(k: nat, executing: Option<Schedule>, instance: nat, ghost place: Place)
      requires Valid() && k < numWfs && SlotAgrees(place, executing, instance) && OwnId(wfsIds[k], place)
      requires wfsIds[k] in places && !places[wfsIds[k]].Pending? && !place.Pending?
      modifies wfsInstances, wfsExecuting, `places
      ensures Valid() && places == old(places)[wfsIds[k] := place]
      ensures wfsExecuting[k] == executing && wfsInstances[k] == instance
    {
      hide SlotsAgree, ListAgrees, SlotAgrees, OwnId;
      SlotChanges(wfsIds[..], wfsExecuting[..], wfsInstances[..], places, k, place, executing, instance);
      ListIgnores(alarms, places, wfsIds[k], place);
      wfsInstances[k] := instance;
      wfsExecuting[k] := executing;
      assert wfsExecuting[..] == old(wfsExecuting[..])[k := executing];
      assert wfsInstances[..] == old(wfsInstances[..])[k := instance];
      places := places[wfsIds[k] := place];
    }

    lemma SlotHolds(k: nat)
      requires SlotsValid() && k < numWfs
      ensures wfsIds[k] in places && SlotAgrees(places[wfsIds[k]], wfsExecuting[k], wfsInstances[k])
      ensures OwnId(wfsIds[k], places[wfsIds[k]])
    {
      SlotOf(wfsIds[..], wfsExecuting[..], wfsInstances[..], places, k);
    }

    /** The list gains an alarm; a slot that is free stays so. */
    method InsertAlarm(s: Schedule, at: int)
      requires Valid() && s.id in places && !places[s.id].Pending? && !places[s.id].Running?
      modifies `alarms, `places
      ensures Valid() && places == old(places)[s.id := Pending(s, at)]
    {
      hide SlotsAgree, ListAgrees, Insert;
      ListGains(alarms, places, s, at);
      SlotFree(s.id, Pending(s, at));
      alarms := Insert(ByTime(), alarms, Alarm(at, s));
      places := places[s.id := Pending(s, at)];
    }

    lemma SlotFree(id: nat, p: Place)
      requires SlotsValid() && id in places && !places[id].Running? && !p.Running? && OwnId(id, p)
      ensures SlotsAgree(wfsIds[..], wfsExecuting[..], wfsInstances[..], places[id := p])
    {
    }

    /**
     Place a schedule: with no instance it is put in the list, unless its workflow is not known, which is an exception;
     with one its slot is filled. A schedule with an instance that is not among the active ones is left out.
     */
    method ScheduleWorkflow(s: Schedule, instance: nat, nextTime: int, known: bool) returns (thrown: bool)
      requires Valid() && (s.id in places ==> !places[s.id].Pending? && !places[s.id].Running?)
      requires instance == 0 ==> s.id in places
      modifies `alarms, `places, wfsInstances, wfsExecuting
      ensures Valid() && thrown == (instance == 0 && !known)
      ensures places == if thrown || s.id !in old(places) then old(places)
                        else old(places)[s.id := if instance == 0 then Pending(s, nextTime) else Running(s, instance)]
    {
      thrown := false;
      if instance == 0 {
        if !known {
          return true;
        }
        InsertAlarm(s, nextTime);
      } else {
        var i := LookupWfs(s.id);
        if i != -1 {
          SetSlot(i, Some(s), instance, Running(s, instance));
        }
      }
    }

    /** An instance has ended. `nextTime` is the next time of its schedule. */
    method ScheduledWorkflowInstanceStop(id: nat, success: bool, nextTime: int)
      requires Valid() && (id in places ==> places[id].Running?)
      modifies this, wfsInstances, wfsExecuting
      ensures Valid() && Next(old(places), Stop(id, success, nextTime), places)
      ensures places == if id !in old(places) then old(places)
                        else var s := old(places)[id].schedule;
                             old(places)[id := if success || s.onFailure == CONTINUE then Pending(s, nextTime)
                                               else Suspended]
      ensures wfsIds == old(wfsIds) && wfsInstances == old(wfsInstances) && wfsExecuting == old(wfsExecuting)
    {
      hide Valid, SlotsValid, ListAgrees;
      Parts();
      var i := LookupWfs(id);
      if i == -1 {
        return;
      }
      SlotHolds(i);
      var s := wfsExecuting[i].value;
      SetSlot(i, None, 0, Suspended);
      if success || s.onFailure == CONTINUE {
        var thrown := ScheduleWorkflow(s, 0, nextTime, true);
        assert places == old(places)[id := Pending(s, nextTime)];
      }
    }

    /** The alarm leaves the list before it is handled. */
    method ShiftAlarm() returns (s: Schedule)
      requires Valid() && alarms != []
      modifies `alarms, `places
      ensures Valid() && s == old(alarms)[0].schedule && s.id in old(places) && old(places)[s.id].Pending?
      ensures old(places)[s.id].schedule == s && old(places)[s.id].at == old(alarms)[0].scheduledAt
      ensures forall j :: j in old(places) && old(places)[j].Pending? ==> old(places)[s.id].at <= old(places)[j].at
      ensures places == old(places)[s.id := Unplaced]
    {
      s := alarms[0].schedule;
      assert alarms[0] in alarms;
      ListLoses(alarms, places, Unplaced);
      SlotFree(s.id, Unplaced);
      FirstIsLeast();
      alarms := alarms[1..];
      places := places[s.id := Unplaced];
    }

    lemma FirstIsLeast()
      requires Valid() && alarms != []
      ensures forall j :: j in places && places[j].Pending? ==> alarms[0].scheduledAt <= places[j].at
    {
      forall j | j in places && places[j].Pending?
        ensures alarms[0].scheduledAt <= places[j].at
      {
        var i :| 0 <= i < |alarms| && alarms[i] == Alarm(places[j].at, places[j].schedule);
        assert alarms[0].scheduledAt <= alarms[i].scheduledAt;
      }
    }

    /** The first alarm of the list goes off; the arguments are what the cluster and the new instance answer. */
    method EventRemoved(elected: bool, runningElsewhere: bool, start: Start, nextTime: int) returns (ghost id: nat)
      requires Valid() && alarms != []
      modifies this, wfsInstances, wfsExecuting
      ensures Valid() && id == old(alarms)[0].schedule.id
      ensures Next(old(places), Ring(id, elected, runningElsewhere, start, nextTime), places)
      ensures var s := old(alarms)[0].schedule;
              places == old(places)[id :=
                if (s.node == "any" && (!elected || runningElsewhere)) || start == Refused then Pending(s, nextTime)
                else Running(s, if start == NoWorkflow then 0 else start.instance)]
      ensures wfsIds == old(wfsIds) && wfsInstances == old(wfsInstances) && wfsExecuting == old(wfsExecuting)
    {
      hide Valid, SlotsValid;
      var s := ShiftAlarm();
      id := s.id;
      if s.node == "any" {
        if !elected {
          var thrown := ScheduleWorkflow(s, 0, nextTime, true);
          assert places == old(places)[id := Pending(s, nextTime)];
          return;
        }
        if runningElsewhere {
          var thrown := ScheduleWorkflow(s, 0, nextTime, true);
          assert places == old(places)[id := Pending(s, nextTime)];
          return;
        }
      }
      StartInstance(s, start, nextTime);
      assert places == old(places)[id := AfterAlarm(s, elected, runningElsewhere, start, nextTime)];
    }

    /** Mark the schedule as running, then create the instance: what comes of it. */
    method StartInstance(s: Schedule, start: Start, nextTime: int)
      requires Valid() && s.id in places && places[s.id] == Unplaced
      modifies this, wfsInstances, wfsExecuting
      ensures Valid()
      ensures places == old(places)[s.id := match start case NoWorkflow => Running(s, 0)
                                                        case Refused => Pending(s, nextTime)
                                                        case Started(instance) => Running(s, instance)]
      ensures wfsIds == old(wfsIds) && wfsInstances == old(wfsInstances) && wfsExecuting == old(wfsExecuting)
    {
      hide Valid, SlotsValid;
      Parts();
      var i := LookupWfs(s.id);
      if i != -1 {
        SetSlot(i, Some(s), 0, Running(s, 0));
      }
      match start {
        case NoWorkflow =>
        case Refused =>
          ScheduledWorkflowInstanceStop(s.id, true, nextTime);
          assert places == old(places)[s.id := Pending(s, nextTime)];
        case Started(instance) =>
          if i != -1 {
            SetSlot(i, Some(s), instance, Running(s, instance));
            assert places == old(places)[s.id := Running(s, instance)];
          }
      }
    }

    /** Read the list of active schedules anew; `next` gives their next times, `known` whether their workflows are. */
    method Reload(active: seq<Schedule>, next: nat -> int, known: nat -> bool)
      requires Valid() && ActiveList(active)
      modifies this
      ensures Valid() && Next(old(places), Action.Reload(active, next, known), places)
      ensures places.Keys == set s | s in active :: s.id
      ensures forall s :: s in active ==>
                places[s.id] == if s.id in old(places) && old(places)[s.id].Running? && old(places)[s.id].instance != 0
                                then Running(s, old(places)[s.id].instance)
                                else if known(s.id) then Pending(s, next(s.id)) else Unplaced
      ensures fresh(wfsIds) && fresh(wfsInstances) && fresh(wfsExecuting)
    {
      hide Valid, SlotsValid, SlotsAgree, IsReload, Filled, AfterReload;
      Parts();
      ghost var m := places;
      SlotsOf();
      alarms := [];
      var backupIds, backupInstances, backupExecuting := wfsIds, wfsInstances, wfsExecuting;
      var backupNum := numWfs;
      Init(active);
      ghost var targets := ReloadTargets(m, active, next, known);
      NoneFilled(active, targets);
      for i := 0 to |active|
        invariant Valid() && fresh(wfsIds) && fresh(wfsInstances) && fresh(wfsExecuting)
        invariant Filled(Ids(active), targets, i, places)
      {
        FillOne(Ids(active), targets, i, places);
        ReloadOne(backupIds, backupInstances, backupExecuting, backupNum, m, active[i], next(active[i].id), known(active[i].id));
      }
      AllReloaded(m, active, next, known, places);
    }

    lemma SlotsOf()
      requires Valid()
      ensures SlotsAgree(wfsIds[..], wfsExecuting[..], wfsInstances[..], places)
    {
    }

    /** One schedule of the new list, with the arrays and the places from before. */
    method ReloadOne(ids: array<nat>, instances: array<nat>, executing: array<Option<Schedule>>, num: nat,
                     ghost m: Places, s: Schedule, nextTime: int, known: bool)
      requires num == ids.Length == instances.Length == executing.Length
      requires SlotsAgree(ids[..], executing[..], instances[..], m)
      requires Valid() && s.id in places && places[s.id] == Unplaced
      modifies `alarms, `places, wfsInstances, wfsExecuting
      ensures Valid() && places == old(places)[s.id := AfterReload(m, s, nextTime, known)]
    {
      hide Valid;
      var k := Lookup(ids, num, s.id);
      NoSlot(ids[..], executing[..], instances[..], m, s.id);
      if k != -1 { SlotOf(ids[..], executing[..], instances[..], m, k); }
      var thrown;
      if k == -1 || executing[k] == None {
        thrown := ScheduleWorkflow(s, 0, nextTime, known);
      } else {
        thrown := ScheduleWorkflow(s, instances[k], nextTime, known);
      }
      assert thrown ==> old(places)[s.id := Unplaced] == old(places);
    }

    /** The start of the scheduler: each row has an active schedule and its running instance, or 0. */
    method LoadState(rows: seq<(Schedule, nat)>, next: nat -> int, known: nat -> bool)
      requires Valid() && AllUnplaced(places) && OneRowEach(rows, places)
      modifies `alarms, `places, wfsInstances, wfsExecuting
      ensures Valid() && places.Keys == old(places).Keys
      ensures forall r :: r in rows ==>
                r.0.id in places
                && places[r.0.id] == if r.1 != 0 then Running(r.0, r.1)
                                     else if known(r.0.id) then Pending(r.0, next(r.0.id)) else Unplaced
    {
      hide Valid, SlotsValid, Filled, OneRowEach;
      RowsFill(rows, next, known, places);
      for i := 0 to |rows|
        invariant Valid() && wfsInstances == old(wfsInstances) && wfsExecuting == old(wfsExecuting)
        invariant Filled(RowIds(rows), RowTargets(rows, next, known), i, places) && places.Keys == old(places).Keys
      {
        FillOne(RowIds(rows), RowTargets(rows, next, known), i, places);
        ghost var before := places;
        var thrown := ScheduleWorkflow(rows[i].0, rows[i].1, next(rows[i].0.id), known(rows[i].0.id));
        assert thrown ==> before[rows[i].0.id := Unplaced] == before;
      }
      AllRows(rows, next, known, places);
    }
  }
}
