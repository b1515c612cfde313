/** The QueuePool class (src/Queue/QueuePool.cpp): queue objects, the tables of task ids and the fork flag. */
module QueuePool {
  import opened NameOrder
  import opened Queue
  import opened QueuePoolSpec
  import QueuePoolRuns
  import QueuePoolTraces

  /** What the first part of DequeueTask decides. */
  datatype Begun = ShuttingDown | MustWait | MayProceed

  class QueuePool {
    var queuesName: map<string, Queue>
    const tidQueue: array<Queue?>
    const tidTask: array<Option<nat>>
    const tidWorkflowInstance: array<Option<nat>>
    const maxPid: nat
    var lastTid: nat
    var forkLocked: bool
    var forkPossible: bool
    var isShuttingDown: bool
    /** notify_one has been called since the forker entered the wait. */
    var notified: bool
    /** The states of the queues and the contents of the three tables. */
    ghost var queues: map<string, QueueState>
    ghost var slots: seq<Slot>

    /** Queues are filed under their names; the three tables are set and cleared together and name live queues. */
    ghost predicate Valid()
      reads this, tidQueue, tidTask, tidWorkflowInstance, queuesName.Values
    {
      QueuesValid() && TablesValid()
    }

    ghost predicate QueuesValid()
      reads `queuesName, `queues, queuesName.Values
    {
      && queues.Keys == queuesName.Keys
      && forall n :: n in queuesName ==> queuesName[n].name == n && queuesName[n].Valid() && queuesName[n].State() == queues[n]
    }

    ghost predicate TablesValid()
      reads `queuesName, `slots, tidQueue, tidTask, tidWorkflowInstance
    {
      && maxPid > 0 && tidQueue.Length == tidTask.Length == tidWorkflowInstance.Length == |slots| == maxPid + 1
      && tidTask != tidWorkflowInstance
      && tidQueue as object != tidTask as object && tidQueue as object != tidWorkflowInstance as object
      && forall i :: 0 <= i <= maxPid ==> SlotValid(slots[i], tidQueue[i], tidTask[i], tidWorkflowInstance[i])
    }

    ghost predicate SlotValid(slot: Slot, q: Queue?, task: Option<nat>, instance: Option<nat>)
      reads `queuesName
    {
      match slot
      case Free => q == null && task == None && instance == None
      case Used(n, t) => n in queuesName && q == queuesName[n] && task == Some(t.element) && instance == Some(t.instance)
    }

    ghost function State(): PoolState
      reads this
    {
      PoolState(queues, slots, lastTid, forkLocked, forkPossible, isShuttingDown)
    }

    /** An empty pool, into which the definitions are read. */
    constructor (maxPid: nat, definitions: seq<Definition>)
      requires 0 < maxPid < WORD - 1
      ensures Valid() && this.maxPid == maxPid && !notified
      ensures State() == QueuePoolTraces.Fresh(maxPid, definitions).p
    {
      this.maxPid := maxPid;
      lastTid := 0;
      tidQueue := new Queue?[maxPid + 1](_ => null);
      tidTask := new Option<nat>[maxPid + 1](_ => None);
      tidWorkflowInstance := new Option<nat>[maxPid + 1](_ => None);
      isShuttingDown := false;
      queuesName := map[];
      forkPossible := false;
      forkLocked := false;
      notified := false;
      queues := map[];
      slots := seq(maxPid + 1, _ => Free);
      new;
      QueuePoolTraces.FreshPool(maxPid, definitions);
      hide QueuesValid, TablesValid;
      assert State() == QueuePoolTraces.Initial(maxPid).p;
      RunsAgree(QueuePoolTraces.Initial(maxPid));
      Reload(definitions);
    }

    lemma QueueIs(n: string)
      requires QueuesValid()
      ensures queues.Keys == queuesName.Keys
      ensures n in queuesName ==> queuesName[n].State() == queues[n] && queuesName[n].name == n && queuesName[n].Valid()
    {
    }

    lemma TableSize()
      requires TablesValid()
      ensures |slots| == tidQueue.Length == tidTask.Length == tidWorkflowInstance.Length == maxPid + 1 > 1
    {
    }

    // ---- one queue at a time -----------------------------------------------------------------------

    method EnqueueIn(n: string, task: Task)
      requires QueuesValid() && n in queuesName
      modifies `queues, queuesName[n]
      ensures QueuesValid() && queues == old(queues[n := queues[n].Enqueue(task)])
    {
      queuesName[n].EnqueueTask(task);
      queues := queues[n := queues[n].Enqueue(task)];
    }

    method DequeueFrom(n: string) returns (task: Option<Task>)
      requires QueuesValid() && n in queuesName
      modifies `queues, queuesName[n]
      ensures QueuesValid()
      ensures if old(queues[n].Locked()) then task == None && queues == old(queues)
              else task == Some(old(queues[n].Next())) && queues == old(queues[n := queues[n].Dequeue()])
    {
      task := queuesName[n].DequeueTask();
      if task.Some? {
        queues := queues[n := queues[n].Dequeue()];
      }
    }

    method ExecuteIn(n: string)
      requires QueuesValid() && n in queuesName
      modifies `queues, queuesName[n]
      ensures QueuesValid() && queues == old(queues[n := queues[n].Execute()])
    {
      queuesName[n].ExecuteTask();
      queues := queues[n := queues[n].Execute()];
    }

    method TerminateIn(n: string)
      requires QueuesValid() && n in queuesName
      modifies `queues, queuesName[n]
      ensures QueuesValid() && queues == old(queues[n := queues[n].Terminate()])
    {
      queuesName[n].TerminateTask();
      queues := queues[n := queues[n].Terminate()];
    }

    method CancelIn(n: string, instance: nat)
      requires QueuesValid() && n in queuesName
      modifies `queues, queuesName[n]
      ensures QueuesValid() && queues == old(queues[n := queues[n].Cancel(instance)])
    {
      queuesName[n].CancelTasks(instance);
      queues := queues[n := queues[n].Cancel(instance)];
    }

    /** File a new queue under its name. */
    method AddQueue(q: Queue)
      requires Valid() && q.Valid() && q.name !in queuesName
      modifies `queuesName, `queues
      ensures Valid() && queuesName == old(queuesName)[q.name := q]
      ensures queues == old(queues)[q.name := q.State()]
    {
      queuesName := queuesName[q.name := q];
      queues := queues[q.name := q.State()];
    }

    /** A queue for one host of a dynamic queue. */
    method AddHostQueue(q: Queue, hostName: string)
      requires Valid() && hostName !in queuesName
      modifies `queuesName, `queues
      ensures Valid() && hostName in queuesName && fresh(queuesName[hostName])
      ensures queuesName == old(queuesName)[hostName := queuesName[hostName]]
      ensures queues == old(queues[hostName := HostQueue(q.State())])
    {
      hide QueuesValid, TablesValid;
      var hostQueue := new Queue(q.id, hostName, q.concurrency, q.scheduler, false);
      hostQueue.Remove();
      AddQueue(hostQueue);
    }

    /** Take a queue to which no id belongs out of the pool. */
    method DropQueue(n: string)
      requires Valid() && forall i :: 0 <= i <= maxPid && slots[i].Used? ==> slots[i].queue != n
      modifies `queuesName, `queues
      ensures Valid() && queuesName == old(queuesName) - {n} && queues == old(queues) - {n}
    {
      queuesName := queuesName - {n};
      queues := queues - {n};
    }

    // ---- the fork flag -----------------------------------------------------------------------------

    /** Whether no task may leave any queue. */
    method IsLocked() returns (locked: bool)
      requires QueuesValid()
      ensures locked == AllLocked(queues)
    {
      var names := queuesName.Keys;
      while names != {}
        invariant names <= queuesName.Keys
        invariant forall n :: n in queuesName && n !in names ==> queuesName[n].State().Locked()
        decreases |names|
      {
        var n :| n in names;
        LockedIs(queuesName[n]);
        if !queuesName[n].IsLocked() {
          assert !queues[n].Locked();
          return false;
        }
        names := names - {n};
      }
      return true;
    }

    /** What every call does last. */
    method RefreshFork(wakes: bool)
      requires Valid()
      modifies `forkPossible, `notified
      ensures Valid() && State() == Refresh(old(State()))
      ensures notified == (old(notified) || (wakes && Notifies(State())))
    {
      var locked := IsLocked();
      forkPossible := !locked;
      if wakes && forkLocked && forkPossible {
        notified := true;
      }
    }

    // ---- the calls ---------------------------------------------------------------------------------

    method EnqueueTask(queueName: string, queueHost: string, task: Task) returns (r: Enqueued)
      requires Valid()
      modifies this, queuesName.Values
      ensures Valid() && r == EnqueueResult(old(State()), queueName, queueHost)
      ensures State() == QueuePoolSpec.Enqueue(old(State()), queueName, queueHost, task)
      ensures notified == (old(notified) || (r == Done && Notifies(State())))
    {
      hide AllLocked, CheckQueueName, QueuesValid, TablesValid;
      QueueIs(queueName);
      TableSize();
      if queueName !in queuesName {
        return NoQueue;
      }
      var n := queueName;
      if queuesName[n].dynamic && queueHost != "" {
        n := queueName + "@" + queueHost;
        if n !in queuesName {
          if !CheckQueueName(n) {
            return BadName;
          }
          AddHostQueue(queuesName[queueName], n);
        }
      }
      ghost var q := queues[n];
      EnqueueIn(n, task);
      assert queues == old(queues)[n := q.Enqueue(task)];
      RefreshFork(true);
      r := Done;
    }

    /** DequeueTask up to the wait. */
    method BeginDequeue() returns (r: Begun)
      requires Valid()
      modifies `forkLocked, `notified
      ensures Valid()
      ensures r == if isShuttingDown then ShuttingDown else if forkPossible then MayProceed else MustWait
      ensures State() == if r == MustWait then old(State()).(forkLocked := true) else old(State())
      ensures r == MustWait ==> !notified
    {
      if isShuttingDown {
        return ShuttingDown;
      }
      if !forkPossible {
        forkLocked := true;
        notified := false;
        return MustWait;
      }
      return MayProceed;
    }

    /** DequeueTask behind the wait: the queues are asked in the order of their names. */
    method FinishDequeue() returns (found: bool, queueName: string, task: Option<Task>)
      requires Valid()
      modifies this, queuesName.Values
      ensures Valid() && found == (!old(isShuttingDown) && !AllLocked(old(queues)))
      ensures if old(isShuttingDown) then State() == old(State())
              else if !found then State() == old(State()).(forkLocked := false)
              else queueName == FirstUnlocked(old(queues)) && State() == QueuePoolSpec.Dequeue(old(State()))
                   && task == Some(old(queues)[queueName].Next())
      ensures notified == old(notified)
    {
      hide QueuesValid, TablesValid, AllLocked, FirstUnlocked, UnlockedNames;
      queueName, task := "", None;
      if isShuttingDown {
        return false, "", None;
      }
      forkLocked := false;
      found, queueName, task := AskQueues();
      if found {
        RefreshFork(false);
      }
    }

    method AskQueues() returns (found: bool, queueName: string, task: Option<Task>)
      requires QueuesValid()
      modifies `queues, queuesName.Values
      ensures QueuesValid() && found == !AllLocked(old(queues))
      ensures !found ==> queues == old(queues)
      ensures found ==> queueName == FirstUnlocked(old(queues)) && queueName in queuesName
                        && task == Some(old(queues)[queueName].Next())
                        && queues == old(queues)[queueName := old(queues)[queueName].Dequeue()]
    {
      hide QueuesValid, TablesValid, AllLocked, FirstUnlocked, UnlockedNames;
      queueName, task := "", None;
      QueueIs("");
      var names := queuesName.Keys;
      while names != {}
        invariant names <= queuesName.Keys
        invariant forall n :: n in old(queues) && n !in names ==> old(queues)[n].Locked()
        invariant QueuesValid() && queues == old(queues) && queuesName == old(queuesName)
        decreases |names|
      {
        SomeLeast(names);
        var n :| n in names && IsLeast(n, names);
        task := DequeueFrom(n);
        if task.Some? {
          ChosenIsFirst(old(queues), n, names);
          return true, n, task;
        }
        names := names - {n};
      }
      found := false;
      AllAsked(old(queues));
    }

    /** ExecuteTask. With id 0 an id is allocated; the result is 0 if there is no such queue or no free id. */
    method ExecuteTask(task: Task, queueName: string, taskId: nat) returns (tid: nat)
      requires Valid() && taskId <= maxPid
      modifies this, tidQueue, tidTask, tidWorkflowInstance, queuesName.Values
      ensures Valid() && |old(slots)| > 1
      ensures taskId == 0 ==> (State(), tid) == QueuePoolSpec.Execute(old(State()), queueName, task)
      ensures taskId != 0 ==> State() == QueuePoolSpec.Resume(old(State()), queueName, task, taskId)
      ensures notified == (old(notified) || (old(Registers(State(), queueName, taskId)) && Notifies(State())))
    {
      hide AllLocked, QueuesValid, TablesValid;
      QueueIs(queueName);
      TableSize();
      if queueName !in queuesName {
        return 0;
      }
      tid := taskId;
      if taskId == 0 {
        var found;
        found, tid := AllocateId();
        lastTid := tid;
        if !found {
          return 0;
        }
      }
      SetSlot(tid, queuesName[queueName], task);
      ExecuteIn(queueName);
      RefreshFork(true);
    }

    method AllocateId() returns (found: bool, tid: nat)
      requires TablesValid()
      ensures tid < maxPid < |slots| && (found, tid) == Allocate(slots, lastTid, maxPid, 0)
    {
      hide Allocate;
      var i := 0;
      AllocateStep(slots, lastTid, maxPid, i);
      while true
        invariant i < maxPid
        invariant Allocate(slots, lastTid, maxPid, i) == Allocate(slots, lastTid, maxPid, 0)
        decreases maxPid - i
      {
        AllocateStep(slots, lastTid, maxPid, i);
        tid := (lastTid + 1 + i) % maxPid;
        assert SlotValid(slots[tid], tidQueue[tid], tidTask[tid], tidWorkflowInstance[tid]);
        if tidWorkflowInstance[tid] == None {
          return true, tid;
        }
        i := i + 1;
        if i == maxPid {
          return false, tid;
        }
      }
    }

    method SetSlot(tid: nat, q: Queue, task: Task)
      requires TablesValid() && tid <= maxPid && q.name in queuesName && queuesName[q.name] == q
      modifies `slots, tidQueue, tidTask, tidWorkflowInstance
      ensures TablesValid() && slots == old(slots)[tid := Used(q.name, task)]
    {
      tidQueue[tid] := q;
      tidTask[tid] := Some(task.element);
      tidWorkflowInstance[tid] := Some(task.instance);
      slots := slots[tid := Used(q.name, task)];
    }

    method ClearSlot(tid: nat)
      requires TablesValid() && tid <= maxPid
      modifies `slots, tidQueue, tidTask, tidWorkflowInstance
      ensures TablesValid() && slots == old(slots)[tid := Free]
    {
      tidQueue[tid] := null;
      tidTask[tid] := None;
      tidWorkflowInstance[tid] := None;
      slots := slots[tid := Free];
    }

    lemma SlotIs(tid: nat)
      requires TablesValid() && tid <= maxPid
      ensures SlotValid(slots[tid], tidQueue[tid], tidTask[tid], tidWorkflowInstance[tid])
    {
    }

    /** TerminateTask. A queue to be removed goes with its last task; the caller has no id left in it. */
    method TerminateTask(tid: nat) returns (found: bool, task: Option<Task>)
      requires Valid() && tid <= maxPid && CountsAgree(State())
      modifies this, tidQueue, tidTask, tidWorkflowInstance, queuesName.Values
      ensures Valid() && State() == QueuePoolSpec.Terminate(old(State()), tid)
      ensures found == old(slots)[tid].Used? && (found ==> task == Some(old(slots)[tid].task))
      ensures notified == (old(notified) || (found && Notifies(State())))
    {
      hide AllLocked, QueuesValid, TablesValid, CountsAgree;
      TableSize();
      SlotIs(tid);
      if tidWorkflowInstance[tid] == None {
        return false, None;
      }
      var n := tidQueue[tid].name;
      QueueIs(slots[tid].queue);
      task := Some(Task(tidWorkflowInstance[tid].value, tidTask[tid].value));
      TerminateIn(n);
      ClearSlot(tid);
      QueueIs(n);
      var q := queuesName[n];
      if q.removed && q.size == 0 && q.runningTasks == 0 {
        LastIdGone(old(State()), tid, slots);
        DropQueue(n);
        assert queues == old(queues) - {n};
      }
      RefreshFork(true);
      found := true;
    }

    method CancelTasks(instance: nat)
      requires Valid()
      modifies this, queuesName.Values
      ensures Valid() && State() == QueuePoolSpec.Cancel(old(State()), instance)
      ensures notified == (old(notified) || Notifies(State()))
    {
      hide AllLocked, TablesValid, QueuesValid, CancelAll;
      CancelInAll(instance);
      RefreshFork(true);
    }

    method CancelInAll(instance: nat)
      requires QueuesValid()
      modifies `queues, queuesName.Values
      ensures QueuesValid() && queues == CancelAll(old(queues), instance)
    {
      hide QueuesValid;
      QueueIs("");
      var names := queuesName.Keys;
      while names != {}
        invariant names <= queuesName.Keys == old(queues).Keys && QueuesValid()
        invariant queues == CancelSome(old(queues), names, instance)
        decreases |names|
      {
        var n :| n in names;
        CancelIn(n, instance);
        CancelOne(old(queues), names, n, instance);
        names := names - {n};
      }
      assert queues == CancelAll(old(queues), instance);
    }

    method RemoveIn(n: string)
      requires QueuesValid() && n in queuesName
      modifies `queues, queuesName[n]
      ensures QueuesValid() && queues == old(queues[n := queues[n].(removed := true)])
    {
      queuesName[n].Remove();
      queues := queues[n := queues[n].(removed := true)];
    }

    method SetConcurrencyIn(n: string, concurrency: nat)
      requires QueuesValid() && n in queuesName
      modifies `queues, queuesName[n]
      ensures QueuesValid()
      ensures queues == old(queues[n := queues[n].(concurrency := concurrency, removed := false)])
    {
      queuesName[n].SetConcurrency(concurrency);
      queues := queues[n := queues[n].(concurrency := concurrency, removed := false)];
    }

    method SetSchedulerIn(n: string, discipline: Discipline)
      requires QueuesValid() && n in queuesName
      modifies `queues, queuesName[n]
      ensures QueuesValid() && queues == old(queues[n := queues[n].Migrate(discipline)])
    {
      queuesName[n].SetScheduler(discipline);
      queues := queues[n := queues[n].Migrate(discipline)];
    }

    method ConfigureIn(n: string, d: Definition)
      requires QueuesValid() && n in queuesName
      modifies `queues, queuesName[n]
      ensures QueuesValid()
      ensures queues == old(queues[n := queues[n].(concurrency := d.concurrency, removed := false).Migrate(d.discipline)])
    {
      hide QueuesValid;
      QueueIs(n);
      SetConcurrencyIn(n, d.concurrency);
      SetSchedulerIn(n, d.discipline);
    }

    method MarkQueue(n: string)
      requires Valid() && n in queuesName
      requires Idle(queues[n]) ==> forall i :: 0 <= i < |slots| && slots[i].Used? ==> slots[i].queue != n
      modifies `queuesName, `queues, queuesName[n]
      ensures Valid() && queuesName.Values <= old(queuesName.Values) && queues.Keys == queuesName.Keys
      ensures queues == if old(Idle(queues[n])) then old(queues) - {n} else old(queues[n := queues[n].(removed := true)])
    {
      hide TablesValid, QueuesValid;
      QueueIs(n);
      TableSize();
      if queuesName[n].size == 0 && queuesName[n].runningTasks == 0 {
        DropQueue(n);
      } else {
        RemoveIn(n);
      }
      QueueIs(n);
    }

    /** First half of Reload. */
    method MarkQueues()
      requires Valid() && CountsAgree(State())
      modifies `queuesName, `queues, queuesName.Values
      ensures Valid() && queues == MarkAll(old(queues)) && queuesName.Values <= old(queuesName.Values)
    {
      hide TablesValid, QueuesValid, CountsAgree, MarkSome;
      QueueIs("");
      MarkEnds(queues);
      var names := queuesName.Keys;
      while names != {}
        invariant names <= queuesName.Keys == queues.Keys && names <= old(queues).Keys && Valid()
        invariant forall n :: n in names ==> queues[n] == old(queues)[n]
        invariant queuesName.Values <= old(queuesName.Values)
        invariant queues == MarkSome(old(queues), names)
        decreases |names|
      {
        var n :| n in names;
        MarkOne(old(queues), names, n);
        if Idle(old(queues)[n]) {
          NoIdsIn(old(State()), n);
        }
        MarkQueue(n);
        names := names - {n};
      }
    }

    /** Second half of Reload. */
    method DefineQueues(definitions: seq<Definition>)
      requires Valid()
      modifies `queuesName, `queues, queuesName.Values
      ensures Valid() && queues == DefineAll(old(queues), definitions)
    {
      hide TablesValid, QueuesValid;
      for i := 0 to |definitions|
        invariant Valid() && queues == DefineAll(old(queues), definitions[..i])
        invariant forall q :: q in queuesName.Values ==> fresh(q) || q in old(queuesName.Values)
      {
        var d := definitions[i];
        assert definitions[..i + 1][..i] == definitions[..i];
        QueueIs(d.name);
        if d.name !in queuesName {
          var q := new Queue(i, d.name, d.concurrency, d.discipline, d.dynamic);
          AddQueue(q);
        } else {
          ConfigureIn(d.name, d);
        }
      }
      assert definitions[..|definitions|] == definitions;
    }

    method Reload(definitions: seq<Definition>)
      requires Valid() && CountsAgree(State())
      modifies this, queuesName.Values
      ensures Valid() && State() == QueuePoolSpec.Reload(old(State()), definitions)
      ensures notified == (old(notified) || Notifies(State()))
    {
      hide AllLocked, TablesValid, QueuesValid, MarkAll, DefineAll, CountsAgree;
      MarkQueues();
      DefineQueues(definitions);
      RefreshFork(true);
    }

    method Shutdown()
      requires Valid()
      modifies `isShuttingDown, `notified
      ensures Valid() && State() == old(State()).(shuttingDown := true)
      ensures notified == (old(notified) || forkLocked)
    {
      isShuttingDown := true;
      if forkLocked {
        notified := true;
      }
    }
  }

  lemma AllAsked(queues: map<string, QueueState>)
    requires forall n :: n in queues ==> queues[n].Locked()
    ensures AllLocked(queues)
  {
  }

  lemma AllocateStep(slots: seq<Slot>, lastTid: nat, maxPid: nat, i: nat)
    requires 0 < maxPid < |slots| && i < maxPid
    ensures var tid := QueuePoolSpec.Candidate(lastTid, maxPid, i);
            Allocate(slots, lastTid, maxPid, i) ==
            if slots[tid] == Free then (true, tid)
            else if i + 1 == maxPid then (false, tid)
            else Allocate(slots, lastTid, maxPid, i + 1)
  {
  }

  /** The queues when those in `names` are still to be cancelled. */
  function CancelSome(queues: map<string, QueueState>, names: set<string>, instance: nat): map<string, QueueState> {
    map n | n in queues :: if n in names then queues[n] else queues[n].Cancel(instance)
  }

  lemma CancelOne(queues: map<string, QueueState>, names: set<string>, n: string, instance: nat)
    requires n in names && n in queues
    ensures CancelSome(queues, names, instance)[n := queues[n].Cancel(instance)]
         == CancelSome(queues, names - {n}, instance)
  {
  }

  /** The queues when those in `names` are still to be looked at. */
  function MarkSome(queues: map<string, QueueState>, names: set<string>): map<string, QueueState> {
    map n | n in queues && (n in names || !Idle(queues[n])) ::
      if n in names then queues[n] else queues[n].(removed := true)
  }

  lemma MarkEnds(queues: map<string, QueueState>)
    ensures MarkSome(queues, queues.Keys) == queues && MarkSome(queues, {}) == MarkAll(queues)
  {
  }

  lemma MarkOne(queues: map<string, QueueState>, names: set<string>, n: string)
    requires n in names && n in queues
    ensures MarkSome(queues, names - {n})
         == if Idle(queues[n]) then MarkSome(queues, names) - {n}
            else MarkSome(queues, names)[n := queues[n].(removed := true)]
  {
  }

  /** Whether ExecuteTask enters the task in the tables. */
  predicate Registers(p: PoolState, n: string, taskId: nat)
    requires |p.slots| > 1
  {
    n in p.queues && (taskId != 0 || Allocate(p.slots, p.lastTid, |p.slots| - 1, 0).0)
  }

  /** In every state that a run reaches the counts agree. */
  lemma RunsAgree(s: QueuePoolRuns.System)
    requires QueuePoolRuns.TablesAgree(s)
    ensures CountsAgree(s.p)
  {
    assert |s.normal| == |s.p.slots| < WORD &&
      forall n :: n in s.p.queues ==> s.p.queues[n].running == QueuePoolRuns.CountIf(s.p.slots, s.normal, n, true);
  }

  /** What an idle queue needs to go: it counts every id that belongs to it. */
  ghost predicate CountsAgree(p: PoolState) {
    exists marks: seq<bool> :: |marks| == |p.slots| < WORD &&
      forall n :: n in p.queues ==> p.queues[n].running == QueuePoolRuns.CountIf(p.slots, marks, n, true)
  }

  /** When the last task of a queue ends, no id belongs to it any more. */
  lemma LastIdGone(p: PoolState, tid: nat, slots: seq<Slot>)
    requires CountsAgree(p) && tid < |p.slots| && p.slots[tid].Used? && p.slots[tid].queue in p.queues
    requires p.queues[p.slots[tid].queue].Terminate().running == 0 && slots == p.slots[tid := Free]
    ensures forall i :: 0 <= i < |slots| && slots[i].Used? ==> slots[i].queue != p.slots[tid].queue
  {
    var n := p.slots[tid].queue;
    var marks: seq<bool> :| |marks| == |p.slots| < WORD &&
      forall n :: n in p.queues ==> p.queues[n].running == QueuePoolRuns.CountIf(p.slots, marks, n, true);
    QueuePoolRuns.CountPositive(p.slots, marks, tid, n);
    QueuePoolRuns.CountUpdate(p.slots, marks, tid, Free, marks[tid], n, true);
    assert marks[tid := marks[tid]] == marks;
    forall i | 0 <= i < |slots| && slots[i].Used?
      ensures slots[i].queue != n
    {
      if slots[i].queue == n { QueuePoolRuns.CountPositive(slots, marks, i, n); }
    }
  }

  lemma NoIdsIn(p: PoolState, n: string)
    requires CountsAgree(p) && n in p.queues && p.queues[n].running == 0
    ensures forall i :: 0 <= i < |p.slots| && p.slots[i].Used? ==> p.slots[i].queue != n
  {
    var marks: seq<bool> :| |marks| == |p.slots| < WORD &&
      forall n :: n in p.queues ==> p.queues[n].running == QueuePoolRuns.CountIf(p.slots, marks, n, true);
    forall i | 0 <= i < |p.slots| && p.slots[i].Used?
      ensures p.slots[i].queue != n
    {
      if p.slots[i].queue == n { QueuePoolRuns.CountPositive(p.slots, marks, i, n); }
    }
  }

  lemma SomeLeast(names: set<string>)
    requires names != {}
    ensures exists n :: n in names && IsLeast(n, names)
  {
    var n := LeastExists(names);
  }

  /** The least name not asked yet is the first unlocked one if all asked before were locked. */
  lemma ChosenIsFirst(queues: map<string, QueueState>, n: string, names: set<string>)
    requires n in queues && !queues[n].Locked() && IsLeast(n, names)
    requires forall m :: m in queues && m !in names ==> queues[m].Locked()
    ensures !AllLocked(queues) && n == FirstUnlocked(queues)
  {
    LeastUnique(n, FirstUnlocked(queues), UnlockedNames(queues));
  }

  lemma LockedIs(q: Queue)
    requires q.Valid()
    ensures q.IsLocked() == q.State().Locked()
  {
  }
}
