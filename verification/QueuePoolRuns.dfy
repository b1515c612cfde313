/**
 The pool with its single forker (src/Process/ProcessManager.cpp) and any number of other threads, as a state
 machine: one step is one stretch of code under the pool's lock.
 */
module QueuePoolRuns {
  import opened StableOrder
  import opened Queue
  import opened QueuePoolSpec

  /**
   The forker: not started yet, about to dequeue, in the wait (perhaps notified), holding a task, starting it under the
   id that it was given, or ended. An id that stands for no registration is 0.
   */
  datatype Forker =
    | NotStarted | Ready | Asleep(notified: bool) | Holding(queue: string, task: Task, cancelled: bool)
    | Starting(queue: string, task: Task, cancelled: bool, tid: nat, registered: bool) | Exited

  /** A task that runs although no id stands for it, and the id that its end will be reported under. */
  datatype Stray = Stray(queue: string, task: Task, normal: bool, tid: nat)

  /**
   `normal` tells of each task id whether its task did not leave the queue as a cancelled one; `cancelling` are the
   workflow instances that were told to cancel, which is for good.
   */
  datatype System =
    System(p: PoolState, forker: Forker, normal: seq<bool>, strays: seq<Stray>, cancelling: set<nat>)

  datatype Action =
    | Enqueue(name: string, host: string, task: Task) | BeginCancel(instance: nat) | Cancel(instance: nat)
    | Terminate(tid: nat) | Reload(definitions: seq<Definition>) | Resume(name: string, task: Task, tid: nat) | Shutdown
    | StartForker | BeginDequeue | Wake | Execute | Start | Fail | StrayExit(i: nat)

  /** The id is that of the task that the forker is starting, which does not run yet. */
  predicate BeingStarted(s: System, tid: nat) { s.forker.Starting? && s.forker.registered && s.forker.tid == tid }

  /**
   When a step can happen. An instance that is cancelled enqueues nothing more, and its tasks in the queues are
   cancelled after it was told; then none of its tasks starts. Tasks are resumed before the forker is started, under
   ids that are free. A wake-up may be spurious.
   */
  predicate Enabled(s: System, a: Action) {
    1 < |s.p.slots| == |s.normal| &&
    match a
    case Enqueue(_, _, task) => task.instance !in s.cancelling
    case Cancel(instance) => instance in s.cancelling
    case Terminate(tid) => tid < |s.p.slots| && !BeingStarted(s, tid)
    case Resume(_, _, tid) => s.forker == NotStarted && 0 < tid < |s.p.slots| && s.p.slots[tid] == Free
    case StartForker => s.forker == NotStarted
    case BeginDequeue => s.forker == Ready
    case Wake => s.forker.Asleep?
    case Execute => s.forker.Holding?
    case Start => s.forker.Starting? && s.forker.tid < |s.p.slots| && s.forker.task.instance !in s.cancelling
    case Fail => s.forker.Starting? && s.forker.tid < |s.p.slots|
    case StrayExit(i) => i < |s.strays| && s.strays[i].tid < |s.p.slots|
    case _ => true
  }

  /** notify_one: it reaches the forker if that is in the wait. */
  function Notify(f: Forker): Forker { if f.Asleep? then Asleep(true) else f }

  /** A call of another thread that ends by recomputing the flag. */
  function After(s: System, p': PoolState): System {
    s.(p := p', forker := if Notifies(p') then Notify(s.forker) else s.forker)
  }

  /** DequeueTask behind the wait. */
  ghost function Finish(s: System): System {
    if s.p.shuttingDown then s.(forker := Exited)
    else if AllLocked(s.p.queues) then s.(p := s.p.(forkLocked := false), forker := Exited)
    else
      var n := FirstUnlocked(s.p.queues);
      var q := s.p.queues[n];
      s.(p := QueuePoolSpec.Dequeue(s.p), forker := Holding(n, q.Next(), q.cancelled != []))
  }

  /** If an id stands for a task that runs, and is ended for another one, the task becomes a stray. */
  function Displaced(s: System, tid: nat): seq<Stray>
    requires tid < |s.p.slots| == |s.normal|
  {
    match s.p.slots[tid]
    case Free => []
    case Used(n, task) => if BeingStarted(s, tid) then [] else [Stray(n, task, s.normal[tid], tid)]
  }

  /** The end of a task, as it is reported to the pool. */
  function TerminateStep(s: System, tid: nat): System
    requires tid < |s.p.slots|
  {
    if s.p.slots[tid] == Free then s else After(s, QueuePoolSpec.Terminate(s.p, tid))
  }

  ghost function Step(s: System, a: Action): System
    requires Enabled(s, a)
  {
    match a
    case Enqueue(name, host, task) =>
      if EnqueueResult(s.p, name, host) == Done then After(s, QueuePoolSpec.Enqueue(s.p, name, host, task)) else s
    case BeginCancel(instance) => s.(cancelling := s.cancelling + {instance})
    case Cancel(instance) => After(s, QueuePoolSpec.Cancel(s.p, instance))
    case Terminate(tid) => TerminateStep(s, tid)
    case Reload(ds) => After(s, QueuePoolSpec.Reload(s.p, ds))
    case Resume(n, task, tid) =>
      if n in s.p.queues then After(s, QueuePoolSpec.Resume(s.p, n, task, tid)).(normal := s.normal[tid := true])
      else s.(strays := s.strays + [Stray(n, task, true, tid)])
    case Shutdown =>
      s.(p := s.p.(shuttingDown := true), forker := if s.p.forkLocked then Notify(s.forker) else s.forker)
    case StartForker => s.(forker := Ready)
    case BeginDequeue =>
      if s.p.shuttingDown then s.(forker := Exited)
      else if !s.p.forkPossible then s.(p := s.p.(forkLocked := true), forker := Asleep(false))
      else Finish(s)
    case Wake => Finish(s)
    case Execute =>
      var Holding(n, task, cancelled) := s.forker;
      var (p', tid) := QueuePoolSpec.Execute(s.p, n, task);
      if p'.slots != s.p.slots then
        s.(p := p', forker := Starting(n, task, cancelled, tid, true), normal := s.normal[tid := !cancelled])
      else
        s.(p := p', forker := Starting(n, task, cancelled, 0, false))
    case Start =>
      var Starting(n, task, cancelled, tid, registered) := s.forker;
      s.(forker := Ready,
         strays := s.strays + if registered && s.p.slots[tid].Used? then [] else [Stray(n, task, !cancelled, tid)])
    case Fail => TerminateStep(s, s.forker.tid).(forker := Ready, strays := s.strays + Displaced(s, s.forker.tid))
    case StrayExit(i) =>
      var tid := s.strays[i].tid;
      TerminateStep(s, tid).(strays := s.strays[..i] + s.strays[i + 1..] + Displaced(s, tid))
  }

  // ---- counting ------------------------------------------------------------------------------------

  predicate Counts(slot: Slot, isNormal: bool, n: string, all: bool) {
    slot.Used? && slot.queue == n && (all || isNormal)
  }

  /** How many ids belong to a queue: all of them, or those of tasks that were not cancelled. */
  function CountIf(slots: seq<Slot>, normal: seq<bool>, n: string, all: bool): (c: nat)
    requires |slots| == |normal|
    ensures c <= |slots|
  {
    if slots == [] then 0
    else CountIf(slots[1..], normal[1..], n, all) + if Counts(slots[0], normal[0], n, all) then 1 else 0
  }

  lemma {:induction false} CountUpdate(slots: seq<Slot>, normal: seq<bool>, i: nat, x: Slot, b: bool, n: string, all: bool)
    requires |slots| == |normal| && i < |slots|
    ensures CountIf(slots[i := x], normal[i := b], n, all)
         == CountIf(slots, normal, n, all)
            - (if Counts(slots[i], normal[i], n, all) then 1 else 0) + (if Counts(x, b, n, all) then 1 else 0)
  {
    if i == 0 {
      assert slots[0 := x][1..] == slots[1..] && normal[0 := b][1..] == normal[1..];
    } else {
      CountUpdate(slots[1..], normal[1..], i - 1, x, b, n, all);
      assert slots[i := x][1..] == slots[1..][i - 1 := x] && normal[i := b][1..] == normal[1..][i - 1 := b];
    }
  }

  lemma {:induction false} NormalAtMostAll(slots: seq<Slot>, normal: seq<bool>, n: string)
    requires |slots| == |normal|
    ensures CountIf(slots, normal, n, false) <= CountIf(slots, normal, n, true)
  {
    if slots != [] { NormalAtMostAll(slots[1..], normal[1..], n); }
  }

  lemma {:induction false} CountPositive(slots: seq<Slot>, normal: seq<bool>, i: nat, n: string)
    requires |slots| == |normal| && i < |slots| && Counts(slots[i], normal[i], n, true)
    ensures CountIf(slots, normal, n, true) > 0
  {
    if i > 0 { CountPositive(slots[1..], normal[1..], i - 1, n); }
  }

  lemma {:induction false} CountNone(slots: seq<Slot>, normal: seq<bool>, n: string)
    requires |slots| == |normal| && forall i :: 0 <= i < |slots| ==> !Counts(slots[i], normal[i], n, true)
    ensures CountIf(slots, normal, n, true) == 0
  {
    if slots != [] {
      forall i | 0 <= i < |slots[1..]|
        ensures !Counts(slots[1..][i], normal[1..][i], n, true)
      {
        assert !Counts(slots[i + 1], normal[i + 1], n, true);
      }
      CountNone(slots[1..], normal[1..], n);
    }
  }

  // ---- what every step keeps -----------------------------------------------------------------------

  function Running(s: System, n: string): nat
    requires |s.p.slots| == |s.normal|
  {
    CountIf(s.p.slots, s.normal, n, true)
  }

  /** No id belongs to a queue that is gone, and every queue counts the ids that belong to it. */
  ghost predicate TablesAgree(s: System) {
    && 1 < |s.p.slots| == |s.normal| < WORD
    && (forall i :: 0 <= i < |s.p.slots| && s.p.slots[i].Used? ==> s.p.slots[i].queue in s.p.queues)
    && (forall n :: n in s.p.queues ==> s.p.queues[n].running == Running(s, n))
  }

  /** The cached flag is right, and a forker that sleeps without a wake-up on its way has nothing to do. */
  ghost predicate ForkerAgrees(s: System) {
    && s.p.forkPossible == !AllLocked(s.p.queues)
    && (s.forker.Asleep? ==> s.p.forkLocked)
    && (s.forker == Asleep(false) ==> AllLocked(s.p.queues) && !s.p.shuttingDown)
  }

  ghost predicate QueuesSorted(p: PoolState) {
    forall n :: n in p.queues ==> p.queues[n].WellFormed()
  }

  /** What is in the queue of cancelled tasks belongs to a cancelled instance. */
  ghost predicate CancelAgrees(s: System) {
    && (forall n :: n in s.p.queues ==> CancelledOf(s.p.queues[n], s.cancelling))
    && ((s.forker.Holding? || s.forker.Starting?) && s.forker.cancelled ==> s.forker.task.instance in s.cancelling)
  }

  ghost predicate CancelledOf(q: QueueState, cancelling: set<nat>) {
    forall t :: t in q.cancelled ==> t.instance in cancelling
  }

  ghost predicate Inv(s: System) {
    && TablesAgree(s) && ForkerAgrees(s) && QueuesSorted(s.p) && CancelAgrees(s)
    && (s.forker.Starting? ==> s.forker.tid < |s.p.slots|)
  }

  // ---- the tables ----------------------------------------------------------------------------------

  /** A queue changes in a way that does not touch its running count, or appears with none. */
  lemma TablesAfterPut(s: System, n: string, q: QueueState, p': PoolState)
    requires TablesAgree(s) && p'.slots == s.p.slots && p'.queues == s.p.queues[n := q]
    requires q.running == if n in s.p.queues then s.p.queues[n].running else 0
    ensures TablesAgree(s.(p := p'))
  {
    if n !in s.p.queues {
      CountNone(s.p.slots, s.normal, n);
    }
  }

  /** A task is entered under a free id. */
  lemma TablesAfterRegister(s: System, n: string, task: Task, tid: nat, isNormal: bool, p': PoolState)
    requires TablesAgree(s) && n in s.p.queues && tid < |s.p.slots| && s.p.slots[tid] == Free
    requires p'.slots == s.p.slots[tid := Used(n, task)] && p'.queues == s.p.queues[n := s.p.queues[n].Execute()]
    ensures TablesAgree(s.(p := p', normal := s.normal[tid := isNormal]))
  {
    forall m | m in p'.queues
      ensures p'.queues[m].running == CountIf(p'.slots, s.normal[tid := isNormal], m, true)
    {
      CountUpdate(s.p.slots, s.normal, tid, Used(n, task), isNormal, m, true);
    }
  }

  lemma TablesAfterTerminate(s: System, tid: nat)
    requires TablesAgree(s) && tid < |s.p.slots| && s.p.slots[tid].Used?
    ensures TablesAgree(s.(p := QueuePoolSpec.Terminate(s.p, tid)))
    ensures s.p.queues[s.p.slots[tid].queue].running > 0
  {
    var n := s.p.slots[tid].queue;
    var p' := QueuePoolSpec.Terminate(s.p, tid);
    CountPositive(s.p.slots, s.normal, tid, n);
    assert s.normal[tid := s.normal[tid]] == s.normal;
    forall m
      ensures CountIf(p'.slots, s.normal, m, true) == Running(s, m) - if m == n then 1 else 0
    {
      CountUpdate(s.p.slots, s.normal, tid, Free, s.normal[tid], m, true);
    }
    forall i | 0 <= i < |p'.slots| && p'.slots[i].Used?
      ensures p'.slots[i].queue in p'.queues
    {
      if p'.slots[i].queue == n { CountPositive(p'.slots, s.normal, i, n); }
    }
  }

  lemma TablesAfterTerminateStep(s: System, tid: nat)
    requires TablesAgree(s) && tid < |s.p.slots|
    ensures TablesAgree(TerminateStep(s, tid)) && TerminateStep(s, tid).normal == s.normal
  {
    hide CountIf, AllLocked;
    if s.p.slots[tid].Used? { TablesAfterTerminate(s, tid); }
  }

  lemma TablesAfterMark(s: System, p': PoolState)
    requires TablesAgree(s) && p'.slots == s.p.slots && p'.queues == MarkAll(s.p.queues)
    ensures TablesAgree(s.(p := p'))
  {
    forall i | 0 <= i < |p'.slots| && p'.slots[i].Used?
      ensures p'.slots[i].queue in p'.queues
    {
      CountPositive(s.p.slots, s.normal, i, p'.slots[i].queue);
    }
  }

  lemma {:induction false} TablesAfterDefine(s: System, ds: seq<Definition>)
    requires TablesAgree(s)
    ensures TablesAgree(s.(p := s.p.(queues := DefineAll(s.p.queues, ds))))
  {
    if ds != [] {
      TablesAfterDefine(s, ds[..|ds| - 1]);
      var g := s.(p := s.p.(queues := DefineAll(s.p.queues, ds[..|ds| - 1])));
      var d := ds[|ds| - 1];
      var p' := g.p.(queues := Define(g.p.queues, d));
      TablesAfterPut(g, d.name, p'.queues[d.name], p');
    }
  }

  lemma TablesAfterCancel(s: System, instance: nat)
    requires TablesAgree(s)
    ensures TablesAgree(s.(p := QueuePoolSpec.Cancel(s.p, instance)))
  {
  }

  lemma TablesAfterFinish(s: System)
    requires TablesAgree(s)
    ensures TablesAgree(Finish(s))
  {
    if !s.p.shuttingDown && !AllLocked(s.p.queues) {
      var n := FirstUnlocked(s.p.queues);
      var p' := QueuePoolSpec.Dequeue(s.p);
      TablesAfterPut(s, n, p'.queues[n], p');
    }
  }

  lemma TablesAfterExecute(s: System, n: string, task: Task, isNormal: bool)
    requires TablesAgree(s)
    ensures var (p', tid) := QueuePoolSpec.Execute(s.p, n, task);
            tid < |s.normal|
            && TablesAgree(s.(p := p', normal := if p'.slots != s.p.slots then s.normal[tid := isNormal] else s.normal))
  {
    if n in s.p.queues {
      var (found, tid) := Allocate(s.p.slots, s.p.lastTid, |s.p.slots| - 1, 0);
      if found {
        TablesAfterRegister(s, n, task, tid, isNormal, QueuePoolSpec.Execute(s.p, n, task).0);
      }
    }
  }

  lemma StepKeepsTables(s: System, a: Action)
    requires Inv(s) && Enabled(s, a)
    ensures TablesAgree(Step(s, a))
  {
    hide MarkAll, CancelAll, DefineAll, CountIf, Finish, Allocate, TerminateStep, Displaced, AllLocked;
    match a
    case Enqueue(name, host, task) =>
      if EnqueueResult(s.p, name, host) == Done {
        var n := EnqueueName(s.p, name, host);
        var p' := QueuePoolSpec.Enqueue(s.p, name, host, task);
        TablesAfterPut(s, n, p'.queues[n], p');
      }
    case BeginCancel(_) =>
    case Cancel(instance) => TablesAfterCancel(s, instance);
    case Terminate(tid) => TablesAfterTerminateStep(s, tid);
    case Reload(ds) =>
      var g := s.(p := s.p.(queues := MarkAll(s.p.queues)));
      TablesAfterMark(s, g.p);
      TablesAfterDefine(g, ds);
    case Resume(n, task, tid) =>
      if n in s.p.queues { TablesAfterRegister(s, n, task, tid, true, QueuePoolSpec.Resume(s.p, n, task, tid)); }
    case Shutdown =>
    case StartForker =>
    case BeginDequeue => TablesAfterFinish(s);
    case Wake => TablesAfterFinish(s);
    case Execute => TablesAfterExecute(s, s.forker.queue, s.forker.task, !s.forker.cancelled);
    case Start =>
    case Fail => TablesAfterTerminateStep(s, s.forker.tid);
    case StrayExit(i) => TablesAfterTerminateStep(s, s.strays[i].tid);
  }

  // ---- the flag and the wait -----------------------------------------------------------------------

  lemma StepKeepsForker(s: System, a: Action)
    requires Inv(s) && Enabled(s, a)
    ensures ForkerAgrees(Step(s, a))
  {
    hide MarkAll, CancelAll, DefineAll, CountIf, Allocate, TablesAgree, QueuesSorted;
  }

  // ---- all runs ------------------------------------------------------------------------------------

  lemma {:induction false} DefineAllSorted(queues: map<string, QueueState>, ds: seq<Definition>)
    requires forall n :: n in queues ==> queues[n].WellFormed()
    ensures forall n :: n in DefineAll(queues, ds) ==> DefineAll(queues, ds)[n].WellFormed()
  {
    if ds != [] {
      DefineAllSorted(queues, ds[..|ds| - 1]);
      var qs, d := DefineAll(queues, ds[..|ds| - 1]), ds[|ds| - 1];
      if d.name in qs && qs[d.name].discipline == Fifo {
        InsertAllSorted(InstanceOf, [], qs[d.name].waiting);
      }
    }
  }

  lemma SortedAfterTerminate(s: System, tid: nat)
    requires QueuesSorted(s.p) && tid < |s.p.slots|
    ensures QueuesSorted(TerminateStep(s, tid).p)
  {
    hide AllLocked, Sorted;
  }

  lemma StepKeepsSorted(s: System, a: Action)
    requires QueuesSorted(s.p) && Enabled(s, a)
    ensures QueuesSorted(Step(s, a).p)
  {
    hide Allocate, InsertAll, TerminateStep, Displaced, AllLocked;
    match a
    case Enqueue(name, host, task) =>
      if EnqueueResult(s.p, name, host) == Done {
        var n := EnqueueName(s.p, name, host);
        var q := if n in s.p.queues then s.p.queues[n] else HostQueue(s.p.queues[name]);
        if q.discipline == Prio { InsertSorted(InstanceOf, q.waiting, task); }
      }
    case BeginCancel(_) =>
    case Cancel(instance) =>
      forall n | n in s.p.queues
        ensures s.p.queues[n].Cancel(instance).WellFormed()
      {
        if s.p.queues[n].discipline == Prio { FilterSorted(InstanceOf, OtherThan(instance), s.p.queues[n].waiting); }
      }
    case Reload(ds) => DefineAllSorted(MarkAll(s.p.queues), ds);
    case Terminate(tid) => SortedAfterTerminate(s, tid);
    case Resume(n, task, tid) =>
    case Shutdown =>
    case StartForker =>
    case BeginDequeue =>
    case Wake =>
    case Execute =>
    case Start =>
    case Fail => SortedAfterTerminate(s, s.forker.tid);
    case StrayExit(i) => SortedAfterTerminate(s, s.strays[i].tid);
  }

  // ---- cancelled tasks -----------------------------------------------------------------------------

  lemma CancelledAfterCancel(q: QueueState, cancelling: set<nat>, instance: nat)
    requires CancelledOf(q, cancelling) && instance in cancelling
    ensures CancelledOf(q.Cancel(instance), cancelling)
  {
    SelectMembers(InstanceOf, instance, q.waiting);
  }

  lemma {:induction false} CancelledAfterDefine(queues: map<string, QueueState>, ds: seq<Definition>, cancelling: set<nat>)
    requires forall n :: n in queues ==> CancelledOf(queues[n], cancelling)
    ensures forall n :: n in DefineAll(queues, ds) ==> CancelledOf(DefineAll(queues, ds)[n], cancelling)
  {
    if ds != [] { CancelledAfterDefine(queues, ds[..|ds| - 1], cancelling); }
  }

  lemma CancelledAfterFinish(s: System)
    requires CancelAgrees(s)
    ensures CancelAgrees(Finish(s))
  {
    if Finish(s).forker.Holding? {
      var q := s.p.queues[FirstUnlocked(s.p.queues)];
      assert CancelledOf(q, s.cancelling);
      assert forall t :: t in q.Dequeue().cancelled ==> t in q.cancelled;
    }
  }

  lemma CancelledAfterEnqueue(s: System, name: string, host: string, task: Task)
    requires CancelAgrees(s)
    ensures CancelAgrees(After(s, QueuePoolSpec.Enqueue(s.p, name, host, task)))
  {
    hide AllLocked, CheckQueueName, Insert;
  }

  lemma CancelledAfterCancelAll(s: System, instance: nat)
    requires CancelAgrees(s) && instance in s.cancelling
    ensures CancelAgrees(After(s, QueuePoolSpec.Cancel(s.p, instance)))
  {
    hide AllLocked;
    forall n | n in s.p.queues
      ensures CancelledOf(s.p.queues[n].Cancel(instance), s.cancelling)
    {
      CancelledAfterCancel(s.p.queues[n], s.cancelling, instance);
    }
  }

  lemma CancelledAfterReload(s: System, ds: seq<Definition>)
    requires CancelAgrees(s)
    ensures CancelAgrees(After(s, QueuePoolSpec.Reload(s.p, ds)))
  {
    hide AllLocked, MarkAll, DefineAll;
    MarkedCancelled(s);
    CancelledAfterDefine(MarkAll(s.p.queues), ds, s.cancelling);
  }

  lemma CancelledAfterTerminate(s: System, tid: nat)
    requires CancelAgrees(s) && tid < |s.p.slots|
    ensures CancelAgrees(TerminateStep(s, tid)) && TerminateStep(s, tid).cancelling == s.cancelling
  {
    hide AllLocked;
  }

  lemma CancelledAfterExecute(s: System)
    requires CancelAgrees(s) && Enabled(s, Execute)
    ensures CancelAgrees(Step(s, Execute)) && Step(s, Execute).forker.tid < |Step(s, Execute).p.slots|
  {
    hide AllLocked, Allocate;
  }

  lemma CancelledAfterResume(s: System, n: string, task: Task, tid: nat)
    requires CancelAgrees(s) && Enabled(s, Resume(n, task, tid))
    ensures CancelAgrees(Step(s, Resume(n, task, tid)))
  {
    hide AllLocked;
  }

  lemma StepKeepsCancelled(s: System, a: Action)
    requires CancelAgrees(s) && (s.forker.Starting? ==> s.forker.tid < |s.p.slots|) && Enabled(s, a)
    ensures CancelAgrees(Step(s, a))
  {
    hide QueuePoolSpec.Enqueue, QueuePoolSpec.Cancel, QueuePoolSpec.Reload, QueuePoolSpec.Terminate;
    hide Finish, TerminateStep, AllLocked, CancelledOf;
    match a
    case Enqueue(name, host, task) => CancelledAfterEnqueue(s, name, host, task);
    case BeginCancel(instance) => MoreCancelling(s, instance);
    case Cancel(instance) => CancelledAfterCancelAll(s, instance);
    case Terminate(tid) => CancelledAfterTerminate(s, tid);
    case Reload(ds) => CancelledAfterReload(s, ds);
    case Resume(n, task, tid) => CancelledAfterResume(s, n, task, tid);
    case Execute => CancelledAfterExecute(s);
    case BeginDequeue => CancelledAfterFinish(s);
    case Wake => CancelledAfterFinish(s);
    case Fail => CancelledAfterTerminate(s, s.forker.tid);
    case StrayExit(i) => CancelledAfterTerminate(s, s.strays[i].tid);
    case Start =>
    case StartForker =>
    case Shutdown =>
  }

  lemma MoreCancelling(s: System, instance: nat)
    requires CancelAgrees(s)
    ensures CancelAgrees(s.(cancelling := s.cancelling + {instance}))
  {
  }

  /** The id of the task being started is one of the table. */
  lemma StepKeepsStarting(s: System, a: Action)
    requires (s.forker.Starting? ==> s.forker.tid < |s.p.slots|) && Enabled(s, a)
    ensures Step(s, a).forker.Starting? ==> Step(s, a).forker.tid < |Step(s, a).p.slots|
  {
    hide AllLocked, Allocate, MarkAll, DefineAll, CancelAll, CheckQueueName;
  }

  lemma MarkedCancelled(s: System)
    requires CancelAgrees(s)
    ensures forall n :: n in MarkAll(s.p.queues) ==> CancelledOf(MarkAll(s.p.queues)[n], s.cancelling)
  {
  }

  /** A run: the states it goes through. */
  ghost predicate IsRun(ss: seq<System>, actions: seq<Action>) {
    && |ss| == |actions| + 1
    && forall i :: 0 <= i < |actions| ==> Enabled(ss[i], actions[i]) && ss[i + 1] == Step(ss[i], actions[i])
  }

  /** In every state of every run the tables agree, the flag is right and no wake-up is lost. */
  lemma {:induction false} RunKeepsInv(ss: seq<System>, actions: seq<Action>, i: nat)
    requires IsRun(ss, actions) && Inv(ss[0]) && i < |ss|
    ensures Inv(ss[i])
  {
    if i > 0 {
      RunKeepsInv(ss, actions, i - 1);
      StepKeepsTables(ss[i - 1], actions[i - 1]);
      StepKeepsForker(ss[i - 1], actions[i - 1]);
      StepKeepsSorted(ss[i - 1], actions[i - 1]);
      StepKeepsCancelled(ss[i - 1], actions[i - 1]);
      StepKeepsStarting(ss[i - 1], actions[i - 1]);
    }
  }
}
