/** Runs of the pool from its construction, built step by step. */
module QueuePoolTraces {
  import opened StableOrder
  import opened Queue
  import opened QueuePoolSpec
  import opened QueuePoolRuns
  import opened QueuePoolLimits
  import opened QueuePoolEnds

  // ---- the pool at the start -------------------------------------------------------------------------

  /** The pool before its first reload; the forker is started later. */
  function Initial(maxPid: nat): System {
    System(PoolState(map[], seq(maxPid + 1, _ => Free), 0, false, false, false), NotStarted,
           seq(maxPid + 1, _ => false), [], {})
  }

  /** The constructed pool: the definitions are read once. */
  ghost function Fresh(maxPid: nat, ds: seq<Definition>): System
    requires 0 < maxPid
  {
    Step(Initial(maxPid), Action.Reload(ds))
  }

  predicate Unused(q: QueueState) { q.waiting == [] && q.cancelled == [] && q.running == 0 && !q.removed }

  lemma {:induction false} DefinedUnused(ds: seq<Definition>)
    ensures forall n :: n in DefineAll(map[], ds) ==> Unused(DefineAll(map[], ds)[n])
    ensures (forall d :: d in ds ==> d.concurrency >= 1) ==>
              forall n :: n in DefineAll(map[], ds) ==> DefineAll(map[], ds)[n].concurrency >= 1
  {
    if ds != [] {
      DefinedUnused(ds[..|ds| - 1]);
      assert ds[|ds| - 1] in ds;
      assert forall d :: d in ds[..|ds| - 1] ==> d in ds;
    }
  }

  /** Before the first reload and after it the tables agree, the flag is right and no task runs without an id. */
  lemma FreshPool(maxPid: nat, ds: seq<Definition>)
    requires 0 < maxPid < WORD - 1
    ensures Inv(Initial(maxPid)) && Inv(Fresh(maxPid, ds))
    ensures Fresh(maxPid, ds) == Initial(maxPid).(p := Initial(maxPid).p.(queues := DefineAll(map[], ds)))
    ensures forall n :: n in DefineAll(map[], ds) ==> Unused(DefineAll(map[], ds)[n])
  {
    var s := Initial(maxPid);
    DefinedUnused(ds);
    assert MarkAll(map[]) == map[];
    hide CountIf, DefineAll, Allocate, MarkAll;
    StepKeepsTables(s, Action.Reload(ds));
    StepKeepsForker(s, Action.Reload(ds));
    StepKeepsSorted(s, Action.Reload(ds));
    StepKeepsCancelled(s, Action.Reload(ds));
  }

  /** The constructed pool is within its limits. */
  lemma FreshLimited(maxPid: nat, ds: seq<Definition>)
    requires 0 < maxPid < WORD - 1 && forall d :: d in ds ==> d.concurrency >= 1
    ensures Limited(Fresh(maxPid, ds), []) && AllCounted(Fresh(maxPid, ds))
  {
    FreshPool(maxPid, ds);
    DefinedUnused(ds);
    var s := Fresh(maxPid, ds);
    forall n | n in s.p.queues
      ensures NormalRunning(s, n) == 0
    {
      CountNone(s.p.slots, s.normal, n);
      NormalAtMostAll(s.p.slots, s.normal, n);
    }
  }

  // ---- runs ------------------------------------------------------------------------------------------

  datatype Trace = Trace(states: seq<System>, actions: seq<Action>)

  ghost predicate IsTrace(t: Trace, start: System) {
    t.states != [] && IsRun(t.states, t.actions) && t.states[0] == start
  }

  function Last(t: Trace): System
    requires t.states != []
  {
    t.states[|t.states| - 1]
  }

  /** No reload and no spurious wake-up. */
  ghost predicate AllQuiet(t: Trace) {
    |t.states| == |t.actions| + 1 && forall k :: 0 <= k < |t.actions| ==> Quiet(t.states[k], t.actions[k])
  }

  /** The steps of a pool that keeps its queues and their limits, after the start. */
  predicate Plain(s: System, a: Action) {
    && !a.Reload? && !a.Resume?
    && (a.Enqueue? && EnqueueResult(s.p, a.name, a.host) == Done ==> EnqueueName(s.p, a.name, a.host) in s.p.queues)
  }

  ghost predicate AllPlain(t: Trace) {
    |t.states| == |t.actions| + 1 && forall k :: 0 <= k < |t.actions| ==> Plain(t.states[k], t.actions[k])
  }

  /** Every task gets an id. */
  ghost predicate AllRegister(t: Trace, start: System)
    requires IsTrace(t, start)
  {
    forall k :: 0 <= k < |t.actions| ==> Registers(t.states[k], t.actions[k])
  }

  lemma Extend(t: Trace, start: System, a: Action) returns (t': Trace)
    requires IsTrace(t, start) && Enabled(Last(t), a)
    ensures IsTrace(t', start) && t'.actions == t.actions + [a] && Last(t') == Step(Last(t), a)
    ensures t'.states == t.states + [Last(t')]
    ensures AllQuiet(t) && Quiet(Last(t), a) ==> AllQuiet(t')
    ensures AllPlain(t) && Plain(Last(t), a) ==> AllPlain(t')
    ensures AllRegister(t, start) && Registers(Last(t), a) ==> AllRegister(t', start)
  {
    hide Enabled, Step, Quiet, Plain, Registers;
    t' := Trace(t.states + [Step(Last(t), a)], t.actions + [a]);
    forall i | 0 <= i < |t'.actions|
      ensures Enabled(t'.states[i], t'.actions[i]) && t'.states[i + 1] == Step(t'.states[i], t'.actions[i])
    {
      if i < |t.actions| {
        assert t'.states[i] == t.states[i] && t'.states[i + 1] == t.states[i + 1] && t'.actions[i] == t.actions[i];
      }
    }
  }

  lemma TraceInv(t: Trace, start: System)
    requires IsTrace(t, start) && Inv(start)
    ensures Inv(Last(t))
  {
    RunKeepsInv(t.states, t.actions, |t.states| - 1);
  }

  // ---- a pool with nothing to do ---------------------------------------------------------------------

  predicate EmptyQueues(queues: map<string, QueueState>) {
    forall n :: n in queues ==> queues[n].waiting == [] && queues[n].cancelled == []
  }

  /** The forker is about to dequeue, and nothing waits. */
  predicate Calm(s: System) {
    && 1 < |s.p.slots| == |s.normal| && s.forker == Ready && EmptyQueues(s.p.queues)
    && !s.p.shuttingDown && !s.p.forkLocked && !s.p.forkPossible
  }

  /** The constructed pool with its forker started. */
  lemma Started(maxPid: nat, ds: seq<Definition>) returns (t: Trace)
    requires 0 < maxPid < WORD - 1
    ensures Inv(Fresh(maxPid, ds)) && IsTrace(t, Fresh(maxPid, ds)) && AllQuiet(t) && AllPlain(t)
    ensures AllRegister(t, Fresh(maxPid, ds)) && t.actions == [StartForker]
    ensures Last(t) == Fresh(maxPid, ds).(forker := Ready) && Calm(Last(t))
  {
    FreshPool(maxPid, ds);
    hide DefineAll, Inv;
    t := Extend(Trace([Fresh(maxPid, ds)], []), Fresh(maxPid, ds), StartForker);
  }

  /** The queue an enqueued task goes to, as it is before. */
  function TargetOf(p: PoolState, name: string, host: string): QueueState
    requires name in p.queues
  {
    var n := EnqueueName(p, name, host);
    if n in p.queues then p.queues[n] else HostQueue(p.queues[name])
  }

  lemma EnqueueCalm(s: System, name: string, host: string, task: Task)
    requires EmptyQueues(s.p.queues) && EnqueueResult(s.p, name, host) == Done
    ensures var n, q := EnqueueName(s.p, name, host), TargetOf(s.p, name, host);
            QueuePoolSpec.Enqueue(s.p, name, host, task)
              == s.p.(queues := s.p.queues[n := q.(waiting := [task])], forkPossible := q.running < q.concurrency)
  {
    var n, q := EnqueueName(s.p, name, host), TargetOf(s.p, name, host);
    assert q.Enqueue(task) == q.(waiting := [task]);
    assert (s.p.queues[n := q.(waiting := [task])])[n] == q.(waiting := [task]);
  }

  lemma CancelCalm(p: PoolState, queues: map<string, QueueState>, n: string, q: QueueState, task: Task)
    requires EmptyQueues(queues) && q.waiting == [] && q.cancelled == []
    requires p.queues == queues[n := q.(waiting := [task])]
    ensures QueuePoolSpec.Cancel(p, task.instance)
         == p.(queues := queues[n := q.(cancelled := [task])], forkPossible := true)
  {
    var qs := queues[n := q.(cancelled := [task])];
    CancelsOne(q, task);
    forall m | m in queues
      ensures queues[m].Cancel(task.instance) == queues[m]
    {
      CancelsNone(queues[m], task.instance);
    }
    hide Filter, Select;
    assert CancelAll(p.queues, task.instance) == qs;
    assert Unlocked(qs, n);
  }

  lemma CancelsNone(q: QueueState, instance: nat)
    requires q.waiting == [] && q.cancelled == []
    ensures q.Cancel(instance) == q
  {
    assert Filter(OtherThan(instance), q.waiting) == [] && q.cancelled + Select(InstanceOf, instance, q.waiting) == [];
  }

  lemma CancelsOne(q: QueueState, task: Task)
    requires q.waiting == [] && q.cancelled == []
    ensures q.(waiting := [task]).Cancel(task.instance) == q.(cancelled := [task])
  {
    SelectOne(InstanceOf, task.instance, task);
    assert Filter(OtherThan(task.instance), [task]) == Filter(OtherThan(task.instance), [task][1..]) == [];
    assert q.cancelled + [task] == [task];
  }

  /** The forker takes the one task there is. */
  lemma DequeueCalm(s: System, queues: map<string, QueueState>, n: string, q: QueueState, task: Task, cancelled: bool)
    requires EmptyQueues(queues) && q.waiting == [] && q.cancelled == [] && (cancelled || q.running < q.concurrency)
    requires !s.p.shuttingDown
    requires s.p.queues == queues[n := if cancelled then q.(cancelled := [task]) else q.(waiting := [task])]
    ensures Finish(s) == s.(p := s.p.(queues := queues[n := q], forkLocked := false, forkPossible := false),
                            forker := Holding(n, task, cancelled))
  {
    assert Unlocked(s.p.queues, n);
    assert UnlockedNames(s.p.queues) == {n};
    assert FirstUnlocked(s.p.queues) == n;
    var q' := s.p.queues[n];
    assert q'.Dequeue() == q;
    assert s.p.queues[n := q] == queues[n := q];
  }

  /** A task is put into a calm pool, perhaps cancelled, and taken by the forker. */
  lemma Hold(t: Trace, start: System, name: string, host: string, task: Task, cancelled: bool) returns (t': Trace)
    requires IsTrace(t, start) && Calm(Last(t)) && EnqueueResult(Last(t).p, name, host) == Done
    requires cancelled || TargetOf(Last(t).p, name, host).running < TargetOf(Last(t).p, name, host).concurrency
    requires task.instance !in Last(t).cancelling
    ensures IsTrace(t', start) && (AllQuiet(t) ==> AllQuiet(t')) && (AllRegister(t, start) ==> AllRegister(t', start))
    ensures AllPlain(t) && EnqueueName(Last(t).p, name, host) in Last(t).p.queues ==> AllPlain(t')
    ensures var s, n := Last(t), EnqueueName(Last(t).p, name, host);
            Last(t') == s.(p := s.p.(queues := s.p.queues[n := TargetOf(s.p, name, host)]),
                           forker := Holding(n, task, cancelled),
                           cancelling := if cancelled then s.cancelling + {task.instance} else s.cancelling)
  {
    hide QueuePoolSpec.Enqueue, QueuePoolSpec.Cancel, Finish, IsRun, AllQuiet, AllPlain, AllRegister, CheckQueueName;
    var s := Last(t);
    var n, q := EnqueueName(s.p, name, host), TargetOf(s.p, name, host);
    EnqueueCalm(s, name, host, task);
    t' := Extend(t, start, Enqueue(name, host, task));
    if cancelled {
      t' := Extend(t', start, BeginCancel(task.instance));
      CancelCalm(Last(t').p, s.p.queues, n, q, task);
      t' := Extend(t', start, Cancel(task.instance));
    }
    DequeueCalm(Last(t'), s.p.queues, n, q, task, cancelled);
    t' := Extend(t', start, BeginDequeue);
  }

  /** The forker holds a task in a pool in which nothing else waits. */
  predicate CalmHolding(s: System, queues: map<string, QueueState>, n: string, q: QueueState, task: Task,
                        cancelled: bool)
  {
    && 1 < |s.p.slots| == |s.normal| && EmptyQueues(queues) && q.waiting == [] && q.cancelled == []
    && s.p.queues == queues[n := q] && s.forker == Holding(n, task, cancelled)
    && !s.p.shuttingDown && !s.p.forkLocked && !s.p.forkPossible
  }

  predicate SomeFree(slots: seq<Slot>) { exists i :: 0 <= i < |slots| - 1 && slots[i] == Free }

  /** The held task gets an id. */
  lemma GetId(t: Trace, start: System, queues: map<string, QueueState>, n: string, q: QueueState, task: Task,
              cancelled: bool)
    returns (t': Trace, tid: nat)
    requires IsTrace(t, start) && CalmHolding(Last(t), queues, n, q, task, cancelled) && SomeFree(Last(t).p.slots)
    ensures IsTrace(t', start) && (AllQuiet(t) ==> AllQuiet(t')) && (AllPlain(t) ==> AllPlain(t'))
    ensures AllRegister(t, start) ==> AllRegister(t', start)
    ensures var s := Last(t);
            && tid < |s.p.slots| - 1 && s.p.slots[tid] == Free
            && Last(t') == s.(p := s.p.(lastTid := tid, slots := s.p.slots[tid := Used(n, task)],
                                        queues := queues[n := q.Execute()]),
                              forker := Starting(n, task, cancelled, tid, true), normal := s.normal[tid := !cancelled])
  {
    hide Allocate, IsRun, AllQuiet, AllPlain, AllRegister, QueuePoolSpec.Execute;
    var s := Last(t);
    ExecuteFound(s.p, n, task);
    tid := QueuePoolSpec.Execute(s.p, n, task).1;
    assert queues[n := q][n := q.Execute()] == queues[n := q.Execute()];
    t' := Extend(t, start, Execute);
  }

  /** The held task gets no id, as none is free or its queue has gone. */
  lemma MissId(t: Trace, start: System, n: string, task: Task, cancelled: bool) returns (t': Trace)
    requires IsTrace(t, start) && 1 < |Last(t).p.slots| == |Last(t).normal|
    requires Last(t).forker == Holding(n, task, cancelled)
    requires n !in Last(t).p.queues || !SomeFree(Last(t).p.slots)
    ensures IsTrace(t', start) && (AllQuiet(t) ==> AllQuiet(t')) && (AllPlain(t) ==> AllPlain(t'))
    ensures t'.states == t.states + [Last(t')] && t'.actions == t.actions + [Execute]
    ensures var s := Last(t);
            Last(t') == s.(p := s.p.(lastTid := Last(t').p.lastTid), forker := Starting(n, task, cancelled, 0, false))
  {
    hide Allocate, IsRun, AllQuiet, AllPlain, AllRegister;
    AllocationExactly(Last(t).p.slots, Last(t).p.lastTid);
    t' := Extend(t, start, Execute);
  }

  /** The held task gets an id and runs. */
  lemma Run(t: Trace, start: System, queues: map<string, QueueState>, n: string, q: QueueState, task: Task)
    returns (t': Trace, tid: nat)
    requires IsTrace(t, start) && CalmHolding(Last(t), queues, n, q, task, false) && SomeFree(Last(t).p.slots)
    requires task.instance !in Last(t).cancelling
    ensures IsTrace(t', start) && (AllQuiet(t) ==> AllQuiet(t')) && (AllPlain(t) ==> AllPlain(t'))
    ensures AllRegister(t, start) ==> AllRegister(t', start)
    ensures var s := Last(t);
            && tid < |s.p.slots| - 1 && s.p.slots[tid] == Free && Calm(Last(t'))
            && Last(t') == s.(p := s.p.(lastTid := tid, slots := s.p.slots[tid := Used(n, task)],
                                        queues := queues[n := q.Execute()]),
                              forker := Ready, normal := s.normal[tid := true])
  {
    hide IsRun, AllQuiet, AllPlain, AllRegister;
    t', tid := GetId(t, start, queues, n, q, task, false);
    t' := Extend(t', start, Start);
    assert Last(t').strays == Last(t).strays;
  }

  /** The held task gets no id and runs all the same. */
  lemma RunUncounted(t: Trace, start: System, n: string, task: Task) returns (t': Trace)
    requires IsTrace(t, start) && 1 < |Last(t).p.slots| == |Last(t).normal|
    requires Last(t).forker == Holding(n, task, false) && task.instance !in Last(t).cancelling
    requires n !in Last(t).p.queues || !SomeFree(Last(t).p.slots)
    ensures IsTrace(t', start) && (AllQuiet(t) ==> AllQuiet(t')) && (AllPlain(t) ==> AllPlain(t'))
    ensures var s := Last(t);
            Last(t') == s.(p := s.p.(lastTid := Last(t').p.lastTid), forker := Ready,
                           strays := s.strays + [Stray(n, task, true, 0)])
  {
    hide IsRun, AllQuiet, AllPlain, AllRegister;
    t' := MissId(t, start, n, task, false);
    t' := Extend(t', start, Start);
  }
}
