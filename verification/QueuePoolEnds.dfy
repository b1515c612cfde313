/** How the forker's loop can end, and which tasks the pool can lose. */
module QueuePoolEnds {
  import opened NameOrder
  import opened StableOrder
  import opened Queue
  import opened QueuePoolSpec
  import opened QueuePoolRuns

  // ---- dequeuing without a wait ----------------------------------------------------------------------

  /** A forker that need not wait gets a task, and from the first queue in name order that has one to give. */
  lemma NoWaitReturnsTask(s: System)
    requires Inv(s) && Enabled(s, BeginDequeue) && !s.p.shuttingDown && s.p.forkPossible
    ensures var n := FirstUnlocked(s.p.queues);
            && Step(s, BeginDequeue).forker == Holding(n, s.p.queues[n].Next(), s.p.queues[n].cancelled != [])
            && forall m :: m in s.p.queues && !s.p.queues[m].Locked() ==> NameLeq(n, m)
  {
    forall m | m in s.p.queues && !s.p.queues[m].Locked()
      ensures NameLeq(FirstUnlocked(s.p.queues), m)
    {
      assert m in UnlockedNames(s.p.queues);
    }
  }

  // ---- the end of the loop ---------------------------------------------------------------------------

  /** Some queue is dynamic, and there is a host for which it would get a new queue. */
  ghost predicate TakesHosts(queues: map<string, QueueState>) {
    exists n, host :: NewHost(queues, n, host)
  }

  predicate NewHost(queues: map<string, QueueState>, n: string, host: string) {
    && n in queues && queues[n].dynamic && host != ""
    && n + "@" + host !in queues && CheckQueueName(n + "@" + host)
  }

  /** A forker in a pool of lasting queues. */
  ghost predicate Lasting(s: System) {
    && (forall n :: n in s.p.queues ==> !s.p.queues[n].removed)
    && !TakesHosts(s.p.queues)
    && (s.forker == Asleep(true) ==> s.p.forkPossible || s.p.shuttingDown)
    && (s.forker == Exited ==> s.p.shuttingDown)
  }

  /** The steps of a pool without reloads and spurious wake-ups; ids of resumed tasks are among those given out. */
  predicate Quiet(s: System, a: Action) {
    !a.Reload? && (a.Wake? ==> s.forker == Asleep(true)) && (a.Resume? ==> a.tid < |s.p.slots| - 1)
  }

  lemma CancelKeepsUnlocked(q: QueueState, instance: nat)
    requires !q.Locked()
    ensures !q.Cancel(instance).Locked()
  {
  }

  /** Queues of the same names, of which the same are dynamic. */
  predicate SameKinds(queues: map<string, QueueState>, queues': map<string, QueueState>) {
    queues.Keys == queues'.Keys
    && forall n :: n in queues ==> queues'[n].dynamic == queues[n].dynamic && queues'[n].removed == queues[n].removed
  }

  lemma SameHosts(queues: map<string, QueueState>, queues': map<string, QueueState>)
    requires SameKinds(queues, queues') && !TakesHosts(queues)
    ensures !TakesHosts(queues')
  {
    hide CheckQueueName;
    forall n, host
      ensures !NewHost(queues', n, host)
    {
      assert !NewHost(queues, n, host);
    }
  }

  lemma LastingAfterTerminate(s: System, tid: nat)
    requires Inv(s) && Lasting(s) && tid < |s.p.slots|
    ensures Lasting(TerminateStep(s, tid))
  {
    hide CountIf, TakesHosts;
    if s.p.slots[tid].Used? {
      TablesAfterTerminate(s, tid);
      var n, p' := s.p.slots[tid].queue, QueuePoolSpec.Terminate(s.p, tid);
      SameHosts(s.p.queues, p'.queues);
      if m :| m in s.p.queues && !s.p.queues[m].Locked() {
        assert !p'.queues[m].Locked();
      }
    }
  }

  lemma LastingAfterEnqueue(s: System, name: string, host: string, task: Task)
    requires Inv(s) && Lasting(s) && EnqueueResult(s.p, name, host) == Done
    ensures Lasting(After(s, QueuePoolSpec.Enqueue(s.p, name, host, task)))
  {
    hide CountIf, Insert, CheckQueueName;
    var p' := QueuePoolSpec.Enqueue(s.p, name, host, task);
    assert !NewHost(s.p.queues, name, host);
    assert EnqueueName(s.p, name, host) in s.p.queues;
    hide TakesHosts;
    SameHosts(s.p.queues, p'.queues);
    if m :| m in s.p.queues && !s.p.queues[m].Locked() {
      assert !p'.queues[m].Locked();
    }
  }

  lemma LastingAfterCancel(s: System, instance: nat)
    requires Inv(s) && Lasting(s)
    ensures Lasting(After(s, QueuePoolSpec.Cancel(s.p, instance)))
  {
    hide CountIf, Filter, Select, TakesHosts;
    SameHosts(s.p.queues, QueuePoolSpec.Cancel(s.p, instance).queues);
    if m :| m in s.p.queues && !s.p.queues[m].Locked() {
      CancelKeepsUnlocked(s.p.queues[m], instance);
      assert Unlocked(QueuePoolSpec.Cancel(s.p, instance).queues, m);
    }
  }

  lemma LastingAfterFinish(s: System)
    requires Inv(s) && Lasting(s) && (s.p.forkPossible || s.p.shuttingDown)
    ensures Lasting(Finish(s))
  {
    hide CountIf, TakesHosts;
    SameHosts(s.p.queues, Finish(s).p.queues);
  }

  lemma LastingAfterExecute(s: System)
    requires Inv(s) && Lasting(s) && Enabled(s, Execute)
    ensures Lasting(Step(s, Execute))
  {
    hide CountIf, Allocate, TakesHosts;
    SameHosts(s.p.queues, Step(s, Execute).p.queues);
  }

  lemma LastingAfterResume(s: System, n: string, task: Task, tid: nat)
    requires Inv(s) && Lasting(s) && Enabled(s, Resume(n, task, tid))
    ensures Lasting(Step(s, Resume(n, task, tid)))
  {
    hide CountIf, TakesHosts;
    if n in s.p.queues { SameHosts(s.p.queues, QueuePoolSpec.Resume(s.p, n, task, tid).queues); }
  }

  lemma StepKeepsLasting(s: System, a: Action)
    requires Inv(s) && Lasting(s) && Enabled(s, a) && Quiet(s, a)
    ensures Lasting(Step(s, a))
  {
    hide CountIf, Allocate, TakesHosts, Finish, AllLocked, TablesAgree, QueuesSorted, CancelAgrees;
    hide TerminateStep, Displaced;
    match a
    case Enqueue(name, host, task) =>
      if EnqueueResult(s.p, name, host) == Done { LastingAfterEnqueue(s, name, host, task); }
    case BeginCancel(_) =>
    case Cancel(instance) => LastingAfterCancel(s, instance);
    case Terminate(tid) => LastingAfterTerminate(s, tid);
    case StrayExit(i) => LastingAfterTerminate(s, s.strays[i].tid);
    case Start =>
    case Fail => LastingAfterTerminate(s, s.forker.tid);
    case Resume(n, task, tid) => LastingAfterResume(s, n, task, tid);
    case Shutdown =>
    case StartForker =>
    case BeginDequeue => if s.p.forkPossible { LastingAfterFinish(s); }
    case Wake => LastingAfterFinish(s);
    case Execute => LastingAfterExecute(s);
  }

  /** In such a pool the forker ends only when a shutdown was requested. */
  lemma {:induction false} EndsOnlyOnShutdown(ss: seq<System>, actions: seq<Action>, i: nat)
    requires IsRun(ss, actions) && Inv(ss[0]) && Lasting(ss[0]) && i < |ss|
    requires forall k :: 0 <= k < |actions| ==> Quiet(ss[k], actions[k])
    ensures Lasting(ss[i]) && (ss[i].forker == Exited ==> ss[i].p.shuttingDown)
  {
    if i > 0 {
      EndsOnlyOnShutdown(ss, actions, i - 1);
      RunKeepsInv(ss, actions, i - 1);
      StepKeepsLasting(ss[i - 1], actions[i - 1]);
    }
  }

  // ---- what the pool holds ---------------------------------------------------------------------------

  function TasksOf(q: QueueState): multiset<Task> { multiset(q.waiting) + multiset(q.cancelled) }

  /** All the tasks in the queues. */
  ghost function Held(queues: map<string, QueueState>): multiset<Task>
    decreases |queues|
  {
    if queues == map[] then multiset{}
    else
      var n :| n in queues;
      TasksOf(queues[n]) + Held(queues - {n})
  }

  lemma {:induction false} HeldWithout(queues: map<string, QueueState>, n: string)
    requires n in queues
    ensures Held(queues) == TasksOf(queues[n]) + Held(queues - {n})
    decreases |queues|
  {
    hide TasksOf;
    var m :| m in queues && Held(queues) == TasksOf(queues[m]) + Held(queues - {m});
    if m != n {
      HeldWithout(queues - {m}, n);
      HeldWithout(queues - {n}, m);
      assert queues - {m} - {n} == queues - {n} - {m};
    }
  }

  lemma HeldPut(queues: map<string, QueueState>, n: string, q: QueueState)
    ensures Held(queues[n := q]) == TasksOf(q) + Held(queues - {n})
  {
    HeldWithout(queues[n := q], n);
    assert queues[n := q] - {n} == queues - {n};
  }

  /** Queues with the same tasks under the same names hold the same. */
  lemma {:induction false} HeldSame(queues: map<string, QueueState>, queues': map<string, QueueState>)
    requires queues.Keys == queues'.Keys && forall n :: n in queues ==> TasksOf(queues[n]) == TasksOf(queues'[n])
    ensures Held(queues) == Held(queues')
    decreases |queues|
  {
    if queues != map[] {
      var n :| n in queues;
      HeldWithout(queues, n);
      HeldWithout(queues', n);
      HeldSame(queues - {n}, queues' - {n});
    }
  }

  lemma {:induction false} PartsOf(id: nat, s: seq<Task>)
    ensures multiset(Filter(OtherThan(id), s)) + multiset(Select(InstanceOf, id, s)) == multiset(s)
  {
    if s != [] {
      PartsOf(id, s[1..]);
      assert s == [s[0]] + s[1..];
    }
  }

  lemma {:induction false} InsertAllKeeps(s: seq<Task>, xs: seq<Task>)
    ensures multiset(InsertAll(InstanceOf, s, xs)) == multiset(s) + multiset(xs)
  {
    if xs != [] {
      hide Insert, InstanceOf;
      InsertAllKeeps(s, xs[..|xs| - 1]);
      InsertKeeps(InstanceOf, InsertAll(InstanceOf, s, xs[..|xs| - 1]), xs[|xs| - 1]);
      assert xs == xs[..|xs| - 1] + [xs[|xs| - 1]];
    }
  }

  /** What a step brings into the queues, and what the forker takes from them. */
  function Entering(s: System, a: Action): multiset<Task> {
    if a.Enqueue? && EnqueueResult(s.p, a.name, a.host) == Done then multiset{a.task} else multiset{}
  }

  ghost function Leaving(s: System, a: Action): multiset<Task>
    requires Enabled(s, a)
  {
    if (a.BeginDequeue? || a.Wake?) && Step(s, a).forker.Holding? then multiset{Step(s, a).forker.task} else multiset{}
  }

  /** The queues that a step deletes. */
  ghost function Deleted(s: System, a: Action): map<string, QueueState>
    requires Enabled(s, a)
  {
    match a
    case Terminate(_) => s.p.queues - Step(s, a).p.queues.Keys
    case Fail => s.p.queues - Step(s, a).p.queues.Keys
    case StrayExit(_) => s.p.queues - Step(s, a).p.queues.Keys
    case Reload(_) => s.p.queues - MarkAll(s.p.queues).Keys
    case _ => map[]
  }

  /** What a step drops: the cancelled tasks of the queues it deletes, which have no waiting ones. */
  ghost function Dropped(s: System, a: Action): multiset<Task>
    requires Enabled(s, a)
  {
    Held(Deleted(s, a))
  }

  lemma {:induction false} HeldEmpty(queues: map<string, QueueState>)
    ensures Held(queues) == multiset{} <==> forall n :: n in queues ==> TasksOf(queues[n]) == multiset{}
    decreases |queues|
  {
    if queues != map[] {
      var n :| n in queues;
      hide Held, TasksOf;
      var rest := queues - {n};
      HeldWithout(queues, n);
      HeldEmpty(rest);
      assert Held(queues) == multiset{} <==> TasksOf(queues[n]) == multiset{} && Held(rest) == multiset{};
      assert forall m :: m in queues <==> m == n || m in rest;
    }
  }

  /** Only cancelled tasks are ever dropped, and a step drops some exactly if it deletes a queue that has some. */
  lemma DropsOnlyCancelled(s: System, a: Action)
    requires Inv(s) && Enabled(s, a)
    ensures forall n :: n in Deleted(s, a) ==> Deleted(s, a)[n].waiting == []
    ensures Dropped(s, a) == multiset{} <==> forall n :: n in Deleted(s, a) ==> Deleted(s, a)[n].cancelled == []
  {
    var gone := Deleted(s, a);
    DeletedAreIdle(s, a);
    HeldEmpty(gone);
    hide Held, Deleted, Inv;
    assert forall n :: n in gone ==> (TasksOf(gone[n]) == multiset{} <==> gone[n].cancelled == []);
  }

  lemma DeletedAreIdle(s: System, a: Action)
    requires Inv(s) && Enabled(s, a)
    ensures forall n :: n in Deleted(s, a) ==> Deleted(s, a)[n].waiting == []
  {
    hide CountIf, DefineAll, AllLocked, Finish, Allocate;
  }

  lemma HeldAfterEnqueue(s: System, name: string, host: string, task: Task)
    requires EnqueueResult(s.p, name, host) == Done
    ensures Held(QueuePoolSpec.Enqueue(s.p, name, host, task).queues) == Held(s.p.queues) + multiset{task}
  {
    hide Held, AllLocked, CheckQueueName;
    var n := EnqueueName(s.p, name, host);
    var q := if n in s.p.queues then s.p.queues[n] else HostQueue(s.p.queues[name]);
    HeldPut(s.p.queues, n, q.Enqueue(task));
    TasksAfterEnqueue(q, task);
    if n in s.p.queues { HeldWithout(s.p.queues, n); } else { assert s.p.queues - {n} == s.p.queues; }
  }

  lemma TasksAfterEnqueue(q: QueueState, task: Task)
    ensures TasksOf(q.Enqueue(task)) == TasksOf(q) + multiset{task}
  {
    InsertKeeps(InstanceOf, q.waiting, task);
  }

  lemma HeldAfterFinish(s: System)
    requires Finish(s).forker.Holding?
    ensures Held(Finish(s).p.queues) + multiset{Finish(s).forker.task} == Held(s.p.queues)
    ensures s.p.queues.Keys == Finish(s).p.queues.Keys
  {
    hide AllLocked, Held, TasksOf;
    var n := FirstUnlocked(s.p.queues);
    var q := s.p.queues[n];
    HeldPut(s.p.queues, n, q.Dequeue());
    HeldWithout(s.p.queues, n);
    TasksAfterDequeue(q);
  }

  lemma TasksAfterDequeue(q: QueueState)
    requires !q.Locked()
    ensures TasksOf(q.Dequeue()) + multiset{q.Next()} == TasksOf(q)
  {
    var from := if q.cancelled != [] then q.cancelled else q.waiting;
    assert from == [from[0]] + from[1..];
  }

  lemma HeldAfterCancel(s: System, instance: nat)
    ensures Held(QueuePoolSpec.Cancel(s.p, instance).queues) == Held(s.p.queues)
  {
    forall n | n in s.p.queues
      ensures TasksOf(s.p.queues[n].Cancel(instance)) == TasksOf(s.p.queues[n])
    {
      PartsOf(instance, s.p.queues[n].waiting);
    }
    HeldSame(s.p.queues, QueuePoolSpec.Cancel(s.p, instance).queues);
  }

  lemma HeldAfterTerminate(s: System, tid: nat)
    requires Inv(s) && tid < |s.p.slots| && s.p.slots[tid].Used?
    ensures var p' := QueuePoolSpec.Terminate(s.p, tid);
            Held(p'.queues) + Held(s.p.queues - p'.queues.Keys) == Held(s.p.queues)
  {
    hide Held, AllLocked, CountIf;
    NothingHeld();
    var n, p' := s.p.slots[tid].queue, QueuePoolSpec.Terminate(s.p, tid);
    HeldWithout(s.p.queues, n);
    if n in p'.queues {
      HeldPut(s.p.queues, n, p'.queues[n]);
      assert s.p.queues - p'.queues.Keys == map[];
    } else {
      assert s.p.queues - p'.queues.Keys == map[n := s.p.queues[n]];
      HeldOne(n, s.p.queues[n]);
    }
  }

  lemma HeldOne(n: string, q: QueueState)
    ensures Held(map[n := q]) == TasksOf(q)
  {
    hide Held;
    NothingHeld();
    HeldWithout(map[n := q], n);
    assert map[n := q] - {n} == map[];
  }

  lemma {:induction false} HeldSplit(queues: map<string, QueueState>, keep: set<string>)
    requires keep <= queues.Keys
    ensures Held(queues) == Held(queues - (queues.Keys - keep)) + Held(queues - keep)
    decreases |keep|
  {
    hide Held;
    NothingHeld();
    if keep == {} {
      assert queues - (queues.Keys - keep) == map[] && queues - keep == queues;
    } else {
      var n :| n in keep;
      HeldWithout(queues, n);
      HeldSplit(queues - {n}, keep - {n});
      var kept := queues - (queues.Keys - keep);
      HeldWithout(kept, n);
      assert kept - {n} == (queues - {n}) - ((queues - {n}).Keys - (keep - {n}));
      assert (queues - {n}) - (keep - {n}) == queues - keep;
    }
  }

  lemma {:induction false} HeldAfterDefine(queues: map<string, QueueState>, ds: seq<Definition>)
    ensures Held(DefineAll(queues, ds)) == Held(queues)
  {
    if ds != [] {
      HeldAfterDefine(queues, ds[..|ds| - 1]);
      HeldAfterOneDefine(DefineAll(queues, ds[..|ds| - 1]), ds[|ds| - 1]);
    }
  }

  lemma HeldAfterOneDefine(queues: map<string, QueueState>, d: Definition)
    ensures Held(Define(queues, d)) == Held(queues)
  {
    hide Held;
    HeldPut(queues, d.name, Define(queues, d)[d.name]);
    if d.name in queues {
      HeldWithout(queues, d.name);
      InsertAllKeeps([], queues[d.name].waiting);
    } else {
      assert queues - {d.name} == queues;
    }
  }

  lemma HeldAfterReload(s: System, ds: seq<Definition>)
    ensures Held(QueuePoolSpec.Reload(s.p, ds).queues) + Held(s.p.queues - MarkAll(s.p.queues).Keys) == Held(s.p.queues)
  {
    var marked := MarkAll(s.p.queues);
    HeldAfterDefine(marked, ds);
    HeldSplit(s.p.queues, marked.Keys);
    HeldSame(marked, s.p.queues - (s.p.queues.Keys - marked.Keys));
  }

  lemma HeldAfterRegister(queues: map<string, QueueState>, n: string)
    requires n in queues
    ensures Held(queues[n := queues[n].Execute()]) == Held(queues)
  {
    HeldSame(queues, queues[n := queues[n].Execute()]);
  }

  /** The steps that take nothing from the queues and delete none. */
  lemma OtherStepsAccount(s: System, a: Action)
    requires Enabled(s, a) && !a.Terminate? && !a.Fail? && !a.StrayExit? && !a.Reload? && !a.BeginDequeue? && !a.Wake?
    ensures Held(Step(s, a).p.queues) == Held(s.p.queues) + Entering(s, a)
  {
    hide Held, Allocate, Insert, AllLocked, CancelAll, Inv;
    match a
    case Enqueue(name, host, task) =>
      if EnqueueResult(s.p, name, host) == Done { HeldAfterEnqueue(s, name, host, task); }
    case BeginCancel(_) =>
    case Start =>
    case Cancel(instance) => HeldAfterCancel(s, instance);
    case Resume(n, task, tid) => if n in s.p.queues { HeldAfterRegister(s.p.queues, n); }
    case Shutdown =>
    case StartForker =>
    case Execute => if s.forker.queue in s.p.queues { HeldAfterRegister(s.p.queues, s.forker.queue); }
  }

  lemma TerminateAccounts(s: System, tid: nat)
    requires Inv(s) && tid < |s.p.slots|
    ensures var p' := TerminateStep(s, tid).p; Held(p'.queues) + Held(s.p.queues - p'.queues.Keys) == Held(s.p.queues)
  {
    hide Held, Inv;
    NothingHeld();
    if s.p.slots[tid].Used? {
      HeldAfterTerminate(s, tid);
    } else {
      assert s.p.queues - s.p.queues.Keys == map[];
    }
  }

  /** Every task that enters is in a queue, was taken by the forker, or was dropped with a deleted queue. */
  lemma StepAccounts(s: System, a: Action)
    requires Inv(s) && Enabled(s, a)
    ensures Held(Step(s, a).p.queues) + Leaving(s, a) + Dropped(s, a) == Held(s.p.queues) + Entering(s, a)
  {
    hide Held, Finish, Inv, AllLocked, MarkAll, DefineAll;
    NothingHeld();
    match a
    case Terminate(tid) => TerminateAccounts(s, tid);
    case Fail => TerminateAccounts(s, s.forker.tid);
    case StrayExit(i) => TerminateAccounts(s, s.strays[i].tid);
    case Reload(ds) => HeldAfterReload(s, ds);
    case BeginDequeue => TakenByFinish(s);
    case Wake => TakenByFinish(s);
    case _ => OtherStepsAccount(s, a);
  }

  lemma NothingHeld()
    ensures Held(map[]) == multiset{}
  {
  }

  lemma TakenByFinish(s: System)
    ensures if Finish(s).forker.Holding? then
              Held(Finish(s).p.queues) + multiset{Finish(s).forker.task} == Held(s.p.queues)
            else Finish(s).p.queues == s.p.queues
  {
    if Finish(s).forker.Holding? { HeldAfterFinish(s); }
  }

  /** The tasks that entered in the first n steps of a run. */
  ghost function Entered(ss: seq<System>, actions: seq<Action>, n: nat): multiset<Task>
    requires IsRun(ss, actions) && n <= |actions|
  {
    if n == 0 then multiset{} else Entered(ss, actions, n - 1) + Entering(ss[n - 1], actions[n - 1])
  }

  /** The tasks the forker took, and those dropped with a deleted queue. */
  ghost function Gone(ss: seq<System>, actions: seq<Action>, n: nat): multiset<Task>
    requires IsRun(ss, actions) && n <= |actions|
  {
    if n == 0 then multiset{}
    else Gone(ss, actions, n - 1) + Leaving(ss[n - 1], actions[n - 1]) + Dropped(ss[n - 1], actions[n - 1])
  }

  /** Over a whole run: what entered and was there is what was taken, was dropped or is there. */
  lemma {:induction false} RunAccounts(ss: seq<System>, actions: seq<Action>, n: nat)
    requires IsRun(ss, actions) && Inv(ss[0]) && n <= |actions|
    ensures Held(ss[n].p.queues) + Gone(ss, actions, n) == Held(ss[0].p.queues) + Entered(ss, actions, n)
  {
    hide Held, Inv, Enabled, Step, Leaving, Dropped, Entering;
    if n > 0 {
      RunAccounts(ss, actions, n - 1);
      RunKeepsInv(ss, actions, n - 1);
      StepAccounts(ss[n - 1], actions[n - 1]);
      var a := actions[n - 1];
      Balance(Held(ss[n].p.queues), Leaving(ss[n - 1], a), Dropped(ss[n - 1], a), Held(ss[n - 1].p.queues),
              Entering(ss[n - 1], a), Gone(ss, actions, n - 1), Held(ss[0].p.queues), Entered(ss, actions, n - 1));
    }
  }

  lemma Balance(h': multiset<Task>, l: multiset<Task>, d: multiset<Task>, h: multiset<Task>,
                e: multiset<Task>, gone: multiset<Task>, start: multiset<Task>, entered: multiset<Task>)
    requires h' + l + d == h + e && h + gone == start + entered
    ensures h' + (gone + l + d) == start + (entered + e)
  {
    assert h' + (gone + l + d) == (h' + l + d) + gone == (h + gone) + e;
  }
}
