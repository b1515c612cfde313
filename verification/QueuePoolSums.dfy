/** The ids that the queues of a pool take together, when it keeps its queues and their limits. */
module QueuePoolSums {
  import opened Queue
  import opened QueuePoolSpec
  import opened QueuePoolRuns
  import opened QueuePoolLimits
  import opened QueuePoolTraces

  // ---- how many ids are taken ------------------------------------------------------------------------

  function Taken(slots: seq<Slot>): (k: nat)
    ensures k <= |slots|
  {
    if slots == [] then 0 else Taken(slots[1..]) + if slots[0].Used? then 1 else 0
  }

  lemma {:induction false} TakenByAll(slots: seq<Slot>)
    ensures Taken(slots) == |slots| <==> forall k :: 0 <= k < |slots| ==> slots[k].Used?
  {
    if slots != [] {
      TakenByAll(slots[1..]);
      assert forall k :: 0 < k < |slots| ==> slots[k] == slots[1..][k - 1];
    }
  }

  lemma {:induction false} TakenByNone(slots: seq<Slot>)
    requires forall k :: 0 <= k < |slots| ==> slots[k] == Free
    ensures Taken(slots) == 0
  {
    if slots != [] { TakenByNone(slots[1..]); }
  }

  lemma {:induction false} TakenAppend(s: seq<Slot>, t: seq<Slot>)
    ensures Taken(s + t) == Taken(s) + Taken(t)
  {
    if s == [] {
      assert s + t == t;
    } else {
      assert (s + t)[1..] == s[1..] + t;
      TakenAppend(s[1..], t);
    }
  }

  lemma {:induction false} TakeOne(slots: seq<Slot>, i: nat, slot: Slot)
    requires i < |slots| && slots[i] == Free && slot.Used?
    ensures Taken(slots[i := slot]) == Taken(slots) + 1
  {
    if i == 0 {
      assert slots[i := slot][1..] == slots[1..];
    } else {
      assert slots[i := slot][1..] == slots[1..][i - 1 := slot];
      TakeOne(slots[1..], i - 1, slot);
    }
  }

  /** An id is free to be given out exactly if fewer than that many are taken. */
  lemma SomeFreeExactly(slots: seq<Slot>)
    requires slots != [] && slots[|slots| - 1] == Free
    ensures Taken(slots) <= |slots| - 1 && (SomeFree(slots) <==> Taken(slots) < |slots| - 1)
  {
    var front := slots[..|slots| - 1];
    assert slots == front + [Free];
    TakenAppend(front, [Free]);
    TakenByAll(front);
    assert forall k :: 0 <= k < |front| ==> slots[k] == front[k];
  }

  // ---- queue by queue --------------------------------------------------------------------------------

  /** The ids taken by some of the queues. */
  function TakenIn(slots: seq<Slot>, names: set<string>): nat {
    if slots == [] then 0
    else TakenIn(slots[1..], names) + if slots[0].Used? && slots[0].queue in names then 1 else 0
  }

  lemma {:induction false} TakenInNone(slots: seq<Slot>)
    ensures TakenIn(slots, {}) == 0
  {
    if slots != [] { TakenInNone(slots[1..]); }
  }

  lemma {:induction false} TakenInAll(slots: seq<Slot>, names: set<string>)
    requires forall k :: 0 <= k < |slots| && slots[k].Used? ==> slots[k].queue in names
    ensures TakenIn(slots, names) == Taken(slots)
  {
    if slots != [] {
      forall k | 0 <= k < |slots[1..]| && slots[1..][k].Used?
        ensures slots[1..][k].queue in names
      {
        assert slots[k + 1].Used?;
      }
      TakenInAll(slots[1..], names);
    }
  }

  lemma {:induction false} TakenInSplit(slots: seq<Slot>, normal: seq<bool>, names: set<string>, n: string)
    requires |slots| == |normal| && n in names
    ensures TakenIn(slots, names) == TakenIn(slots, names - {n}) + CountIf(slots, normal, n, true)
  {
    if slots != [] { TakenInSplit(slots[1..], normal[1..], names, n); }
  }

  /** The limits of some queues together. */
  ghost function SumLimits(queues: map<string, QueueState>, names: set<string>): nat
    requires names <= queues.Keys
  {
    if names == {} then 0
    else
      var n :| n in names;
      queues[n].concurrency + SumLimits(queues, names - {n})
  }

  ghost function TotalLimit(queues: map<string, QueueState>): nat { SumLimits(queues, queues.Keys) }

  lemma {:induction false} SumBounds(slots: seq<Slot>, normal: seq<bool>, queues: map<string, QueueState>,
                                     names: set<string>)
    requires |slots| == |normal| && names <= queues.Keys
    ensures (forall n :: n in names ==> CountIf(slots, normal, n, true) <= queues[n].concurrency)
              ==> TakenIn(slots, names) <= SumLimits(queues, names)
    ensures (forall n :: n in names ==> CountIf(slots, normal, n, true) >= queues[n].concurrency)
              ==> TakenIn(slots, names) >= SumLimits(queues, names)
    decreases |names|
  {
    if names == {} {
      TakenInNone(slots);
    } else {
      hide CountIf, TakenIn;
      var n :| n in names && SumLimits(queues, names) == queues[n].concurrency + SumLimits(queues, names - {n});
      TakenInSplit(slots, normal, names, n);
      SumBounds(slots, normal, queues, names - {n});
    }
  }

  lemma {:induction false} SumSame(queues: map<string, QueueState>, queues': map<string, QueueState>,
                                   names: set<string>)
    requires names <= queues.Keys && names <= queues'.Keys
    requires forall n :: n in names ==> queues[n].concurrency == queues'[n].concurrency
    ensures SumLimits(queues, names) == SumLimits(queues', names)
    decreases |names|
  {
    if names != {} {
      var n :| n in names && SumLimits(queues, names) == queues[n].concurrency + SumLimits(queues, names - {n});
      SumSame(queues, queues', names - {n});
      SumWithout(queues', names, n);
    }
  }

  lemma {:induction false} SumWithout(queues: map<string, QueueState>, names: set<string>, n: string)
    requires n in names && names <= queues.Keys
    ensures SumLimits(queues, names) == queues[n].concurrency + SumLimits(queues, names - {n})
    decreases |names|
  {
    var m :| m in names && SumLimits(queues, names) == queues[m].concurrency + SumLimits(queues, names - {m});
    if m != n {
      SumWithout(queues, names - {m}, n);
      SumWithout(queues, names - {n}, m);
      assert names - {m} - {n} == names - {n} - {m};
    }
  }

  // ---- a pool that keeps its queues ------------------------------------------------------------------

  /** The queues have the names and limits they had, and none is marked. */
  predicate SameLimits(queues: map<string, QueueState>, queues': map<string, QueueState>) {
    queues'.Keys == queues.Keys
    && forall n :: n in queues ==> queues'[n].concurrency == queues[n].concurrency && !queues'[n].removed
  }

  /** The forker is at a cancelled task of the queue, which it is to end. */
  predicate EndsCancelled(s: System, n: string) { s.forker.Starting? && s.forker.cancelled && s.forker.queue == n }

  /** No queue counts more tasks than its limit, but for the cancelled one that the forker is to end. */
  ghost predicate Within(s: System, queues: map<string, QueueState>) {
    && AllCounted(s) && SameLimits(queues, s.p.queues) && s.p.slots != [] && s.p.slots[|s.p.slots| - 1] == Free
    && (forall n :: n in s.p.queues ==>
          s.p.queues[n].running <= s.p.queues[n].concurrency + if EndsCancelled(s, n) then 1 else 0)
    && (s.forker.Holding? ==> s.forker.queue in s.p.queues)
    && (s.forker.Holding? && !s.forker.cancelled ==>
          s.p.queues[s.forker.queue].running < s.p.queues[s.forker.queue].concurrency)
    && (s.forker.Starting? ==> s.forker.queue in s.p.queues)
  }

  lemma TerminateKeepsQueue(s: System, tid: nat, queues: map<string, QueueState>)
    requires Inv(s) && SameLimits(queues, s.p.queues) && tid < |s.p.slots| && s.p.slots[tid].Used?
    ensures var n := s.p.slots[tid].queue;
            && n in s.p.queues && s.p.queues[n].running > 0
            && TerminateStep(s, tid).p.queues == s.p.queues[n := s.p.queues[n].(running := s.p.queues[n].running - 1)]
            && TerminateStep(s, tid).p.slots == s.p.slots[tid := Free] && TerminateStep(s, tid).strays == s.strays
            && (TerminateStep(s, tid).forker == s.forker || s.forker.Asleep?)
            && (s.forker.Asleep? ==> TerminateStep(s, tid).forker.Asleep?)
  {
    hide AllLocked, QueuesSorted, CancelAgrees, ForkerAgrees, CountIf;
    TablesAfterTerminate(s, tid);
  }

  lemma WithinAfterTerminate(s: System, tid: nat, queues: map<string, QueueState>)
    requires Inv(s) && Within(s, queues) && Enabled(s, Terminate(tid))
    ensures Within(TerminateStep(s, tid), queues)
  {
    hide Inv;
    if s.p.slots[tid].Used? {
      TerminateKeepsQueue(s, tid, queues);
      hide TerminateStep;
    }
  }

  lemma WithinAfterFail(s: System, queues: map<string, QueueState>)
    requires Inv(s) && Within(s, queues) && Enabled(s, Fail)
    ensures Within(Step(s, Fail), queues)
  {
    hide TerminateStep, AllLocked, CountIf, TablesAgree, ForkerAgrees, QueuesSorted, CancelAgrees;
    TerminateKeepsQueue(s, s.forker.tid, queues);
    assert Step(s, Fail).strays == [];
  }

  lemma WithinAfterStart(s: System, queues: map<string, QueueState>)
    requires Inv(s) && Within(s, queues) && Enabled(s, Start)
    ensures Within(Step(s, Start), queues)
  {
    hide TablesAgree, QueuesSorted, ForkerAgrees;
    assert Step(s, Start).strays == [];
  }

  lemma WithinAfterExecute(s: System, queues: map<string, QueueState>)
    requires Inv(s) && Within(s, queues) && Enabled(s, Execute) && Registers(s, Execute)
    ensures Within(Step(s, Execute), queues)
  {
    ExecuteShape(s);
    hide Step, Inv, QueuePoolSpec.Execute, AllLocked;
  }

  lemma WithinAfterFinish(s: System, queues: map<string, QueueState>)
    requires Inv(s) && Within(s, queues) && (s.forker == Ready || s.forker.Asleep?)
    ensures Within(Finish(s), queues)
  {
    hide Inv;
  }

  lemma WithinAfterEnqueue(s: System, name: string, host: string, task: Task, queues: map<string, QueueState>)
    requires Inv(s) && Within(s, queues) && Plain(s, Enqueue(name, host, task))
    requires EnqueueResult(s.p, name, host) == Done
    ensures Within(After(s, QueuePoolSpec.Enqueue(s.p, name, host, task)), queues)
  {
    hide Inv, CheckQueueName, AllLocked;
  }

  lemma WithinAfterCancel(s: System, instance: nat, queues: map<string, QueueState>)
    requires Within(s, queues)
    ensures Within(After(s, QueuePoolSpec.Cancel(s.p, instance)), queues)
  {
    hide AllLocked;
  }

  lemma StepKeepsWithin(s: System, a: Action, queues: map<string, QueueState>)
    requires Inv(s) && Within(s, queues) && Enabled(s, a) && Plain(s, a) && Registers(s, a)
    ensures Within(Step(s, a), queues)
  {
    hide Inv, TerminateStep, Finish, QueuePoolSpec.Enqueue, QueuePoolSpec.Cancel, QueuePoolSpec.Execute, AllLocked;
    match a
    case Enqueue(name, host, task) =>
      if EnqueueResult(s.p, name, host) == Done { WithinAfterEnqueue(s, name, host, task, queues); }
    case Cancel(instance) => WithinAfterCancel(s, instance, queues);
    case Terminate(tid) => WithinAfterTerminate(s, tid, queues);
    case Fail => WithinAfterFail(s, queues);
    case Start => WithinAfterStart(s, queues);
    case Execute => WithinAfterExecute(s, queues);
    case BeginDequeue => WithinAfterFinish(s, queues);
    case Wake => WithinAfterFinish(s, queues);
    case BeginCancel(_) =>
    case StartForker =>
    case Shutdown =>
  }

  /** With the limits below the number of ids, the held task gets one. */
  lemma HeldRegisters(s: System, queues: map<string, QueueState>)
    requires Inv(s) && Within(s, queues) && Enabled(s, Execute) && TotalLimit(queues) < |s.p.slots| - 1
    ensures Registers(s, Execute)
  {
    hide CountIf, TakenIn, Taken, SumLimits, AllLocked, QueuesSorted, CancelAgrees, ForkerAgrees;
    SumSame(queues, s.p.queues, queues.Keys);
    SumBounds(s.p.slots, s.normal, s.p.queues, s.p.queues.Keys);
    TakenInAll(s.p.slots, s.p.queues.Keys);
    SomeFreeExactly(s.p.slots);
  }

  /**
   Over every run that keeps the queues, and in which every task gets an id: a queue counts at most one task more than
   its limit, and that only while the forker is to end a cancelled task of it.
   */
  lemma {:induction false} RunKeepsWithin(ss: seq<System>, actions: seq<Action>, i: nat, queues: map<string, QueueState>)
    requires IsRun(ss, actions) && Inv(ss[0]) && Within(ss[0], queues) && i < |ss|
    requires forall k :: 0 <= k < |actions| ==> Plain(ss[k], actions[k])
    requires forall k :: 0 <= k < i ==> Registers(ss[k], actions[k])
    ensures Within(ss[i], queues)
  {
    hide Within, Inv, Step, Enabled, Registers, Plain;
    if i > 0 {
      RunKeepsWithin(ss, actions, i - 1, queues);
      RunKeepsInv(ss, actions, i - 1);
      StepKeepsWithin(ss[i - 1], actions[i - 1], queues);
    }
  }

  /** Over every run that keeps the queues, if the limits together are below the number of ids, every task gets one. */
  lemma {:induction false} RunRegisters(ss: seq<System>, actions: seq<Action>, i: nat, queues: map<string, QueueState>)
    requires IsRun(ss, actions) && Inv(ss[0]) && Within(ss[0], queues) && i < |ss|
    requires TotalLimit(queues) < |ss[0].p.slots| - 1
    requires forall k :: 0 <= k < |actions| ==> Plain(ss[k], actions[k])
    ensures |ss[i].p.slots| == |ss[0].p.slots| && forall k :: 0 <= k < i ==> Registers(ss[k], actions[k])
  {
    hide Within, Inv, Step, Enabled, Registers, Plain, TotalLimit;
    if i > 0 {
      RunRegisters(ss, actions, i - 1, queues);
      RunKeepsWithin(ss, actions, i - 1, queues);
      RunKeepsInv(ss, actions, i - 1);
      PlainRegisters(ss[i - 1], actions[i - 1], queues);
      StepKeepsSlots(ss[i - 1], actions[i - 1]);
    }
  }

  lemma PlainRegisters(s: System, a: Action, queues: map<string, QueueState>)
    requires Inv(s) && Within(s, queues) && Enabled(s, a) && Plain(s, a) && TotalLimit(queues) < |s.p.slots| - 1
    ensures Registers(s, a)
  {
    if a.Execute? { HeldRegisters(s, queues); }
  }

  lemma StepKeepsSlots(s: System, a: Action)
    requires Enabled(s, a)
    ensures |Step(s, a).p.slots| == |s.p.slots|
  {
    hide AllLocked, Allocate, CheckQueueName, DefineAll, MarkAll, CancelAll;
  }
}
