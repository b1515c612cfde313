/** What runs of the pool guarantee about concurrency, task ids and the end of the forker, and what they do not. */
module QueuePoolLimits {
  import opened Queue
  import opened QueuePoolSpec
  import opened QueuePoolRuns

  // ---- the concurrency limit -------------------------------------------------------------------------

  /** Tasks that run for a queue under an id and did not leave it as cancelled ones. */
  function NormalRunning(s: System, n: string): nat
    requires |s.p.slots| == |s.normal|
  {
    CountIf(s.p.slots, s.normal, n, false)
  }

  /** Those that run under no id. */
  function NormalStrays(strays: seq<Stray>, n: string): nat {
    if strays == [] then 0
    else NormalStrays(strays[..|strays| - 1], n)
         + if strays[|strays| - 1].queue == n && strays[|strays| - 1].normal then 1 else 0
  }

  /** All tasks that run for a queue and did not leave it as cancelled ones, the one being started included. */
  function AllNormal(s: System, n: string): nat
    requires |s.p.slots| == |s.normal|
  {
    NormalRunning(s, n) + NormalStrays(s.strays, n)
  }

  /** The tasks resumed in a queue. */
  function Resumed(actions: seq<Action>, n: string): nat {
    if actions == [] then 0
    else Resumed(actions[..|actions| - 1], n)
         + if actions[|actions| - 1].Resume? && actions[|actions| - 1].name == n then 1 else 0
  }

  lemma ResumedOneMore(actions: seq<Action>, a: Action, n: string)
    ensures Resumed(actions + [a], n) == Resumed(actions, n) + if a.Resume? && a.name == n then 1 else 0
  {
    assert (actions + [a])[..|actions|] == actions;
  }

  function Max(a: nat, b: nat): nat { if a < b then b else a }

  /**
   The limit holds, or as many tasks run as were resumed if these are more; it leaves room for the task the forker
   holds; and before the forker is started only resumed tasks run.
   */
  ghost predicate Limited(s: System, actions: seq<Action>)
    requires |s.p.slots| == |s.normal|
  {
    && (forall n :: n in s.p.queues ==>
          s.p.queues[n].concurrency >= 1 && AllNormal(s, n) <= Max(s.p.queues[n].concurrency, Resumed(actions, n)))
    && (s.forker == NotStarted ==> forall n :: n in s.p.queues ==> AllNormal(s, n) <= Resumed(actions, n))
    && (s.forker.Holding? && !s.forker.cancelled && s.forker.queue in s.p.queues ==>
          s.p.queues[s.forker.queue].running < s.p.queues[s.forker.queue].concurrency)
  }

  /** No task runs without an id, and the one being started has its own. */
  ghost predicate AllCounted(s: System) {
    && s.strays == []
    && (s.forker.Starting? ==>
          s.forker.registered && s.forker.tid < |s.p.slots|
          && s.p.slots[s.forker.tid] == Used(s.forker.queue, s.forker.task))
  }

  /** A step after which every task that runs because of it has an id: the queue is there and an id is free. */
  ghost predicate Registers(s: System, a: Action)
    requires Enabled(s, a)
  {
    match a
    case Execute => s.forker.queue in s.p.queues && exists k :: 0 <= k < |s.p.slots| - 1 && s.p.slots[k] == Free
    case Resume(n, _, _) => n in s.p.queues
    case _ => true
  }

  lemma StepKeepsCounted(s: System, a: Action)
    requires Inv(s) && Enabled(s, a) && Registers(s, a) && AllCounted(s)
    ensures AllCounted(Step(s, a))
  {
    hide CountIf, Allocate, AllLocked, MarkAll, DefineAll, CancelAll, QueuesSorted, CancelAgrees;
    if a.Execute? { ExecuteRegistersExactly(s); }
  }

  lemma FewerNormal(s: System, tid: nat, n: string)
    requires |s.p.slots| == |s.normal| && tid < |s.p.slots|
    ensures CountIf(s.p.slots[tid := Free], s.normal, n, false) <= NormalRunning(s, n)
  {
    assert s.normal[tid := s.normal[tid]] == s.normal;
    CountUpdate(s.p.slots, s.normal, tid, Free, s.normal[tid], n, false);
  }

  /** What the end of a task leaves as it is. */
  lemma TerminateShape(s: System, tid: nat)
    requires Inv(s) && tid < |s.p.slots| && s.p.slots[tid].Used?
    ensures var s' := TerminateStep(s, tid);
            && s'.p.slots == s.p.slots[tid := Free] && s'.normal == s.normal && s'.strays == s.strays
            && s'.forker.Asleep? == s.forker.Asleep? && (!s.forker.Asleep? ==> s'.forker == s.forker)
            && forall n :: n in s'.p.queues ==>
                 n in s.p.queues && s'.p.queues[n].concurrency == s.p.queues[n].concurrency
                 && s'.p.queues[n].running <= s.p.queues[n].running
  {
    hide AllLocked, QueuesSorted, CancelAgrees, ForkerAgrees, CountIf;
    TablesAfterTerminate(s, tid);
  }

  lemma LimitAfterTerminate(s: System, actions: seq<Action>, tid: nat)
    requires Inv(s) && Limited(s, actions) && tid < |s.p.slots|
    ensures Limited(TerminateStep(s, tid), actions)
  {
    if s.p.slots[tid].Used? {
      TerminateShape(s, tid);
      forall n
        ensures CountIf(s.p.slots[tid := Free], s.normal, n, false) <= NormalRunning(s, n)
      {
        FewerNormal(s, tid, n);
      }
      hide TerminateStep, Resumed, NormalStrays, CountIf, Inv;
    }
  }

  lemma LimitAfterFail(s: System, actions: seq<Action>)
    requires Inv(s) && Limited(s, actions) && AllCounted(s) && Enabled(s, Fail)
    ensures |Step(s, Fail).p.slots| == |Step(s, Fail).normal| && Limited(Step(s, Fail), actions)
  {
    hide Resumed, CountIf, QueuePoolSpec.Terminate, AllLocked;
    LimitAfterTerminate(s, actions, s.forker.tid);
    TerminateShape(s, s.forker.tid);
    assert Step(s, Fail).strays == s.strays;
  }

  lemma ExecuteFound(p: PoolState, n: string, task: Task)
    requires 1 < |p.slots| && n in p.queues && exists k :: 0 <= k < |p.slots| - 1 && p.slots[k] == Free
    ensures var (p', tid) := QueuePoolSpec.Execute(p, n, task);
            && tid < |p.slots| - 1 && p.slots[tid] == Free && p'.slots != p.slots
            && p' == Refresh(p.(lastTid := tid, slots := p.slots[tid := Used(n, task)],
                                queues := p.queues[n := p.queues[n].Execute()]))
  {
    hide Allocate, AllLocked;
    AllocationExactly(p.slots, p.lastTid);
  }

  lemma RunningBelow(s: System, n: string, tid: nat)
    requires TablesAgree(s) && n in s.p.queues && tid < |s.p.slots| && s.p.slots[tid] == Free
    ensures s.p.queues[n].running < |s.p.slots| < WORD
    ensures s.p.queues[n].Execute() == s.p.queues[n].(running := s.p.queues[n].running + 1)
  {
    NotCounted(s.p.slots, s.normal, tid, n);
  }

  /** What a registered task changes. */
  lemma ExecuteShape(s: System)
    requires Inv(s) && Enabled(s, Execute) && Registers(s, Execute)
    ensures var Holding(n, task, cancelled) := s.forker;
            var tid, s' := QueuePoolSpec.Execute(s.p, n, task).1, Step(s, Execute);
            && tid < |s.p.slots| - 1 && s.p.slots[tid] == Free && s.p.queues[n].running < |s.p.slots| < WORD
            && s' == s.(p := Refresh(s.p.(lastTid := tid, slots := s.p.slots[tid := Used(n, task)],
                          queues := s.p.queues[n := s.p.queues[n].(running := s.p.queues[n].running + 1)])),
                        forker := Starting(n, task, cancelled, tid, true), normal := s.normal[tid := !cancelled])
  {
    var Holding(n, task, cancelled) := s.forker;
    ExecuteFound(s.p, n, task);
    RunningBelow(s, n, QueuePoolSpec.Execute(s.p, n, task).1);
    hide QueuePoolSpec.Execute, Refresh, Inv;
  }

  /** A free id is not counted. */
  lemma {:induction false} NotCounted(slots: seq<Slot>, normal: seq<bool>, i: nat, n: string)
    requires |slots| == |normal| && i < |slots| && slots[i] == Free
    ensures CountIf(slots, normal, n, true) < |slots|
  {
    if i > 0 { NotCounted(slots[1..], normal[1..], i - 1, n); }
  }

  lemma LimitAfterExecute(s: System, actions: seq<Action>)
    requires Inv(s) && Limited(s, actions) && Enabled(s, Execute) && Registers(s, Execute) && AllCounted(s)
    ensures |Step(s, Execute).p.slots| == |Step(s, Execute).normal| && Limited(Step(s, Execute), actions)
  {
    hide Step, Resumed, CountIf, QueuePoolSpec.Execute, AllLocked, Allocate, ForkerAgrees, QueuesSorted, CancelAgrees;
    var Holding(n, task, cancelled) := s.forker;
    ExecuteShape(s);
    NormalAtMostAll(s.p.slots, s.normal, n);
    NormalAfterRegister(s, n, task, QueuePoolSpec.Execute(s.p, n, task).1, !cancelled);
    assert s.p.queues[n].running == CountIf(s.p.slots, s.normal, n, true);
    hide Inv;
  }

  lemma NormalAfterRegister(s: System, n: string, task: Task, tid: nat, isNormal: bool)
    requires |s.p.slots| == |s.normal| && tid < |s.p.slots| && s.p.slots[tid] == Free
    ensures forall m :: CountIf(s.p.slots[tid := Used(n, task)], s.normal[tid := isNormal], m, false)
                     == NormalRunning(s, m) + if m == n && isNormal then 1 else 0
  {
    forall m
      ensures CountIf(s.p.slots[tid := Used(n, task)], s.normal[tid := isNormal], m, false)
           == NormalRunning(s, m) + if m == n && isNormal then 1 else 0
    {
      CountUpdate(s.p.slots, s.normal, tid, Used(n, task), isNormal, m, false);
    }
  }

  lemma LimitAfterFinish(s: System, actions: seq<Action>)
    requires Inv(s) && Limited(s, actions) && (s.forker == Ready || s.forker.Asleep?)
    ensures Limited(Finish(s), actions)
  {
    hide CountIf, NormalStrays, Resumed;
  }

  lemma LimitAfterEnqueue(s: System, actions: seq<Action>, name: string, host: string, task: Task)
    requires Inv(s) && Limited(s, actions) && s.strays == []
    ensures EnqueueResult(s.p, name, host) == Done ==>
              Limited(After(s, QueuePoolSpec.Enqueue(s.p, name, host, task)), actions)
  {
    hide Resumed, CheckQueueName, AllLocked;
    if EnqueueResult(s.p, name, host) == Done {
      var n := EnqueueName(s.p, name, host);
      if n !in s.p.queues {
        CountNone(s.p.slots, s.normal, n);
        NormalAtMostAll(s.p.slots, s.normal, n);
      }
    }
  }

  lemma LimitAfterResume(s: System, actions: seq<Action>, n: string, task: Task, tid: nat)
    requires Inv(s) && Limited(s, actions) && Enabled(s, Resume(n, task, tid)) && n in s.p.queues
    ensures Limited(Step(s, Resume(n, task, tid)), actions + [Resume(n, task, tid)])
  {
    hide Allocate, AllLocked, ForkerAgrees, QueuesSorted, CancelAgrees, NormalStrays, Resumed;
    NormalAfterRegister(s, n, task, tid, true);
    var a := Resume(n, task, tid);
    forall m
      ensures Resumed(actions + [a], m) == Resumed(actions, m) + if m == n then 1 else 0
    {
      ResumedOneMore(actions, a, m);
    }
  }

  lemma LimitUnchanged(s: System, actions: seq<Action>, a: Action)
    requires |s.p.slots| == |s.normal| && Limited(s, actions) && !a.Resume?
    ensures Limited(s, actions + [a])
  {
    hide AllNormal, Resumed;
    forall m
      ensures Resumed(actions + [a], m) == Resumed(actions, m)
    {
      ResumedOneMore(actions, a, m);
    }
  }

  lemma StepKeepsLimit(s: System, actions: seq<Action>, a: Action)
    requires Inv(s) && Limited(s, actions) && AllCounted(s) && Enabled(s, a) && Registers(s, a) && !a.Reload?
    ensures |Step(s, a).p.slots| == |Step(s, a).normal| && Limited(Step(s, a), actions + [a])
  {
    hide CountIf, Allocate, NormalStrays, Resumed, TerminateStep, Finish, AllLocked, QueuesSorted, CancelAgrees;
    StepKeepsTables(s, a);
    if !a.Resume? { LimitUnchanged(s, actions, a); }
    StepKeepsCounted(s, a);
    match a
    case Enqueue(name, host, task) => LimitAfterEnqueue(s, actions + [a], name, host, task);
    case Terminate(tid) => LimitAfterTerminate(s, actions + [a], tid);
    case Fail => LimitAfterFail(s, actions + [a]);
    case Execute => LimitAfterExecute(s, actions + [a]);
    case BeginDequeue => LimitAfterFinish(s, actions + [a]);
    case Wake => LimitAfterFinish(s, actions + [a]);
    case Resume(n, task, tid) => LimitAfterResume(s, actions, n, task, tid);
    case BeginCancel(_) =>
    case Cancel(_) =>
    case Start =>
    case StartForker =>
    case Shutdown =>
  }

  /**
   As long as every task gets an id and there is no reload, no task runs without one, and the tasks that run for a
   queue and were not cancelled stay within its limit, or within the number of resumed ones if that is greater.
   */
  lemma {:induction false} RunKeepsLimit(ss: seq<System>, actions: seq<Action>, i: nat)
    requires IsRun(ss, actions) && Inv(ss[0]) && Limited(ss[0], []) && AllCounted(ss[0]) && i < |ss|
    requires forall k :: 0 <= k < |actions| ==> Registers(ss[k], actions[k]) && !actions[k].Reload?
    ensures Inv(ss[i]) && Limited(ss[i], actions[..i]) && AllCounted(ss[i])
  {
    hide Limited, AllCounted, Inv, Step, Enabled, Registers;
    RunKeepsInv(ss, actions, i);
    if i > 0 {
      RunKeepsInv(ss, actions, i - 1);
      RunKeepsLimit(ss, actions, i - 1);
      StepKeepsLimit(ss[i - 1], actions[..i - 1], actions[i - 1]);
      StepKeepsCounted(ss[i - 1], actions[i - 1]);
      assert actions[..i] == actions[..i - 1] + [actions[i - 1]];
    }
  }

  // ---- task ids --------------------------------------------------------------------------------------

  /** The ids tried are all ids below maxpid. */
  lemma EveryIdIsTried(lastTid: nat, maxPid: nat, tid: nat) returns (i: nat)
    requires tid < maxPid
    ensures i < maxPid && QueuePoolSpec.Candidate(lastTid, maxPid, i) == tid
  {
    var r := (lastTid + 1) % maxPid;
    i := if r <= tid then tid - r else maxPid + tid - r;
    var q := (lastTid + 1) / maxPid;
    assert lastTid + 1 == maxPid * q + r;
    if r <= tid {
      RemainderOf(lastTid + 1 + i, maxPid, q, tid);
    } else {
      assert maxPid * (q + 1) == maxPid * q + maxPid;
      RemainderOf(lastTid + 1 + i, maxPid, q + 1, tid);
    }
  }

  lemma RemainderOf(x: nat, d: nat, q: nat, r: nat)
    requires r < d && x == d * q + r
    ensures x % d == r
  {
    QuotientUnique(d, q, r, x / d, x % d);
  }

  lemma QuotientUnique(d: nat, q: int, r: nat, q': int, r': nat)
    requires r < d && r' < d && d * q + r == d * q' + r'
    ensures q == q' && r == r'
  {
    var k := q - q';
    assert d * k == r' - r;
    if k >= 1 {
      AtLeastOnce(d, k);
      assert false;
    } else if k <= -1 {
      AtLeastOnce(d, 0 - k);
      assert false;
    }
  }

  lemma AtLeastOnce(d: nat, k: int)
    requires k >= 1
    ensures d * k >= d && d * (-k) <= 0 - d
  {
    assert d * k == d + d * (k - 1);
  }

  lemma {:induction false} AllocateTries(slots: seq<Slot>, lastTid: nat, maxPid: nat, i: nat, k: nat)
    requires 0 < maxPid < |slots| && i <= k < maxPid
    requires slots[QueuePoolSpec.Candidate(lastTid, maxPid, k)] == Free
    ensures Allocate(slots, lastTid, maxPid, i).0
    decreases maxPid - i
  {
    if i < k && slots[QueuePoolSpec.Candidate(lastTid, maxPid, i)] != Free {
      AllocateTries(slots, lastTid, maxPid, i + 1, k);
    }
  }

  lemma FreeIsFound(slots: seq<Slot>, lastTid: nat, tid: nat)
    requires 1 < |slots| && tid < |slots| - 1 && slots[tid] == Free
    ensures Allocate(slots, lastTid, |slots| - 1, 0).0
  {
    var i := EveryIdIsTried(lastTid, |slots| - 1, tid);
    AllocateTries(slots, lastTid, |slots| - 1, 0, i);
  }

  /** An id that is given out was free; none is given out exactly when all maxpid ids are taken. */
  lemma AllocationExactly(slots: seq<Slot>, lastTid: nat)
    requires 1 < |slots|
    ensures var (found, tid) := Allocate(slots, lastTid, |slots| - 1, 0);
            && (found ==> slots[tid] == Free && tid < |slots| - 1)
            && (!found <==> forall k :: 0 <= k < |slots| - 1 ==> slots[k].Used?)
  {
    if k: nat :| k < |slots| - 1 && slots[k] == Free { FreeIsFound(slots, lastTid, k); }
  }

  /** A held task is registered exactly if its queue still exists and an id is free; it is started in any case. */
  lemma ExecuteRegistersExactly(s: System)
    requires Inv(s) && Enabled(s, Execute)
    ensures var Holding(n, task, cancelled) := s.forker;
            var tid := QueuePoolSpec.Execute(s.p, n, task).1;
            if Registers(s, Execute) then
              s.p.slots[tid] == Free && Step(s, Execute).p.slots == s.p.slots[tid := Used(n, task)]
              && Step(s, Execute).forker == Starting(n, task, cancelled, tid, true)
            else
              Step(s, Execute).p.slots == s.p.slots && Step(s, Execute).forker == Starting(n, task, cancelled, 0, false)
  {
    AllocationExactly(s.p.slots, s.p.lastTid);
  }

  /** Resuming under an id keeps the tables in agreement exactly if the id is free. */
  lemma ResumeExactly(s: System, n: string, task: Task, tid: nat)
    requires Inv(s) && n in s.p.queues && tid < |s.p.slots|
    ensures TablesAgree(s.(p := QueuePoolSpec.Resume(s.p, n, task, tid), normal := s.normal[tid := true]))
       <==> s.p.slots[tid] == Free
  {
    var p' := QueuePoolSpec.Resume(s.p, n, task, tid);
    if s.p.slots[tid] == Free {
      TablesAfterRegister(s, n, task, tid, true, p');
    } else {
      var m := s.p.slots[tid].queue;
      CountUpdate(s.p.slots, s.normal, tid, Used(n, task), true, m, true);
      CountUpdate(s.p.slots, s.normal, tid, Used(n, task), true, n, true);
      var s' := s.(p := p', normal := s.normal[tid := true]);
      assert p'.queues[n].running != Running(s', n) || p'.queues[m].running != Running(s', m);
    }
  }
}
