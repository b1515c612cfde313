/** Runs from the constructed pool: when the limits hold in all of them, when the forker ends, and what breaks them. */
module QueuePoolFaults {
  import opened Queue
  import opened QueuePoolSpec
  import opened QueuePoolRuns
  import opened QueuePoolLimits
  import opened QueuePoolEnds
  import opened QueuePoolTraces
  import opened QueuePoolSums

  // ---- tasks that run --------------------------------------------------------------------------------

  /** A calm pool in which all that runs has an id and was not cancelled. */
  ghost predicate Orderly(s: System) {
    && Calm(s) && s.p.slots[|s.p.slots| - 1] == Free && s.strays == [] && s.cancelling == {}
    && forall i :: 0 <= i < |s.p.slots| && s.p.slots[i].Used? ==> s.normal[i]
  }

  lemma {:induction false} AllAreNormal(slots: seq<Slot>, normal: seq<bool>, n: string)
    requires |slots| == |normal| && forall i :: 0 <= i < |slots| && slots[i].Used? ==> normal[i]
    ensures CountIf(slots, normal, n, false) == CountIf(slots, normal, n, true)
  {
    if slots != [] {
      assert forall i :: 0 <= i < |slots[1..]| ==> slots[1..][i] == slots[i + 1] && normal[1..][i] == normal[i + 1];
      AllAreNormal(slots[1..], normal[1..], n);
    }
  }

  lemma FreshOrderly(maxPid: nat, ds: seq<Definition>) returns (t: Trace)
    requires 0 < maxPid < WORD - 1
    ensures Inv(Fresh(maxPid, ds)) && IsTrace(t, Fresh(maxPid, ds)) && AllQuiet(t) && AllPlain(t)
    ensures AllRegister(t, Fresh(maxPid, ds)) && t.actions == [StartForker]
    ensures Last(t) == Fresh(maxPid, ds).(forker := Ready) && Orderly(Last(t))
    ensures Taken(Last(t).p.slots) == 0 && |Last(t).p.slots| == maxPid + 1
  {
    hide DefineAll, Inv, IsRun, AllQuiet, AllPlain, AllRegister;
    FreshPool(maxPid, ds);
    t := Started(maxPid, ds);
    TakenByNone(Last(t).p.slots);
  }

  /** A task of a queue below its limit runs under an id. */
  lemma RunNormal(t: Trace, start: System, n: string, task: Task) returns (t': Trace)
    requires IsTrace(t, start) && Inv(start) && Orderly(Last(t)) && n in Last(t).p.queues
    requires Last(t).p.queues[n].running < Last(t).p.queues[n].concurrency
    requires Taken(Last(t).p.slots) < |Last(t).p.slots| - 1
    ensures IsTrace(t', start) && (AllQuiet(t) ==> AllQuiet(t')) && (AllPlain(t) ==> AllPlain(t'))
    ensures (AllRegister(t, start) ==> AllRegister(t', start)) && Orderly(Last(t'))
    ensures |Last(t').p.slots| == |Last(t).p.slots| && Taken(Last(t').p.slots) == Taken(Last(t).p.slots) + 1
    ensures Last(t').p.queues == Last(t).p.queues[n := Last(t).p.queues[n].(running := Last(t).p.queues[n].running + 1)]
  {
    hide IsRun, AllQuiet, AllPlain, AllRegister, Taken;
    var s := Last(t);
    SomeFreeExactly(s.p.slots);
    TraceInv(t, start);
    var tid;
    t' := Hold(t, start, n, "", task, false);
    t', tid := Run(t', start, s.p.queues, n, s.p.queues[n], task);
    RunningBelow(s, n, tid);
    TakeOne(s.p.slots, tid, Used(n, task));
    hide Inv;
  }

  lemma {:induction false} RunMany(t: Trace, start: System, n: string, task: Task, k: nat) returns (t': Trace)
    requires IsTrace(t, start) && Inv(start) && Orderly(Last(t)) && n in Last(t).p.queues
    requires Last(t).p.queues[n].running + k <= Last(t).p.queues[n].concurrency
    requires Taken(Last(t).p.slots) + k <= |Last(t).p.slots| - 1
    ensures IsTrace(t', start) && (AllQuiet(t) ==> AllQuiet(t')) && (AllPlain(t) ==> AllPlain(t'))
    ensures (AllRegister(t, start) ==> AllRegister(t', start)) && Orderly(Last(t'))
    ensures |Last(t').p.slots| == |Last(t).p.slots| && Taken(Last(t').p.slots) == Taken(Last(t).p.slots) + k
    ensures Last(t').p.queues == Last(t).p.queues[n := Last(t).p.queues[n].(running := Last(t).p.queues[n].running + k)]
    decreases k
  {
    hide IsRun, AllQuiet, AllPlain, AllRegister, Taken, Orderly, Inv;
    if k == 0 {
      t' := t;
      var q := Last(t).p.queues[n];
      assert Last(t).p.queues[n := q.(running := q.running + k)] == Last(t).p.queues;
    } else {
      t' := RunNormal(t, start, n, task);
      t' := RunMany(t', start, n, task, k - 1);
    }
  }

  // ---- the limits from the start ---------------------------------------------------------------------

  /**
   From the constructed pool: while every task gets an id, and without reloads, the tasks of a queue that run and were
   not cancelled stay within its limit, or within the number of those resumed in it.
   */
  lemma LimitFromStart(maxPid: nat, ds: seq<Definition>, t: Trace, n: string)
    requires 0 < maxPid < WORD - 1 && forall d :: d in ds ==> d.concurrency >= 1
    requires IsTrace(t, Fresh(maxPid, ds)) && AllRegister(t, Fresh(maxPid, ds))
    requires forall k :: 0 <= k < |t.actions| ==> !t.actions[k].Reload?
    ensures var s := Last(t);
            && |s.p.slots| == |s.normal| && s.strays == []
            && (n in s.p.queues ==> AllNormal(s, n) <= Max(s.p.queues[n].concurrency, Resumed(t.actions, n)))
  {
    FreshPool(maxPid, ds);
    FreshLimited(maxPid, ds);
    RunKeepsLimit(t.states, t.actions, |t.states| - 1);
    assert t.actions[..|t.actions|] == t.actions;
  }

  lemma {:induction false} NoneResumed(actions: seq<Action>, n: string)
    requires forall k :: 0 <= k < |actions| ==> !actions[k].Resume?
    ensures Resumed(actions, n) == 0
  {
    if actions != [] { NoneResumed(actions[..|actions| - 1], n); }
  }

  lemma FreshWithin(maxPid: nat, ds: seq<Definition>)
    requires 0 < maxPid < WORD - 1
    ensures Inv(Fresh(maxPid, ds)) && Within(Fresh(maxPid, ds), Fresh(maxPid, ds).p.queues)
    ensures |Fresh(maxPid, ds).p.slots| == maxPid + 1
  {
    FreshPool(maxPid, ds);
    hide Inv, DefineAll;
  }

  /** In all runs that keep the queues, every task gets an id. */
  ghost predicate AlwaysRegisters(start: System) {
    forall t :: IsTrace(t, start) && AllPlain(t) ==> AllRegister(t, start)
  }

  /** In all runs that keep the queues, the tasks that run and were not cancelled stay within the limits. */
  ghost predicate AlwaysLimited(start: System) {
    forall t, n :: IsTrace(t, start) && AllPlain(t) ==> LimitedIn(Last(t), n)
  }

  ghost predicate LimitedIn(s: System, n: string) {
    n in s.p.queues && |s.p.slots| == |s.normal| ==> AllNormal(s, n) <= s.p.queues[n].concurrency
  }

  lemma SmallLimitsRegister(maxPid: nat, ds: seq<Definition>, t: Trace)
    requires 0 < maxPid < WORD - 1 && IsTrace(t, Fresh(maxPid, ds)) && AllPlain(t)
    requires TotalLimit(Fresh(maxPid, ds).p.queues) < maxPid
    ensures AllRegister(t, Fresh(maxPid, ds))
  {
    FreshWithin(maxPid, ds);
    hide Within, Inv, TotalLimit;
    RunRegisters(t.states, t.actions, |t.states| - 1, Fresh(maxPid, ds).p.queues);
  }

  lemma SmallLimitsHold(maxPid: nat, ds: seq<Definition>, t: Trace, n: string)
    requires 0 < maxPid < WORD - 1 && IsTrace(t, Fresh(maxPid, ds)) && AllPlain(t)
    requires TotalLimit(Fresh(maxPid, ds).p.queues) < maxPid && forall d :: d in ds ==> d.concurrency >= 1
    ensures LimitedIn(Last(t), n)
  {
    hide TotalLimit;
    SmallLimitsRegister(maxPid, ds, t);
    LimitFromStart(maxPid, ds, t, n);
    NoneResumed(t.actions, n);
  }

  /** Either all ids are taken, or some queue has room. */
  lemma RoomOrFull(s: System)
    requires Inv(s) && (forall n :: n in s.p.queues ==> s.p.queues[n].running >= s.p.queues[n].concurrency)
    ensures Taken(s.p.slots) >= TotalLimit(s.p.queues)
  {
    hide CountIf, TakenIn, Taken, SumLimits, AllLocked, QueuesSorted, CancelAgrees, ForkerAgrees;
    SumBounds(s.p.slots, s.normal, s.p.queues, s.p.queues.Keys);
    TakenInAll(s.p.slots, s.p.queues.Keys);
  }

  /** If the limits allow it, tasks take all ids. */
  lemma {:induction false} FillIds(t: Trace, start: System, task: Task) returns (t': Trace)
    requires IsTrace(t, start) && Inv(start) && Orderly(Last(t)) && AllQuiet(t) && AllPlain(t) && AllRegister(t, start)
    requires TotalLimit(Last(t).p.queues) >= |Last(t).p.slots| - 1
    ensures IsTrace(t', start) && AllQuiet(t') && AllPlain(t') && AllRegister(t', start) && Orderly(Last(t'))
    ensures |Last(t').p.slots| == |Last(t).p.slots| && !SomeFree(Last(t').p.slots)
    ensures Taken(Last(t').p.slots) == |Last(t').p.slots| - 1
    ensures Last(t').p.queues.Keys == Last(t).p.queues.Keys
    ensures TotalLimit(Last(t').p.queues) == TotalLimit(Last(t).p.queues)
    ensures forall n :: n in Last(t).p.queues ==>
              Last(t').p.queues[n].concurrency == Last(t).p.queues[n].concurrency
    decreases |Last(t).p.slots| - Taken(Last(t).p.slots)
  {
    hide IsRun, AllQuiet, AllPlain, AllRegister, Taken, Inv, SumLimits, SomeFree;
    var s := Last(t);
    SomeFreeExactly(s.p.slots);
    TraceInv(t, start);
    if Taken(s.p.slots) == |s.p.slots| - 1 {
      t' := t;
    } else {
      if forall n :: n in s.p.queues ==> s.p.queues[n].running >= s.p.queues[n].concurrency { RoomOrFull(s); }
      var n :| n in s.p.queues && s.p.queues[n].running < s.p.queues[n].concurrency;
      t' := RunNormal(t, start, n, task);
      assert Last(t').p.queues.Keys == s.p.queues.Keys;
      SumSame(s.p.queues, Last(t').p.queues, s.p.queues.Keys);
      t' := FillIds(t', start, task);
    }
  }

  const ORDINARY := Task(1, 0)
  const CANCELLED := Task(0, 0)

  lemma FilledPool(maxPid: nat, ds: seq<Definition>) returns (t: Trace)
    requires 0 < maxPid < WORD - 1 && TotalLimit(Fresh(maxPid, ds).p.queues) >= maxPid
    ensures Inv(Fresh(maxPid, ds)) && IsTrace(t, Fresh(maxPid, ds)) && AllQuiet(t) && AllPlain(t) && Orderly(Last(t))
    ensures AllRegister(t, Fresh(maxPid, ds))
    ensures |Last(t).p.slots| == maxPid + 1 && !SomeFree(Last(t).p.slots) && Taken(Last(t).p.slots) == maxPid
    ensures Last(t).p.queues.Keys == Fresh(maxPid, ds).p.queues.Keys
    ensures TotalLimit(Last(t).p.queues) == TotalLimit(Fresh(maxPid, ds).p.queues)
    ensures forall n :: n in Last(t).p.queues ==>
              Last(t).p.queues[n].concurrency == Fresh(maxPid, ds).p.queues[n].concurrency
  {
    hide IsRun, AllQuiet, AllPlain, AllRegister, Taken, Inv, TotalLimit, SomeFree, Fresh;
    t := FreshOrderly(maxPid, ds);
    t := FillIds(t, Fresh(maxPid, ds), ORDINARY);
  }

  /** A queue of the filled pool: that of the task with id 0. */
  lemma FirstTask(t: Trace, start: System) returns (n: string, task: Task)
    requires IsTrace(t, start) && Inv(start) && Orderly(Last(t)) && !SomeFree(Last(t).p.slots)
    ensures Last(t).p.slots[0] == Used(n, task) && n in Last(t).p.queues && Last(t).normal[0]
  {
    TraceInv(t, start);
    assert Last(t).p.slots[0] != Free;
    n, task := Last(t).p.slots[0].queue, Last(t).p.slots[0].task;
  }

  /** In a filled pool, a task that is cancelled gets no id. */
  lemma CancelledMisses(t: Trace, start: System, n: string) returns (held: Trace, t': Trace)
    requires IsTrace(t, start) && Orderly(Last(t)) && !SomeFree(Last(t).p.slots) && n in Last(t).p.queues
    ensures IsTrace(t', start) && (AllPlain(t) ==> AllPlain(t')) && (AllQuiet(t) ==> AllQuiet(t'))
    ensures IsTrace(held, start) && Enabled(Last(held), Execute) && !Registers(Last(held), Execute)
    ensures t'.states == held.states + [Last(t')] && t'.actions == held.actions + [Execute]
    ensures var s := Last(t);
            Last(t') == s.(p := s.p.(lastTid := Last(t').p.lastTid), forker := Starting(n, CANCELLED, true, 0, false),
                           cancelling := {CANCELLED.instance})
  {
    hide IsRun, AllQuiet, AllPlain, AllRegister;
    var s := Last(t);
    held := Hold(t, start, n, "", CANCELLED, true);
    assert s.p.queues[n := s.p.queues[n]] == s.p.queues;
    t' := MissId(held, start, n, CANCELLED, true);
  }

  lemma MissedIsNotRegistered(t: Trace, held: Trace, start: System)
    requires IsTrace(t, start) && IsTrace(held, start)
    requires Enabled(Last(held), Execute) && !Registers(Last(held), Execute)
    requires t.states == held.states + [Last(t)] && t.actions == held.actions + [Execute]
    ensures !AllRegister(t, start)
  {
    var k := |held.actions|;
    assert t.states[k] == Last(held) && t.actions[k] == Execute;
  }

  /** In all runs that keep the queues every task gets an id, exactly if the limits together are below the number of ids. */
  lemma RegistersExactly(maxPid: nat, ds: seq<Definition>)
    requires 0 < maxPid < WORD - 1
    ensures AlwaysRegisters(Fresh(maxPid, ds)) <==> TotalLimit(Fresh(maxPid, ds).p.queues) < maxPid
  {
    hide IsRun, AllQuiet, AllPlain, AllRegister, Taken, Inv, TotalLimit, SomeFree, Fresh, Registers, Orderly;
    if TotalLimit(Fresh(maxPid, ds).p.queues) < maxPid {
      forall t | IsTrace(t, Fresh(maxPid, ds)) && AllPlain(t)
        ensures AllRegister(t, Fresh(maxPid, ds))
      {
        SmallLimitsRegister(maxPid, ds, t);
      }
    } else {
      var t := FilledPool(maxPid, ds);
      var n, _ := FirstTask(t, Fresh(maxPid, ds));
      var held;
      held, t := CancelledMisses(t, Fresh(maxPid, ds), n);
      MissedIsNotRegistered(t, held, Fresh(maxPid, ds));
    }
  }

  lemma OneMoreStray(strays: seq<Stray>, x: Stray, n: string)
    ensures NormalStrays(strays + [x], n) == NormalStrays(strays, n) + if x.queue == n && x.normal then 1 else 0
  {
    assert (strays + [x])[..|strays|] == strays;
  }

  /** In a calm pool without a free id, k tasks of a queue with room run, none of which is counted. */
  lemma {:induction false} RunManyUncounted(t: Trace, start: System, n: string, k: nat) returns (t': Trace)
    requires IsTrace(t, start) && Calm(Last(t)) && AllQuiet(t) && AllPlain(t) && Last(t).cancelling == {}
    requires n in Last(t).p.queues && Last(t).p.queues[n].running < Last(t).p.queues[n].concurrency
    requires !SomeFree(Last(t).p.slots)
    ensures IsTrace(t', start) && Calm(Last(t')) && AllQuiet(t') && AllPlain(t')
    ensures Last(t').p.queues == Last(t).p.queues && Last(t').p.slots == Last(t).p.slots
    ensures NormalStrays(Last(t').strays, n) == NormalStrays(Last(t).strays, n) + k
    decreases k
  {
    hide IsRun, AllQuiet, AllPlain, AllRegister;
    var s := Last(t);
    if k == 0 {
      t' := t;
    } else {
      t' := Hold(t, start, n, "", ORDINARY, false);
      assert s.p.queues[n := s.p.queues[n]] == s.p.queues;
      t' := RunUncounted(t', start, n, ORDINARY);
      OneMoreStray(s.strays, Stray(n, ORDINARY, true, 0), n);
      t' := RunManyUncounted(t', start, n, k - 1);
    }
  }

  /** If the limits together are above the number of ids, any number of tasks of some queue can run at once. */
  lemma IdsRunOut(maxPid: nat, ds: seq<Definition>, k: nat) returns (t: Trace, n: string)
    requires 0 < maxPid < WORD - 1 && TotalLimit(Fresh(maxPid, ds).p.queues) > maxPid
    ensures IsTrace(t, Fresh(maxPid, ds)) && AllQuiet(t) && AllPlain(t)
    ensures n in Last(t).p.queues && n in Fresh(maxPid, ds).p.queues
    ensures Last(t).p.queues[n].concurrency == Fresh(maxPid, ds).p.queues[n].concurrency
    ensures |Last(t).p.slots| == |Last(t).normal| && AllNormal(Last(t), n) >= k
  {
    hide IsRun, AllQuiet, AllPlain, AllRegister, Taken, Inv, TotalLimit, SomeFree, Fresh;
    t := FilledPool(maxPid, ds);
    TraceInv(t, Fresh(maxPid, ds));
    var queues := Last(t).p.queues;
    if forall m :: m in queues ==> queues[m].running >= queues[m].concurrency { RoomOrFull(Last(t)); }
    n :| n in queues && queues[n].running < queues[n].concurrency;
    t := RunManyUncounted(t, Fresh(maxPid, ds), n, k);
  }

  /** The forker ends the id 0 for a task that has none, and so the task that this id stands for. */
  lemma WrongTaskEnded(s: System, n: string, task: Task)
    requires Inv(s) && 1 < |s.p.slots| == |s.normal| && s.p.slots[0] == Used(n, task) && s.normal[0]
    requires s.forker == Starting(n, CANCELLED, true, 0, false) && s.strays == [] && EmptyQueues(s.p.queues)
    requires !s.p.shuttingDown && !s.p.forkLocked && !s.p.forkPossible
    requires forall m :: m in s.p.queues ==> !s.p.queues[m].removed
    ensures n in s.p.queues && s.p.queues[n].running > 0
    ensures var s' := Step(s, Fail);
            && Calm(s') && s'.strays == [Stray(n, task, true, 0)] && s'.cancelling == s.cancelling
            && s'.normal == s.normal && s'.p.slots == s.p.slots[0 := Free]
            && s'.p.queues == s.p.queues[n := s.p.queues[n].(running := s.p.queues[n].running - 1)]
  {
    hide CountIf, TablesAgree, ForkerAgrees, QueuesSorted, CancelAgrees;
    TerminateKeepsQueue(s, 0, s.p.queues);
    var s' := Step(s, Fail);
    assert s'.strays == [Stray(n, task, true, 0)];
    assert EmptyQueues(s'.p.queues);
    assert AllLocked(s'.p.queues);
  }

  lemma FirstFree(slots: seq<Slot>)
    requires |slots| > 1 && slots[0] == Free
    ensures SomeFree(slots)
  {
  }

  /** What runs for a queue when one task of it has become a stray and another one has got an id. */
  lemma OneTooMany(s: System, n: string, task: Task, tid: nat)
    requires Inv(s) && Orderly(s) && n in s.p.queues && s.p.slots[0] == Used(n, task) && s.normal[0]
    requires tid < |s.p.slots| && s.p.slots[0 := Free][tid] == Free
    ensures CountIf(s.p.slots[0 := Free][tid := Used(n, ORDINARY)], s.normal[tid := true], n, false)
         == s.p.queues[n].running
    ensures NormalStrays([Stray(n, task, true, 0)], n) == 1
  {
    AllAreNormal(s.p.slots, s.normal, n);
    assert s.normal[0 := true] == s.normal;
    CountUpdate(s.p.slots, s.normal, 0, Free, true, n, false);
    CountUpdate(s.p.slots[0 := Free], s.normal, tid, Used(n, ORDINARY), true, n, false);
    OneMoreStray([], Stray(n, task, true, 0), n);
    assert [] + [Stray(n, task, true, 0)] == [Stray(n, task, true, 0)];
  }

  /**
   In a filled pool in which each queue is at its limit, a cancelled task gets no id; the forker ends the id 0 for it;
   the task that this stands for runs on uncounted, and another one of its queue takes its place.
   */
  lemma WrongTaskEnds(t: Trace, start: System) returns (t': Trace, n: string)
    requires IsTrace(t, start) && Inv(start) && Orderly(Last(t)) && AllQuiet(t) && AllPlain(t)
    requires !SomeFree(Last(t).p.slots)
    requires forall n :: n in Last(t).p.queues ==>
               Last(t).p.queues[n].running == Last(t).p.queues[n].concurrency && !Last(t).p.queues[n].removed
    ensures IsTrace(t', start) && AllQuiet(t') && AllPlain(t') && n in Last(t').p.queues
    ensures |Last(t').p.slots| == |Last(t').normal| && AllNormal(Last(t'), n) > Last(t').p.queues[n].concurrency
  {
    hide IsRun, AllQuiet, AllPlain, AllRegister, Inv, CountIf, NormalStrays, SomeFree;
    var s, task, held, tid := Last(t), CANCELLED, t, 0;
    TraceInv(t, start);
    n, task := FirstTask(t, start);
    held, t' := CancelledMisses(t, start, n);
    TraceInv(t', start);
    WrongTaskEnded(Last(t'), n, task);
    hide TerminateStep;
    t' := Extend(t', start, Fail);
    var s2 := Last(t');
    var q := s2.p.queues[n];
    t' := Hold(t', start, n, "", ORDINARY, false);
    assert s2.p.queues[n := q] == s2.p.queues;
    FirstFree(s2.p.slots);
    t', tid := Run(t', start, s2.p.queues, n, q, ORDINARY);
    OneTooMany(s, n, task, tid);
  }

  /** If the limits together are not below the number of ids, more tasks of some queue run at once than it allows. */
  lemma GreatLimitsBreak(maxPid: nat, ds: seq<Definition>) returns (t: Trace, n: string)
    requires 0 < maxPid < WORD - 1 && TotalLimit(Fresh(maxPid, ds).p.queues) >= maxPid
    ensures IsTrace(t, Fresh(maxPid, ds)) && AllQuiet(t) && AllPlain(t) && !LimitedIn(Last(t), n)
  {
    hide IsRun, AllQuiet, AllPlain, AllRegister, Taken, Inv, TotalLimit, SomeFree, Fresh;
    t := FilledPool(maxPid, ds);
    FilledWithin(maxPid, ds, t);
    var queues := Last(t).p.queues;
    if forall m :: m in queues ==> queues[m].running >= queues[m].concurrency {
      t, n := WrongTaskEnds(t, Fresh(maxPid, ds));
    } else {
      n :| n in queues && queues[n].running < queues[n].concurrency;
      t := RunManyUncounted(t, Fresh(maxPid, ds), n, queues[n].concurrency + 1);
    }
  }

  lemma FilledWithin(maxPid: nat, ds: seq<Definition>, t: Trace)
    requires 0 < maxPid < WORD - 1 && IsTrace(t, Fresh(maxPid, ds)) && AllPlain(t)
    requires AllRegister(t, Fresh(maxPid, ds))
    ensures Within(Last(t), Fresh(maxPid, ds).p.queues)
  {
    FreshWithin(maxPid, ds);
    hide Within, Inv, Fresh;
    RunKeepsWithin(t.states, t.actions, |t.states| - 1, Fresh(maxPid, ds).p.queues);
  }

  /** The limits hold in all runs that keep the queues, exactly if together they are below the number of ids. */
  lemma LimitsHoldExactly(maxPid: nat, ds: seq<Definition>)
    requires 0 < maxPid < WORD - 1 && forall d :: d in ds ==> d.concurrency >= 1
    ensures AlwaysLimited(Fresh(maxPid, ds)) <==> TotalLimit(Fresh(maxPid, ds).p.queues) < maxPid
  {
    hide IsRun, AllQuiet, AllPlain, AllRegister, Inv, TotalLimit, Fresh, LimitedIn;
    if TotalLimit(Fresh(maxPid, ds).p.queues) < maxPid {
      forall t, n | IsTrace(t, Fresh(maxPid, ds)) && AllPlain(t)
        ensures LimitedIn(Last(t), n)
      {
        SmallLimitsHold(maxPid, ds, t, n);
      }
    } else {
      var t, n := GreatLimitsBreak(maxPid, ds);
      assert !LimitedIn(Last(t), n);
    }
  }

  // ---- cancelled tasks -------------------------------------------------------------------------------

  /** A run that keeps the queues, in which every task gets an id and a queue counts more tasks than its limit. */
  ghost predicate PassesLimit(t: Trace, start: System, n: string) {
    && IsTrace(t, start) && AllPlain(t) && AllRegister(t, start)
    && n in Last(t).p.queues && Last(t).p.queues[n].running > Last(t).p.queues[n].concurrency
  }

  /** A queue at its limit, and one task more that is cancelled. */
  lemma PassLimit(maxPid: nat, ds: seq<Definition>, n: string) returns (t: Trace)
    requires 0 < maxPid < WORD - 1 && n in Fresh(maxPid, ds).p.queues
    requires Fresh(maxPid, ds).p.queues[n].concurrency < maxPid
    ensures PassesLimit(t, Fresh(maxPid, ds), n)
  {
    var start := Fresh(maxPid, ds);
    FreshPool(maxPid, ds);
    hide IsRun, AllQuiet, AllPlain, AllRegister, Inv, Taken, DefineAll, Fresh;
    t := FreshOrderly(maxPid, ds);
    t := RunMany(t, start, n, ORDINARY, start.p.queues[n].concurrency);
    SomeFreeExactly(Last(t).p.slots);
    var s, tid := Last(t), 0;
    TraceInv(t, start);
    t := Hold(t, start, n, "", CANCELLED, true);
    assert s.p.queues[n := s.p.queues[n]] == s.p.queues;
    t, tid := GetId(t, start, s.p.queues, n, s.p.queues[n], CANCELLED, true);
    RunningBelow(s, n, tid) by { assert Inv(s); }
  }

  /**
   While every task gets an id, a queue counts at most one task more than its limit, while the forker is to end a
   cancelled one; and it can come to that exactly if its limit is below the number of ids.
   */
  lemma CancelledPassLimitExactly(maxPid: nat, ds: seq<Definition>, n: string)
    requires 0 < maxPid < WORD - 1 && n in Fresh(maxPid, ds).p.queues
    ensures (exists t :: PassesLimit(t, Fresh(maxPid, ds), n))
       <==> Fresh(maxPid, ds).p.queues[n].concurrency < maxPid
    ensures forall t :: PassesLimit(t, Fresh(maxPid, ds), n) ==>
              Last(t).p.queues[n].running == Last(t).p.queues[n].concurrency + 1 && EndsCancelled(Last(t), n)
  {
    var start := Fresh(maxPid, ds);
    FreshWithin(maxPid, ds);
    if start.p.queues[n].concurrency < maxPid {
      var t := PassLimit(maxPid, ds, n);
      assert PassesLimit(t, start, n);
    }
    forall t | PassesLimit(t, start, n)
      ensures Last(t).p.queues[n].running == Last(t).p.queues[n].concurrency + 1 && EndsCancelled(Last(t), n)
      ensures start.p.queues[n].concurrency < maxPid
    {
      PassesByOne(maxPid, ds, t, n);
    }
  }

  lemma PassesByOne(maxPid: nat, ds: seq<Definition>, t: Trace, n: string)
    requires 0 < maxPid < WORD - 1 && PassesLimit(t, Fresh(maxPid, ds), n) && n in Fresh(maxPid, ds).p.queues
    ensures Last(t).p.queues[n].running == Last(t).p.queues[n].concurrency + 1 && EndsCancelled(Last(t), n)
    ensures Fresh(maxPid, ds).p.queues[n].concurrency < maxPid
  {
    hide IsRun, AllPlain, AllRegister, Fresh;
    FreshWithin(maxPid, ds);
    FilledWithin(maxPid, ds, t);
    TraceInv(t, Fresh(maxPid, ds));
    SlotsStay(t, Fresh(maxPid, ds), |t.states| - 1);
    NotCounted(Last(t).p.slots, Last(t).normal, |Last(t).p.slots| - 1, n);
  }

  lemma {:induction false} SlotsStay(t: Trace, start: System, i: nat)
    requires IsTrace(t, start) && i < |t.states|
    ensures |t.states[i].p.slots| == |start.p.slots|
  {
    hide Step;
    if i > 0 {
      SlotsStay(t, start, i - 1);
      StepKeepsSlots(t.states[i - 1], t.actions[i - 1]);
    }
  }

  // ---- a reload --------------------------------------------------------------------------------------

  /** A reload can lower a limit below what runs: two tasks run, and the new limit is one. */
  lemma ReloadPassesLimit(maxPid: nat, ds: seq<Definition>, n: string) returns (t: Trace)
    requires 2 <= maxPid < WORD - 1 && n in Fresh(maxPid, ds).p.queues && Fresh(maxPid, ds).p.queues[n].concurrency >= 2
    ensures IsTrace(t, Fresh(maxPid, ds)) && AllRegister(t, Fresh(maxPid, ds))
    ensures n in Last(t).p.queues && Last(t).p.queues[n].concurrency == 1
    ensures |Last(t).p.slots| == |Last(t).normal| && NormalRunning(Last(t), n) == 2
  {
    var start := Fresh(maxPid, ds);
    FreshPool(maxPid, ds);
    hide DefineAll, Inv, IsRun, AllQuiet, AllPlain, AllRegister, CountIf, Taken, Fresh;
    t := FreshOrderly(maxPid, ds);
    t := RunMany(t, start, n, ORDINARY, 2);
    AllAreNormal(Last(t).p.slots, Last(t).normal, n);
    TraceInv(t, start);
    CountsAre(Last(t), n);
    var d := Definition(n, 1, Fifo, false);
    DefineOne(MarkAll(Last(t).p.queues), d);
    t := Extend(t, start, Action.Reload([d]));
  }

  lemma CountsAre(s: System, n: string)
    requires Inv(s) && n in s.p.queues
    ensures s.p.queues[n].running == CountIf(s.p.slots, s.normal, n, true)
  {
  }

  lemma DefineOne(queues: map<string, QueueState>, d: Definition)
    ensures DefineAll(queues, [d]) == Define(queues, d)
  {
    assert [d][..0] == [];
  }

  // ---- a queue made for a host -----------------------------------------------------------------------

  /** The end of the last task of a marked queue takes the queue along. */
  lemma LastTaskEnds(s: System, queues: map<string, QueueState>, m: string, q: QueueState, task: Task, tid: nat)
    requires tid < |s.p.slots| && s.p.slots[tid] == Used(m, task) && m !in queues && EmptyQueues(queues)
    requires s.p.queues == queues[m := q] && q.waiting == [] && q.running == 1 && q.removed
    ensures QueuePoolSpec.Terminate(s.p, tid)
         == s.p.(slots := s.p.slots[tid := Free], queues := queues, forkPossible := false)
  {
    assert queues[m := q] - {m} == queues;
  }

  /**
   A task of a new host queue runs; the forker takes a second one; the first ends, and with it the queue; the second
   runs under no id. The pool is as it was before.
   */
  lemma LoseHostQueue(t: Trace, start: System, n: string, host: string) returns (t': Trace)
    requires IsTrace(t, start) && Calm(Last(t)) && AllQuiet(t) && Last(t).cancelling == {}
    requires NewHost(Last(t).p.queues, n, host) && Last(t).p.queues[n].concurrency >= 2 && SomeFree(Last(t).p.slots)
    ensures IsTrace(t', start) && Calm(Last(t')) && AllQuiet(t') && Last(t').cancelling == {}
    ensures Last(t').p.queues == Last(t).p.queues && Last(t').p.slots == Last(t).p.slots
    ensures Last(t').strays == Last(t).strays + [Stray(n + "@" + host, ORDINARY, true, 0)]
  {
    hide IsRun, AllQuiet, AllPlain, AllRegister, CheckQueueName, SomeFree;
    var s, m, tid := Last(t), n + "@" + host, 0;
    var q := HostQueue(s.p.queues[n]);
    t' := Hold(t, start, n, host, ORDINARY, false);
    t', tid := Run(t', start, s.p.queues, m, q, ORDINARY);
    var running := Last(t');
    t' := Hold(t', start, n, host, ORDINARY, false);
    assert Last(t').p.queues == running.p.queues;
    LastTaskEnds(Last(t'), s.p.queues, m, q.Execute(), ORDINARY, tid);
    t' := Extend(t', start, Action.Terminate(tid));
    assert Last(t').p.slots == s.p.slots;
    t' := RunUncounted(t', start, m, ORDINARY);
  }

  /** A marked queue goes although the forker holds its last waiting task. */
  lemma HeldTaskLosesQueue(maxPid: nat, ds: seq<Definition>, n: string, host: string) returns (t: Trace)
    requires 0 < maxPid < WORD - 1
    requires NewHost(Fresh(maxPid, ds).p.queues, n, host) && Fresh(maxPid, ds).p.queues[n].concurrency >= 2
    ensures IsTrace(t, Fresh(maxPid, ds)) && AllQuiet(t)
    ensures n + "@" + host !in Last(t).p.queues
    ensures forall i :: 0 <= i < |Last(t).p.slots| ==> Last(t).p.slots[i] == Free
    ensures Last(t).strays == [Stray(n + "@" + host, ORDINARY, true, 0)]
  {
    hide DefineAll, Inv, IsRun, AllQuiet, AllPlain, AllRegister, CheckQueueName;
    FreshPool(maxPid, ds);
    t := Started(maxPid, ds);
    FirstFree(Last(t).p.slots);
    t := LoseHostQueue(t, Fresh(maxPid, ds), n, host);
  }

  lemma {:induction false} LoseManyTimes(t: Trace, start: System, n: string, host: string, k: nat) returns (t': Trace)
    requires IsTrace(t, start) && Calm(Last(t)) && AllQuiet(t) && Last(t).cancelling == {}
    requires NewHost(Last(t).p.queues, n, host) && Last(t).p.queues[n].concurrency >= 2 && SomeFree(Last(t).p.slots)
    ensures IsTrace(t', start) && Calm(Last(t')) && AllQuiet(t') && Last(t').cancelling == {}
    ensures Last(t').p.queues == Last(t).p.queues && Last(t').p.slots == Last(t).p.slots
    ensures var m := n + "@" + host; NormalStrays(Last(t').strays, m) == NormalStrays(Last(t).strays, m) + k
    decreases k
  {
    hide IsRun, AllQuiet, NewHost, SomeFree;
    if k == 0 {
      t' := t;
    } else {
      t' := LoseHostQueue(t, start, n, host);
      OneMoreStray(Last(t).strays, Stray(n + "@" + host, ORDINARY, true, 0), n + "@" + host);
      t' := LoseManyTimes(t', start, n, host, k - 1);
    }
  }

  /** So any number of tasks can run for a host queue at once, whatever its limit. */
  lemma HostQueueRunsOver(maxPid: nat, ds: seq<Definition>, n: string, host: string, k: nat) returns (t: Trace)
    requires 0 < maxPid < WORD - 1
    requires NewHost(Fresh(maxPid, ds).p.queues, n, host) && Fresh(maxPid, ds).p.queues[n].concurrency >= 2
    ensures IsTrace(t, Fresh(maxPid, ds)) && AllQuiet(t)
    ensures var m, queues := n + "@" + host, Last(t).p.queues;
            && m in queues && queues[m].concurrency == Fresh(maxPid, ds).p.queues[n].concurrency
            && |Last(t).p.slots| == |Last(t).normal| && AllNormal(Last(t), m) >= k
  {
    hide DefineAll, Inv, IsRun, AllQuiet, AllPlain, AllRegister, CheckQueueName;
    FreshPool(maxPid, ds);
    t := Started(maxPid, ds);
    FirstFree(Last(t).p.slots);
    t := LoseManyTimes(t, Fresh(maxPid, ds), n, host, k);
    t := Hold(t, Fresh(maxPid, ds), n, host, ORDINARY, false);
  }

  // ---- the end of the forker -------------------------------------------------------------------------

  /** In every run without reloads and spurious wake-ups, the forker ends only when a shutdown was requested. */
  ghost predicate EndsOnlyByShutdown(start: System) {
    forall t :: IsTrace(t, start) && AllQuiet(t) ==> (Last(t).forker == Exited ==> Last(t).p.shuttingDown)
  }

  /**
   A task of a new host queue runs; the forker, asleep, is woken for a second one; that one is cancelled, and goes with
   the queue when the first one ends.
   */
  lemma WokenForNothing(maxPid: nat, ds: seq<Definition>, n: string, host: string) returns (t: Trace)
    requires 0 < maxPid < WORD - 1 && NewHost(Fresh(maxPid, ds).p.queues, n, host)
    requires Fresh(maxPid, ds).p.queues[n].concurrency >= 1
    ensures IsTrace(t, Fresh(maxPid, ds)) && AllQuiet(t)
    ensures Last(t).forker == Exited && !Last(t).p.shuttingDown
  {
    hide DefineAll, Inv, IsRun, AllQuiet, AllPlain, AllRegister, CheckQueueName;
    var start, m, tid := Fresh(maxPid, ds), n + "@" + host, 0;
    FreshPool(maxPid, ds);
    t := Started(maxPid, ds);
    var queues, q := start.p.queues, HostQueue(start.p.queues[n]);
    FirstFree(start.p.slots);
    t := Hold(t, start, n, host, ORDINARY, false);
    t, tid := Run(t, start, queues, m, q, ORDINARY);
    t := Extend(t, start, BeginDequeue);
    t := WakeAndCancel(t, start, queues, n, host, q.Execute());
    LastTaskEnds(Last(t), queues, m, q.Execute().(cancelled := [CANCELLED]), ORDINARY, tid);
    t := Extend(t, start, Action.Terminate(tid));
    assert AllLocked(queues);
    t := Extend(t, start, Wake);
  }

  /** With the forker asleep, a task is put into a queue and cancelled, and the forker notified. */
  lemma WakeAndCancel(t: Trace, start: System, queues: map<string, QueueState>, n: string, host: string, q: QueueState)
    returns (t': Trace)
    requires IsTrace(t, start) && Last(t).forker == Asleep(false) && Last(t).p.forkLocked && EmptyQueues(queues)
    requires 1 < |Last(t).p.slots| == |Last(t).normal| && EnqueueResult(Last(t).p, n, host) == Done
    requires q.waiting == [] && q.cancelled == [] && Last(t).p.queues == queues[EnqueueName(Last(t).p, n, host) := q]
    requires Last(t).cancelling == {}
    ensures IsTrace(t', start) && (AllQuiet(t) ==> AllQuiet(t'))
    ensures t'.actions == t.actions + [Enqueue(n, host, CANCELLED), BeginCancel(CANCELLED.instance),
                                       Cancel(CANCELLED.instance)]
    ensures var m := EnqueueName(Last(t).p, n, host);
            Last(t') == Last(t).(p := Last(t).p.(queues := queues[m := q.(cancelled := [CANCELLED])],
                                                 forkPossible := true),
                                 forker := Asleep(true), cancelling := {CANCELLED.instance})
  {
    hide IsRun, AllQuiet, AllPlain, AllRegister, CheckQueueName, QueuePoolSpec.Enqueue, QueuePoolSpec.Cancel;
    var s, m := Last(t), EnqueueName(Last(t).p, n, host);
    EnqueueCalm(s, n, host, CANCELLED);
    t' := Extend(t, start, Enqueue(n, host, CANCELLED));
    assert Last(t').p.queues == queues[m := q.(waiting := [CANCELLED])];
    t' := Extend(t', start, BeginCancel(CANCELLED.instance));
    CancelCalm(Last(t').p, queues, m, q, CANCELLED);
    t' := Extend(t', start, Cancel(CANCELLED.instance));
  }

  /** The forker of a constructed pool ends only on shutdown exactly if no queue is dynamic with a host it lacks. */
  lemma EndsOnlyByShutdownExactly(maxPid: nat, ds: seq<Definition>)
    requires 0 < maxPid < WORD - 1 && forall d :: d in ds ==> d.concurrency >= 1
    ensures EndsOnlyByShutdown(Fresh(maxPid, ds)) <==> !TakesHosts(Fresh(maxPid, ds).p.queues)
  {
    var start := Fresh(maxPid, ds);
    FreshPool(maxPid, ds);
    DefinedUnused(ds);
    hide DefineAll, Inv, IsRun, AllQuiet, AllPlain, CheckQueueName;
    if TakesHosts(start.p.queues) {
      var n, host :| NewHost(start.p.queues, n, host);
      var t := WokenForNothing(maxPid, ds, n, host);
      assert !EndsOnlyByShutdown(start);
    } else {
      forall t | IsTrace(t, start) && AllQuiet(t)
        ensures Last(t).forker == Exited ==> Last(t).p.shuttingDown
      {
        QuietEnds(t, start);
      }
    }
  }

  lemma QuietEnds(t: Trace, start: System)
    requires IsTrace(t, start) && AllQuiet(t) && Inv(start) && Lasting(start)
    ensures Last(t).forker == Exited ==> Last(t).p.shuttingDown
  {
    EndsOnlyOnShutdown(t.states, t.actions, |t.states| - 1);
  }

  ghost predicate NoSpuriousWake(t: Trace) {
    |t.states| == |t.actions| + 1
    && forall k :: 0 <= k < |t.actions| && t.actions[k].Wake? ==> t.states[k].forker == Asleep(true)
  }

  lemma QuietWakes(t: Trace)
    requires AllQuiet(t)
    ensures NoSpuriousWake(t)
  {
  }

  lemma OneMoreWake(t: Trace, t': Trace, a: Action)
    requires NoSpuriousWake(t) && t'.actions == t.actions + [a] && |t'.states| == |t.states| + 1
    requires t'.states[..|t.states|] == t.states && (a.Wake? ==> Last(t).forker == Asleep(true))
    ensures NoSpuriousWake(t')
  {
    assert forall k :: 0 <= k < |t.states| ==> t'.states[k] == t.states[k];
  }

  /** A reload of the same definitions, with a cancelled task in some queue, ends the forker of any pool. */
  lemma ReloadEndsForker(maxPid: nat, ds: seq<Definition>, n: string) returns (t: Trace)
    requires 0 < maxPid < WORD - 1 && n in Fresh(maxPid, ds).p.queues
    ensures IsTrace(t, Fresh(maxPid, ds)) && NoSpuriousWake(t)
    ensures t.actions == [StartForker, BeginDequeue, Enqueue(n, "", CANCELLED), BeginCancel(CANCELLED.instance),
                          Cancel(CANCELLED.instance), Action.Reload(ds), Wake]
    ensures Last(t).forker == Exited && !Last(t).p.shuttingDown
  {
    hide DefineAll, Inv, IsRun, AllQuiet, AllPlain, AllRegister, CheckQueueName;
    var start := Fresh(maxPid, ds);
    FreshPool(maxPid, ds);
    var queues, q := start.p.queues, start.p.queues[n];
    t := Started(maxPid, ds);
    t := Extend(t, start, BeginDequeue);
    assert queues[n := q] == queues;
    t := WakeAndCancel(t, start, queues, n, "", q);
    ReloadDrops(Last(t).p, queues, n, q, ds, CANCELLED);
    QuietWakes(t);
    hide NoSpuriousWake;
    var before := t;
    t := Extend(t, start, Action.Reload(ds));
    OneMoreWake(before, t, Action.Reload(ds));
    assert AllLocked(Last(t).p.queues);
    before := t;
    t := Extend(t, start, Wake);
    OneMoreWake(before, t, Wake);
  }

  /** A reload takes a queue in which only cancelled tasks are for an unused one. */
  lemma ReloadDrops(p: PoolState, queues: map<string, QueueState>, n: string, q: QueueState, ds: seq<Definition>,
                    task: Task)
    requires queues == DefineAll(map[], ds) && n in queues && q == queues[n]
    requires p.queues == queues[n := q.(cancelled := [task])]
    ensures QueuePoolSpec.Reload(p, ds) == p.(queues := queues, forkPossible := false)
  {
    DefinedUnused(ds);
    hide DefineAll;
    assert MarkAll(p.queues) == map[];
  }

  /** A wake-up that nobody sent ends it too. */
  lemma SpuriousWakeEndsForker(maxPid: nat, ds: seq<Definition>) returns (t: Trace)
    requires 0 < maxPid < WORD - 1
    ensures IsTrace(t, Fresh(maxPid, ds)) && t.actions == [StartForker, BeginDequeue, Wake]
    ensures Last(t).forker == Exited && !Last(t).p.shuttingDown
  {
    hide DefineAll, Inv, IsRun, AllQuiet, AllPlain, AllRegister;
    FreshPool(maxPid, ds);
    t := Started(maxPid, ds);
    t := Extend(t, Fresh(maxPid, ds), BeginDequeue);
    assert AllLocked(Last(t).p.queues);
    t := Extend(t, Fresh(maxPid, ds), Wake);
  }
}
