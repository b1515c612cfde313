/** What the calls of the pool do to each queue and to the ids, told on the fields of the state. */
module QueuePoolLaws {
  import opened NameOrder
  import opened StableOrder
  import opened Queue
  import opened QueuePoolSpec
  import opened QueuePoolRuns

  // ---- reload --------------------------------------------------------------------------------------

  predicate Distinct(ds: seq<Definition>) { forall i, j :: 0 <= i < j < |ds| ==> ds[i].name != ds[j].name }

  predicate IsDefined(ds: seq<Definition>, n: string) { exists i :: 0 <= i < |ds| && ds[i].name == n }

  /** A queue that stays takes its settings over; its tasks stay as they are, unless it turns to priorities. */
  ghost predicate Reset(q: QueueState, d: Definition, q': QueueState) {
    && q'.concurrency == d.concurrency && q'.discipline == d.discipline && !q'.removed
    && q'.cancelled == q.cancelled && q'.running == q.running && q'.dynamic == q.dynamic
    && multiset(q'.waiting) == multiset(q.waiting)
    && if q.discipline == Fifo && d.discipline == Prio then IsStableSort(InstanceOf, q.waiting, q'.waiting)
       else q'.waiting == q.waiting
  }

  lemma {:induction false} DefineEach(queues: map<string, QueueState>, ds: seq<Definition>, n: string)
    requires Distinct(ds)
    ensures n in DefineAll(queues, ds) <==> n in queues || IsDefined(ds, n)
    ensures n in queues && !IsDefined(ds, n) ==> DefineAll(queues, ds)[n] == queues[n]
    ensures forall i :: 0 <= i < |ds| && ds[i].name == n ==>
              n in Define(queues, ds[i]) && DefineAll(queues, ds)[n] == Define(queues, ds[i])[n]
  {
    if ds != [] {
      var last := |ds| - 1;
      DefineEach(queues, ds[..last], n);
      assert forall i :: 0 <= i < last ==> ds[..last][i] == ds[i];
      if IsDefined(ds, n) && ds[last].name != n {
        var i :| 0 <= i < |ds| && ds[i].name == n;
        assert ds[..last][i].name == n;
      }
    }
  }

  lemma ResetByDefine(queues: map<string, QueueState>, d: Definition)
    requires d.name in queues
    ensures Reset(queues[d.name], d, Define(queues, d)[d.name])
  {
    var q := queues[d.name];
    if q.discipline == Fifo && d.discipline == Prio {
      InsertAllIsStableSort(InstanceOf, q.waiting);
      SelectsDecide(InstanceOf, Define(queues, d)[d.name].waiting, q.waiting);
    }
  }

  /**
   After a reload, each definition has a queue with its settings: the one that was there, if it was not idle, and
   otherwise a new one. Of the other queues those are there that were not idle, marked and otherwise unchanged.
   */
  lemma ReloadExactly(p: PoolState, ds: seq<Definition>, n: string)
    requires Distinct(ds)
    ensures var p' := QueuePoolSpec.Reload(p, ds);
            var stays := n in p.queues && !(p.queues[n].waiting == [] && p.queues[n].running == 0);
            && (n in p'.queues <==> stays || IsDefined(ds, n))
            && (stays && !IsDefined(ds, n) ==> p'.queues[n] == p.queues[n].(removed := true))
            && (forall i :: 0 <= i < |ds| && ds[i].name == n ==>
                  if stays then Reset(p.queues[n], ds[i], p'.queues[n])
                  else p'.queues[n] == QueueState(ds[i].concurrency, ds[i].discipline, [], [], 0, false, ds[i].dynamic))
  {
    var m := MarkAll(p.queues);
    DefineEach(m, ds, n);
    forall i | 0 <= i < |ds| && ds[i].name == n && n in m
      ensures Reset(p.queues[n], ds[i], DefineAll(m, ds)[n])
    {
      ResetByDefine(m, ds[i]);
    }
  }

  /** A reload changes nothing but the queues, and the flag tells whether the forker has something to do. */
  lemma ReloadRest(p: PoolState, ds: seq<Definition>)
    ensures var p' := QueuePoolSpec.Reload(p, ds);
            && p'.slots == p.slots && p'.lastTid == p.lastTid && p'.forkLocked == p.forkLocked
            && p'.shuttingDown == p.shuttingDown
            && (p'.forkPossible <==> exists n :: n in p'.queues && HasWork(p'.queues[n]))
  {
  }

  /** A task can leave: a cancelled one, or a waiting one below the limit. */
  predicate HasWork(q: QueueState) { q.cancelled != [] || (q.waiting != [] && q.running < q.concurrency) }

  // ---- enqueue -------------------------------------------------------------------------------------

  const LETTERS := "ABCDEFGHIJKLMNOPQRSTUVWXYZ" + "abcdefghijklmnopqrstuvwxyz" + "0123456789" + "_-@."

  lemma LetterRuns(i: nat)
    requires i < 26
    ensures "ABCDEFGHIJKLMNOPQRSTUVWXYZ"[i] == 'A' + i as char && "abcdefghijklmnopqrstuvwxyz"[i] == 'a' + i as char
    ensures i < 10 ==> "0123456789"[i] == '0' + i as char
  {
  }

  lemma LettersAre(c: char)
    ensures NameChar(c) <==> c in LETTERS
  {
    if i :| 0 <= i < |LETTERS| && LETTERS[i] == c {
      if i < 26 { LetterRuns(i); } else if i < 52 { LetterRuns(i - 26); } else if i < 62 { LetterRuns(i - 52); }
    }
    if NameChar(c) {
      var i := LetterAt(c);
      assert LETTERS[i] == c;
    }
  }

  lemma LetterAt(c: char) returns (i: nat)
    requires NameChar(c)
    ensures i < |LETTERS| && LETTERS[i] == c
  {
    if 'A' <= c <= 'Z' {
      i := (c - 'A') as nat;
      LetterRuns(i);
    } else if 'a' <= c <= 'z' {
      LetterRuns((c - 'a') as nat);
      i := 26 + (c - 'a') as nat;
    } else if '0' <= c <= '9' {
      LetterRuns((c - '0') as nat);
      i := 52 + (c - '0') as nat;
    } else {
      i := if c == '_' then 62 else if c == '-' then 63 else if c == '@' then 64 else 65;
    }
  }

  /**
   A task is refused for a name without a queue, and for a host of a dynamic queue that has none yet, if the two names
   together are longer than 64 characters or have another character than letters, digits and four more.
   */
  lemma RefusedExactly(p: PoolState, name: string, host: string)
    ensures EnqueueResult(p, name, host) == NoQueue <==> name !in p.queues
    ensures EnqueueResult(p, name, host) == BadName
       <==> && name in p.queues && p.queues[name].dynamic && host != "" && name + "@" + host !in p.queues
            && (|name + "@" + host| > 64 || exists c :: c in name + "@" + host && c !in LETTERS)
  {
    var n := name + "@" + host;
    forall c
      ensures NameChar(c) <==> c in LETTERS
    {
      LettersAre(c);
    }
    hide NameChar;
    if c :| c in n && c !in LETTERS {
      var i :| 0 <= i < |n| && n[i] == c;
      assert !NameChar(n[i]);
    }
  }

  /** One more task waits in queue m, which has been made after another one if it was not there; all else stays. */
  ghost predicate HasTask(p: PoolState, p': PoolState, name: string, m: string, task: Task)
    requires name in p.queues
  {
    && p'.queues.Keys == p.queues.Keys + {m} && p'.slots == p.slots && p'.forkLocked == p.forkLocked
    && (forall n :: n in p.queues && n != m ==> p'.queues[n] == p.queues[n])
    && (if m in p.queues then
          && p'.queues[m] == p.queues[m].(waiting := p'.queues[m].waiting)
          && multiset(p'.queues[m].waiting) == multiset(p.queues[m].waiting) + multiset{task}
        else
          p'.queues[m]
          == QueueState(p.queues[name].concurrency, p.queues[name].discipline, [task], [], 0, true, false))
    && (p'.forkPossible <==> exists n :: n in p'.queues && HasWork(p'.queues[n]))
  }

  /**
   A task that is not refused goes to the queue of the name, or of the name and the host; if that one is not there yet it
   is made after the queue of the name, marked to go again. All other queues stay.
   */
  lemma EnqueueExactly(p: PoolState, name: string, host: string, task: Task)
    requires EnqueueResult(p, name, host) == Done
    ensures var m := if p.queues[name].dynamic && host != "" then name + "@" + host else name;
            HasTask(p, QueuePoolSpec.Enqueue(p, name, host, task), name, m, task)
  {
    var m := if p.queues[name].dynamic && host != "" then name + "@" + host else name;
    EnqueueIs(p, name, host, task);
    IntoQueue(p, name, m, task);
    hide QueuePoolSpec.Enqueue, EnqueueResult, HasTask;
  }

  /** The pool with a task put into queue m, which is made after the other one if need be. */
  function WithTask(p: PoolState, name: string, m: string, task: Task): PoolState
    requires name in p.queues
  {
    var q := if m in p.queues then p.queues[m] else HostQueue(p.queues[name]);
    Refresh(p.(queues := p.queues[m := q.Enqueue(task)]))
  }

  lemma EnqueueIs(p: PoolState, name: string, host: string, task: Task)
    requires EnqueueResult(p, name, host) == Done
    ensures var m := if p.queues[name].dynamic && host != "" then name + "@" + host else name;
            QueuePoolSpec.Enqueue(p, name, host, task) == WithTask(p, name, m, task)
  {
    hide CheckQueueName, AllLocked, Insert, Refresh;
  }

  lemma IntoQueue(p: PoolState, name: string, m: string, task: Task)
    requires name in p.queues
    ensures HasTask(p, WithTask(p, name, m, task), name, m, task)
  {
    var q := if m in p.queues then p.queues[m] else HostQueue(p.queues[name]);
    TakesTask(q, task);
    FlagTells(p.(queues := p.queues[m := q.Enqueue(task)]));
    hide AllLocked, Insert, HasWork;
  }

  lemma TakesTask(q: QueueState, t: Task)
    ensures q.Enqueue(t) == q.(waiting := q.Enqueue(t).waiting)
    ensures multiset(q.Enqueue(t).waiting) == multiset(q.waiting) + multiset{t}
    ensures q.waiting == [] ==> q.Enqueue(t).waiting == [t]
  {
    InsertCounts(q.waiting, t);
  }

  lemma FlagTells(p: PoolState)
    ensures Refresh(p).forkPossible <==> exists n :: n in p.queues && HasWork(p.queues[n])
  {
  }

  lemma {:induction false} InsertCounts(s: seq<Task>, t: Task)
    ensures multiset(Insert(InstanceOf, s, t)) == multiset(s) + multiset{t}
  {
    if s != [] {
      InsertCounts(s[1..], t);
      assert s == [s[0]] + s[1..];
    }
  }

  // ---- dequeue -------------------------------------------------------------------------------------

  /**
   A dequeue takes the next task of the first queue by name that has one to give: its first cancelled task, or else its
   first waiting one. All other queues stay.
   */
  lemma DequeueExactly(p: PoolState) returns (n: string)
    requires exists m :: m in p.queues && HasWork(p.queues[m])
    ensures !AllLocked(p.queues) && n == FirstUnlocked(p.queues) && n in p.queues && HasWork(p.queues[n])
    ensures forall m :: m in p.queues && HasWork(p.queues[m]) ==> NameLeq(n, m)
    ensures var p', q := QueuePoolSpec.Dequeue(p), p.queues[n];
            && p'.queues == p.queues[n := if q.cancelled != [] then q.(cancelled := q.cancelled[1..])
                                          else q.(waiting := q.waiting[1..])]
            && q.Next() == (if q.cancelled != [] then q.cancelled[0] else q.waiting[0])
            && p'.slots == p.slots && !p'.forkLocked
            && (p'.forkPossible <==> exists m :: m in p'.queues && HasWork(p'.queues[m]))
  {
    var k :| k in p.queues && HasWork(p.queues[k]);
    assert !p.queues[k].Locked();
    n := FirstUnlocked(p.queues);
    forall m | m in p.queues && HasWork(p.queues[m])
      ensures NameLeq(n, m)
    {
      assert m in UnlockedNames(p.queues);
    }
  }

  // ---- the next id ---------------------------------------------------------------------------------

  /** The ids behind the last one, from maxpid - 1 on with 0. */
  function Behind(lastTid: nat, maxPid: nat, k: nat): nat
    requires maxPid > 0
  {
    (lastTid + 1 + k) % maxPid
  }

  lemma CandidateIsBehind(lastTid: nat, maxPid: nat, i: nat)
    requires maxPid > 0
    ensures Candidate(lastTid, maxPid, i) == Behind(lastTid, maxPid, i) < maxPid
  {
  }

  /** The id that is allocated is the first free one behind the last, counted around. */
  lemma {:induction false} AllocatesNext(slots: seq<Slot>, lastTid: nat, maxPid: nat, i: nat) returns (steps: nat)
    requires 0 < maxPid < |slots| && i < maxPid && Allocate(slots, lastTid, maxPid, i).0
    ensures i <= steps < maxPid && Allocate(slots, lastTid, maxPid, i).1 == Behind(lastTid, maxPid, steps) < maxPid
    ensures slots[Behind(lastTid, maxPid, steps)] == Free
    ensures forall k :: i <= k < steps ==>
              Behind(lastTid, maxPid, k) < maxPid && slots[Behind(lastTid, maxPid, k)].Used?
    decreases maxPid - i
  {
    CandidateIsBehind(lastTid, maxPid, i);
    hide Candidate, Behind;
    if slots[Candidate(lastTid, maxPid, i)] == Free {
      steps := i;
    } else {
      steps := AllocatesNext(slots, lastTid, maxPid, i + 1);
    }
  }

  // ---- which queue a task is in --------------------------------------------------------------------

  /** The task was sent to the queue, by its name, or by that of a dynamic queue and a host. */
  predicate Sends(s: System, a: Action, m: string, t: Task) {
    && a.Enqueue? && a.task == t && a.name in s.p.queues
    && m == if s.p.queues[a.name].dynamic && a.host != "" then a.name + "@" + a.host else a.name
  }

  ghost predicate SentBefore(ss: seq<System>, actions: seq<Action>, i: nat, m: string, t: Task)
    requires |ss| == |actions| + 1 && i < |ss|
  {
    exists k :: 0 <= k < i && Sends(ss[k], actions[k], m, t)
  }

  predicate IsIn(s: System, m: string, t: Task) {
    || (m in s.p.queues && (t in s.p.queues[m].waiting || t in s.p.queues[m].cancelled))
    || (s.forker.Holding? && s.forker.queue == m && s.forker.task == t)
  }

  /** Over every run from empty queues: a task waits, is cancelled, or is held for a queue only if it was sent to it. */
  lemma {:induction false} RunSentTo(ss: seq<System>, actions: seq<Action>, i: nat, m: string, t: Task)
    requires IsRun(ss, actions) && i < |ss| && !IsIn(ss[0], m, t) && IsIn(ss[i], m, t)
    ensures SentBefore(ss, actions, i, m, t)
  {
    hide Enabled, Step, IsIn, Sends;
    assert Enabled(ss[i - 1], actions[i - 1]) && ss[i] == Step(ss[i - 1], actions[i - 1]);
    if IsIn(ss[i - 1], m, t) {
      RunSentTo(ss, actions, i - 1, m, t);
    } else {
      StepSentTo(ss[i - 1], actions[i - 1], m, t);
    }
  }

  predicate InQueue(queues: map<string, QueueState>, m: string, t: Task) {
    m in queues && (t in queues[m].waiting || t in queues[m].cancelled)
  }

  lemma EnqueueSends(s: System, name: string, host: string, task: Task, m: string, t: Task)
    requires InQueue(QueuePoolSpec.Enqueue(s.p, name, host, task).queues, m, t) && !InQueue(s.p.queues, m, t)
    ensures Sends(s, Action.Enqueue(name, host, task), m, t)
  {
    hide Insert, AllLocked, CheckQueueName;
    var n := EnqueueName(s.p, name, host);
    var q := if n in s.p.queues then s.p.queues[n] else HostQueue(s.p.queues[name]);
    InsertMembers(InstanceOf, q.waiting, task);
  }

  lemma CancelSends(queues: map<string, QueueState>, instance: nat, m: string, t: Task)
    requires InQueue(CancelAll(queues, instance), m, t)
    ensures InQueue(queues, m, t)
  {
    SelectMembers(InstanceOf, instance, queues[m].waiting);
    FilterMembers(OtherThan(instance), queues[m].waiting);
  }

  lemma MigrateSends(q: QueueState, d: Discipline, t: Task)
    ensures t in q.Migrate(d).waiting <==> t in q.waiting
  {
    if q.discipline == Fifo && d == Prio {
      InsertAllIsStableSort(InstanceOf, q.waiting);
      SelectsDecide(InstanceOf, q.Migrate(d).waiting, q.waiting);
      assert t in q.waiting <==> t in multiset(q.waiting);
    }
  }

  lemma {:induction false} ReloadSends(queues: map<string, QueueState>, ds: seq<Definition>, m: string, t: Task)
    requires InQueue(DefineAll(queues, ds), m, t)
    ensures InQueue(queues, m, t)
  {
    if ds != [] {
      var before := DefineAll(queues, ds[..|ds| - 1]);
      var d := ds[|ds| - 1];
      if d.name in before {
        MigrateSends(before[d.name].(concurrency := d.concurrency, removed := false), d.discipline, t);
      }
      hide DefineAll;
      ReloadSends(queues, ds[..|ds| - 1], m, t);
    }
  }

  lemma FinishSends(s: System, m: string, t: Task)
    requires IsIn(Finish(s), m, t) && !s.forker.Holding?
    ensures InQueue(s.p.queues, m, t)
  {
    if Finish(s).forker.Holding? {
      var n := FirstUnlocked(s.p.queues);
      var q := s.p.queues[n];
      assert q.Next() in q.waiting || q.Next() in q.cancelled;
    }
  }

  lemma StepSentTo(s: System, a: Action, m: string, t: Task)
    requires Enabled(s, a) && !IsIn(s, m, t) && IsIn(Step(s, a), m, t)
    ensures Sends(s, a, m, t)
  {
    hide Sends, Finish, QueuePoolSpec.Enqueue, CancelAll, DefineAll, AllLocked, Allocate, Displaced;
    match a
    case Enqueue(name, host, task) => EnqueueSends(s, name, host, task, m, t);
    case Cancel(instance) => CancelSends(s.p.queues, instance, m, t);
    case Reload(ds) => ReloadSends(MarkAll(s.p.queues), ds, m, t);
    case BeginDequeue => FinishSends(s, m, t);
    case Wake => FinishSends(s, m, t);
    case BeginCancel(_) =>
    case Terminate(_) =>
    case Resume(_, _, _) =>
    case Shutdown =>
    case StartForker =>
    case Execute =>
    case Start =>
    case Fail =>
    case StrayExit(_) =>
  }
}
