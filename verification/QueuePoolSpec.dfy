/** The queue pool (src/Queue/QueuePool.cpp) as a value, and what one call does to it. */
module QueuePoolSpec {
  import opened NameOrder
  import opened Queue

  const NAME_MAX_LEN := 64

  /** One entry of the three tables indexed by task id. */
  datatype Slot = Free | Used(queue: string, task: Task)

  datatype PoolState = PoolState(
    queues: map<string, QueueState>, slots: seq<Slot>, lastTid: nat,
    forkLocked: bool, forkPossible: bool, shuttingDown: bool)

  /** A row of the table of queue definitions. */
  datatype Definition = Definition(name: string, concurrency: nat, discipline: Discipline, dynamic: bool)

  // ---- locks ---------------------------------------------------------------------------------------

  predicate Unlocked(queues: map<string, QueueState>, n: string) { n in queues && !queues[n].Locked() }

  predicate AllLocked(queues: map<string, QueueState>) {
    forall n :: n in queues ==> queues[n].Locked()
  }

  function UnlockedNames(queues: map<string, QueueState>): set<string> {
    set n | n in queues && !queues[n].Locked()
  }

  /** The first queue in name order from which a task may leave. */
  ghost function FirstUnlocked(queues: map<string, QueueState>): (n: string)
    requires !AllLocked(queues)
    ensures IsLeast(n, UnlockedNames(queues))
  {
    assert exists n :: IsLeast(n, UnlockedNames(queues)) by {
      var n :| n in queues && !queues[n].Locked();
      assert n in UnlockedNames(queues);
      var least := LeastExists(UnlockedNames(queues));
    }
    var n :| IsLeast(n, UnlockedNames(queues));
    n
  }

  /** What every call does last: the flag is recomputed. */
  function Refresh(p: PoolState): PoolState { p.(forkPossible := !AllLocked(p.queues)) }

  /** Whether such a call wakes a waiting forker. */
  predicate Notifies(p: PoolState) { p.forkLocked && p.forkPossible }

  // ---- enqueue -------------------------------------------------------------------------------------

  predicate NameChar(c: char) {
    'a' <= c <= 'z' || 'A' <= c <= 'Z' || '0' <= c <= '9' || c == '_' || c == '-' || c == '@' || c == '.'
  }

  predicate CheckQueueName(n: string) {
    0 < |n| <= NAME_MAX_LEN && forall i :: 0 <= i < |n| ==> NameChar(n[i])
  }

  datatype Enqueued = Done | NoQueue | BadName

  function EnqueueResult(p: PoolState, name: string, host: string): Enqueued {
    if name !in p.queues then NoQueue
    else if !p.queues[name].dynamic || host == "" then Done
    else if name + "@" + host in p.queues || CheckQueueName(name + "@" + host) then Done
    else BadName
  }

  /** The queue that takes the task. */
  function EnqueueName(p: PoolState, name: string, host: string): string
    requires name in p.queues
  {
    if !p.queues[name].dynamic || host == "" then name else name + "@" + host
  }

  /** A queue made for one host of a dynamic queue; it is marked to be removed from the start. */
  function HostQueue(q: QueueState): QueueState {
    QueueState(q.concurrency, q.discipline, [], [], 0, true, false)
  }

  function Enqueue(p: PoolState, name: string, host: string, task: Task): PoolState {
    if EnqueueResult(p, name, host) != Done then p
    else
      var n := EnqueueName(p, name, host);
      var q := if n in p.queues then p.queues[n] else HostQueue(p.queues[name]);
      Refresh(p.(queues := p.queues[n := q.Enqueue(task)]))
  }

  // ---- dequeue -------------------------------------------------------------------------------------

  /** The part of DequeueTask behind the wait, with a task to return. */
  ghost function Dequeue(p: PoolState): PoolState
    requires !AllLocked(p.queues)
  {
    var n := FirstUnlocked(p.queues);
    Refresh(p.(forkLocked := false, queues := p.queues[n := p.queues[n].Dequeue()]))
  }

  // ---- execute and terminate -----------------------------------------------------------------------

  /** The task id tried at step i: round robin from the last one, in 0 .. maxpid - 1. */
  function Candidate(lastTid: nat, maxPid: nat, i: nat): nat
    requires maxPid > 0
  {
    (lastTid + 1 + i) % maxPid
  }

  /** The first free id from step i on, and the last id tried when there is none. */
  function Allocate(slots: seq<Slot>, lastTid: nat, maxPid: nat, i: nat): (r: (bool, nat))
    requires 0 < maxPid < |slots| && i < maxPid
    ensures r.1 < maxPid && (r.0 ==> slots[r.1] == Free)
    decreases maxPid - i
  {
    var tid := Candidate(lastTid, maxPid, i);
    if slots[tid] == Free then (true, tid)
    else if i + 1 == maxPid then (false, tid)
    else Allocate(slots, lastTid, maxPid, i + 1)
  }

  /** Enter a task under an id. */
  function Register(p: PoolState, n: string, task: Task, tid: nat): PoolState
    requires n in p.queues && tid < |p.slots|
  {
    Refresh(p.(slots := p.slots[tid := Used(n, task)], queues := p.queues[n := p.queues[n].Execute()]))
  }

  /** ExecuteTask without an id. The returned id is 0 when the task could not be registered. */
  function Execute(p: PoolState, n: string, task: Task): (PoolState, nat)
    requires |p.slots| > 1
  {
    if n !in p.queues then (p, 0)
    else
      var (found, tid) := Allocate(p.slots, p.lastTid, |p.slots| - 1, 0);
      if found then (Register(p.(lastTid := tid), n, task, tid), tid)
      else (p.(lastTid := tid), 0)
  }

  /** ExecuteTask with an id other than 0, for a task that was running before a restart. */
  function Resume(p: PoolState, n: string, task: Task, tid: nat): PoolState
    requires tid < |p.slots|
  {
    if n !in p.queues then p else Register(p, n, task, tid)
  }

  /** A queue to be removed goes when nothing waits or runs in it. Cancelled tasks do not keep it. */
  predicate Idle(q: QueueState) { q.waiting == [] && q.running == 0 }

  /** TerminateTask. (An entry of a queue that is gone, which no reachable state has, is left alone.) */
  function Terminate(p: PoolState, tid: nat): PoolState
    requires tid < |p.slots|
  {
    if p.slots[tid] == Free || p.slots[tid].queue !in p.queues then p
    else
      var n := p.slots[tid].queue;
      var q := p.queues[n].Terminate();
      Refresh(p.(slots := p.slots[tid := Free],
                 queues := if q.removed && Idle(q) then p.queues - {n} else p.queues[n := q]))
  }

  // ---- cancel, reload, shutdown --------------------------------------------------------------------

  function CancelAll(queues: map<string, QueueState>, instance: nat): map<string, QueueState> {
    map n | n in queues :: queues[n].Cancel(instance)
  }

  function Cancel(p: PoolState, instance: nat): PoolState {
    Refresh(p.(queues := CancelAll(p.queues, instance)))
  }

  /** First half of Reload: idle queues go, the others are marked to be removed. */
  function MarkAll(queues: map<string, QueueState>): map<string, QueueState> {
    map n | n in queues && !Idle(queues[n]) :: queues[n].(removed := true)
  }

  /** One definition: a new queue, or new settings for the queue of that name. */
  function Define(queues: map<string, QueueState>, d: Definition): map<string, QueueState> {
    if d.name in queues then
      queues[d.name := queues[d.name].(concurrency := d.concurrency, removed := false).Migrate(d.discipline)]
    else
      queues[d.name := QueueState(d.concurrency, d.discipline, [], [], 0, false, d.dynamic)]
  }

  function DefineAll(queues: map<string, QueueState>, ds: seq<Definition>): map<string, QueueState> {
    if ds == [] then queues else Define(DefineAll(queues, ds[..|ds| - 1]), ds[|ds| - 1])
  }

  function Reload(p: PoolState, ds: seq<Definition>): PoolState {
    Refresh(p.(queues := DefineAll(MarkAll(p.queues), ds)))
  }
}
