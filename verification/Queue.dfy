/** One queue of tasks (src/Queue/Queue.cpp): its state and its operations. */
module Queue {
  import opened StableOrder

  /** A task to run: the id of its workflow instance, and its element in the instance's document. */
  datatype Task = Task(instance: nat, element: nat)

  datatype Discipline = Fifo | Prio

  datatype Option<+T> = None | Some(value: T)

  const WORD := 0x1_0000_0000

  function InstanceOf(t: Task): int { t.instance }

  function OtherThan(id: nat): Task -> bool { (t: Task) => t.instance != id }

  // ---- the queue as a value ------------------------------------------------------------------------

  datatype QueueState = QueueState(
    concurrency: nat, discipline: Discipline, waiting: seq<Task>, cancelled: seq<Task>,
    running: nat, removed: bool, dynamic: bool)
  {
    predicate WellFormed() { discipline == Prio ==> Sorted(InstanceOf, waiting) }

    /** Nothing may leave the queue now. */
    predicate Locked() { cancelled == [] && (waiting == [] || running >= concurrency) }

    function Enqueue(t: Task): QueueState {
      this.(waiting := if discipline == Fifo then waiting + [t] else Insert(InstanceOf, waiting, t))
    }

    /** The task that leaves next: cancelled ones first. */
    function Next(): Task
      requires !Locked()
    {
      if cancelled != [] then cancelled[0] else waiting[0]
    }

    function Dequeue(): QueueState
      requires !Locked()
    {
      if cancelled != [] then this.(cancelled := cancelled[1..]) else this.(waiting := waiting[1..])
    }

    function Cancel(id: nat): QueueState {
      this.(waiting := Filter(OtherThan(id), waiting), cancelled := cancelled + Select(InstanceOf, id, waiting))
    }

    function Migrate(d: Discipline): QueueState {
      if d == discipline then this
      else if d == Fifo then this.(discipline := Fifo)
      else this.(discipline := Prio, waiting := InsertAll(InstanceOf, [], waiting))
    }

    function Execute(): QueueState { this.(running := (running + 1) % WORD) }

    function Terminate(): QueueState { this.(running := if running == 0 then WORD - 1 else running - 1) }
  }

  // ---- taking the tasks of one instance out of a container ------------------------------------------

  lemma TakeNone(tasks: seq<Task>, instance: nat)
    ensures Filter(OtherThan(instance), tasks[..0]) == [] == Select(InstanceOf, instance, tasks[..0])
  {
  }

  lemma TakeOneMore(tasks: seq<Task>, n: nat, instance: nat)
    requires n < |tasks|
    ensures Filter(OtherThan(instance), tasks[..n + 1])
         == Filter(OtherThan(instance), tasks[..n]) + if tasks[n].instance == instance then [] else [tasks[n]]
    ensures Select(InstanceOf, instance, tasks[..n + 1])
         == Select(InstanceOf, instance, tasks[..n]) + if tasks[n].instance == instance then [tasks[n]] else []
  {
    assert tasks[..n + 1] == tasks[..n] + [tasks[n]];
    FilterAppend(OtherThan(instance), tasks[..n], [tasks[n]]);
    SelectAppend(InstanceOf, instance, tasks[..n], [tasks[n]]);
  }

  // ---- the class -----------------------------------------------------------------------------------

  class Queue {
    const id: nat
    const name: string
    var dynamic: bool
    var concurrency: nat
    var size: nat
    var runningTasks: nat
    var prioQueue: seq<Task>
    var queue: seq<Task>
    var cancelledTasks: seq<Task>
    var scheduler: Discipline
    var removed: bool

    /** The counter is the length of the container in use; the other one is empty. */
    ghost predicate Valid()
      reads this
    {
      && (scheduler == Fifo ==> prioQueue == [] && size == |queue|)
      && (scheduler == Prio ==> queue == [] && size == |prioQueue|)
      && runningTasks < WORD
    }

    ghost function State(): QueueState
      reads this
    {
      QueueState(concurrency, scheduler, if scheduler == Fifo then queue else prioQueue, cancelledTasks,
                 runningTasks, removed, dynamic)
    }

    constructor (id: nat, name: string, concurrency: nat, scheduler: Discipline, dynamic: bool)
      ensures Valid() && this.id == id && this.name == name
      ensures State() == QueueState(concurrency, scheduler, [], [], 0, false, dynamic)
    {
      this.id, this.name, this.concurrency, this.scheduler, this.dynamic := id, name, concurrency, scheduler, dynamic;
      size, runningTasks := 0, 0;
      prioQueue, queue, cancelledTasks := [], [], [];
      removed := false;
    }

    method EnqueueTask(task: Task)
      requires Valid()
      modifies this
      ensures Valid() && State() == old(State()).Enqueue(task)
    {
      if scheduler == Fifo {
        queue := queue + [task];
      } else {
        prioQueue := Insert(InstanceOf, prioQueue, task);
      }
      size := size + 1;
    }

    predicate IsLocked()
      reads this
    {
      if |cancelledTasks| != 0 then false
      else if size > 0 && runningTasks < concurrency then false
      else true
    }

    method DequeueTask() returns (task: Option<Task>)
      requires Valid()
      modifies this
      ensures Valid() && IsLocked() == State().Locked()
      ensures old(State().Locked()) ==> task == None && State() == old(State())
      ensures !old(State().Locked()) ==> task == Some(old(State().Next())) && State() == old(State().Dequeue())
      ensures var q := old(State());
              if q.cancelled != [] then
                task == Some(q.cancelled[0]) && State() == q.(cancelled := q.cancelled[1..])
              else if q.waiting != [] && q.running < q.concurrency then
                task == Some(q.waiting[0]) && State() == q.(waiting := q.waiting[1..])
              else task == None
    {
      if IsLocked() {
        return None;
      }
      if |cancelledTasks| != 0 {
        task := Some(cancelledTasks[0]);
        cancelledTasks := cancelledTasks[1..];
      } else {
        if scheduler == Fifo {
          task := Some(queue[0]);
          queue := queue[1..];
        } else {
          task := Some(prioQueue[0]);
          prioQueue := prioQueue[1..];
        }
        size := size - 1;
      }
    }

    method ExecuteTask()
      requires Valid()
      modifies this
      ensures Valid() && State() == old(State()).Execute()
    {
      runningTasks := (runningTasks + 1) % WORD;
    }

    method TerminateTask()
      requires Valid()
      modifies this
      ensures Valid() && State() == old(State()).Terminate()
    {
      runningTasks := if runningTasks == 0 then WORD - 1 else runningTasks - 1;
    }

    method CancelTasks(instance: nat)
      requires Valid()
      modifies this
      ensures Valid() && State() == old(State()).Cancel(instance)
    {
      var kept, moved := TakeInstance(if scheduler == Fifo then queue else prioQueue, instance);
      cancelledTasks := cancelledTasks + moved;
      size := size - |moved|;
      if scheduler == Fifo {
        queue := kept;
      } else {
        prioQueue := kept;
      }
    }

    /** Erase the tasks of one instance from a container, and return them in order. */
    method TakeInstance(tasks: seq<Task>, instance: nat) returns (kept: seq<Task>, moved: seq<Task>)
      ensures kept == Filter(OtherThan(instance), tasks) && moved == Select(InstanceOf, instance, tasks)
      ensures |kept| + |moved| == |tasks|
    {
      TakeNone(tasks, instance);
      hide Filter, Select;
      kept, moved := tasks, [];
      var it := 0;
      ghost var seen, done := 0, [];
      while it < |kept|
        invariant seen <= |tasks| && it == |done|
        invariant kept == done + tasks[seen..]
        invariant done == Filter(OtherThan(instance), tasks[..seen])
        invariant moved == Select(InstanceOf, instance, tasks[..seen])
        invariant |kept| + |moved| == |tasks|
        decreases |tasks| - seen
      {
        TakeOneMore(tasks, seen, instance);
        assert tasks[seen..] == [tasks[seen]] + tasks[seen + 1..];
        if kept[it].instance == instance {
          moved := moved + [kept[it]];
          kept := kept[..it] + kept[it + 1..];
        } else {
          it, done := it + 1, done + [kept[it]];
        }
        seen := seen + 1;
      }
      assert tasks[..seen] == tasks;
    }

    method SetConcurrency(concurrency: nat)
      requires Valid()
      modifies this
      ensures Valid() && State() == old(State()).(concurrency := concurrency, removed := false)
    {
      this.concurrency := concurrency;
      removed := false;
    }

    method SetScheduler(newScheduler: Discipline)
      requires Valid()
      modifies this
      ensures Valid() && State() == old(State()).Migrate(newScheduler)
    {
      if newScheduler == scheduler {
        return;
      }
      ghost var tasks := if scheduler == Fifo then queue else prioQueue;
      if newScheduler == Fifo {
        for i := 0 to |prioQueue|
          invariant prioQueue == tasks && queue == tasks[..i] && scheduler == Prio
          invariant unchanged(`size, `runningTasks, `cancelledTasks, `concurrency, `removed, `dynamic)
        {
          queue := queue + [prioQueue[i]];
        }
        prioQueue := [];
      } else {
        for i := 0 to |queue|
          invariant queue == tasks && prioQueue == InsertAll(InstanceOf, [], tasks[..i]) && scheduler == Fifo
          invariant |prioQueue| == i
          invariant unchanged(`size, `runningTasks, `cancelledTasks, `concurrency, `removed, `dynamic)
        {
          assert tasks[..i + 1][..i] == tasks[..i];
          prioQueue := Insert(InstanceOf, prioQueue, queue[i]);
        }
        assert tasks[..|tasks|] == tasks;
        queue := [];
      }
      scheduler := newScheduler;
    }

    method Remove()
      requires Valid()
      modifies this
      ensures Valid() && State() == old(State()).(removed := true)
    {
      removed := true;
    }
  }
}
