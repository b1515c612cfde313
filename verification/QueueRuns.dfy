/** What every run of a queue's operations keeps, and what a change of discipline does. */
module QueueRuns {
  import opened StableOrder
  import opened Queue

  datatype Op = Enqueue(t: Task) | Dequeue | Cancel(id: nat) | Migrate(d: Discipline)
              | SetConcurrency(n: nat) | Execute | Terminate

  /** A queue with what has entered it and what has left it so far. */
  datatype History = History(q: QueueState, entered: seq<Task>, left: seq<Task>)

  function Step(h: History, op: Op): History {
    match op
    case Enqueue(t) => h.(q := h.q.Enqueue(t), entered := h.entered + [t])
    case Dequeue => if h.q.Locked() then h else h.(q := h.q.Dequeue(), left := h.left + [h.q.Next()])
    case Cancel(id) => h.(q := h.q.Cancel(id))
    case Migrate(d) => h.(q := h.q.Migrate(d))
    case SetConcurrency(n) => h.(q := h.q.(concurrency := n, removed := false))
    case Execute => h.(q := h.q.Execute())
    case Terminate => h.(q := h.q.Terminate())
  }

  function Run(h: History, ops: seq<Op>): History {
    if ops == [] then h else Step(Run(h, ops[..|ops| - 1]), ops[|ops| - 1])
  }

  /** All that has left, then the cancelled tasks, then the waiting ones. */
  function InOrder(h: History): seq<Task> { h.left + h.q.cancelled + h.q.waiting }

  /** For every workflow instance: what entered is what left, is cancelled or waits, in the order it entered. */
  ghost predicate OrderKept(h: History) {
    h.q.WellFormed() && forall k :: Select(InstanceOf, k, InOrder(h)) == Select(InstanceOf, k, h.entered)
  }

  lemma SelectInOrder(h: History, k: int)
    ensures Select(InstanceOf, k, InOrder(h))
         == Select(InstanceOf, k, h.left) + Select(InstanceOf, k, h.q.cancelled) + Select(InstanceOf, k, h.q.waiting)
  {
    hide Select;
    SelectAppend(InstanceOf, k, h.left + h.q.cancelled, h.q.waiting);
    SelectAppend(InstanceOf, k, h.left, h.q.cancelled);
  }

  /** The waiting tasks of other instances keep their order, those of the cancelled one are gone. */
  lemma {:induction false} SelectFilter(id: nat, k: int, s: seq<Task>)
    ensures Select(InstanceOf, k, Filter(OtherThan(id), s)) == if k == id then [] else Select(InstanceOf, k, s)
  {
    if s != [] {
      SelectFilter(id, k, s[1..]);
      if s[0].instance != id {
        assert (([s[0]] + Filter(OtherThan(id), s[1..]))[1..]) == Filter(OtherThan(id), s[1..]);
      }
    }
  }

  lemma {:induction false} SelectSelect(id: int, k: int, s: seq<Task>)
    ensures Select(InstanceOf, k, Select(InstanceOf, id, s)) == if k == id then Select(InstanceOf, k, s) else []
  {
    if s != [] {
      SelectSelect(id, k, s[1..]);
      assert ([s[0]] + Select(InstanceOf, id, s[1..]))[1..] == Select(InstanceOf, id, s[1..]);
    }
  }

  lemma EnqueueSelects(q: QueueState, t: Task, k: int)
    requires q.WellFormed()
    ensures Select(InstanceOf, k, q.Enqueue(t).waiting) == Select(InstanceOf, k, q.waiting) + Select(InstanceOf, k, [t])
  {
    if q.discipline == Fifo {
      SelectAppend(InstanceOf, k, q.waiting, [t]);
    } else {
      InsertStable(InstanceOf, q.waiting, t, k);
    }
  }

  lemma MigrateSelects(q: QueueState, d: Discipline, k: int)
    requires q.WellFormed()
    ensures Select(InstanceOf, k, q.Migrate(d).waiting) == Select(InstanceOf, k, q.waiting)
  {
    if q.discipline == Fifo && d == Prio {
      InsertAllStable(InstanceOf, [], q.waiting, k);
    }
  }

  lemma StepWellFormed(h: History, op: Op)
    requires h.q.WellFormed()
    ensures Step(h, op).q.WellFormed()
  {
    match op
    case Enqueue(t) => if h.q.discipline == Prio { InsertSorted(InstanceOf, h.q.waiting, t); }
    case Cancel(id) => if h.q.discipline == Prio { FilterSorted(InstanceOf, OtherThan(id), h.q.waiting); }
    case Migrate(d) => if h.q.discipline == Fifo { InsertAllSorted(InstanceOf, [], h.q.waiting); }
    case Dequeue =>
    case SetConcurrency(_) =>
    case Execute =>
    case Terminate =>
  }

  lemma StepKeepsOrder(h: History, op: Op, k: int)
    requires h.q.WellFormed() && Select(InstanceOf, k, InOrder(h)) == Select(InstanceOf, k, h.entered)
    ensures Select(InstanceOf, k, InOrder(Step(h, op))) == Select(InstanceOf, k, Step(h, op).entered)
  {
    hide Select, Filter, InsertAll, Insert, InOrder;
    SelectInOrder(h, k);
    SelectInOrder(Step(h, op), k);
    match op
    case Enqueue(t) =>
      EnqueueSelects(h.q, t, k);
      SelectAppend(InstanceOf, k, h.entered, [t]);
    case Dequeue =>
      if !h.q.Locked() { DequeueSelects(h, k); }
    case Cancel(id) =>
      CancelSelects(h.q, id, k);
      var c, w := Select(InstanceOf, k, h.q.cancelled), Select(InstanceOf, k, h.q.waiting);
      assert Select(InstanceOf, k, h.left) + c + w == Select(InstanceOf, k, h.left) + (c + w);
    case Migrate(d) =>
      MigrateSelects(h.q, d, k);
    case SetConcurrency(_) =>
    case Execute =>
    case Terminate =>
  }

  /** A task that leaves moves from the front of what is in the queue to the end of what has left. */
  lemma DequeueSelects(h: History, k: int)
    requires !h.q.Locked()
    ensures Select(InstanceOf, k, InOrder(Step(h, Dequeue))) == Select(InstanceOf, k, InOrder(h))
  {
    hide Select;
    assert InOrder(Step(h, Dequeue)) == InOrder(h);
  }

  lemma CancelSelects(q: QueueState, id: nat, k: int)
    ensures Select(InstanceOf, k, q.Cancel(id).cancelled) + Select(InstanceOf, k, q.Cancel(id).waiting)
         == Select(InstanceOf, k, q.cancelled) + Select(InstanceOf, k, q.waiting)
  {
    hide Select, Filter;
    SelectFilter(id, k, q.waiting);
    SelectSelect(id, k, q.waiting);
    SelectAppend(InstanceOf, k, q.cancelled, Select(InstanceOf, id, q.waiting));
  }

  /** No run loses, duplicates or reorders the tasks of any workflow instance, cancelled or not. */
  lemma {:induction false} RunKeepsOrder(h: History, ops: seq<Op>)
    requires OrderKept(h)
    ensures OrderKept(Run(h, ops))
  {
    if ops != [] {
      var g := Run(h, ops[..|ops| - 1]);
      RunKeepsOrder(h, ops[..|ops| - 1]);
      StepWellFormed(g, ops[|ops| - 1]);
      forall k
        ensures Select(InstanceOf, k, InOrder(Run(h, ops))) == Select(InstanceOf, k, Run(h, ops).entered)
      {
        StepKeepsOrder(g, ops[|ops| - 1], k);
      }
    }
  }

  /** Nothing is lost and nothing is duplicated. */
  lemma RunConserves(h: History, ops: seq<Op>)
    requires OrderKept(h)
    ensures var h' := Run(h, ops);
            multiset(h'.entered) == multiset(h'.left) + multiset(h'.q.cancelled) + multiset(h'.q.waiting)
  {
    RunKeepsOrder(h, ops);
    SelectsDecide(InstanceOf, InOrder(Run(h, ops)), Run(h, ops).entered);
  }

  // ---- changing the discipline ---------------------------------------------------------------------

  function EnqueueAll(q: QueueState, ts: seq<Task>): QueueState {
    if ts == [] then q else EnqueueAll(q, ts[..|ts| - 1]).Enqueue(ts[|ts| - 1])
  }

  lemma {:induction false} EnqueueAllIs(q: QueueState, ts: seq<Task>)
    ensures EnqueueAll(q, ts)
         == q.(waiting := if q.discipline == Fifo then q.waiting + ts else InsertAll(InstanceOf, q.waiting, ts))
  {
    if ts == [] {
      assert q.waiting + ts == q.waiting;
    } else {
      EnqueueAllIs(q, ts[..|ts| - 1]);
      assert q.waiting + ts == q.waiting + ts[..|ts| - 1] + [ts[|ts| - 1]];
    }
  }

  /** A queue that turns from FIFO to PRIO is the one it would be had it turned before the tasks came. */
  lemma MigrateCommutes(q: QueueState, ts: seq<Task>)
    requires q.discipline == Fifo
    ensures EnqueueAll(q, ts).Migrate(Prio) == EnqueueAll(q.Migrate(Prio), ts)
  {
    EnqueueAllIs(q, ts);
    EnqueueAllIs(q.Migrate(Prio), ts);
    InsertAllAppend(InstanceOf, [], q.waiting, ts);
  }

  /** After it, the tasks wait in their one stable order by instance. */
  lemma MigrateSorts(q: QueueState, r: seq<Task>)
    requires q.discipline == Fifo
    ensures IsStableSort(InstanceOf, q.waiting, q.Migrate(Prio).waiting)
    ensures IsStableSort(InstanceOf, q.waiting, r) ==> r == q.Migrate(Prio).waiting
  {
    InsertAllIsStableSort(InstanceOf, q.waiting);
    if IsStableSort(InstanceOf, q.waiting, r) {
      StableSortUnique(InstanceOf, r, q.Migrate(Prio).waiting);
    }
  }

  /** Turning a PRIO queue to FIFO and back leaves it as it was. */
  lemma MigrateBack(q: QueueState)
    requires q.discipline == Prio && q.WellFormed()
    ensures q.Migrate(Fifo).Migrate(Prio) == q
  {
    MigrateSorts(q.Migrate(Fifo), q.waiting);
  }

  // ---- who is served when --------------------------------------------------------------------------

  /** A task enters a queue in one place: behind all, or behind those of its own instance and lower ones. */
  lemma EnqueuePlaces(q: QueueState, t: Task) returns (k: nat)
    requires q.WellFormed()
    ensures k <= |q.waiting| && q.Enqueue(t) == q.(waiting := q.waiting[..k] + [t] + q.waiting[k..])
    ensures q.discipline == Fifo ==> k == |q.waiting|
    ensures q.discipline == Prio ==>
              && (forall i :: 0 <= i < k ==> q.waiting[i].instance <= t.instance)
              && (forall i :: k <= i < |q.waiting| ==> t.instance < q.waiting[i].instance)
  {
    k := |q.waiting|;
    if q.discipline == Prio {
      k := 0;
      while k < |q.waiting| && q.waiting[k].instance <= t.instance
        invariant k <= |q.waiting| && forall i :: 0 <= i < k ==> q.waiting[i].instance <= t.instance
      {
        k := k + 1;
      }
      InsertAt(InstanceOf, q.waiting, t, k);
    }
  }

  /** A cancellation takes exactly the tasks of its instance out, and keeps them behind those cancelled before. */
  lemma CancelExactly(q: QueueState, id: nat) returns (moved: seq<Task>)
    ensures q.Cancel(id) == q.(waiting := q.Cancel(id).waiting, cancelled := q.cancelled + moved)
    ensures forall t :: t in moved ==> t.instance == id
    ensures forall t :: t in q.Cancel(id).waiting ==> t.instance != id
    ensures multiset(q.Cancel(id).waiting) + multiset(moved) == multiset(q.waiting)
  {
    moved := Select(InstanceOf, id, q.waiting);
    SelectMembers(InstanceOf, id, q.waiting);
    FilterMembers(OtherThan(id), q.waiting);
    forall k
      ensures Select(InstanceOf, k, q.Cancel(id).waiting + moved) == Select(InstanceOf, k, q.waiting)
    {
      SelectFilter(id, k, q.waiting);
      SelectSelect(id, k, q.waiting);
      SelectAppend(InstanceOf, k, q.Cancel(id).waiting, moved);
    }
    SelectsDecide(InstanceOf, q.Cancel(id).waiting + moved, q.waiting);
  }

  /** With priorities, and no cancelled tasks, a task of the lowest instance leaves. */
  lemma LowestLeaves(q: QueueState)
    requires q.WellFormed() && q.discipline == Prio && !q.Locked() && q.cancelled == []
    ensures forall t :: t in q.waiting ==> q.Next().instance <= t.instance
    ensures multiset(q.waiting) == multiset{q.Next()} + multiset(q.Dequeue().waiting)
  {
    assert q.waiting == [q.Next()] + q.Dequeue().waiting;
  }

  function NotIn(ids: set<nat>): Task -> bool { (t: Task) => t.instance !in ids }

  /** The operations of a first-come queue that cancel no other instances than these. */
  predicate Calm(ops: seq<Op>, ids: set<nat>) {
    forall k :: 0 <= k < |ops| ==> (ops[k].Migrate? ==> ops[k].d == Fifo) && (ops[k].Cancel? ==> ops[k].id in ids)
  }

  /** The tasks of other instances that have left or wait, in this order, are those that entered, in the same order. */
  ghost predicate ServedAsCome(h: History, ids: set<nat>) {
    && h.q.discipline == Fifo && (forall t :: t in h.q.cancelled ==> t.instance in ids)
    && Filter(NotIn(ids), h.left + h.q.waiting) == Filter(NotIn(ids), h.entered)
  }

  /** Over every run of a first-come queue: the tasks that nobody cancels leave it in the order in which they came. */
  lemma {:induction false} RunServesAsCome(h: History, ops: seq<Op>, ids: set<nat>)
    requires ServedAsCome(h, ids) && Calm(ops, ids)
    ensures ServedAsCome(Run(h, ops), ids)
  {
    if ops != [] {
      var g, op := Run(h, ops[..|ops| - 1]), ops[|ops| - 1];
      RunServesAsCome(h, ops[..|ops| - 1], ids);
      hide ServedAsCome;
      match op
      case Enqueue(t) => EnqueueServes(g, t, ids);
      case Dequeue => DequeueServes(g, ids);
      case Cancel(id) => CancelServes(g, id, ids);
      case Migrate(_) => StayServes(g, op, ids);
      case SetConcurrency(_) => StayServes(g, op, ids);
      case Execute => StayServes(g, op, ids);
      case Terminate => StayServes(g, op, ids);
    }
  }

  lemma EnqueueServes(h: History, t: Task, ids: set<nat>)
    requires ServedAsCome(h, ids)
    ensures ServedAsCome(Step(h, Enqueue(t)), ids)
  {
    FilterAppend(NotIn(ids), h.left + h.q.waiting, [t]);
    FilterAppend(NotIn(ids), h.entered, [t]);
    assert h.left + (h.q.waiting + [t]) == h.left + h.q.waiting + [t];
  }

  lemma DequeueServes(h: History, ids: set<nat>)
    requires ServedAsCome(h, ids)
    ensures ServedAsCome(Step(h, Dequeue), ids)
  {
    if !h.q.Locked() {
      var t := h.q.Next();
      if h.q.cancelled != [] {
        assert t in h.q.cancelled;
        FilterAppend(NotIn(ids), h.left, h.q.waiting);
        FilterAppend(NotIn(ids), h.left + [t], h.q.waiting);
        FilterAppend(NotIn(ids), h.left, [t]);
        assert Filter(NotIn(ids), [t]) == [];
      } else {
        assert h.left + [t] + h.q.waiting[1..] == h.left + h.q.waiting;
      }
    }
  }

  lemma {:induction false} FilterTwice(id: nat, ids: set<nat>, s: seq<Task>)
    requires id in ids
    ensures Filter(NotIn(ids), Filter(OtherThan(id), s)) == Filter(NotIn(ids), s)
  {
    if s != [] {
      FilterTwice(id, ids, s[1..]);
      if s[0].instance != id {
        assert ([s[0]] + Filter(OtherThan(id), s[1..]))[1..] == Filter(OtherThan(id), s[1..]);
      }
    }
  }

  lemma CancelServes(h: History, id: nat, ids: set<nat>)
    requires ServedAsCome(h, ids) && id in ids
    ensures ServedAsCome(Step(h, Cancel(id)), ids)
  {
    SelectMembers(InstanceOf, id, h.q.waiting);
    FilterTwice(id, ids, h.q.waiting);
    FilterAppend(NotIn(ids), h.left, h.q.waiting);
    FilterAppend(NotIn(ids), h.left, Filter(OtherThan(id), h.q.waiting));
  }

  lemma StayServes(h: History, op: Op, ids: set<nat>)
    requires ServedAsCome(h, ids) && (op.SetConcurrency? || op.Execute? || op.Terminate? || op == Migrate(Fifo))
    ensures ServedAsCome(Step(h, op), ids)
  {
  }
}
