/** The event scheduler (src/Schedule/Scheduler.cpp): a linked list of events in the order of their times. */
module Scheduler {
  import opened StableOrder

  class Event {
    const scheduledAt: int
    const what: nat
    var nextEvent: Event?

    constructor (scheduledAt: int, what: nat)
      ensures this.scheduledAt == scheduledAt && this.what == what
    {
      this.scheduledAt, this.what := scheduledAt, what;
      nextEvent := null;
    }
  }

  function TimeOf(e: Event): int { e.scheduledAt }

  /** What a flush removes: what the filter matches, or everything. */
  function Chosen(useFilter: bool, matches: nat -> bool): nat -> bool { (what: nat) => !useFilter || matches(what) }

  function DueAt(t: int): Event -> bool { (e: Event) => e.scheduledAt <= t }

  function NotDueAt(t: int): Event -> bool { (e: Event) => e.scheduledAt > t }

  /** The events a flush leaves in the list. */
  function Spared(matches: nat -> bool): Event -> bool { (e: Event) => !matches(e.what) }

  function Flushed(matches: nat -> bool): Event -> bool { (e: Event) => matches(e.what) }

  ghost predicate Distinct(es: seq<Event>) {
    forall i, j :: 0 <= i < j < |es| ==> es[i] != es[j]
  }

  /** What place i of a list holds; nothing behind its end. */
  ghost function Place(es: seq<Event>, i: nat): Event? { if i < |es| then es[i] else null }

  /** The chain from `first` is exactly the sequence. */
  ghost predicate Chain(first: Event?, es: seq<Event>)
    reads es
  {
    first == Place(es, 0) && forall i :: 0 <= i < |es| ==> Linked(es, i)
  }

  ghost predicate Linked(es: seq<Event>, i: nat)
    requires i < |es|
    reads es[i]
  {
    es[i].nextEvent == Place(es, i + 1)
  }

  lemma HeadOf(first: Event?, es: seq<Event>)
    requires Chain(first, es)
    ensures first == Place(es, 0)
  {
  }

  lemma {:induction false} AllDue(t: int, es: seq<Event>)
    requires forall e :: e in es ==> e.scheduledAt <= t
    ensures Filter(DueAt(t), es) == es && Filter(NotDueAt(t), es) == []
  {
    if es != [] { AllDue(t, es[1..]); }
  }

  lemma {:induction false} NoneDue(t: int, es: seq<Event>)
    requires Sorted(TimeOf, es) && (es != [] ==> es[0].scheduledAt > t)
    ensures Filter(DueAt(t), es) == [] && Filter(NotDueAt(t), es) == es
  {
    if es != [] { NoneDue(t, es[1..]); }
  }

  /** Whatever splits the list at the time is the split into what is due and what is not. */
  lemma DueSplit(t: int, due: seq<Event>, rest: seq<Event>)
    requires (forall e :: e in due ==> e.scheduledAt <= t)
    requires Sorted(TimeOf, rest) && (rest == [] || rest[0].scheduledAt > t)
    ensures Filter(DueAt(t), due + rest) == due && Filter(NotDueAt(t), due + rest) == rest
  {
    hide Filter, Sorted;
    AllDue(t, due);
    NoneDue(t, rest);
    FilterAppend(DueAt(t), due, rest);
    FilterAppend(NotDueAt(t), due, rest);
  }

  /** Where a walk stands that has kept some events and has the rest from k on before it. */
  lemma CurrentOf(kept: seq<Event>, es: seq<Event>, k: nat)
    requires k < |es|
    ensures var all := kept + es[k..];
            |kept| < |all| && all[|kept|] == es[k] && Place(all, |kept| + 1) == Place(es, k + 1)
            && all[..|kept|] + all[|kept| + 1..] == kept + es[k + 1..] && all == kept + [es[k]] + es[k + 1..]
            && (kept != [] ==> all[|kept| - 1] == kept[|kept| - 1])
  {
  }

  lemma ChosenIs(useFilter: bool, matches: nat -> bool, what: nat)
    ensures Chosen(useFilter, matches)(what) == (!useFilter || matches(what))
  {
  }

  lemma KeepCurrent(kept: seq<Event>, es: seq<Event>, k: nat)
    requires k < |es|
    ensures kept + es[k..] == kept + [es[k]] + es[k + 1..]
  {
  }

  lemma FilterNone(matches: nat -> bool, es: seq<Event>)
    ensures Filter(Spared(matches), es[..0]) == [] == Filter(Flushed(matches), es[..0])
  {
  }

  lemma FilterOneMore(matches: nat -> bool, es: seq<Event>, k: nat)
    requires k < |es|
    ensures Filter(Spared(matches), es[..k + 1])
         == Filter(Spared(matches), es[..k]) + if matches(es[k].what) then [] else [es[k]]
    ensures Filter(Flushed(matches), es[..k + 1])
         == Filter(Flushed(matches), es[..k]) + if matches(es[k].what) then [es[k]] else []
  {
    assert es[..k + 1] == es[..k] + [es[k]];
    FilterAppend(Spared(matches), es[..k], [es[k]]);
    FilterAppend(Flushed(matches), es[..k], [es[k]]);
  }

  lemma ChainTail(first: Event, es: seq<Event>)
    requires Chain(first, es)
    ensures es != [] && Chain(first.nextEvent, es[1..])
  {
    assert Linked(es, 0);
    forall i | 0 <= i < |es[1..]|
      ensures Linked(es[1..], i)
    {
      assert Linked(es, i + 1);
    }
  }

  class Scheduler {
    var numberOfEvents: nat
    var firstEvent: Event?
    var isShuttingDown: bool
    var threadIsRunning: bool
    /** sleep_cond has been notified. */
    var notified: bool
    ghost var events: seq<Event>

    /** The list is finite, without cycles, in the order of time, and its length is known. */
    ghost predicate Valid()
      reads this, events
    {
      && ListValid() && Sorted(TimeOf, events)
      && numberOfEvents == |events|
    }

    constructor ()
      ensures Valid() && events == [] && !isShuttingDown && !threadIsRunning && !notified
    {
      numberOfEvents, firstEvent := 0, null;
      isShuttingDown, threadIsRunning, notified := false, false, false;
      events := [];
    }

    // ---- the links -----------------------------------------------------------------------------

    ghost predicate ListValid()
      reads `firstEvent, `events, events
    {
      Chain(firstEvent, events) && Distinct(events)
    }

    method LinkFirst(newEvent: Event)
      requires ListValid() && newEvent !in events
      modifies `firstEvent, `events, newEvent`nextEvent
      ensures ListValid() && events == [newEvent] + old(events)
    {
      newEvent.nextEvent := firstEvent;
      firstEvent := newEvent;
      ghost var es := events;
      events := [newEvent] + events;
      forall i | 0 <= i < |events|
        ensures Linked(events, i)
      {
        if i > 0 { assert old(Linked(es, i - 1)); }
      }
    }

    method LinkBehind(currEvent: Event, newEvent: Event, ghost k: nat)
      requires ListValid() && newEvent !in events && 0 < k <= |events| && currEvent == events[k - 1]
      modifies `events, newEvent`nextEvent, currEvent`nextEvent
      ensures ListValid() && events == old(events[..k] + [newEvent] + events[k..])
    {
      assert Linked(events, k - 1);
      newEvent.nextEvent := currEvent.nextEvent;
      currEvent.nextEvent := newEvent;
      ghost var es := events;
      events := events[..k] + [newEvent] + events[k..];
      forall i | 0 <= i < |events|
        ensures Linked(events, i)
      {
        if i < k {
          assert old(Linked(es, i));
        } else if i > k {
          assert old(Linked(es, i - 1));
        }
      }
    }

    /** Take event k out of the chain, given the one before it, or null if it is the first. */
    method Unlink(prev: Event?, curr: Event, ghost k: nat)
      requires ListValid() && k < |events| && curr == events[k] && prev == if k == 0 then null else events[k - 1]
      modifies `firstEvent, `events, (if prev == null then {} else {prev})
      ensures ListValid() && events == old(events[..k] + events[k + 1..])
    {
      assert Linked(events, k);
      if prev == null {
        firstEvent := curr.nextEvent;
      } else {
        prev.nextEvent := curr.nextEvent;
      }
      ghost var es := events;
      events := events[..k] + events[k + 1..];
      forall i | 0 <= i < |events|
        ensures Linked(events, i)
      {
        if i < k {
          assert old(Linked(es, i));
        } else {
          assert old(Linked(es, i + 1));
        }
      }
    }

    /** The last event that is not later than a time, given that the first is not later. */
    method FindPlace(at: int) returns (currEvent: Event, ghost k: nat)
      requires ListValid() && events != [] && events[0].scheduledAt <= at
      ensures 0 < k <= |events| && currEvent == events[k - 1]
      ensures (forall i :: 0 <= i < k ==> events[i].scheduledAt <= at) && (k < |events| ==> at < events[k].scheduledAt)
    {
      currEvent, k := firstEvent, 1;
      assert Linked(events, 0);
      while currEvent.nextEvent != null && at >= currEvent.nextEvent.scheduledAt
        invariant 0 < k <= |events| && currEvent == events[k - 1] && Linked(events, k - 1)
        invariant forall i :: 0 <= i < k ==> events[i].scheduledAt <= at
        decreases |events| - k
      {
        assert Linked(events, k);
        currEvent := currEvent.nextEvent;
        k := k + 1;
      }
    }

    // ---- the calls -----------------------------------------------------------------------------

    /** Insert an event, start the worker for the first one, wake it for one that comes sooner. */
    method InsertEvent(newEvent: Event) returns (started: bool)
      requires Valid() && newEvent !in events
      modifies this, newEvent, events
      ensures Valid() && events == Insert(TimeOf, old(events), newEvent)
      ensures started == (old(events) == [] && !old(threadIsRunning))
      ensures threadIsRunning == (old(threadIsRunning) || old(events) == [])
      ensures notified == (old(notified) || (old(events) != [] && newEvent.scheduledAt < old(events)[0].scheduledAt))
      ensures isShuttingDown == old(isShuttingDown)
    {
      hide Chain, Distinct, Sorted, Insert;
      started := false;
      var wakeUpRetryThread := false;
      ghost var k := 0;
      HeadOf(firstEvent, events);
      if firstEvent == null {
        LinkFirst(newEvent);
        numberOfEvents := 0;
        if !threadIsRunning {
          threadIsRunning := true;
          started := true;
        }
      } else if newEvent.scheduledAt < firstEvent.scheduledAt {
        LinkFirst(newEvent);
        wakeUpRetryThread := true;
      } else {
        var currEvent;
        currEvent, k := FindPlace(newEvent.scheduledAt);
        LinkBehind(currEvent, newEvent, k);
      }
      assert events == old(events)[..k] + [newEvent] + old(events)[k..];
      InsertAt(TimeOf, old(events), newEvent, k);
      InsertSorted(TimeOf, old(events), newEvent);
      numberOfEvents := numberOfEvents + 1;
      if wakeUpRetryThread {
        notified := true;
      }
    }

    /** Take the first event if it is due. */
    method ShiftEvent(currTime: int) returns (event: Event?)
      requires Valid()
      modifies `numberOfEvents, `firstEvent, `events
      ensures Valid()
      ensures if old(events) != [] && old(events)[0].scheduledAt <= currTime
              then event == old(events)[0] && events == old(events)[1..]
              else event == null && events == old(events)
    {
      if firstEvent != null && firstEvent.scheduledAt <= currTime {
        event := firstEvent;
        ChainTail(firstEvent, events);
        firstEvent := firstEvent.nextEvent;
        numberOfEvents := numberOfEvents - 1;
        events := events[1..];
      } else {
        event := null;
      }
    }

    static lemma ChosenSplit(useFilter: bool, matches: nat -> bool, es: seq<Event>)
      ensures forall e :: e in es ==>
                && (e in Filter(Spared(Chosen(useFilter, matches)), es) <==> useFilter && !matches(e.what))
                && (e in Filter(Flushed(Chosen(useFilter, matches)), es) <==> !useFilter || matches(e.what))
    {
      forall e | e in es
        ensures e in Filter(Spared(Chosen(useFilter, matches)), es) <==> useFilter && !matches(e.what)
        ensures e in Filter(Flushed(Chosen(useFilter, matches)), es) <==> !useFilter || matches(e.what)
      {
        FilterExactly(Spared(Chosen(useFilter, matches)), es, e);
        FilterExactly(Flushed(Chosen(useFilter, matches)), es, e);
      }
    }

    /** Remove the matching events, or all; the removed ones are handed on in order. */
    method Flush(useFilter: bool, matches: nat -> bool) returns (removed: seq<Event>)
      requires Valid()
      modifies this, events
      ensures Valid()
      ensures events == Filter(Spared(Chosen(useFilter, matches)), old(events))
      ensures removed == Filter(Flushed(Chosen(useFilter, matches)), old(events))
      ensures forall e :: e in old(events) ==>
                (e in events <==> useFilter && !matches(e.what)) && (e in removed <==> !useFilter || matches(e.what))
      ensures notified == (old(notified) || (old(events) != [] && (!useFilter || matches(old(events)[0].what))))
      ensures threadIsRunning == old(threadIsRunning) && isShuttingDown == old(isShuttingDown)
    {
      hide ListValid, Sorted;
      removed := [];
      if numberOfEvents == 0 {
        return;
      }
      var wakeUpRetryThread;
      removed, wakeUpRetryThread := RemoveMatching(useFilter, matches);
      FilterSorted(TimeOf, Spared(Chosen(useFilter, matches)), old(events));
      ChosenSplit(useFilter, matches, old(events));
      if wakeUpRetryThread {
        notified := true;
      }
    }

    /** The step of the walk that removes the current event. */
    method DropCurrent(prev: Event?, cur: Event, ghost kept: seq<Event>, ghost es: seq<Event>, ghost k: nat)
      requires ListValid() && k < |es| && events == kept + es[k..] && cur == es[k]
      requires prev == if kept == [] then null else kept[|kept| - 1]
      modifies `firstEvent, `events, (if prev == null then {} else {prev})
      ensures ListValid() && events == kept + es[k + 1..]
    {
      hide ListValid;
      CurrentOf(kept, es, k);
      Unlink(prev, cur, |kept|);
    }

    lemma NextOfCurrent(kept: seq<Event>, es: seq<Event>, k: nat)
      requires ListValid() && k < |es| && events == kept + es[k..]
      ensures es[k].nextEvent == Place(es, k + 1)
    {
      CurrentOf(kept, es, k);
      NextIs(|kept|);
    }

    method RemoveMatching(useFilter: bool, matches: nat -> bool) returns (removed: seq<Event>, firstRemoved: bool)
      requires ListValid() && numberOfEvents == |events|
      modifies `firstEvent, `numberOfEvents, `events, events
      ensures ListValid() && numberOfEvents == |events|
      ensures events == Filter(Spared(Chosen(useFilter, matches)), old(events))
      ensures removed == Filter(Flushed(Chosen(useFilter, matches)), old(events))
      ensures firstRemoved == (old(events) != [] && Chosen(useFilter, matches)(old(events)[0].what))
    {
      hide ListValid, Filter, Chosen, Spared, Flushed;
      ghost var es, m := events, Chosen(useFilter, matches);
      ghost var kept, k := [], 0;
      removed, firstRemoved := [], false;
      FilterNone(m, es);
      var prev: Event?, cur := null, firstEvent;
      HeadIs();
      while cur != null
        invariant k <= |es| && cur == Place(es, k)
        invariant kept == Filter(Spared(m), es[..k]) && removed == Filter(Flushed(m), es[..k])
        invariant events == kept + es[k..] && ListValid() && numberOfEvents == |events|
        invariant prev == (if kept == [] then null else kept[|kept| - 1]) && (prev != null ==> prev in es)
        invariant firstRemoved == (k > 0 && m(es[0].what)) && (prev == null && k > 0 ==> firstRemoved)
        decreases |es| - k
      {
        FilterOneMore(m, es, k);
        ChosenIs(useFilter, matches, cur.what);
        NextOfCurrent(kept, es, k);
        var next := cur.nextEvent;
        if !useFilter || matches(cur.what) {
          if prev == null {
            firstRemoved := true;
          }
          DropCurrent(prev, cur, kept, es, k);
          removed := removed + [cur];
          numberOfEvents := numberOfEvents - 1;
        } else {
          KeepCurrent(kept, es, k);
          prev, kept := cur, kept + [cur];
        }
        cur := next;
        k := k + 1;
      }
      assert es[..k] == es;
    }

    /** The worker's loop over ShiftEvent, when no other thread comes between: all that is due, in order. */
    method Drain(currTime: int) returns (due: seq<Event>)
      requires Valid()
      modifies `numberOfEvents, `firstEvent, `events
      ensures Valid() && old(events) == due + events
      ensures due == Filter(DueAt(currTime), old(events)) && events == Filter(NotDueAt(currTime), old(events))
    {
      hide Valid, Filter;
      ghost var es := events;
      due := [];
      var event := ShiftEvent(currTime);
      assert es == if event == null then due + events else due + [event] + events;
      while event != null
        invariant Valid() && es == (if event == null then due + events else due + [event] + events)
        invariant event == null ==> events == [] || events[0].scheduledAt > currTime
        invariant forall e :: e in due ==> e.scheduledAt <= currTime
        invariant event != null ==> event.scheduledAt <= currTime
        decreases |es| - |due|
      {
        ghost var rest := events;
        due := due + [event];
        event := ShiftEvent(currTime);
        assert event != null ==> rest == [event] + events;
      }
      InOrder();
      DueSplit(currTime, due, events);
    }

    lemma InOrder()
      requires Valid()
      ensures Sorted(TimeOf, events)
    {
    }

    lemma HeadIs()
      requires ListValid()
      ensures firstEvent == Place(events, 0)
    {
    }

    lemma NextIs(k: nat)
      requires ListValid() && k < |events|
      ensures events[k].nextEvent == Place(events, k + 1)
    {
      assert Linked(events, k);
    }

    method Shutdown()
      requires Valid()
      modifies `isShuttingDown, `notified
      ensures Valid() && isShuttingDown && notified == (old(notified) || events != [])
    {
      isShuttingDown := true;
      if numberOfEvents > 0 {
        notified := true;
      }
    }
  }
}
