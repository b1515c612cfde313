/** The election of a cluster node (src/Cluster/UniqueAction.cpp) as it runs against the table. */
module UniqueAction {
  import opened Election

  /** The part of the database an election touches. */
  class Database {
    var rows: map<nat, Row>
    var nextId: nat
    var now: int

    constructor ()
      ensures View() == INITIAL.table
    {
      rows, nextId, now := map[], 1, 0;
    }

    function View(): Table
      reads this
    {
      Table(rows, nextId, now)
    }

    method Insert(name: string) returns (id: nat)
      modifies this
      ensures View() == AddRow(old(View()), name) && id == old(nextId)
    {
      id := nextId;
      rows := rows[id := Row(name, now)];
      nextId := nextId + 1;
    }

    /** The ids of the rows of the name that are not out of the period, in whatever order the database has them. */
    method Select(name: string, period: int) returns (ids: seq<nat>)
      ensures forall id :: id in ids <==>
                id in rows && rows[id].name == name && !(period > 0 && rows[id].time + period <= now)
    {
      ids := [];
      var left := rows.Keys;
      while left != {}
        invariant left <= rows.Keys
        invariant forall id :: id in ids <==>
                    id !in left && id in rows && rows[id].name == name && !(period > 0 && rows[id].time + period <= now)
        decreases left
      {
        var id :| id in left;
        if rows[id].name == name && (period > 0 ==> rows[id].time + period > now) {
          ids := ids + [id];
        }
        left := left - {id};
      }
    }

    method Delete(id: nat)
      modifies this
      ensures View() == RemoveRows(old(View()), {id})
    {
      rows := rows - {id};
    }
  }

  /** The walk over the selected ids. */
  method IsLeast(ids: seq<nat>, myId: nat) returns (isElected: bool)
    ensures isElected <==> forall id :: id in ids ==> myId <= id
  {
    isElected := true;
    var i := 0;
    while i < |ids|
      invariant 0 <= i <= |ids| && isElected
      invariant forall j :: 0 <= j < i ==> myId <= ids[j]
    {
      if ids[i] < myId {
        assert ids[i] in ids;
        isElected := false;
        break;
      }
      i := i + 1;
    }
  }

  class UniqueAction {
    var isElected: bool
    var myId: nat

    /** The insert. */
    constructor Begin(db: Database, name: string)
      modifies db
      ensures db.View() == AddRow(old(db.View()), name) && myId == old(db.nextId) && !isElected
    {
      isElected := false;
      myId := 0;
      new;
      myId := db.Insert(name);
    }

    /** The select and the decision: it falls for the node if and only if all older rows are out of the period. */
    method Check(db: Database, name: string, period: int)
      modifies this
      ensures isElected <==>
                forall id :: id in db.rows && id < myId && db.rows[id].name == name ==>
                  period > 0 && db.rows[id].time + period <= db.now
      ensures myId == old(myId)
    {
      var ids := db.Select(name, period);
      isElected := IsLeast(ids, myId);
    }

    /** The delete, for who has lost. */
    method Withdraw(db: Database)
      modifies db
      ensures db.View() == if isElected then old(db.View()) else RemoveRows(old(db.View()), {myId})
    {
      if !isElected {
        db.Delete(myId);
      }
    }

    /**
     The whole election with no other node in between: a node wins and leaves its row if every row of the name is out of
     the period; any other node leaves the rows as they were.
     */
    constructor (db: Database, name: string, period: int)
      requires forall id :: id in db.rows ==> id < db.nextId
      modifies db
      ensures isElected <==>
                forall id :: id in old(db.rows) && old(db.rows)[id].name == name ==>
                  period > 0 && old(db.rows)[id].time + period <= old(db.now)
      ensures db.rows == if isElected then old(db.rows)[myId := Row(name, db.now)] else old(db.rows)
      ensures myId == old(db.nextId) && db.nextId == myId + 1 && db.now == old(db.now)
    {
      isElected := false;
      myId := 0;
      new;
      myId := db.Insert(name);
      var ids := db.Select(name, period);
      isElected := IsLeast(ids, myId);
      assert forall id: nat :: id in ids && id < myId <==>
               id in old(db.rows) && old(db.rows)[id].name == name
               && !(period > 0 && old(db.rows)[id].time + period <= db.now);
      if !isElected {
        db.Delete(myId);
        assert db.rows == old(db.rows);
      }
    }
  }

  lemma OlderRows(t: Table, name: string, period: int, myId: nat)
    ensures OlderVisible(t, name, period, myId)
       <==> !forall id :: id in t.rows && id < myId && t.rows[id].name == name ==>
               period > 0 && t.rows[id].time + period <= t.now
  {
    if id :| id in t.rows && id < myId && t.rows[id].name == name
             && !(period > 0 && t.rows[id].time + period <= t.now) {
      assert Visible(t, name, period, id);
    }
  }

  /** A check of the object, against the table of a state, is the check of the state machine. */
  method CheckInRun(c: Config, ghost s: State, action: UniqueAction, id: nat, db: Database, name: string)
    returns (ghost s': State)
    requires action.myId == id && Enabled(c, s, Action.Check(id)) && s.attempts[id].name == name
    requires db.View() == s.table
    modifies action
    ensures s' == Step(c, s, Action.Check(id)) && db.View() == s'.table && action.myId == id
    ensures s'.attempts[id].phase == if action.isElected then Elected(s.table.now) else Refused
  {
    OlderRows(s.table, name, c.period(name), id);
    action.Check(db, name, c.period(name));
    s' := Step(c, s, Action.Check(id));
  }
}
