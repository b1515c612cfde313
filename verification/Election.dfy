/**
 The cluster election of src/Cluster/UniqueAction.cpp over one table, as a state machine: any number of attempts, each
 an insert, a select and perhaps a delete, between which anything may happen; and the purge of old rows.
 */
module Election {
  datatype Row = Row(name: string, time: int)

  /** t_uniqueaction: the id of the next row, the rows by id, and the clock of the database. */
  datatype Table = Table(rows: map<nat, Row>, nextId: nat, now: int)

  function AddRow(t: Table, name: string): Table {
    t.(rows := t.rows[t.nextId := Row(name, t.now)], nextId := t.nextId + 1)
  }

  /** A row that the select returns. A period that is not positive is no limit. */
  predicate Visible(t: Table, name: string, period: int, id: nat) {
    id in t.rows && t.rows[id].name == name && (period > 0 ==> t.rows[id].time + period > t.now)
  }

  ghost predicate OlderVisible(t: Table, name: string, period: int, myId: nat) {
    exists id: nat :: id < myId && Visible(t, name, period, id)
  }

  function RemoveRows(t: Table, ids: set<nat>): Table { t.(rows := t.rows - ids) }

  /** The state of an attempt; a refused one has its row to delete. */
  datatype Phase = Inserted | Elected(checkedAt: int) | Refused | Withdrawn

  datatype Attempt = Attempt(name: string, insertedAt: int, phase: Phase)

  datatype State = State(table: Table, attempts: map<nat, Attempt>)

  /** The period that goes with a name, and how long the collector keeps a row, in seconds. */
  datatype Config = Config(period: string -> int, retention: nat)

  datatype Action =
    | Insert(name: string) | Check(id: nat) | Delete(id: nat) | Tick(elapsed: nat)
    | Purge(cut: int, ids: set<nat>)

  predicate Enabled(c: Config, s: State, a: Action) {
    match a
    case Insert(_) => true
    case Check(id) => id in s.attempts && s.attempts[id].phase == Inserted
    case Delete(id) => id in s.attempts && s.attempts[id].phase == Refused
    case Tick(_) => true
    case Purge(cut, ids) =>
      cut <= s.table.now - c.retention && forall id :: id in ids ==> id in s.table.rows && s.table.rows[id].time <= cut
  }

  ghost function Step(c: Config, s: State, a: Action): State
    requires Enabled(c, s, a)
  {
    match a
    case Insert(name) =>
      State(AddRow(s.table, name), s.attempts[s.table.nextId := Attempt(name, s.table.now, Inserted)])
    case Check(id) =>
      var t := s.attempts[id];
      var phase := if OlderVisible(s.table, t.name, c.period(t.name), id) then Refused else Elected(s.table.now);
      s.(attempts := s.attempts[id := t.(phase := phase)])
    case Delete(id) =>
      State(RemoveRows(s.table, {id}), s.attempts[id := s.attempts[id].(phase := Withdrawn)])
    case Tick(elapsed) => s.(table := s.table.(now := s.table.now + elapsed))
    case Purge(_, ids) => s.(table := RemoveRows(s.table, ids))
  }

  ghost predicate IsRun(c: Config, s: State, actions: seq<Action>)
    decreases |actions|
  {
    actions == [] || (Enabled(c, s, actions[0]) && IsRun(c, Step(c, s, actions[0]), actions[1..]))
  }

  ghost function Run(c: Config, s: State, actions: seq<Action>): State
    requires IsRun(c, s, actions)
    decreases |actions|
  {
    if actions == [] then s else Run(c, Step(c, s, actions[0]), actions[1..])
  }

  const INITIAL := State(Table(map[], 1, 0), map[])

  /** For how long after its row was written an attempt that stands keeps younger ones from winning. */
  function Hold(c: Config, name: string): int {
    if 0 < c.period(name) <= c.retention then c.period(name) else c.retention
  }

  // ---- what every step keeps -----------------------------------------------------------------------

  ghost predicate TableInv(c: Config, s: State) {
    && (forall id :: id in s.table.rows ==>
          id in s.attempts && s.table.rows[id] == Row(s.attempts[id].name, s.attempts[id].insertedAt))
    && (forall id :: id in s.attempts ==> id < s.table.nextId && AttemptInv(c, s.table, id, s.attempts[id]))
  }

  predicate AttemptInv(c: Config, t: Table, id: nat, a: Attempt) {
    && a.insertedAt <= t.now
    && (a.phase.Elected? ==> a.insertedAt <= a.phase.checkedAt <= t.now)
    && (a.phase != Withdrawn ==> id in t.rows || a.insertedAt + c.retention <= t.now)
    && (a.phase == Withdrawn ==> id !in t.rows)
  }

  /** An attempt that stands holds off every younger winner. */
  ghost predicate HoldsOff(c: Config, s: State) {
    forall a, b :: a in s.attempts && b in s.attempts && a < b && s.attempts[a].name == s.attempts[b].name
      && s.attempts[a].phase != Withdrawn && s.attempts[b].phase.Elected?
      ==> s.attempts[b].phase.checkedAt >= s.attempts[a].insertedAt + Hold(c, s.attempts[a].name)
  }

  /** Who has lost is not the first of its name. */
  ghost predicate LosersHaveElders(s: State) {
    forall b :: b in s.attempts && (s.attempts[b].phase == Refused || s.attempts[b].phase == Withdrawn)
      ==> HasElder(s, b)
  }

  ghost predicate HasElder(s: State, b: nat)
    requires b in s.attempts
  {
    exists a :: a in s.attempts && a < b && s.attempts[a].name == s.attempts[b].name
  }

  ghost predicate Inv(c: Config, s: State) { TableInv(c, s) && HoldsOff(c, s) && LosersHaveElders(s) }

  /** If no older row is visible, each older attempt that stands is out of its time. */
  lemma NotVisible(c: Config, s: State, a: nat, b: nat)
    requires TableInv(c, s) && a in s.attempts && a < b && s.attempts[a].phase != Withdrawn
    requires !OlderVisible(s.table, s.attempts[a].name, c.period(s.attempts[a].name), b)
    ensures s.table.now >= s.attempts[a].insertedAt + Hold(c, s.attempts[a].name)
  {
    assert !Visible(s.table, s.attempts[a].name, c.period(s.attempts[a].name), a);
  }

  lemma ElderStays(s: State, s': State, b: nat)
    requires b in s.attempts && b in s'.attempts && s'.attempts[b].name == s.attempts[b].name && HasElder(s, b)
    requires forall a :: a in s.attempts ==> a in s'.attempts && s'.attempts[a].name == s.attempts[a].name
    ensures HasElder(s', b)
  {
    var a :| a in s.attempts && a < b && s.attempts[a].name == s.attempts[b].name;
    assert a in s'.attempts;
  }

  lemma StepKeepsTable(c: Config, s: State, a: Action)
    requires TableInv(c, s) && Enabled(c, s, a)
    ensures TableInv(c, Step(c, s, a)) && s.table.now <= Step(c, s, a).table.now
  {
    hide OlderVisible;
  }

  lemma StepKeepsHold(c: Config, s: State, action: Action)
    requires TableInv(c, s) && HoldsOff(c, s) && Enabled(c, s, action)
    ensures HoldsOff(c, Step(c, s, action))
  {
    hide OlderVisible, Hold;
    var s' := Step(c, s, action);
    forall a, b | a in s'.attempts && b in s'.attempts && a < b && s'.attempts[a].name == s'.attempts[b].name
                  && s'.attempts[a].phase != Withdrawn && s'.attempts[b].phase.Elected?
      ensures s'.attempts[b].phase.checkedAt >= s'.attempts[a].insertedAt + Hold(c, s'.attempts[a].name)
    {
      if action == Check(b) { NotVisible(c, s, a, b); }
    }
  }

  lemma StepKeepsElders(c: Config, s: State, action: Action)
    requires TableInv(c, s) && LosersHaveElders(s) && Enabled(c, s, action)
    ensures LosersHaveElders(Step(c, s, action))
  {
    hide OlderVisible, HasElder;
    var s' := Step(c, s, action);
    forall b | b in s'.attempts && (s'.attempts[b].phase == Refused || s'.attempts[b].phase == Withdrawn)
      ensures HasElder(s', b)
    {
      if action == Check(b) { SeenIsElder(c, s, b); }
      ElderStays(s, s', b);
    }
  }

  lemma SeenIsElder(c: Config, s: State, b: nat)
    requires TableInv(c, s) && b in s.attempts
    requires OlderVisible(s.table, s.attempts[b].name, c.period(s.attempts[b].name), b)
    ensures HasElder(s, b)
  {
  }

  lemma StepKeepsInv(c: Config, s: State, a: Action)
    requires Inv(c, s) && Enabled(c, s, a)
    ensures Inv(c, Step(c, s, a)) && s.table.now <= Step(c, s, a).table.now
  {
    hide TableInv, HoldsOff, LosersHaveElders;
    StepKeepsTable(c, s, a);
    StepKeepsHold(c, s, a);
    StepKeepsElders(c, s, a);
  }

  lemma {:induction false} RunKeepsInv(c: Config, s: State, actions: seq<Action>)
    requires IsRun(c, s, actions) && Inv(c, s)
    ensures Inv(c, Run(c, s, actions))
    decreases |actions|
  {
    if actions != [] {
      StepKeepsInv(c, s, actions[0]);
      RunKeepsInv(c, Step(c, s, actions[0]), actions[1..]);
    }
  }

  // ---- over all interleavings ----------------------------------------------------------------------

  ghost predicate Winner(s: State, name: string, id: nat) {
    id in s.attempts && s.attempts[id].name == name && s.attempts[id].phase.Elected?
  }

  /** The younger of two winners checked no sooner than the hold after the row of the older one. */
  lemma WinnersApart(c: Config, actions: seq<Action>, name: string, a: nat, b: nat)
    requires IsRun(c, INITIAL, actions) && a < b
    requires var s := Run(c, INITIAL, actions); Winner(s, name, a) && Winner(s, name, b)
    ensures var s := Run(c, INITIAL, actions);
            s.attempts[b].phase.checkedAt >= s.attempts[a].insertedAt + Hold(c, name)
  {
    RunKeepsInv(c, INITIAL, actions);
  }

  predicate FirstOf(s: State, name: string, id: nat) {
    id in s.attempts && s.attempts[id].name == name
    && forall a :: a in s.attempts && s.attempts[a].name == name ==> id <= a
  }

  /** The first attempt of a name wins if it gets to check, whenever that is. */
  lemma FirstWins(c: Config, actions: seq<Action>, name: string, id: nat)
    requires IsRun(c, INITIAL, actions)
    requires FirstOf(Run(c, INITIAL, actions), name, id)
    ensures Run(c, INITIAL, actions).attempts[id].phase.Inserted? || Winner(Run(c, INITIAL, actions), name, id)
  {
    RunKeepsInv(c, INITIAL, actions);
    assert !HasElder(Run(c, INITIAL, actions), id);
  }

  predicate NoPurge(actions: seq<Action>) { forall i :: 0 <= i < |actions| ==> !actions[i].Purge? }

  /** Without a purge the retention does not matter. */
  lemma {:induction false} AnyRetention(c: Config, s: State, actions: seq<Action>, retention: nat)
    requires IsRun(c, s, actions) && NoPurge(actions)
    ensures IsRun(c.(retention := retention), s, actions)
    ensures Run(c.(retention := retention), s, actions) == Run(c, s, actions)
    decreases |actions|
  {
    if actions != [] {
      var c' := c.(retention := retention);
      assert !actions[0].Purge?;
      assert Enabled(c', s, actions[0]) && Step(c', s, actions[0]) == Step(c, s, actions[0]);
      AnyRetention(c, Step(c, s, actions[0]), actions[1..], retention);
    }
  }

  /** With no period and no purge there is never a second winner. */
  lemma OneWinnerEver(c: Config, actions: seq<Action>, name: string, a: nat, b: nat)
    requires IsRun(c, INITIAL, actions) && NoPurge(actions) && c.period(name) <= 0
    requires var s := Run(c, INITIAL, actions); Winner(s, name, a) && Winner(s, name, b)
    ensures a == b
  {
    var s := Run(c, INITIAL, actions);
    RunKeepsInv(c, INITIAL, actions);
    var first, second := if a < b then a else b, if a < b then b else a;
    var retention: nat := s.table.now - s.attempts[first].insertedAt + 1;
    AnyRetention(c, INITIAL, actions, retention);
    if a != b {
      WinnersApart(c.(retention := retention), actions, name, first, second);
    }
  }

  /** Two winners of one name are a period apart; if there is no period there are no two winners. */
  ghost predicate Separate(c: Config, s: State, name: string) {
    forall a, b :: a < b && Winner(s, name, a) && Winner(s, name, b) ==>
      c.period(name) > 0 && s.attempts[b].phase.checkedAt >= s.attempts[a].insertedAt + c.period(name)
  }

  /** The run in which the collector takes the winner's row as soon as it may. */
  function PurgedWinner(c: Config, name: string): seq<Action> {
    [Insert(name), Check(1), Tick(c.retention), Purge(0, {1}), Insert(name), Check(2)]
  }

  ghost predicate Reaches(c: Config, actions: seq<Action>, s: State) {
    IsRun(c, INITIAL, actions) && Run(c, INITIAL, actions) == s
  }

  lemma Start(c: Config)
    ensures Reaches(c, [], INITIAL)
  {
  }

  lemma Extend(c: Config, actions: seq<Action>, s: State, a: Action) returns (actions': seq<Action>, s': State)
    requires Reaches(c, actions, s) && Enabled(c, s, a)
    ensures actions' == actions + [a] && s' == Step(c, s, a) && Reaches(c, actions', s')
  {
    OneMore(c, INITIAL, actions, a);
    actions', s' := actions + [a], Step(c, s, a);
  }

  lemma {:induction false} OneMore(c: Config, s: State, actions: seq<Action>, a: Action)
    requires IsRun(c, s, actions) && Enabled(c, Run(c, s, actions), a)
    ensures IsRun(c, s, actions + [a]) && Run(c, s, actions + [a]) == Step(c, Run(c, s, actions), a)
    decreases |actions|
  {
    if actions == [] {
      assert [] + [a] == [a];
      assert Run(c, Step(c, s, a), []) == Step(c, s, a);
    } else {
      OneMore(c, Step(c, s, actions[0]), actions[1..], a);
      assert (actions + [a])[1..] == actions[1..] + [a];
    }
  }

  lemma PurgeBringsSecond(c: Config, name: string) returns (s: State)
    ensures Reaches(c, PurgedWinner(c, name), s)
    ensures Winner(s, name, 1) && Winner(s, name, 2)
    ensures s.attempts[2].phase.checkedAt == s.attempts[1].insertedAt + c.retention
  {
    hide Reaches;
    Start(c);
    var actions;
    actions, s := Extend(c, [], INITIAL, Insert(name));
    assert !OlderVisible(s.table, name, c.period(name), 1);
    actions, s := Extend(c, actions, s, Check(1));
    actions, s := Extend(c, actions, s, Tick(c.retention));
    actions, s := Extend(c, actions, s, Purge(0, {1}));
    actions, s := Extend(c, actions, s, Insert(name));
    assert !OlderVisible(s.table, name, c.period(name), 2);
    actions, s := Extend(c, actions, s, Check(2));
    assert actions == PurgedWinner(c, name);
  }

  /** The elections of a name are apart in every run exactly if its period is positive and rows are kept that long. */
  lemma SeparateExactly(c: Config, name: string)
    ensures (forall actions :: IsRun(c, INITIAL, actions) ==> Separate(c, Run(c, INITIAL, actions), name))
       <==> 0 < c.period(name) <= c.retention
  {
    if 0 < c.period(name) <= c.retention {
      forall actions | IsRun(c, INITIAL, actions)
        ensures Separate(c, Run(c, INITIAL, actions), name)
      {
        forall a, b | a < b && Winner(Run(c, INITIAL, actions), name, a) && Winner(Run(c, INITIAL, actions), name, b)
          ensures var s := Run(c, INITIAL, actions);
                  s.attempts[b].phase.checkedAt >= s.attempts[a].insertedAt + c.period(name)
        {
          WinnersApart(c, actions, name, a, b);
        }
      }
    } else {
      var s := PurgeBringsSecond(c, name);
      var actions := PurgedWinner(c, name);
      assert IsRun(c, INITIAL, actions) && !Separate(c, Run(c, INITIAL, actions), name);
    }
  }

  /** A second attempt loses just before the winner's time is over, and is slow to delete its row. */
  function SlowLoser(name: string, period: nat): seq<Action>
    requires period >= 2
  {
    [Insert(name), Check(1), Tick(period - 1), Insert(name), Check(2), Tick(1), Insert(name), Check(3)]
  }

  /** Then a third attempt, made when the winner's time is over, loses to the loser: safety, but no progress. */
  lemma LoserBlocks(c: Config, name: string) returns (s: State)
    requires c.period(name) >= 2
    ensures Reaches(c, SlowLoser(name, c.period(name)), s)
    ensures s.attempts.Keys == {1, 2, 3} && s.table.now == s.attempts[1].insertedAt + c.period(name)
    ensures s.attempts[3] == Attempt(name, s.table.now, Refused) && forall id :: Winner(s, name, id) <==> id == 1
  {
    hide Reaches;
    var p := c.period(name);
    Start(c);
    var actions;
    actions, s := Extend(c, [], INITIAL, Insert(name));
    assert !OlderVisible(s.table, name, p, 1);
    actions, s := Extend(c, actions, s, Check(1));
    actions, s := Extend(c, actions, s, Tick(p - 1));
    actions, s := Extend(c, actions, s, Insert(name));
    assert Visible(s.table, name, p, 1);
    actions, s := Extend(c, actions, s, Check(2));
    actions, s := Extend(c, actions, s, Tick(1));
    actions, s := Extend(c, actions, s, Insert(name));
    assert Visible(s.table, name, p, 2);
    actions, s := Extend(c, actions, s, Check(3));
    assert actions == SlowLoser(name, p);
  }

  /** All older attempts of the name have won, or lost and gone. */
  ghost predicate EldersSettled(s: State, id: nat)
    requires id in s.attempts
  {
    forall a :: a in s.attempts && a < id && s.attempts[a].name == s.attempts[id].name ==>
      s.attempts[a].phase.Elected? || s.attempts[a].phase == Withdrawn
  }

  /** Its row is there, and not out of the period of its name. */
  predicate HasTime(c: Config, s: State, a: nat)
    requires a in s.attempts
  {
    var t := s.attempts[a];
    a in s.table.rows && (c.period(t.name) > 0 ==> s.table.now < t.insertedAt + c.period(t.name))
  }

  /** Over every interleaving: a check loses exactly to an older attempt of the name whose time is not over. */
  lemma LosesExactly(c: Config, actions: seq<Action>, id: nat)
    requires IsRun(c, INITIAL, actions) && Enabled(c, Run(c, INITIAL, actions), Check(id))
    ensures var s := Run(c, INITIAL, actions);
            Step(c, s, Check(id)).attempts[id].phase == Refused
            <==> exists a :: a in s.attempts && a < id && s.attempts[a].name == s.attempts[id].name && HasTime(c, s, a)
  {
    RunKeepsInv(c, INITIAL, actions);
    var s := Run(c, INITIAL, actions);
    var name := s.attempts[id].name;
    if a :| a in s.attempts && a < id && s.attempts[a].name == name && HasTime(c, s, a) {
      assert Visible(s.table, name, c.period(name), a);
    }
    if OlderVisible(s.table, name, c.period(name), id) {
      var a: nat :| a < id && Visible(s.table, name, c.period(name), a);
      assert HasTime(c, s, a);
    }
  }

  /** Over every interleaving: when the time of every older attempt of the name is over, a check wins. */
  lemma WinsWhenOver(c: Config, actions: seq<Action>, id: nat)
    requires IsRun(c, INITIAL, actions) && Enabled(c, Run(c, INITIAL, actions), Check(id))
    requires var s := Run(c, INITIAL, actions);
             var name := s.attempts[id].name;
             c.period(name) > 0 && forall a :: a in s.attempts && a < id && s.attempts[a].name == name ==>
               s.attempts[a].insertedAt + c.period(name) <= s.table.now
    ensures var s := Run(c, INITIAL, actions);
            Winner(Step(c, s, Check(id)), s.attempts[id].name, id)
  {
    LosesExactly(c, actions, id);
  }

  /**
   Over every interleaving: when no older attempt is under way, a check loses exactly to a winner whose time is not
   over; so a name whose winners' times are over gets a new winner.
   */
  lemma LosesToWinner(c: Config, actions: seq<Action>, id: nat)
    requires IsRun(c, INITIAL, actions) && Enabled(c, Run(c, INITIAL, actions), Check(id))
    requires EldersSettled(Run(c, INITIAL, actions), id)
    ensures var s := Run(c, INITIAL, actions);
            var name := s.attempts[id].name;
            Winner(Step(c, s, Check(id)), name, id)
            <==> !exists a: nat :: a < id && Winner(s, name, a) && HasTime(c, s, a)
  {
    RunKeepsInv(c, INITIAL, actions);
    LosesExactly(c, actions, id);
    var s := Run(c, INITIAL, actions);
    forall a | a in s.attempts && a < id && s.attempts[a].name == s.attempts[id].name && HasTime(c, s, a)
      ensures Winner(s, s.attempts[id].name, a)
    {
      assert AttemptInv(c, s.table, a, s.attempts[a]);
    }
  }
}
