/**
 The selection array of a schedule and the search over its levels (src/Schedule/Schedule.cpp): from the
 current time, the next value of each of second, minute, hour, day and month, with a carry between levels.
 */
module ScheduleLevels {
  const LEVEL_SEC := 0
  const LEVEL_MIN := 1
  const LEVEL_HOUR := 2
  const LEVEL_DAY := 3
  const LEVEL_MONTH := 4
  const LEVEL_WDAY := 5
  const LENGTH := 194

  type Selection = s: seq<bool> | |s| == LENGTH witness seq(LENGTH, _ => true)

  function LevelLength(level: nat): (r: nat)
    requires level <= LEVEL_WDAY
  {
    if level == LEVEL_SEC then 60
    else if level == LEVEL_MIN then 60
    else if level == LEVEL_HOUR then 24
    else if level == LEVEL_DAY then 31
    else if level == LEVEL_MONTH then 12
    else 7
  }

  function LevelOffset(level: nat): (r: nat)
    requires level <= LEVEL_WDAY
    ensures r + LevelLength(level) <= LENGTH
  {
    if level == LEVEL_SEC then 0
    else if level == LEVEL_MIN then 60
    else if level == LEVEL_HOUR then 120
    else if level == LEVEL_DAY then 144
    else if level == LEVEL_MONTH then 175
    else 187
  }

  /** Whether value j of a level is selected. */
  predicate Selected(s: Selection, level: nat, j: nat)
    requires level <= LEVEL_WDAY
  {
    j < LevelLength(level) && s[LevelOffset(level) + j]
  }

  ghost predicate NonEmpty(s: Selection, level: nat)
    requires level <= LEVEL_WDAY
  {
    exists j :: Selected(s, level, j)
  }

  ghost predicate AllNonEmpty(s: Selection) {
    forall level :: 0 <= level <= LEVEL_WDAY ==> NonEmpty(s, level)
  }

  /** One value for each level from second to month. */
  type Digits = d: seq<nat> | |d| == LEVEL_WDAY witness [0, 0, 0, 0, 0]

  predicate InRange(d: Digits) {
    forall k :: 0 <= k < LEVEL_WDAY ==> d[k] < LevelLength(k)
  }

  // ---- what one level yields -----------------------------------------------------------------

  /** The least selected value of a level from j on, or the length of the level. */
  function NextSelected(s: Selection, level: nat, j: nat): (r: nat)
    requires level <= LEVEL_WDAY && j <= LevelLength(level)
    ensures j <= r <= LevelLength(level)
    ensures r < LevelLength(level) ==> Selected(s, level, r)
    ensures forall k :: j <= k < r ==> !Selected(s, level, k)
    decreases LevelLength(level) - j
  {
    if j == LevelLength(level) || Selected(s, level, j) then j else NextSelected(s, level, j + 1)
  }

  /** The current values of all levels from `level` to month are selected. */
  ghost predicate ValidFrom(s: Selection, now: Digits, level: nat) {
    forall k :: level <= k < LEVEL_WDAY ==> Selected(s, k, now[k])
  }

  /** The value chosen at a level and the carry into the next one. */
  ghost function Pick(s: Selection, now: Digits, level: nat): (r: (nat, nat))
    requires level <= LEVEL_MONTH && InRange(now)
    ensures r.1 <= 1
    decreases level, 1
  {
    if ValidFrom(s, now, level + 1) then
      var next := NextSelected(s, level, now[level] + Carry(s, now, level));
      if next < LevelLength(level) then (next, 0) else (NextSelected(s, level, 0), 1)
    else
      (NextSelected(s, level, 0), 0)
  }

  /** The carry into a level. */
  ghost function Carry(s: Selection, now: Digits, level: nat): (r: nat)
    requires level <= LEVEL_WDAY && InRange(now)
    ensures r <= 1
    decreases level, 0
  {
    if level == 0 then 0 else Pick(s, now, level - 1).1
  }

  ghost function First(s: Selection, now: Digits): (r: Digits)
    requires InRange(now)
  {
    [Pick(s, now, 0).0, Pick(s, now, 1).0, Pick(s, now, 2).0, Pick(s, now, 3).0, Pick(s, now, 4).0]
  }

  // ---- the loops of get_next_time ------------------------------------------------------------

  /** Place i of a turn round a level of n values that starts at `start`. */
  function Around(start: nat, i: nat, n: nat): (r: nat)
    requires start <= n && i < n
    ensures r < n && r == (start + i) % n
  {
    if start + i < n then start + i else TurnRemainder(start + i, n); start + i - n
  }

  lemma TurnRemainder(k: nat, n: nat)
    requires 0 < n <= k < 2 * n
    ensures k % n == k - n
  {
  }

  /** Whether the current values of all later levels are selected. */
  method NextLevelsValid(schedule: array<bool>, now: array<nat>, level: nat) returns (valid: bool)
    requires schedule.Length == LENGTH && now.Length == LEVEL_WDAY && InRange(now[..]) && level <= LEVEL_MONTH
    ensures valid == ValidFrom(schedule[..], now[..], level + 1)
  {
    for k := level + 1 to LEVEL_WDAY
      invariant forall k' :: level + 1 <= k' < k ==> Selected(schedule[..], k', now[k'])
    {
      assert now[..][k] == now[k];
      if !schedule[LevelOffset(k) + now[k]] {
        return false;
      }
    }
    return true;
  }

  /** The first selected value in a turn round a level: the least from `start` on, or else the least. */
  method SearchLevel(schedule: array<bool>, level: nat, start: nat) returns (j: nat)
    requires schedule.Length == LENGTH && level <= LEVEL_MONTH
    requires start <= LevelLength(level) && NonEmpty(schedule[..], level)
    ensures var next := NextSelected(schedule[..], level, start);
            if next < LevelLength(level) then j == next
            else j == NextSelected(schedule[..], level, 0) && j < start
  {
    var offset, length := LevelOffset(level), LevelLength(level);
    ghost var place := TurnVisits(schedule[..], level, start);
    for i := 0 to length
      invariant forall k :: 0 <= k < i ==> !Selected(schedule[..], level, Around(start, k, length))
    {
      j := Around(start, i, length);
      if schedule[offset + j] {
        TurnFinds(schedule[..], level, start, i);
        return;
      }
    }
    assert false;
  }

  /** A turn round a level passes a selected value. */
  lemma TurnVisits(s: Selection, level: nat, start: nat) returns (i: nat)
    requires level <= LEVEL_WDAY && start <= LevelLength(level) && NonEmpty(s, level)
    ensures i < LevelLength(level) && Selected(s, level, Around(start, i, LevelLength(level)))
  {
    var v: nat :| Selected(s, level, v);
    i := if start <= v then v - start else LevelLength(level) + v - start;
  }

  lemma TurnFinds(s: Selection, level: nat, start: nat, i: nat)
    requires level <= LEVEL_WDAY && start <= LevelLength(level) && i < LevelLength(level)
    requires Selected(s, level, Around(start, i, LevelLength(level)))
    requires forall k :: 0 <= k < i ==> !Selected(s, level, Around(start, k, LevelLength(level)))
    ensures var next := NextSelected(s, level, start);
            var j := Around(start, i, LevelLength(level));
            if next < LevelLength(level) then j == next
            else j == NextSelected(s, level, 0) && j < start
  {
    var n := LevelLength(level);
    var next, least := NextSelected(s, level, start), NextSelected(s, level, 0);
    if next < n {
      assert Around(start, next - start, n) == next;
    } else {
      assert start + i >= n;
      assert least <= start + i - n;
      assert Around(start, n + least - start, n) == least;
    }
  }

  /** The loop over the levels. */
  method FirstDigits(schedule: array<bool>, now: array<nat>) returns (first: array<nat>, carry: nat)
    requires schedule.Length == LENGTH && AllNonEmpty(schedule[..])
    requires now.Length == LEVEL_WDAY && InRange(now[..])
    ensures first.Length == LEVEL_WDAY && fresh(first)
    ensures first[..] == First(schedule[..], now[..]) && carry == Carry(schedule[..], now[..], LEVEL_WDAY)
  {
    hide Pick, Carry, NextSelected, First;
    ghost var s, n := schedule[..], now[..];
    NoCarry(s, n);
    first := new nat[LEVEL_WDAY];
    carry := 0;
    for level := 0 to LEVEL_WDAY
      invariant schedule[..] == s && now[..] == n
      invariant carry == Carry(s, n, level)
      invariant forall k :: 0 <= k < level ==> first[k] == Pick(s, n, k).0
    {
      var nextLevelsValid := NextLevelsValid(schedule, now, level);
      var start := if nextLevelsValid then now[level] + carry else 0;
      assert NonEmpty(s, level) && n[level] == now[level];
      var j := SearchLevel(schedule, level, start);
      first[level] := j;
      carry := if nextLevelsValid && j < start then 1 else 0;
      PickIs(s, n, level, start, j);
    }
    FirstIs(s, n);
  }

  lemma NoCarry(s: Selection, now: Digits)
    requires InRange(now)
    ensures Carry(s, now, 0) == 0
  {
  }

  lemma PickIs(s: Selection, now: Digits, level: nat, start: nat, j: nat)
    requires level <= LEVEL_MONTH && InRange(now)
    requires start == if ValidFrom(s, now, level + 1) then now[level] + Carry(s, now, level) else 0
    requires NonEmpty(s, level)
    requires var next := NextSelected(s, level, start);
             if next < LevelLength(level) then j == next else j == NextSelected(s, level, 0) && j < start
    ensures Pick(s, now, level).0 == j
    ensures Carry(s, now, level + 1) == if ValidFrom(s, now, level + 1) && j < start then 1 else 0
  {
  }

  lemma FirstIs(s: Selection, now: Digits)
    requires InRange(now)
    ensures forall k :: 0 <= k < LEVEL_WDAY ==> First(s, now)[k] == Pick(s, now, k).0
  {
    hide Pick;
  }

  // ---- what the loops compute ----------------------------------------------------------------

  /** The first `n` values in order, the highest level first. */
  predicate LexLeq(d: Digits, e: Digits, n: nat)
    requires n <= LEVEL_WDAY
  {
    n == 0 || d[n - 1] < e[n - 1] || (d[n - 1] == e[n - 1] && LexLeq(d, e, n - 1))
  }

  ghost predicate SelectedBelow(s: Selection, d: Digits, n: nat)
    requires n <= LEVEL_WDAY
  {
    forall k :: 0 <= k < n ==> Selected(s, k, d[k])
  }

  /** `first` is the least selected value below level n that is not before `now`. */
  ghost predicate LeastFrom(s: Selection, now: Digits, first: Digits, n: nat)
    requires n <= LEVEL_WDAY
  {
    SelectedBelow(s, first, n) && LexLeq(now, first, n) &&
    forall d: Digits :: SelectedBelow(s, d, n) && LexLeq(now, d, n) ==> LexLeq(first, d, n)
  }

  ghost predicate Least(s: Selection, first: Digits, n: nat)
    requires n <= LEVEL_WDAY
  {
    SelectedBelow(s, first, n) && forall d: Digits :: SelectedBelow(s, d, n) ==> LexLeq(first, d, n)
  }

  /** No selected value below level n is at or after `now`. */
  ghost predicate NoneFrom(s: Selection, now: Digits, n: nat)
    requires n <= LEVEL_WDAY
  {
    forall d: Digits :: SelectedBelow(s, d, n) ==> !LexLeq(now, d, n)
  }

  /**
   Below level n: without a carry the choice is the least selected value from now on; with a carry there is
   none and the choice is the least of all; and the least of all when a later level has to move anyway.
   */
  ghost predicate LevelsDone(s: Selection, now: Digits, first: Digits, n: nat)
    requires n <= LEVEL_WDAY && InRange(now)
  {
    if !ValidFrom(s, now, n) then Least(s, first, n) && Carry(s, now, n) == 0
    else if Carry(s, now, n) == 0 then LeastFrom(s, now, first, n)
    else Least(s, first, n) && NoneFrom(s, now, n)
  }

  lemma OneLevel(s: Selection, now: Digits, first: Digits, n: nat)
    requires n < LEVEL_WDAY && InRange(now) && NonEmpty(s, n)
    requires LevelsDone(s, now, first, n) && first[n] == Pick(s, now, n).0
    ensures LevelsDone(s, now, first, n + 1)
  {
    var m, carry := n + 1, Carry(s, now, n);
    var least := NextSelected(s, n, 0);
    assert least < LevelLength(n);
    if ValidFrom(s, now, n + 1) {
      assert ValidFrom(s, now, n) <==> Selected(s, n, now[n]);
      var next := NextSelected(s, n, now[n] + carry);
      if next < LevelLength(n) {
        assert SelectedBelow(s, first, n + 1) && LexLeq(now, first, n + 1);
        forall d: Digits | SelectedBelow(s, d, m) && LexLeq(now, d, m)
          ensures LexLeq(first, d, m)
        {
          assert SelectedBelow(s, d, n) && Selected(s, n, d[n]);
        }
      } else {
        forall d: Digits | SelectedBelow(s, d, m)
          ensures LexLeq(first, d, m) && !LexLeq(now, d, m)
        {
          assert SelectedBelow(s, d, n) && Selected(s, n, d[n]);
        }
      }
    } else {
      forall d: Digits | SelectedBelow(s, d, m)
        ensures LexLeq(first, d, m)
      {
        assert SelectedBelow(s, d, n) && Selected(s, n, d[n]);
      }
    }
  }

  lemma {:induction false} LevelsLeast(s: Selection, now: Digits, n: nat)
    requires n <= LEVEL_WDAY && InRange(now) && AllNonEmpty(s)
    ensures LevelsDone(s, now, First(s, now), n)
  {
    if n > 0 {
      LevelsLeast(s, now, n - 1);
      FirstIs(s, now);
      assert NonEmpty(s, n - 1);
      OneLevel(s, now, First(s, now), n - 1);
    }
  }

  /** Order of values with a year before them. */
  predicate YearLexLeq(y: nat, d: Digits, y': nat, d': Digits) {
    y < y' || (y == y' && LexLeq(d, d', LEVEL_WDAY))
  }

  /** The year carry with the values chosen is the least selected combination that is not before now. */
  lemma FirstIsLeast(s: Selection, now: Digits)
    requires InRange(now) && AllNonEmpty(s)
    ensures var first, carry := First(s, now), Carry(s, now, LEVEL_WDAY);
            && SelectedBelow(s, first, LEVEL_WDAY) && YearLexLeq(0, now, carry, first)
            && forall y: nat, d: Digits :: SelectedBelow(s, d, LEVEL_WDAY) && YearLexLeq(0, now, y, d)
                 ==> YearLexLeq(carry, first, y, d)
  {
    LevelsLeast(s, now, LEVEL_WDAY);
    assert ValidFrom(s, now, LEVEL_WDAY);
  }
}
