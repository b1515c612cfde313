/** Exactly which schedules always get the earliest matching time from get_next_time. */
module ScheduleEarliest {
  import opened Calendar
  import opened ScheduleLevels
  import opened Schedule

  /** No match is ever passed over. */
  ghost predicate AlwaysEarliest(s: Selection)
    requires Accepted(s)
  {
    forall n: nat, t: nat :: n <= t && Matches(s, t) ==> NextTime(s, n) <= t
  }

  // ---- what can be read off the selection ------------------------------------------------------

  function FebruaryDays(leap: bool): nat { if leap then 29 else 28 }

  /** The last second of a day is selected, whatever its month. */
  predicate LastSecondOf(s: Selection, day: nat) {
    Selected(s, LEVEL_DAY, day) && Selected(s, LEVEL_HOUR, 23) && Selected(s, LEVEL_MIN, 59) && Selected(s, LEVEL_SEC, 59)
  }

  /** The first selected day past the end of February becomes a March date behind another selected day. */
  predicate PassesMarch(s: Selection, leap: bool) {
    var last := FebruaryDays(leap);
    var d := NextSelected(s, LEVEL_DAY, last);
    && Selected(s, LEVEL_MONTH, 1) && Selected(s, LEVEL_MONTH, 2)
    && d < 31 && !LastSecondOf(s, last - 1)
    && exists k: nat :: k < d - last && Selected(s, LEVEL_DAY, k)
  }

  function YearOfKind(leap: bool): nat { if leap then 0 else 1 }

  function NextDay(y: nat, m: nat, d: nat): (nat, nat, nat) {
    if d + 1 < DaysInMonth(y, m) then (y, m, d + 1) else if m < 11 then (y, m + 1, 0) else (y + 1, 0, 0)
  }

  predicate SelectedDate(s: Selection, m: nat, d: nat) {
    Selected(s, LEVEL_MONTH, m) && Selected(s, LEVEL_DAY, d)
  }

  /** A selected date whose next day is selected too, in a year of one kind. */
  predicate SelectedPair(s: Selection, leap: bool, m: nat, d: nat) {
    && m < 12 && d < DaysInMonth(YearOfKind(leap), m) && SelectedDate(s, m, d)
    && var (_, m', d') := NextDay(YearOfKind(leap), m, d); SelectedDate(s, m', d')
  }

  predicate WeekEdge(s: Selection, w: nat) {
    w < 7 && !Selected(s, LEVEL_WDAY, w) && Selected(s, LEVEL_WDAY, (w + 1) % 7)
  }

  /** Midnight is selected with several seconds, and a selected day can follow one of a wrong weekday. */
  ghost predicate PassesMidnight(s: Selection) {
    && Selected(s, LEVEL_HOUR, 0) && Selected(s, LEVEL_MIN, 0)
    && (exists a: nat, b: nat :: a < b && Selected(s, LEVEL_SEC, a) && Selected(s, LEVEL_SEC, b))
    && (exists w :: WeekEdge(s, w))
    && (exists leap, m, d :: SelectedPair(s, leap, m, d))
  }

  // ---- a match passed over shows one of the two defects ------------------------------------------

  /** When the search reaches past the end of a February, it does so at the first selected day there. */
  lemma FirstPastFebruary(s: Selection, n: nat)
    requires AllNonEmpty(s)
    requires var c := Candidate(s, n); c.mon == 1 && c.mday > DaysInMonth(c.year, 1)
    ensures var c := Candidate(s, n);
            c.mday - 1 == NextSelected(s, LEVEL_DAY, DaysInMonth(c.year, 1))
            && !LastSecondOf(s, DaysInMonth(c.year, 1) - 1)
  {
    hide First, Carry, LexLeq, LocalTime, MkTime, NextSelected;
    var c, f := Candidate(s, n), First(s, Now(n));
    CandidateIsLeast(s, n);
    var last := DaysInMonth(c.year, 1);
    var d := NextSelected(s, LEVEL_DAY, last);
    if d < c.mday - 1 {
      NotBefore(n, c.year, f, f[LEVEL_DAY := d]);
      LeastAgainst(s, n, c.year, f[LEVEL_DAY := d]);
      LexUnfolds(f, f[LEVEL_DAY := d]);
      assert false;
    }
    if LastSecondOf(s, last - 1) {
      var e := [59, 59, 23, last - 1, 1];
      NotBefore(n, c.year, f, e);
      LeastAgainst(s, n, c.year, e);
      LexUnfolds(f, e);
      assert false;
    }
  }

  /** From the last second of February on, everything is at or after a time whose search leaves February. */
  lemma NotBefore(n: nat, y: nat, f: Digits, e: Digits)
    requires InRange(e) && e[LEVEL_MONTH] == f[LEVEL_MONTH] == 1 && f[LEVEL_DAY] >= DaysInMonth(y, 1)
    requires YearLexLeq(LocalTime(n).year, Now(n), y, f)
    requires e[LEVEL_DAY] >= DaysInMonth(y, 1) || e == [59, 59, 23, DaysInMonth(y, 1) - 1, 1]
    ensures YearLexLeq(LocalTime(n).year, Now(n), y, e)
  {
    hide LexLeq, LocalTime;
    LexUnfolds(Now(n), f);
    LexUnfolds(Now(n), e);
  }

  lemma DateShowsMarch(s: Selection, n: nat, t: nat)
    requires AllNonEmpty(s) && Matches(s, t) && PassedByDate(Candidate(s, n), LocalTime(t))
    ensures PassesMarch(s, IsLeap(Candidate(s, n).year))
  {
    hide First, Carry, LexLeq, LocalTime, MkTime, NextSelected, Candidate, LastSecondOf;
    var c, u := Candidate(s, n), LocalTime(t);
    CandidateIsLeast(s, n);
    FirstPastFebruary(s, n);
    assert Selected(s, LEVEL_MONTH, u.mon) && Selected(s, LEVEL_MONTH, c.mon);
    assert u.mday - 1 < c.mday - 1 - DaysInMonth(c.year, 1) && Selected(s, LEVEL_DAY, u.mday - 1);
  }

  /** The day after a valid date. */
  lemma NextDayFollows(y: nat, m: nat, d: nat)
    requires m < 12 && d < DaysInMonth(y, m)
    ensures var (y', m', d') := NextDay(y, m, d);
            ValidDate(y', m', d' + 1) && DayNumber(y', m', d' + 1) == DayNumber(y, m, d + 1) + 1
  {
    if d + 1 == DaysInMonth(y, m) && m == 11 {
      DaysBeforeNextYear(y);
      TwelveMonths(y);
    }
  }

  lemma DayNumbersDiffer(y: nat, m: nat, mday: nat, y': nat, m': nat, mday': nat)
    requires ValidDate(y, m, mday) && ValidDate(y', m', mday')
    requires DayNumber(y, m, mday) == DayNumber(y', m', mday')
    ensures y == y' && m == m' && mday == mday'
  {
    hide DayNumber;
    if DateBefore(y, m, mday, y', m', mday') {
      DatesAscend(y, m, mday, y', m', mday');
      assert false;
    } else if DateBefore(y', m', mday', y, m, mday) {
      DatesAscend(y', m', mday', y, m, mday);
      assert false;
    }
  }

  lemma SecondShowsMidnight(s: Selection, n: nat, t: nat)
    requires AllNonEmpty(s) && Matches(s, t) && PassedBySecond(s, Candidate(s, n), t)
    ensures PassesMidnight(s)
  {
    hide First, Carry, LexLeq, LocalTime, DayNumber, DaysInMonth, NextDay;
    var c, u := Candidate(s, n), LocalTime(t);
    CandidateIsLeast(s, n);
    LocalTimeUnique(c);
    NextDayFollows(c.year, c.mon, c.mday - 1);
    var (y', m', d') := NextDay(c.year, c.mon, c.mday - 1);
    DayNumbersDiffer(u.year, u.mon, u.mday, y', m', d' + 1);
    assert Selected(s, LEVEL_SEC, u.sec) && Selected(s, LEVEL_SEC, c.sec);
    assert Selected(s, LEVEL_HOUR, u.hour) && Selected(s, LEVEL_MIN, u.min);
    assert WeekEdge(s, WeekDay(MkTime(c) / DAY)) by { WeekDayAfter(MkTime(c) / DAY); }
    assert SelectedDate(s, c.mon, c.mday - 1) && SelectedDate(s, m', d');
    PairOfKind(s, c.year, c.mon, c.mday - 1);
  }

  lemma WeekDayAfter(day: int)
    ensures WeekDay(day + 1) == (WeekDay(day) + 1) % 7
  {
  }

  lemma PairOfKind(s: Selection, y: nat, m: nat, d: nat)
    requires m < 12 && d < DaysInMonth(y, m) && SelectedDate(s, m, d)
    requires var (_, m', d') := NextDay(y, m, d); SelectedDate(s, m', d')
    ensures SelectedPair(s, IsLeap(y), m, d)
  {
  }

  lemma {:induction false} SearchIsEarliest(s: Selection, n: nat, target: nat, t: nat)
    requires Accepted(s) && SafeTarget(s, target) && n <= target && n <= t && Matches(s, t)
    requires !PassesMarch(s, true) && !PassesMarch(s, false) && !PassesMidnight(s)
    ensures Search(s, n, target) <= t
    decreases target - n
  {
    hide Next, Matches, PassesMarch, PassesMidnight, Candidate;
    match Next(s, n)
    case Found(x) =>
      FoundIsEarliest(s, n, x);
    case Retry(x) =>
      RetryKeepsTarget(s, n, x, target);
      if t < x {
        RetryPasses(s, n, x, t);
        if PassedByDate(Candidate(s, n), LocalTime(t)) {
          DateShowsMarch(s, n, t);
        } else {
          SecondShowsMidnight(s, n, t);
        }
        assert false;
      } else {
        SearchIsEarliest(s, x, target, t);
      }
  }

  // ---- either defect passes over some match -------------------------------------------------------

  lemma TimeOf(y: nat, d: Digits) returns (t: nat)
    requires InRange(d) && ValidDate(y, d[LEVEL_MONTH], d[LEVEL_DAY] + 1)
    ensures t == MkTime(TmOf(y, d)) && LocalTime(t) == TmOf(y, d) && Now(t) == d
    ensures t / DAY == DayNumber(y, d[LEVEL_MONTH], d[LEVEL_DAY] + 1)
  {
    LocalTimeUnique(TmOf(y, d));
    t := MkTime(TmOf(y, d));
  }

  /** A match between a start and the time the search restarts from is passed over. */
  lemma PassedOver(s: Selection, n: nat, t: nat)
    requires Accepted(s) && Matches(s, t) && Next(s, n).Retry? && n <= t < Next(s, n).t
    ensures !AlwaysEarliest(s)
  {
    hide Next, Matches;
    NextTimeStep(s, n);
    NextTimeMatches(s, Next(s, n).t);
  }

  lemma AnyClock(s: Selection) returns (sec: nat, min: nat, hour: nat, wday: nat)
    requires AllNonEmpty(s)
    ensures Selected(s, LEVEL_SEC, sec) && Selected(s, LEVEL_MIN, min)
    ensures Selected(s, LEVEL_HOUR, hour) && Selected(s, LEVEL_WDAY, wday)
  {
    assert NonEmpty(s, LEVEL_SEC) && NonEmpty(s, LEVEL_MIN) && NonEmpty(s, LEVEL_HOUR) && NonEmpty(s, LEVEL_WDAY);
    sec :| Selected(s, LEVEL_SEC, sec);
    min :| Selected(s, LEVEL_MIN, min);
    hour :| Selected(s, LEVEL_HOUR, hour);
    wday :| Selected(s, LEVEL_WDAY, wday);
  }

  /** From the last second of February the search tries the first selected day past its end. */
  lemma LeavesFebruary(s: Selection, n: nat, y: nat, e: Digits)
    requires AllNonEmpty(s) && SelectedBelow(s, e, LEVEL_WDAY) && e[LEVEL_MONTH] == 1
    requires var last := DaysInMonth(y, 1);
             LocalTime(n) == Tm(y, 1, last, 23, 59, 59) && !LastSecondOf(s, last - 1)
             && e[LEVEL_DAY] == NextSelected(s, LEVEL_DAY, last)
    ensures var c := Candidate(s, n); c.year == y && c.mon == 1 && c.mday == e[LEVEL_DAY] + 1
  {
    hide First, Carry, LexLeq, LocalTime;
    var f := First(s, Now(n));
    CandidateIsLeast(s, n);
    LexUnfolds(Now(n), e);
    LeastAgainst(s, n, y, e);
    LexUnfolds(Now(n), f);
    LexUnfolds(f, e);
    assert Selected(s, LEVEL_DAY, f[LEVEL_DAY]);
    assert Selected(s, LEVEL_HOUR, f[LEVEL_HOUR]) && Selected(s, LEVEL_MIN, f[LEVEL_MIN]) && Selected(s, LEVEL_SEC, f[LEVEL_SEC]);
  }

  lemma MarchIsPassed(s: Selection, leap: bool)
    requires Accepted(s) && PassesMarch(s, leap)
    ensures !AlwaysEarliest(s)
  {
    hide First, Carry, LexLeq, LocalTime, DayNumber, AlwaysEarliest;
    var last := FebruaryDays(leap);
    var d := NextSelected(s, LEVEL_DAY, last);
    var k: nat :| k < d - last && Selected(s, LEVEL_DAY, k);
    var sec, min, hour, wday := AnyClock(s);
    var y := YearWithWeekDay(1, leap, 2, k + 1, wday);
    var n := TimeOf(y, [59, 59, 23, last - 1, 1]);
    var t := TimeOf(y, [sec, min, hour, k, 2]);
    assert Matches(s, t);
    DatesAscend(y, 1, last, y, 2, k + 1);
    SecondsAscend(LocalTime(n), LocalTime(t));
    LeavesFebruary(s, n, y, [sec, min, hour, d, 1]);
    var c := Candidate(s, n);
    CandidateIsLeast(s, n);
    OverflowIsNormal(y, First(s, Now(n)));
    DatesAscend(y, 2, k + 1, y, 2, d + 1 - last);
    SecondsAscend(LocalTime(t), Overflow(c));
    PassedOver(s, n, t);
  }

  /** A selected time is its own candidate. */
  lemma OwnCandidate(s: Selection, n: nat)
    requires AllNonEmpty(s) && SelectedBelow(s, Now(n), LEVEL_WDAY)
    ensures Candidate(s, n) == LocalTime(n)
  {
    hide First, Carry, LexLeq, LocalTime;
    var f := First(s, Now(n));
    CandidateIsLeast(s, n);
    LexUnfolds(Now(n), Now(n));
    LeastAgainst(s, n, LocalTime(n).year, Now(n));
    LexUnfolds(Now(n), f);
    LexUnfolds(f, Now(n));
    assert f == Now(n);
  }

  lemma MidnightIsPassed(s: Selection)
    requires Accepted(s) && PassesMidnight(s)
    ensures !AlwaysEarliest(s)
  {
    hide First, Carry, LexLeq, LocalTime, DayNumber, AlwaysEarliest, NextDay, DaysInMonth;
    var a: nat, b: nat :| a < b && Selected(s, LEVEL_SEC, a) && Selected(s, LEVEL_SEC, b);
    var w :| WeekEdge(s, w);
    var leap, m, d :| SelectedPair(s, leap, m, d);
    var y := YearWithWeekDay(1, leap, m, d + 1, w);
    PairInYear(s, leap, m, d, y);
    var (y', m', d') := NextDay(y, m, d);
    NextDayFollows(y, m, d);
    var n := TimeOf(y, [b, 0, 0, d, m]);
    var t := TimeOf(y', [a, 0, 0, d', m']);
    WeekDayAfter(n / DAY);
    assert Matches(s, t);
    assert SelectedBelow(s, Now(n), LEVEL_WDAY);
    OwnCandidate(s, n);
    assert n <= t;
    PassedOver(s, n, t);
  }

  lemma PairInYear(s: Selection, leap: bool, m: nat, d: nat, y: nat)
    requires SelectedPair(s, leap, m, d) && IsLeap(y) == leap
    ensures d < DaysInMonth(y, m)
    ensures SelectedDate(s, m, d) && var (_, m', d') := NextDay(y, m, d); SelectedDate(s, m', d')
  {
  }

  /** get_next_time always returns the earliest match exactly when the schedule has neither defect. */
  lemma EarliestExactly(s: Selection)
    requires Accepted(s)
    ensures AlwaysEarliest(s) <==> !PassesMarch(s, false) && !PassesMarch(s, true) && !PassesMidnight(s)
  {
    hide PassesMarch, PassesMidnight;
    if PassesMarch(s, false) { MarchIsPassed(s, false); }
    if PassesMarch(s, true) { MarchIsPassed(s, true); }
    if PassesMidnight(s) { MidnightIsPassed(s); }
    if !PassesMarch(s, false) && !PassesMarch(s, true) && !PassesMidnight(s) {
      forall n: nat, t: nat | n <= t && Matches(s, t)
        ensures NextTime(s, n) <= t
      {
        SearchIsEarliest(s, n, Target(s, n), t);
      }
    }
  }

  /** With one second, and no 30 or 31 beside 1 or 2 when February is selected, the time is the earliest. */
  lemma EarliestForOneSecond(s: Selection)
    requires Accepted(s)
    requires forall a: nat, b: nat :: Selected(s, LEVEL_SEC, a) && Selected(s, LEVEL_SEC, b) ==> a == b
    requires Selected(s, LEVEL_MONTH, 1) ==> NoLateWithEarlyDay(s)
    ensures AlwaysEarliest(s)
  {
    EarliestExactly(s);
    NoLateDay(s, true);
    NoLateDay(s, false);
    hide PassesMarch, AlwaysEarliest, Selected;
  }

  predicate NoLateWithEarlyDay(s: Selection) {
    || (!Selected(s, LEVEL_DAY, 29) && !Selected(s, LEVEL_DAY, 30))
    || (!Selected(s, LEVEL_DAY, 0) && !Selected(s, LEVEL_DAY, 1))
  }

  lemma NoLateDay(s: Selection, leap: bool)
    requires Selected(s, LEVEL_MONTH, 1) ==> NoLateWithEarlyDay(s)
    ensures !PassesMarch(s, leap)
  {
    if PassesMarch(s, leap) {
      var d := NextSelected(s, LEVEL_DAY, FebruaryDays(leap));
      var k: nat :| k < d - FebruaryDays(leap) && Selected(s, LEVEL_DAY, k);
      assert false;
    }
  }
}
