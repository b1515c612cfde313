/** The next time of a schedule (src/Schedule/Schedule.cpp). */
module Schedule {
  import opened Calendar
  import opened ScheduleLevels

  // ---- times as values of the levels ---------------------------------------------------------

  function DigitsOf(t: Tm): (r: Digits)
    requires ValidTime(t)
    ensures InRange(r)
  {
    [t.sec, t.min, t.hour, t.mday - 1, t.mon]
  }

  function Now(t: nat): (r: Digits)
    ensures InRange(r)
  {
    DigitsOf(LocalTime(t))
  }

  /** A time that satisfies all six levels of a schedule. */
  ghost predicate Matches(s: Selection, t: nat) {
    SelectedBelow(s, Now(t), LEVEL_WDAY) && Selected(s, LEVEL_WDAY, WeekDay(t / DAY))
  }

  function TmOf(year: nat, d: Digits): Tm {
    Tm(year, d[LEVEL_MONTH], d[LEVEL_DAY] + 1, d[LEVEL_HOUR], d[LEVEL_MIN], d[LEVEL_SEC])
  }

  lemma LexUnfolds(d: Digits, e: Digits)
    ensures LexLeq(d, e, LEVEL_WDAY) <==>
            d[4] < e[4] || (d[4] == e[4] && (d[3] < e[3] || (d[3] == e[3] && (d[2] < e[2] || (d[2] == e[2] &&
            (d[1] < e[1] || (d[1] == e[1] && d[0] <= e[0])))))))
  {
    assert LexLeq(d, e, 1) <==> d[0] <= e[0];
    assert LexLeq(d, e, 3) <==> d[2] < e[2] || (d[2] == e[2] && LexLeq(d, e, 2));
    assert LexLeq(d, e, 4) <==> d[3] < e[3] || (d[3] == e[3] && LexLeq(d, e, 3));
  }

  /** The order of years and level values is the order of times, even when the later date is not valid. */
  lemma LexOrderIsTimeOrder(y: nat, d: Digits, y': nat, d': Digits)
    requires InRange(d) && InRange(d') && ValidTime(TmOf(y, d)) && YearLexLeq(y, d, y', d')
    ensures MkTime(TmOf(y, d)) <= MkTime(TmOf(y', d'))
  {
    hide LexLeq, DayNumber;
    LexUnfolds(d, d');
    var a, b := TmOf(y, d), TmOf(y', d');
    if DateBefore(y, a.mon, a.mday, y', b.mon, b.mday) {
      DatesAscend(y, a.mon, a.mday, y', b.mon, b.mday);
      SecondsAscend(a, b);
    }
  }

  /** Of two times the later has the later year and level values. */
  lemma TimeOrderIsLexOrder(t: nat, u: nat)
    requires t <= u
    ensures YearLexLeq(LocalTime(t).year, Now(t), LocalTime(u).year, Now(u))
  {
    hide LexLeq, DayNumber;
    var a, b := LocalTime(t), LocalTime(u);
    LexUnfolds(Now(t), Now(u));
    if DateBefore(b.year, b.mon, b.mday, a.year, a.mon, a.mday) {
      DatesAscend(b.year, b.mon, b.mday, a.year, a.mon, a.mday);
      SecondsAscend(b, a);
    }
  }

  // ---- one call of get_next_time ---------------------------------------------------------------

  /** What one call does: return a time, or start again from a later one. */
  datatype Step = Found(t: nat) | Retry(t: nat)

  /** The broken-down time built from the level values; its date may run past the end of its month. */
  ghost function Candidate(s: Selection, n: nat): Tm {
    TmOf(LocalTime(n).year + Carry(s, Now(n), LEVEL_WDAY), First(s, Now(n)))
  }

  function StartOfNextDay(x: nat, sec: nat): nat { (x / DAY + 1) * DAY + sec }

  ghost function Next(s: Selection, n: nat): Step
    requires AllNonEmpty(s)
  {
    var c := Candidate(s, n);
    CandidateIsLeast(s, n);
    var x: nat := MkTime(c);
    if !ValidDate(c.year, c.mon, c.mday) then Retry(x)
    else if !Selected(s, LEVEL_WDAY, WeekDay(x / DAY)) then Retry(StartOfNextDay(x, c.sec))
    else Found(x)
  }

  /** The candidate is selected and is the least selected combination that is not before n. */
  lemma CandidateIsLeast(s: Selection, n: nat)
    requires AllNonEmpty(s)
    ensures var c, d := Candidate(s, n), First(s, Now(n));
            SelectedBelow(s, d, LEVEL_WDAY) && InRange(d) && c == TmOf(c.year, d) && n <= MkTime(c)
            && YearLexLeq(LocalTime(n).year, Now(n), c.year, d)
    ensures forall y: nat, d: Digits ::
              SelectedBelow(s, d, LEVEL_WDAY) && YearLexLeq(LocalTime(n).year, Now(n), y, d) ==>
              YearLexLeq(Candidate(s, n).year, First(s, Now(n)), y, d)
  {
    hide First, Carry, LexLeq, Pick;
    var y, c, d := LocalTime(n).year, Candidate(s, n), First(s, Now(n));
    FirstIsLeast(s, Now(n));
    LexOrderIsTimeOrder(y, Now(n), c.year, d);
    forall y': nat, d': Digits | SelectedBelow(s, d', LEVEL_WDAY) && YearLexLeq(y, Now(n), y', d')
      ensures YearLexLeq(c.year, d, y', d')
    {
      assert YearLexLeq(0, Now(n), y' - y, d');
    }
  }

  lemma LeastAgainst(s: Selection, n: nat, y: nat, d: Digits)
    requires AllNonEmpty(s) && SelectedBelow(s, d, LEVEL_WDAY) && YearLexLeq(LocalTime(n).year, Now(n), y, d)
    ensures YearLexLeq(Candidate(s, n).year, First(s, Now(n)), y, d)
  {
    CandidateIsLeast(s, n);
  }

  lemma CandidateBefore(s: Selection, n: nat, t: nat)
    requires AllNonEmpty(s) && n <= t && SelectedBelow(s, Now(t), LEVEL_WDAY)
    ensures YearLexLeq(Candidate(s, n).year, First(s, Now(n)), LocalTime(t).year, Now(t))
  {
    hide First, Carry, LexLeq, Candidate;
    CandidateIsLeast(s, n);
    TimeOrderIsLexOrder(n, t);
  }

  /** A date past the end of its month is a date of the next month. */
  function Overflow(c: Tm): Tm
    requires c.mday > DaysInMonth(c.year, c.mon)
  {
    c.(mon := c.mon + 1, mday := c.mday - DaysInMonth(c.year, c.mon))
  }

  lemma OverflowIsNormal(y: nat, d: Digits)
    requires InRange(d) && !ValidDate(y, d[LEVEL_MONTH], d[LEVEL_DAY] + 1)
    ensures var c := TmOf(y, d);
            c.mday > DaysInMonth(c.year, c.mon) && c.mon < 11 && ValidTime(Overflow(c))
            && MkTime(c) == MkTime(Overflow(c)) >= 0 && LocalTime(MkTime(c)) == Overflow(c)
  {
    LocalTimeUnique(Overflow(TmOf(y, d)));
  }

  lemma FoundIsEarliest(s: Selection, n: nat, x: nat)
    requires AllNonEmpty(s) && Next(s, n) == Found(x)
    ensures n <= x && Matches(s, x)
    ensures forall t :: n <= t && Matches(s, t) ==> x <= t
  {
    hide First, Carry, LexLeq, LocalTime, DaysInMonth;
    var c, d := Candidate(s, n), First(s, Now(n));
    CandidateIsLeast(s, n);
    LocalTimeUnique(c);
    assert Now(x) == d;
    forall t | n <= t && Matches(s, t)
      ensures x <= t
    {
      CandidateBefore(s, n, t);
      LexOrderIsTimeOrder(c.year, d, LocalTime(t).year, Now(t));
    }
  }

  lemma RetryIsLater(s: Selection, n: nat, x: nat)
    requires AllNonEmpty(s) && Next(s, n) == Retry(x)
    ensures n < x
  {
    hide First, Carry, LexLeq;
    var c := Candidate(s, n);
    CandidateIsLeast(s, n);
    if !ValidDate(c.year, c.mon, c.mday) {
      OverflowIsLater(n, c.year, First(s, Now(n)));
    }
  }

  lemma OverflowIsLater(n: nat, y: nat, d: Digits)
    requires InRange(d) && !ValidDate(y, d[LEVEL_MONTH], d[LEVEL_DAY] + 1)
    requires YearLexLeq(LocalTime(n).year, Now(n), y, d)
    ensures n < MkTime(TmOf(y, d))
  {
    hide LexLeq, DayNumber, MkTime, LocalTime, DaysInMonth;
    OverflowIsNormal(y, d);
    LexOrderIsTimeOrder(LocalTime(n).year, Now(n), y, d);
    if n == MkTime(TmOf(y, d)) {
      assert Now(n)[LEVEL_MONTH] == d[LEVEL_MONTH] + 1;
      LexUnfolds(Now(n), d);
      assert false;
    }
  }

  /** A match is passed over because 30 or 31 February was tried as 1, 2 or 3 March. */
  predicate PassedByDate(c: Tm, t: Tm) {
    && c.mon == 1 && c.mday > DaysInMonth(c.year, 1)
    && t.year == c.year && t.mon == 2 && t.mday < c.mday - DaysInMonth(c.year, 1)
  }

  /** A match is passed over because the second was kept when the search went on at the next midnight. */
  ghost predicate PassedBySecond(s: Selection, c: Tm, t: nat) {
    && ValidTime(c) && MkTime(c) >= 0 && !Selected(s, LEVEL_WDAY, WeekDay(MkTime(c) / DAY))
    && t / DAY == MkTime(c) / DAY + 1
    && LocalTime(t).hour == 0 && LocalTime(t).min == 0 && LocalTime(t).sec < c.sec
  }

  /** These are the only two ways in which a retry passes over a match. */
  lemma RetryPasses(s: Selection, n: nat, x: nat, t: nat)
    requires AllNonEmpty(s) && Next(s, n) == Retry(x)
    requires n <= t < x && Matches(s, t)
    ensures PassedByDate(Candidate(s, n), LocalTime(t)) || PassedBySecond(s, Candidate(s, n), t)
  {
    hide First, Carry, LexLeq;
    var c, d := Candidate(s, n), First(s, Now(n));
    CandidateIsLeast(s, n);
    CandidateBefore(s, n, t);
    if ValidDate(c.year, c.mon, c.mday) {
      LexOrderIsTimeOrder(c.year, d, LocalTime(t).year, Now(t));
      LocalTimeUnique(c);
      NextMidnight(MkTime(c), t, c.sec);
    } else {
      DatePasses(s, n, x, t);
    }
  }

  lemma NextMidnight(x: nat, t: nat, sec: nat)
    requires x <= t < StartOfNextDay(x, sec) && sec < 60 && t / DAY != x / DAY
    ensures t / DAY == x / DAY + 1 && LocalTime(t).hour == 0 && LocalTime(t).min == 0 && LocalTime(t).sec < sec
  {
    var u := LocalTime(t);
    assert t == t / DAY * DAY + u.hour * 3600 + u.min * 60 + u.sec;
  }

  lemma DatePasses(s: Selection, n: nat, x: nat, t: nat)
    requires AllNonEmpty(s) && n <= t < x && Matches(s, t) && x == MkTime(Candidate(s, n))
    requires var c := Candidate(s, n); !ValidDate(c.year, c.mon, c.mday)
    ensures PassedByDate(Candidate(s, n), LocalTime(t))
  {
    hide First, Carry, LexLeq, MkTime, DayNumber, LocalTime;
    var c, d := Candidate(s, n), First(s, Now(n));
    var u := LocalTime(t);
    CandidateIsLeast(s, n);
    CandidateBefore(s, n, t);
    OverflowIsNormal(c.year, d);
    DateOfPassed(c.year, d, t);
    if u.mday == Overflow(c).mday {
      var e := Now(t)[LEVEL_DAY := d[LEVEL_DAY]][LEVEL_MONTH := d[LEVEL_MONTH]];
      MixSelected(s, Now(t), d, e);
      ClockAgrees(LocalTime(n).year, Now(n), c.year, d, e);
      assert YearLexLeq(c.year, d, c.year, e);
      SameDateOrder(c.year, d, t);
    }
  }

  lemma MixSelected(s: Selection, t: Digits, d: Digits, e: Digits)
    requires SelectedBelow(s, t, LEVEL_WDAY) && SelectedBelow(s, d, LEVEL_WDAY)
    requires e == t[LEVEL_DAY := d[LEVEL_DAY]][LEVEL_MONTH := d[LEVEL_MONTH]]
    ensures SelectedBelow(s, e, LEVEL_WDAY)
  {
  }

  /** The date of a match before the normalised date of an invalid candidate. */
  lemma DateOfPassed(y: nat, d: Digits, t: nat)
    requires InRange(d) && !ValidDate(y, d[LEVEL_MONTH], d[LEVEL_DAY] + 1)
    requires YearLexLeq(y, d, LocalTime(t).year, Now(t)) && t < MkTime(TmOf(y, d))
    ensures var c, u := TmOf(y, d), LocalTime(t);
            c.mday > DaysInMonth(c.year, c.mon) && u.year == y && u.mon == c.mon + 1 && u.mday <= Overflow(c).mday
  {
    hide LexLeq, DayNumber;
    OverflowIsNormal(y, d);
    TimeOrderIsLexOrder(t, MkTime(TmOf(y, d)));
    LexUnfolds(d, Now(t));
    LexUnfolds(Now(t), Now(MkTime(TmOf(y, d))));
  }

  /** Moving the clock of a later date changes nothing about its order after n. */
  lemma ClockAgrees(y: nat, now: Digits, y': nat, d: Digits, e: Digits)
    requires YearLexLeq(y, now, y', d) && InRange(d) && ValidTime(TmOf(y, now))
    requires !ValidDate(y', d[LEVEL_MONTH], d[LEVEL_DAY] + 1)
    requires e[LEVEL_DAY] == d[LEVEL_DAY] && e[LEVEL_MONTH] == d[LEVEL_MONTH]
    ensures YearLexLeq(y, now, y', e)
  {
    hide LexLeq;
    LexUnfolds(now, d);
    LexUnfolds(now, e);
  }

  lemma SameDateOrder(y: nat, d: Digits, t: nat)
    requires InRange(d) && !ValidDate(y, d[LEVEL_MONTH], d[LEVEL_DAY] + 1)
    requires var c, u := TmOf(y, d), LocalTime(t);
             u.year == y && u.mon == c.mon + 1 && c.mday > DaysInMonth(c.year, c.mon) && u.mday == Overflow(c).mday
    requires LexLeq(d, Now(t)[LEVEL_DAY := d[LEVEL_DAY]][LEVEL_MONTH := d[LEVEL_MONTH]], LEVEL_WDAY)
    ensures MkTime(TmOf(y, d)) <= t
  {
    hide LexLeq, DayNumber;
    OverflowIsNormal(y, d);
    var x := MkTime(TmOf(y, d));
    LexUnfolds(d, Now(t)[LEVEL_DAY := d[LEVEL_DAY]][LEVEL_MONTH := d[LEVEL_MONTH]]);
    LexUnfolds(Now(x), Now(t));
    LexOrderIsTimeOrder(y, Now(x), y, Now(t));
  }

  // ---- a whole search ---------------------------------------------------------------------------

  /** Some month has one of the selected days. */
  predicate HasDate(s: Selection) {
    exists m: nat, d: nat :: m < 12 && d < LongestMonth(m) && Selected(s, LEVEL_MONTH, m) && Selected(s, LEVEL_DAY, d)
  }

  function LongestMonth(m: nat): nat { DaysInMonth(0, m) }

  /** A schedule the constructor accepts. */
  ghost predicate Accepted(s: Selection) {
    AllNonEmpty(s) && HasDate(s)
  }

  /** A match that no retry passes over. */
  ghost predicate SafeTarget(s: Selection, t: nat) {
    && Matches(s, t)
    && (forall sec: nat :: Selected(s, LEVEL_SEC, sec) ==> sec <= LocalTime(t).sec)
    && !(LocalTime(t).mon == 2 && LocalTime(t).mday <= 2 && Selected(s, LEVEL_MONTH, 1))
  }

  lemma RetryKeepsTarget(s: Selection, n: nat, x: nat, target: nat)
    requires AllNonEmpty(s) && SafeTarget(s, target) && n <= target && Next(s, n) == Retry(x)
    ensures n < x <= target
  {
    hide First, Carry, Next;
    RetryIsLater(s, n, x);
    CandidateIsLeast(s, n);
    assert Selected(s, LEVEL_MONTH, Candidate(s, n).mon) && Selected(s, LEVEL_SEC, Candidate(s, n).sec);
    if target < x {
      RetryPasses(s, n, x, target);
      assert false;
    }
  }

  /** The latest selected second up to `sec`. */
  lemma {:induction false} LatestSecond(s: Selection, sec: nat) returns (latest: nat)
    requires sec < 60 && Selected(s, LEVEL_SEC, sec)
    ensures Selected(s, LEVEL_SEC, latest) && forall k: nat :: Selected(s, LEVEL_SEC, k) ==> k <= latest
    decreases 60 - sec
  {
    latest := sec;
    if next: nat :| Selected(s, LEVEL_SEC, next) && sec < next {
      latest := LatestSecond(s, next);
    }
  }

  lemma SafeDate(s: Selection) returns (m: nat, d: nat)
    requires HasDate(s)
    ensures m < 12 && d < LongestMonth(m) && Selected(s, LEVEL_MONTH, m) && Selected(s, LEVEL_DAY, d)
    ensures !(m == 2 && d <= 1 && Selected(s, LEVEL_MONTH, 1))
  {
    m, d :| m < 12 && d < LongestMonth(m) && Selected(s, LEVEL_MONTH, m) && Selected(s, LEVEL_DAY, d);
    if m == 2 && d <= 1 && Selected(s, LEVEL_MONTH, 1) {
      m := 1;
    }
  }

  /** Every accepted schedule has a match from any time on, and one that no retry passes over. */
  lemma SafeTargetExists(s: Selection, n: nat) returns (target: nat)
    requires Accepted(s)
    ensures n <= target && SafeTarget(s, target)
  {
    hide LocalTime, DayNumber;
    var month, d := SafeDate(s);
    assert NonEmpty(s, LEVEL_SEC) && NonEmpty(s, LEVEL_MIN) && NonEmpty(s, LEVEL_HOUR) && NonEmpty(s, LEVEL_WDAY);
    var sec: nat :| Selected(s, LEVEL_SEC, sec);
    sec := LatestSecond(s, sec);
    var min: nat :| Selected(s, LEVEL_MIN, min);
    var hour: nat :| Selected(s, LEVEL_HOUR, hour);
    var wday: nat :| Selected(s, LEVEL_WDAY, wday);
    var year := YearWithWeekDay(LocalTime(n).year + 1, true, month, d + 1, wday);
    target := TimeAt(year, [sec, min, hour, d, month], n);
  }

  /** The time of valid level values in a later year. */
  lemma TimeAt(year: nat, d: Digits, n: nat) returns (t: nat)
    requires InRange(d) && ValidDate(year, d[LEVEL_MONTH], d[LEVEL_DAY] + 1) && LocalTime(n).year < year
    ensures n <= t && LocalTime(t) == TmOf(year, d) && Now(t) == d
    ensures t / DAY == DayNumber(year, d[LEVEL_MONTH], d[LEVEL_DAY] + 1)
  {
    LocalTimeUnique(TmOf(year, d));
    t := MkTime(TmOf(year, d));
    LexOrderIsTimeOrder(LocalTime(n).year, Now(n), year, d);
  }

  ghost function Target(s: Selection, n: nat): (target: nat)
    requires Accepted(s)
    ensures n <= target && SafeTarget(s, target)
  {
    assert exists t: nat :: n <= t && SafeTarget(s, t) by { var t := SafeTargetExists(s, n); }
    var t: nat :| n <= t && SafeTarget(s, t);
    t
  }

  /** The calls of get_next_time down to the one that returns; each starts closer to the target. */
  ghost function Search(s: Selection, n: nat, target: nat): nat
    requires Accepted(s) && SafeTarget(s, target) && n <= target
    decreases target - n
  {
    match Next(s, n)
    case Found(x) => x
    case Retry(x) => RetryKeepsTarget(s, n, x, target); Search(s, x, target)
  }

  lemma {:induction false} SearchIgnoresTarget(s: Selection, n: nat, target: nat, target': nat)
    requires Accepted(s) && SafeTarget(s, target) && n <= target && SafeTarget(s, target') && n <= target'
    ensures Search(s, n, target) == Search(s, n, target')
    decreases target - n
  {
    hide Next;
    if Next(s, n).Retry? {
      var x := Next(s, n).t;
      RetryKeepsTarget(s, n, x, target);
      RetryKeepsTarget(s, n, x, target');
      SearchIgnoresTarget(s, x, target, target');
    }
  }

  /** What get_next_time(n) returns. */
  ghost function NextTime(s: Selection, n: nat): nat
    requires Accepted(s)
  {
    Search(s, n, Target(s, n))
  }

  lemma NextTimeStep(s: Selection, n: nat)
    requires Accepted(s)
    ensures Next(s, n).Found? ==> NextTime(s, n) == Next(s, n).t
    ensures Next(s, n).Retry? ==> n < Next(s, n).t && NextTime(s, n) == NextTime(s, Next(s, n).t)
  {
    hide Next;
    if Next(s, n).Retry? {
      var x := Next(s, n).t;
      RetryKeepsTarget(s, n, x, Target(s, n));
      SearchIgnoresTarget(s, x, Target(s, n), Target(s, x));
    }
  }

  /** For every accepted schedule the search ends, in a time not before n that matches all six levels. */
  lemma NextTimeMatches(s: Selection, n: nat)
    requires Accepted(s)
    ensures n <= NextTime(s, n) && Matches(s, NextTime(s, n))
  {
    SearchMatches(s, n, Target(s, n));
  }

  lemma {:induction false} SearchMatches(s: Selection, n: nat, target: nat)
    requires Accepted(s) && SafeTarget(s, target) && n <= target
    ensures n <= Search(s, n, target) <= target && Matches(s, Search(s, n, target))
    decreases target - n
  {
    hide Next, Matches;
    match Next(s, n)
    case Found(x) =>
      FoundIsEarliest(s, n, x);
    case Retry(x) =>
      RetryKeepsTarget(s, n, x, target);
      SearchMatches(s, x, target);
  }
}
