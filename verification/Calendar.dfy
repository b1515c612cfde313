/**
 The proleptic Gregorian calendar on a clock with a fixed offset: what localtime_r and mktime compute
 for the schedules. Instants are seconds since 1 January of year 0, local time; the Unix epoch is day 719528.
 */
module Calendar {
  const DAY := 86400

  /** A broken-down time: month 0 to 11, day of the month from 1, as in struct tm. */
  datatype Tm = Tm(year: nat, mon: nat, mday: nat, hour: nat, min: nat, sec: nat)

  predicate IsLeap(y: nat) { y % 4 == 0 && (y % 100 != 0 || y % 400 == 0) }

  function DaysInMonth(y: nat, m: nat): (r: nat)
    ensures 28 <= r <= 31
  {
    if m == 1 then (if IsLeap(y) then 29 else 28)
    else if m == 3 || m == 5 || m == 8 || m == 10 then 30
    else 31
  }

  function DaysInYear(y: nat): nat { if IsLeap(y) then 366 else 365 }

  function DaysBeforeMonth(y: nat, m: nat): nat {
    if m == 0 then 0 else DaysBeforeMonth(y, m - 1) + DaysInMonth(y, m - 1)
  }

  function DaysBeforeYear(y: nat): nat {
    365 * y + (y + 3) / 4 - (y + 99) / 100 + (y + 399) / 400
  }

  /** The number of a day, counted from 1 January of year 0. Days past the end of a month run on. */
  function DayNumber(y: nat, m: nat, mday: nat): int {
    DaysBeforeYear(y) + DaysBeforeMonth(y, m) + mday - 1
  }

  /** 0 is Sunday, as in struct tm. */
  function WeekDay(day: int): (r: nat)
    ensures r < 7
  {
    (day + 6) % 7
  }

  predicate ValidDate(y: nat, m: nat, mday: nat) { m < 12 && 1 <= mday <= DaysInMonth(y, m) }

  predicate ValidTime(t: Tm) {
    ValidDate(t.year, t.mon, t.mday) && t.hour < 24 && t.min < 60 && t.sec < 60
  }

  /** mktime, for fields in range except that the day may run past the end of its month. */
  function MkTime(t: Tm): int {
    DayNumber(t.year, t.mon, t.mday) * DAY + t.hour * 3600 + t.min * 60 + t.sec
  }

  lemma DaysBeforeNextYear(y: nat)
    ensures DaysBeforeYear(y + 1) == DaysBeforeYear(y) + DaysInYear(y)
  {
    assert (y + 4) / 4 == (y + 3) / 4 + if y % 4 == 0 then 1 else 0;
    assert (y + 100) / 100 == (y + 99) / 100 + if y % 100 == 0 then 1 else 0;
    assert (y + 400) / 400 == (y + 399) / 400 + if y % 400 == 0 then 1 else 0;
  }

  lemma TwelveMonths(y: nat)
    ensures DaysBeforeMonth(y, 12) == DaysInYear(y)
  {
    MonthTable(y);
  }

  /** The cumulative days of the months. */
  lemma MonthTable(y: nat)
    ensures var l := if IsLeap(y) then 1 else 0;
            && DaysBeforeMonth(y, 1) == 31 && DaysBeforeMonth(y, 2) == 59 + l && DaysBeforeMonth(y, 3) == 90 + l
            && DaysBeforeMonth(y, 4) == 120 + l && DaysBeforeMonth(y, 5) == 151 + l
            && DaysBeforeMonth(y, 6) == 181 + l && DaysBeforeMonth(y, 7) == 212 + l
            && DaysBeforeMonth(y, 8) == 243 + l && DaysBeforeMonth(y, 9) == 273 + l
            && DaysBeforeMonth(y, 10) == 304 + l && DaysBeforeMonth(y, 11) == 334 + l
            && DaysBeforeMonth(y, 12) == 365 + l
  {
    assert DaysBeforeMonth(y, 0) == 0;
    assert DaysBeforeMonth(y, 2) == DaysBeforeMonth(y, 1) + DaysInMonth(y, 1);
    assert DaysBeforeMonth(y, 4) == DaysBeforeMonth(y, 3) + DaysInMonth(y, 3);
    assert DaysBeforeMonth(y, 6) == DaysBeforeMonth(y, 5) + DaysInMonth(y, 5);
    assert DaysBeforeMonth(y, 8) == DaysBeforeMonth(y, 7) + DaysInMonth(y, 7);
    assert DaysBeforeMonth(y, 10) == DaysBeforeMonth(y, 9) + DaysInMonth(y, 9);
  }

  // ---- localtime_r --------------------------------------------------------------------------

  /** The year that holds a day, searched upwards from y. */
  function YearFrom(day: nat, y: nat): (r: nat)
    requires DaysBeforeYear(y) <= day
    ensures DaysBeforeYear(r) <= day < DaysBeforeYear(r) + DaysInYear(r)
    decreases day - DaysBeforeYear(y)
  {
    DaysBeforeNextYear(y);
    if day < DaysBeforeYear(y + 1) then y else YearFrom(day, y + 1)
  }

  /** The month that holds a day of the year, searched upwards from m. */
  function MonthFrom(y: nat, dayOfYear: nat, m: nat): (r: nat)
    requires m < 12 && DaysBeforeMonth(y, m) <= dayOfYear < DaysInYear(y)
    ensures r < 12 && DaysBeforeMonth(y, r) <= dayOfYear < DaysBeforeMonth(y, r) + DaysInMonth(y, r)
    decreases 12 - m
  {
    TwelveMonths(y);
    if dayOfYear < DaysBeforeMonth(y, m) + DaysInMonth(y, m) then m
    else assert DaysBeforeMonth(y, m + 1) <= dayOfYear; MonthFrom(y, dayOfYear, m + 1)
  }

  function LocalTime(t: nat): (r: Tm)
    ensures ValidTime(r) && MkTime(r) == t && DayNumber(r.year, r.mon, r.mday) == t / DAY
  {
    var day, s := t / DAY, t % DAY;
    var y := YearFrom(day, 0);
    var m := MonthFrom(y, day - DaysBeforeYear(y), 0);
    var mday := day - DaysBeforeYear(y) - DaysBeforeMonth(y, m) + 1;
    SecondsOfDay(s);
    Tm(y, m, mday, s / 3600, s / 60 % 60, s % 60)
  }

  lemma SecondsOfDay(s: nat)
    requires s < DAY
    ensures s / 3600 < 24 && s == s / 3600 * 3600 + s / 60 % 60 * 60 + s % 60
  {
    assert s / 60 / 60 == s / 3600;
  }

  // ---- order --------------------------------------------------------------------------------

  predicate DateBefore(y: nat, m: nat, mday: nat, y': nat, m': nat, mday': nat) {
    y < y' || (y == y' && (m < m' || (m == m' && mday < mday')))
  }

  lemma {:induction false} MonthsAscend(y: nat, m: nat, m': nat)
    requires m < m' <= 12
    ensures DaysBeforeMonth(y, m) + DaysInMonth(y, m) <= DaysBeforeMonth(y, m')
    decreases m' - m
  {
    if m + 1 < m' {
      MonthsAscend(y, m, m' - 1);
    }
  }

  lemma {:induction false} YearsAscend(y: nat, y': nat)
    requires y < y'
    ensures DaysBeforeYear(y) + DaysInYear(y) <= DaysBeforeYear(y')
    decreases y' - y
  {
    DaysBeforeNextYear(y' - 1);
    if y + 1 < y' {
      YearsAscend(y, y' - 1);
    }
  }

  /** Day numbers follow the order of the dates. */
  lemma DatesAscend(y: nat, m: nat, mday: nat, y': nat, m': nat, mday': nat)
    requires ValidDate(y, m, mday) && m' < 12 && 1 <= mday'
    requires DateBefore(y, m, mday, y', m', mday')
    ensures DayNumber(y, m, mday) < DayNumber(y', m', mday')
  {
    if y < y' {
      YearsAscend(y, y');
      TwelveMonths(y);
      MonthsAscend(y, m, 12);
    } else if m < m' {
      MonthsAscend(y, m, m');
    }
  }

  lemma SecondsAscend(t: Tm, t': Tm)
    requires t.hour < 24 && t.min < 60 && t.sec < 60
    requires DayNumber(t.year, t.mon, t.mday) < DayNumber(t'.year, t'.mon, t'.mday)
    ensures MkTime(t) < MkTime(t')
    ensures (DayNumber(t.year, t.mon, t.mday) + 1) * DAY <= MkTime(t')
  {
  }

  /** A time has one broken-down form. */
  lemma LocalTimeUnique(t: Tm)
    requires ValidTime(t)
    ensures MkTime(t) >= 0 && LocalTime(MkTime(t)) == t
  {
    var u := LocalTime(MkTime(t));
    var n, n' := DayNumber(t.year, t.mon, t.mday), DayNumber(u.year, u.mon, u.mday);
    assert n == n' by {
      if n < n' { SecondsAscend(t, u); }
      if n' < n { SecondsAscend(u, t); }
    }
    if DateBefore(t.year, t.mon, t.mday, u.year, u.mon, u.mday) {
      DatesAscend(t.year, t.mon, t.mday, u.year, u.mon, u.mday);
    } else if DateBefore(u.year, u.mon, u.mday, t.year, t.mon, t.mday) {
      DatesAscend(u.year, u.mon, u.mday, t.year, t.mon, t.mday);
    }
    SameClock(t.hour, t.min, t.sec, u.hour, u.min, u.sec);
  }

  lemma SameClock(h: nat, m: nat, s: nat, h': nat, m': nat, s': nat)
    requires m < 60 && s < 60 && m' < 60 && s' < 60
    requires h * 3600 + m * 60 + s == h' * 3600 + m' * 60 + s'
    ensures h == h' && m == m' && s == s'
  {
  }

  // ---- every date falls on every weekday -----------------------------------------------------

  /** Four hundred years are a whole number of weeks. */
  lemma CycleOfYears(k: nat, y: nat)
    ensures DaysBeforeYear(400 * k + y) == DaysBeforeYear(y) + 146097 * k
  {
    assert (400 * k + y + 3) / 4 == 100 * k + (y + 3) / 4;
    assert (400 * k + y + 99) / 100 == 4 * k + (y + 99) / 100;
    assert (400 * k + y + 399) / 400 == k + (y + 399) / 400;
  }

  lemma CycleOfLeapYears(k: nat, y: nat)
    ensures IsLeap(400 * k + y) == IsLeap(y)
  {
    Remainder4(100 * k + y / 4, y % 4);
    Remainder100(4 * k + y / 100, y % 100);
    Remainder400(k + y / 400, y % 400);
    assert 400 * k + y == 4 * (100 * k + y / 4) + y % 4;
    assert 400 * k + y == 100 * (4 * k + y / 100) + y % 100;
    assert 400 * k + y == 400 * (k + y / 400) + y % 400;
  }

  lemma Remainder4(q: nat, r: nat)
    requires r < 4
    ensures (4 * q + r) % 4 == r
  {
  }

  lemma Remainder100(q: nat, r: nat)
    requires r < 100
    ensures (100 * q + r) % 100 == r
  {
  }

  lemma Remainder400(q: nat, r: nat)
    requires r < 400
    ensures (400 * q + r) % 400 == r
  {
  }

  /** A year of the wanted kind whose 1 January is r days into the week of 1 January of year 0. */
  function YearStartingOn(leap: bool, r: nat): (y: nat)
    requires r < 7
    ensures IsLeap(y) == leap && DaysBeforeYear(y) % 7 == r
  {
    if leap then
      match r case 0 => 0 case 1 => 12 case 2 => 24 case 3 => 8 case 4 => 20 case 5 => 4 case _ => 16
    else
      match r case 0 => 5 case 1 => 6 case 2 => 1 case 3 => 2 case 4 => 3 case 5 => 9 case _ => 10
  }

  lemma {:induction false} SameMonths(y: nat, y': nat, m: nat)
    requires IsLeap(y) == IsLeap(y') && m <= 12
    ensures DaysBeforeMonth(y, m) == DaysBeforeMonth(y', m)
  {
    if m > 0 {
      SameMonths(y, y', m - 1);
    }
  }

  /** In years of either kind, from any year on, a given date falls on every weekday. */
  lemma YearWithWeekDay(k: nat, leap: bool, m: nat, mday: nat, w: nat) returns (y: nat)
    requires w < 7 && m < 12 && 1 <= mday
    ensures 400 * k <= y && IsLeap(y) == leap && WeekDay(DayNumber(y, m, mday)) == w
  {
    var before := DaysBeforeMonth(if leap then 0 else 1, m) + mday - 1;
    var r := (w + 1 + 6 * before) % 7;
    var y0 := YearStartingOn(leap, r);
    y := 400 * k + y0;
    CycleOfYears(k, y0);
    CycleOfLeapYears(k, y0);
    SameMonths(y, if leap then 0 else 1, m);
    var q, q' := DaysBeforeYear(y0) / 7, (w + 1 + 6 * before) / 7;
    WeekDayIs(DayNumber(y, m, mday), q + 20871 * k - q' + before + 1, w);
  }

  lemma WeekDayIs(day: int, weeks: int, w: nat)
    requires w < 7 && day + 6 == w + 7 * weeks
    ensures WeekDay(day) == w
  {
  }

  /** The epoch of Unix: Thursday, 1 January 1970, counted in seconds from the start of year 0. */
  lemma Epoch()
    ensures DayNumber(1970, 0, 1) == 719528 && WeekDay(719528) == 4
    ensures MkTime(Tm(1970, 0, 1, 0, 0, 0)) == 719528 * DAY
  {
  }
}
