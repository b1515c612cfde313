/** The Schedule class: its constructor, get_next_time and GetNextTime (src/Schedule/Schedule.cpp). */
module ScheduleObject {
  import opened Decimal
  import opened Calendar
  import opened ScheduleLevels
  import opened Schedule
  import opened ScheduleParser

  lemma AcceptedIsNonEmpty(s: Selection)
    requires Accepted(s)
    ensures AllNonEmpty(s)
  {
  }

  /** mktime changes the day or the month exactly when the date is not valid. */
  lemma NormalisedDate(y: nat, d: Digits)
    requires InRange(d)
    ensures MkTime(TmOf(y, d)) >= 0
    ensures var u := LocalTime(MkTime(TmOf(y, d)));
            if ValidDate(y, d[LEVEL_MONTH], d[LEVEL_DAY] + 1) then u == TmOf(y, d)
            else u.mon != d[LEVEL_MONTH]
  {
    hide LocalTime, MkTime, DayNumber;
    if ValidDate(y, d[LEVEL_MONTH], d[LEVEL_DAY] + 1) {
      LocalTimeUnique(TmOf(y, d));
    } else {
      OverflowIsNormal(y, d);
    }
  }

  class CronSchedule {
    const schedule: array<bool>

    ghost predicate Valid() { schedule.Length == LENGTH }

    /** An object whose array is cleared, as the constructor finds it before it reads the description. */
    constructor ()
      ensures Valid() && fresh(schedule) && schedule[..] == Nothing()
    {
      schedule := new bool[LENGTH](_ => false);
    }

    /** One value of a level and the comma behind it. */
    method ConstructValue(text: string, level: nat, start: nat, least: nat, ghost r: Reading)
      returns (i: nat, minDay: nat, refused: Result<()>)
      requires Valid() && level <= LEVEL_WDAY && start <= |text|
      requires r.i == start && r.sel == schedule[..] && r.minDay == least
      modifies schedule
      ensures match ReadValue(text, level, r)
              case Err(reason) => refused == Err(reason)
              case Ok(r') => refused == Ok(()) && r' == Reading(i, schedule[..], false, minDay)
    {
      hide Strtol;
      i, minDay, refused := start, least, Ok(());
      var scan := Strtol(text, i);
      if scan.NoNumber? {
        return i, minDay, Err(NonNumeric);
      }
      var v := scan.value;
      if v < 0 || v >= LevelLength(level) {
        return i, minDay, Err(OutOfRange);
      }
      schedule[LevelOffset(level) + v] := true;
      if level == LEVEL_DAY && v < minDay {
        minDay := v;
      }
      i := scan.end;
      if At(text, i) == ',' {
        i := i + 1;
      }
    }

    method SelectWholeLevel(level: nat)
      requires Valid() && level <= LEVEL_WDAY
      modifies schedule
      ensures schedule[..] == FillLevel(old(schedule[..]), level)
    {
      ghost var sel := schedule[..];
      var offset := LevelOffset(level);
      for k := offset to offset + LevelLength(level)
        invariant forall j :: 0 <= j < LENGTH ==> schedule[j] == (sel[j] || offset <= j < k)
      {
        schedule[k] := true;
      }
    }

    /** The values of one level, or the whole level if none is given, and the semicolon behind it. */
    method ConstructLevel(text: string, level: nat, start: nat, least: nat, ghost r: Reading)
      returns (i: nat, minDay: nat, refused: Result<()>)
      requires Valid() && level <= LEVEL_WDAY && start <= |text|
      requires r.i == start && r.sel == schedule[..] && r.minDay == least
      modifies schedule
      ensures match ReadLevel(text, level, r)
              case Err(reason) => refused == Err(reason)
              case Ok(r') => refused == Ok(()) && r'.i == i && r'.sel == schedule[..] && r'.minDay == minDay
    {
      hide ReadValue, FillLevel;
      var empty := true;
      i, minDay, refused := start, least, Ok(());
      ghost var cur := r.(empty := true);
      while !EndOfLevel(At(text, i))
        invariant i <= |text| && cur == Reading(i, schedule[..], empty, minDay)
        invariant ReadValues(text, level, cur) == ReadValues(text, level, r.(empty := true))
        decreases |text| - i
      {
        i, minDay, refused := ConstructValue(text, level, i, minDay, cur);
        if refused.Err? {
          return;
        }
        empty := false;
        cur := Reading(i, schedule[..], empty, minDay);
      }
      if empty {
        SelectWholeLevel(level);
      }
      if At(text, i) == ';' {
        i := i + 1;
      }
      refused := Ok(());
    }

    /** All six levels, one after the other. */
    method ConstructLevels(text: string, ghost r: Reading)
      returns (i: nat, minDay: nat, refused: Result<()>)
      requires Valid() && r.i == 0 && r.sel == schedule[..] && r.minDay == 32
      modifies schedule
      ensures match ReadLevels(text, 0, r)
              case Err(reason) => refused == Err(reason)
              case Ok(r') => refused == Ok(()) && r'.i == i && r'.sel == schedule[..] && r'.minDay == minDay
    {
      hide ReadLevel;
      var level := 0;
      i, minDay, refused := 0, 32, Ok(());
      ghost var cur := r;
      while level <= LEVEL_WDAY
        invariant level <= LEVEL_WDAY + 1 && i <= |text| && refused == Ok(())
        invariant cur.i == i && cur.sel == schedule[..] && cur.minDay == minDay
        invariant ReadLevels(text, 0, r) == ReadLevels(text, level, cur)
      {
        i, minDay, refused := ConstructLevel(text, level, i, minDay, cur);
        if refused.Err? {
          return;
        }
        cur := ReadLevel(text, level, cur).value;
        level := level + 1;
      }
    }

    /** The constructor: fill the array from a description, or say why it is refused. */
    method Construct(text: string) returns (r: Result<()>)
      requires Valid() && schedule[..] == Nothing()
      modifies schedule
      ensures match Parse(text)
              case Err(reason) => r == Err(reason)
              case Ok(sel) => r == Ok(()) && schedule[..] == sel
    {
      hide ReadLevels;
      if text == "" {
        return Err(Empty);
      }
      var i, minDay, refused := ConstructLevels(text, Reading(0, Nothing(), true, 32));
      if refused.Err? {
        return refused;
      }
      if At(text, i) != '\0' {
        return Err(Garbage);
      }
      if minDay == 29 && !schedule[175] && !schedule[177] && !schedule[178] && !schedule[179] && !schedule[180]
         && !schedule[181] && !schedule[182] && !schedule[183] && !schedule[184] && !schedule[185] && !schedule[186] {
        return Err(Impossible);
      }
      if minDay == 30 && !schedule[175] && !schedule[177] && !schedule[179] && !schedule[181] && !schedule[182]
         && !schedule[184] && !schedule[186] {
        return Err(Impossible);
      }
      r := Ok(());
    }

    /** One search: the level loop, the two restarts and the result. The target bounds the restarts. */
    method NextTimeFrom(now: nat, ghost target: nat) returns (t: nat)
      requires Valid() && Accepted(schedule[..])
      requires SafeTarget(schedule[..], target) && now <= target
      ensures t == NextTime(schedule[..], now)
      decreases target - now
    {
      hide First, Carry, Matches, LocalTime, SafeTarget, Accepted, AllNonEmpty;
      ghost var s := schedule[..];
      var nowT := LocalTime(now);
      var levelNow := new nat[LEVEL_WDAY];
      levelNow[LEVEL_SEC], levelNow[LEVEL_MIN], levelNow[LEVEL_HOUR] := nowT.sec, nowT.min, nowT.hour;
      levelNow[LEVEL_DAY], levelNow[LEVEL_MONTH] := nowT.mday - 1, nowT.mon;
      assert levelNow[..] == Now(now);
      AcceptedIsNonEmpty(s);
      var first, carry := FirstDigits(schedule, levelNow);
      var firstT := Tm(nowT.year + carry, first[LEVEL_MONTH], first[LEVEL_DAY] + 1,
                       first[LEVEL_HOUR], first[LEVEL_MIN], first[LEVEL_SEC]);
      assert first[..][LEVEL_SEC] == first[LEVEL_SEC] && first[..][LEVEL_MIN] == first[LEVEL_MIN]
          && first[..][LEVEL_HOUR] == first[LEVEL_HOUR] && first[..][LEVEL_DAY] == first[LEVEL_DAY]
          && first[..][LEVEL_MONTH] == first[LEVEL_MONTH];
      assert firstT == Candidate(s, now);
      CandidateIsLeast(s, now);
      NormalisedDate(firstT.year, first[..]);
      NextTimeStep(s, now);
      t := MkTime(firstT);
      firstT := LocalTime(t);
      if firstT.mday != first[LEVEL_DAY] + 1 || firstT.mon != first[LEVEL_MONTH] {
        RetryKeepsTarget(s, now, t, target);
        t := NextTimeFrom(t, target);
      } else if !schedule[LevelOffset(LEVEL_WDAY) + WeekDay(t / DAY)] {
        ghost var x := t;
        firstT := firstT.(min := 0, hour := 0, mday := firstT.mday + 1);
        t := MkTime(firstT);
        assert t == StartOfNextDay(x, firstT.sec);
        RetryKeepsTarget(s, now, t, target);
        t := NextTimeFrom(t, target);
      }
    }

    /** GetNextTime, given the clock: the guard against a time in the past never acts. */
    method GetNextTime(now: nat) returns (t: int)
      requires Valid() && Accepted(schedule[..])
      ensures t == NextTime(schedule[..], now + 1) && now < t && Matches(schedule[..], t)
    {
      hide Matches;
      NextTimeMatches(schedule[..], now + 1);
      t := NextTimeFrom(now + 1, Target(schedule[..], now + 1));
      if t <= now {
        t := now + 86400 * 365;
      }
    }
  }
}
