/** The schedule object: its description parser, its satisfiability check and its next time. */
module ScheduleParser {
  import opened Decimal
  import opened Calendar
  import opened ScheduleLevels
  import opened Schedule

  datatype Reason = Empty | NonNumeric | OutOfRange | Garbage | Impossible
  datatype Result<+T> = Ok(value: T) | Err(reason: Reason)

  /** A C string: reading past the last character gives NUL. */
  function At(text: string, i: nat): char { if i < |text| then text[i] else '\0' }

  predicate EndOfLevel(c: char) { c == ';' || c == '\0' }

  /** What reading the values of one level has collected so far. */
  datatype Reading = Reading(i: nat, sel: Selection, empty: bool, minDay: nat)

  /** Select one value of a level. */
  function Mark(level: nat, r: Reading, v: nat): Reading
    requires level <= LEVEL_WDAY && v < LevelLength(level)
  {
    var minDay := if level == LEVEL_DAY && v < r.minDay then v else r.minDay;
    Reading(r.i, r.sel[LevelOffset(level) + v := true], false, minDay)
  }

  /** One value of a level, with the comma behind it. */
  function ReadValue(text: string, level: nat, r: Reading): (r': Result<Reading>)
    requires level <= LEVEL_WDAY && r.i <= |text|
    ensures r'.Ok? ==> r.i < r'.value.i <= |text|
  {
    match Strtol(text, r.i)
    case NoNumber => Err(NonNumeric)
    case Scanned(v, end) =>
      if v < 0 || v >= LevelLength(level) then Err(OutOfRange)
      else Ok(Mark(level, r, v).(i := if At(text, end) == ',' then end + 1 else end))
  }

  function ReadValues(text: string, level: nat, r: Reading): (r': Result<Reading>)
    requires level <= LEVEL_WDAY && r.i <= |text|
    ensures r'.Ok? ==> r.i <= r'.value.i <= |text| && EndOfLevel(At(text, r'.value.i))
    decreases |text| - r.i
  {
    if EndOfLevel(At(text, r.i)) then Ok(r)
    else
      match ReadValue(text, level, r)
      case Err(reason) => Err(reason)
      case Ok(next) => ReadValues(text, level, next)
  }

  function Repeat(b: bool, n: nat): seq<bool> { seq(n, _ => b) }

  /** Select a whole level. */
  function FillLevel(sel: Selection, level: nat): (r: Selection)
    requires level <= LEVEL_WDAY
    ensures forall k :: 0 <= k < LENGTH ==>
              r[k] == (sel[k] || LevelOffset(level) <= k < LevelOffset(level) + LevelLength(level))
  {
    var from, to := LevelOffset(level), LevelOffset(level) + LevelLength(level);
    sel[..from] + Repeat(true, to - from) + sel[to..]
  }

  /** One level and the semicolon behind it. A level without values is a full one. */
  function ReadLevel(text: string, level: nat, r: Reading): (r': Result<Reading>)
    requires level <= LEVEL_WDAY && r.i <= |text|
    ensures r'.Ok? ==> r.i <= r'.value.i <= |text|
  {
    match ReadValues(text, level, r.(empty := true))
    case Err(reason) => Err(reason)
    case Ok(v) =>
      var sel := if v.empty then FillLevel(v.sel, level) else v.sel;
      Ok(v.(sel := sel, i := if At(text, v.i) == ';' then v.i + 1 else v.i))
  }

  function ReadLevels(text: string, level: nat, r: Reading): Result<Reading>
    requires level <= LEVEL_WDAY + 1 && r.i <= |text|
    decreases LEVEL_WDAY + 1 - level
  {
    if level > LEVEL_WDAY then Ok(r)
    else
      match ReadLevel(text, level, r)
      case Err(reason) => Err(reason)
      case Ok(next) => ReadLevels(text, level + 1, next)
  }

  function Nothing(): Selection { Repeat(false, LENGTH) }

  /** The selection a description stands for, and the least selected day (32 if the days are left open). */
  function ReadText(text: string): Result<Reading> {
    if text == "" then Err(Empty)
    else
      match ReadLevels(text, 0, Reading(0, Nothing(), true, 32))
      case Err(reason) => Err(reason)
      case Ok(r) => if At(text, r.i) != '\0' then Err(Garbage) else Ok(r)
  }

  /** The constructor's test for days that none of the selected months has. */
  predicate SeemsPossible(sel: Selection, minDay: nat) {
    && !(minDay == 29 && !sel[175] && !sel[177] && !sel[178] && !sel[179] && !sel[180] && !sel[181] && !sel[182]
         && !sel[183] && !sel[184] && !sel[185] && !sel[186])
    && !(minDay == 30 && !sel[175] && !sel[177] && !sel[179] && !sel[181] && !sel[182] && !sel[184] && !sel[186])
  }

  function Parse(text: string): Result<Selection> {
    match ReadText(text)
    case Err(reason) => Err(reason)
    case Ok(r) => if SeemsPossible(r.sel, r.minDay) then Ok(r.sel) else Err(Impossible)
  }

  // ---- what a description selects ------------------------------------------------------------------

  /** The values of the other levels are left alone. */
  ghost predicate OnlyLevel(level: nat, sel: Selection, sel': Selection)
    requires level <= LEVEL_WDAY
  {
    forall k :: 0 <= k < LENGTH && !(LevelOffset(level) <= k < LevelOffset(level) + LevelLength(level)) ==> sel'[k] == sel[k]
  }

  /** The days read so far: none, or the least of them is known. */
  ghost predicate LeastDay(sel: Selection, empty: bool, minDay: nat) {
    if empty then minDay == 32 && forall j: nat :: !Selected(sel, LEVEL_DAY, j)
    else Selected(sel, LEVEL_DAY, minDay) && forall j: nat :: Selected(sel, LEVEL_DAY, j) ==> minDay <= j
  }

  lemma {:induction false} ReadValuesFacts(text: string, level: nat, r: Reading)
    requires level <= LEVEL_WDAY && r.i <= |text| && ReadValues(text, level, r).Ok?
    requires r.empty || NonEmpty(r.sel, level)
    requires level == LEVEL_DAY ==> LeastDay(r.sel, r.empty, r.minDay)
    ensures var r' := ReadValues(text, level, r).value;
            && (r'.empty || NonEmpty(r'.sel, level)) && OnlyLevel(level, r.sel, r'.sel)
            && (if level == LEVEL_DAY then LeastDay(r'.sel, r'.empty, r'.minDay) else r'.minDay == r.minDay)
    decreases |text| - r.i
  {
    if !EndOfLevel(At(text, r.i)) {
      var next := ReadValue(text, level, r).value;
      var v := Strtol(text, r.i).value;
      assert Selected(next.sel, level, v);
      forall j: nat | j != v
        ensures Selected(next.sel, level, j) == Selected(r.sel, level, j)
      {
      }
      ReadValuesFacts(text, level, next);
    }
  }

  /** The days of a whole description: all of them, or with a known least one. */
  ghost predicate DaysRead(sel: Selection, minDay: nat) {
    (minDay == 32 && Selected(sel, LEVEL_DAY, 0)) || LeastDay(sel, false, minDay)
  }

  lemma ReadLevelFacts(text: string, level: nat, r: Reading)
    requires level <= LEVEL_WDAY && r.i <= |text| && ReadLevel(text, level, r).Ok?
    requires level == LEVEL_DAY ==> LeastDay(r.sel, true, r.minDay)
    ensures var r' := ReadLevel(text, level, r).value;
            && NonEmpty(r'.sel, level) && OnlyLevel(level, r.sel, r'.sel)
            && (if level == LEVEL_DAY then DaysRead(r'.sel, r'.minDay) else r'.minDay == r.minDay)
  {
    ReadValuesFacts(text, level, r.(empty := true));
    assert Selected(FillLevel(ReadValues(text, level, r.(empty := true)).value.sel, level), level, 0);
  }

  /** The levels before `level` are not empty, and the days before their level are untouched. */
  ghost predicate ReadUpTo(level: nat, r: Reading) {
    && (forall k :: 0 <= k < level && k <= LEVEL_WDAY ==> NonEmpty(r.sel, k))
    && (if level <= LEVEL_DAY then LeastDay(r.sel, true, r.minDay) else DaysRead(r.sel, r.minDay))
  }

  ghost predicate SameLevel(sel: Selection, sel': Selection, k: nat)
    requires k <= LEVEL_WDAY
  {
    forall j: nat :: Selected(sel', k, j) == Selected(sel, k, j)
  }

  lemma OtherLevel(level: nat, k: nat, sel: Selection, sel': Selection)
    requires level <= LEVEL_WDAY && k <= LEVEL_WDAY && k != level && OnlyLevel(level, sel, sel')
    ensures SameLevel(sel, sel', k)
    ensures NonEmpty(sel, k) ==> NonEmpty(sel', k)
  {
    if NonEmpty(sel, k) {
      var j :| Selected(sel, k, j);
      assert Selected(sel', k, j);
    }
  }

  lemma ReadLevelAdvances(text: string, level: nat, r: Reading)
    requires level <= LEVEL_WDAY && r.i <= |text| && ReadLevel(text, level, r).Ok? && ReadUpTo(level, r)
    ensures ReadUpTo(level + 1, ReadLevel(text, level, r).value)
  {
    hide ReadLevel, Selected;
    var r' := ReadLevel(text, level, r).value;
    ReadLevelFacts(text, level, r);
    forall k | 0 <= k < level
      ensures NonEmpty(r'.sel, k)
    {
      OtherLevel(level, k, r.sel, r'.sel);
    }
    if level != LEVEL_DAY {
      OtherLevel(level, LEVEL_DAY, r.sel, r'.sel);
    }
  }

  lemma {:induction false} ReadLevelsFacts(text: string, level: nat, r: Reading)
    requires level <= LEVEL_WDAY + 1 && r.i <= |text| && ReadLevels(text, level, r).Ok? && ReadUpTo(level, r)
    ensures ReadUpTo(LEVEL_WDAY + 1, ReadLevels(text, level, r).value)
    decreases LEVEL_WDAY + 1 - level
  {
    if level <= LEVEL_WDAY {
      ReadLevelAdvances(text, level, r);
      ReadLevelsFacts(text, level + 1, ReadLevel(text, level, r).value);
    }
  }

  /** Every level of a description that parses selects something. */
  lemma TextFacts(text: string)
    requires ReadText(text).Ok?
    ensures var r := ReadText(text).value; AllNonEmpty(r.sel) && DaysRead(r.sel, r.minDay)
  {
    ReadLevelsFacts(text, 0, Reading(0, Nothing(), true, 32));
  }

  /** The month indices that the constructor's test names are the months long enough for the least day. */
  lemma SeemsPossibleIsHasDate(sel: Selection, minDay: nat)
    requires AllNonEmpty(sel) && DaysRead(sel, minDay)
    ensures SeemsPossible(sel, minDay) <==> HasDate(sel)
  {
    assert NonEmpty(sel, LEVEL_MONTH);
    if SeemsPossible(sel, minDay) {
      var m := LongEnoughMonth(sel, minDay);
      var d := if minDay == 32 then 0 else minDay;
      assert Selected(sel, LEVEL_DAY, d) && d < LongestMonth(m);
    } else {
      assert forall m: nat :: Selected(sel, LEVEL_MONTH, m) ==> LongestMonth(m) <= minDay;
    }
  }

  lemma LongEnoughMonth(sel: Selection, minDay: nat) returns (m: nat)
    requires NonEmpty(sel, LEVEL_MONTH) && SeemsPossible(sel, minDay) && (minDay < 31 || minDay == 32)
    ensures Selected(sel, LEVEL_MONTH, m) && (minDay < 31 ==> minDay < LongestMonth(m))
  {
    m :| Selected(sel, LEVEL_MONTH, m);
    if minDay == 29 || minDay == 30 {
      m := if sel[175] then 0 else if sel[177] then 2 else if sel[179] then 4 else if sel[181] then 6
           else if sel[182] then 7 else if sel[184] then 9 else if sel[186] then 11
           else if sel[178] then 3 else if sel[180] then 5 else if sel[183] then 8 else 10;
    }
  }

  /** A selection has a match exactly when some selected month has a selected day. */
  lemma HasDateIsSatisfiable(sel: Selection)
    requires AllNonEmpty(sel)
    ensures HasDate(sel) <==> exists t: nat :: Matches(sel, t)
  {
    hide HasDate, Matches;
    if HasDate(sel) {
      var t := SafeTargetExists(sel, 0);
      assert Matches(sel, t);
    }
    if t: nat :| Matches(sel, t) {
      MatchHasDate(sel, t);
    }
  }

  lemma MatchHasDate(sel: Selection, t: nat)
    requires Matches(sel, t)
    ensures HasDate(sel)
  {
    hide LocalTime;
    var u := LocalTime(t);
    assert Selected(sel, LEVEL_MONTH, u.mon) && Selected(sel, LEVEL_DAY, u.mday - 1);
    assert u.mday - 1 < LongestMonth(u.mon);
  }

  /** Of the descriptions that parse, exactly those are rejected as impossible that no time ever matches. */
  lemma ImpossibleExactly(text: string)
    requires ReadText(text).Ok?
    ensures Parse(text) == Err(Impossible) <==> !exists t: nat :: Matches(ReadText(text).value.sel, t)
    ensures Parse(text).Ok? ==> Accepted(Parse(text).value)
  {
    var r := ReadText(text).value;
    TextFacts(text);
    SeemsPossibleIsHasDate(r.sel, r.minDay);
    HasDateIsSatisfiable(r.sel);
  }

  // ---- reading back a written description ----------------------------------------------------------

  function WriteValue(v: int): (s: string)
    ensures s != [] && (s[0] == '-' || IsDigit(s[0]))
  {
    if v < 0 then ['-'] + Numeral(-v) else Numeral(v)
  }

  /** The values of a level, separated by commas. */
  function WriteValues(values: seq<int>): string {
    if values == [] then "" else if |values| == 1 then WriteValue(values[0])
    else WriteValue(values[0]) + "," + WriteValues(values[1..])
  }

  /** The levels of a schedule, separated by semicolons. */
  function WriteLevels(levels: seq<seq<int>>): string {
    if levels == [] then "" else if |levels| == 1 then WriteValues(levels[0])
    else WriteValues(levels[0]) + ";" + WriteLevels(levels[1..])
  }

  predicate ValuesInRange(level: nat, values: seq<int>)
    requires level <= LEVEL_WDAY
  {
    forall k :: 0 <= k < |values| ==> 0 <= values[k] < LevelLength(level)
  }

  /** What a list of values selects at its level. */
  predicate Lists(values: seq<int>, j: nat) { values == [] || j in values }

  lemma NumeralInText(before: string, n: nat, after: string)
    requires after == "" || !IsDigit(after[0])
    ensures var s := Numeral(n);
            Strtol(before + s + after, |before|) == Scanned(n, |before| + |s|)
  {
    var s := Numeral(n);
    var text := before + s + after;
    assert text[|before|..|before| + |s|] == s;
    StrtolDigits(text, |before|, |before| + |s|);
  }

  lemma MinusInText(before: string, n: nat, after: string)
    requires after == "" || !IsDigit(after[0])
    ensures var s := ['-'] + Numeral(n);
            Strtol(before + s + after, |before|) == Scanned(-(n as int), |before| + |s|)
  {
    var s := Numeral(n);
    var text := before + (['-'] + s) + after;
    hide Numeral, Strtol;
    assert text[|before| + 1..|before| + 1 + |s|] == s;
    assert text[|before|] == '-';
    StrtolMinus(text, |before|, |before| + 1 + |s|);
  }

  lemma ValueInText(before: string, v: int, after: string)
    requires after == "" || !IsDigit(after[0])
    ensures Strtol(before + WriteValue(v) + after, |before|) == Scanned(v, |before| + |WriteValue(v)|)
  {
    hide Strtol, Numeral;
    if v < 0 {
      MinusInText(before, -v, after);
    } else {
      NumeralInText(before, v, after);
    }
  }

  /** Select a list of values of a level. */
  function MarkAll(level: nat, r: Reading, values: seq<int>): Reading
    requires level <= LEVEL_WDAY && ValuesInRange(level, values)
    decreases |values|
  {
    if values == [] then r else MarkAll(level, Mark(level, r, values[0]), values[1..])
  }

  lemma {:induction false} MarkAllFacts(level: nat, r: Reading, values: seq<int>)
    requires level <= LEVEL_WDAY && ValuesInRange(level, values)
    ensures var r' := MarkAll(level, r, values);
            && r'.empty == (r.empty && values == []) && OnlyLevel(level, r.sel, r'.sel)
            && forall j: nat :: Selected(r'.sel, level, j) <==> Selected(r.sel, level, j) || j in values
    decreases |values|
  {
    if values != [] {
      MarkAllFacts(level, Mark(level, r, values[0]), values[1..]);
      assert values == [values[0]] + values[1..];
    }
  }

  lemma {:induction false} MarkAllKeepsPlace(level: nat, r: Reading, values: seq<int>, i: nat)
    requires level <= LEVEL_WDAY && ValuesInRange(level, values)
    ensures MarkAll(level, r.(i := i), values) == MarkAll(level, r, values).(i := i)
    decreases |values|
  {
    if values != [] { MarkAllKeepsPlace(level, Mark(level, r, values[0]), values[1..], i); }
  }

  /** One written value is read with the comma behind it, or refused if the level has no such value. */
  lemma ReadWrittenValue(before: string, v: int, after: string, level: nat, r: Reading)
    requires level <= LEVEL_WDAY && r.i == |before|
    requires after == "" || after[0] == ';' || after[0] == ','
    ensures var text := before + WriteValue(v) + after;
            && !EndOfLevel(At(text, r.i))
            && (!(0 <= v < LevelLength(level)) ==> ReadValue(text, level, r) == Err(OutOfRange))
            && (0 <= v < LevelLength(level) ==>
                  ReadValue(text, level, r)
                  == Ok(Mark(level, r, v).(i := |before| + |WriteValue(v)| + if after != "" && after[0] == ',' then 1 else 0)))
  {
    ValueInText(before, v, after);
    hide Strtol, WriteValue, Mark;
    var s, text := WriteValue(v), before + WriteValue(v) + after;
    assert text[|before|] == s[0];
    assert after != "" ==> text[|before| + |s|] == after[0];
  }

  /** Reading written values selects them and stops behind them. */
  lemma {:induction false} ReadWrittenValues(before: string, values: seq<int>, after: string, level: nat, r: Reading)
    requires level <= LEVEL_WDAY && ValuesInRange(level, values)
    requires after == "" || after[0] == ';'
    requires r.i == |before|
    ensures ReadValues(before + WriteValues(values) + after, level, r)
         == Ok(MarkAll(level, r, values).(i := |before| + |WriteValues(values)|))
    decreases |values|
  {
    hide ReadValue, Mark, WriteValue, At;
    var text := before + WriteValues(values) + after;
    if values == [] {
      assert text == before + after;
      EndBehind(before, after);
    } else if |values| == 1 {
      ReadWrittenValue(before, values[0], after, level, r);
      assert text == before + WriteValue(values[0]) + after;
      EndBehind(before + WriteValue(values[0]), after);
      MarkKeepsPlace(level, r, values[0]);
      assert values[1..] == [];
    } else {
      var next := WriteValues(values[1..]);
      ReadWrittenValue(before, values[0], "," + next + after, level, r);
      assert text == before + WriteValue(values[0]) + ("," + next + after);
      var before' := before + WriteValue(values[0]) + ",";
      assert text == before' + next + after;
      var r' := Mark(level, r, values[0]).(i := |before'|);
      ReadWrittenValues(before', values[1..], after, level, r');
      MarkAllKeepsPlace(level, Mark(level, r, values[0]), values[1..], |before'|);
    }
  }

  lemma MarkKeepsPlace(level: nat, r: Reading, v: int)
    requires level <= LEVEL_WDAY && 0 <= v < LevelLength(level)
    ensures Mark(level, r, v).i == r.i
  {
  }

  lemma EndBehind(before: string, after: string)
    requires after == "" || after[0] == ';'
    ensures EndOfLevel(At(before + after, |before|))
  {
  }

  ghost predicate NothingAt(sel: Selection, level: nat)
    requires level <= LEVEL_WDAY
  {
    forall j: nat :: !Selected(sel, level, j)
  }

  /** A level selects exactly the listed values, or all of them if none is listed. */
  ghost predicate SelectsList(sel: Selection, level: nat, values: seq<int>)
    requires level <= LEVEL_WDAY
  {
    forall j: nat :: Selected(sel, level, j) <==> j < LevelLength(level) && Lists(values, j)
  }

  lemma ReadWrittenLevel(before: string, values: seq<int>, after: string, level: nat, r: Reading)
    requires level <= LEVEL_WDAY && ValuesInRange(level, values) && r.i == |before| && NothingAt(r.sel, level)
    requires after == "" || after[0] == ';'
    ensures var r' := ReadLevel(before + WriteValues(values) + after, level, r);
            && r'.Ok? && r'.value.i == |before| + |WriteValues(values)| + (if after == "" then 0 else 1)
            && OnlyLevel(level, r.sel, r'.value.sel) && SelectsList(r'.value.sel, level, values)
  {
    hide ReadValues, WriteValues;
    ReadWrittenValues(before, values, after, level, r.(empty := true));
    MarkAllFacts(level, r.(empty := true), values);
    assert after != "" ==> (before + WriteValues(values) + after)[|before| + |WriteValues(values)|] == after[0];
  }

  ghost predicate AllSelectLists(sel: Selection, level: nat, levels: seq<seq<int>>)
    requires level + |levels| == LEVEL_WDAY + 1
  {
    forall k :: 0 <= k < |levels| ==> SelectsList(sel, level + k, levels[k])
  }

  predicate LevelsInRange(level: nat, levels: seq<seq<int>>)
    requires level + |levels| == LEVEL_WDAY + 1
  {
    forall k :: 0 <= k < |levels| ==> ValuesInRange(level + k, levels[k])
  }

  /** A text with some levels, seen from the first one. */
  lemma FirstLevel(before: string, levels: seq<seq<int>>, rest: string)
    requires levels != []
    ensures var after := if |levels| == 1 then rest else ";" + WriteLevels(levels[1..]) + rest;
            before + WriteLevels(levels) + rest == before + WriteValues(levels[0]) + after
    ensures |levels| > 1 ==>
              before + WriteLevels(levels) + rest
              == before + WriteValues(levels[0]) + ";" + WriteLevels(levels[1..]) + rest
  {
    if |levels| > 1 {
      var first, others := WriteValues(levels[0]), WriteLevels(levels[1..]);
      assert WriteLevels(levels) == first + ";" + others;
      hide WriteLevels, WriteValues;
      Associate(before, first, others, rest);
    }
  }

  lemma Associate(a: string, b: string, c: string, d: string)
    ensures a + (b + ";" + c) + d == a + b + (";" + c + d)
    ensures a + (b + ";" + c) + d == a + b + ";" + c + d
  {
  }

  lemma {:induction false} ReadWrittenLevels(before: string, levels: seq<seq<int>>, rest: string, level: nat,
                                             r: Reading)
    requires levels != [] && level + |levels| == LEVEL_WDAY + 1 && LevelsInRange(level, levels) && r.i == |before|
    requires rest == "" || rest[0] == ';'
    requires forall k :: level <= k <= LEVEL_WDAY ==> NothingAt(r.sel, k)
    ensures var r' := ReadLevels(before + WriteLevels(levels) + rest, level, r);
            && r'.Ok? && r'.value.i == |before + WriteLevels(levels)| + (if rest == "" then 0 else 1)
            && AllSelectLists(r'.value.sel, level, levels)
            && forall k :: 0 <= k < level ==> SameLevel(r.sel, r'.value.sel, k)
    decreases |levels|
  {
    hide ReadLevel, WriteValues, WriteLevels, Selected;
    var text := before + WriteLevels(levels) + rest;
    var after := if |levels| == 1 then rest else ";" + WriteLevels(levels[1..]) + rest;
    FirstLevel(before, levels, rest);
    assert ValuesInRange(level + 0, levels[0]);
    ReadWrittenLevel(before, levels[0], after, level, r);
    var next := ReadLevel(text, level, r).value;
    forall k | 0 <= k <= LEVEL_WDAY && k != level
      ensures SameLevel(r.sel, next.sel, k)
    {
      OtherLevel(level, k, r.sel, next.sel);
    }
    if |levels| == 1 {
      LastLevel(text, level, next);
      OneLevelText(levels);
    } else {
      OtherLevels(level, levels, r, next);
      var before' := before + WriteValues(levels[0]) + ";";
      assert text == before' + WriteLevels(levels[1..]) + rest;
      ReadWrittenLevels(before', levels[1..], rest, level + 1, next);
      var sel := ReadLevels(text, level, r).value.sel;
      assert |before + WriteLevels(levels)| + |rest| == |text| == |before' + WriteLevels(levels[1..])| + |rest|;
      assert SameLevel(next.sel, sel, level);
      forall k | 0 <= k < level
        ensures SameLevel(r.sel, sel, k)
      {
        assert SameLevel(r.sel, next.sel, k) && SameLevel(next.sel, sel, k);
      }
      forall k | 0 <= k < |levels|
        ensures SelectsList(sel, level + k, levels[k])
      {
        if k > 0 {
          assert SelectsList(sel, level + 1 + (k - 1), levels[1..][k - 1]);
        }
      }
    }
  }

  lemma LastLevel(text: string, level: nat, r: Reading)
    requires level == LEVEL_WDAY && r.i <= |text|
    ensures ReadLevels(text, level + 1, r) == Ok(r)
  {
  }

  lemma OneLevelText(levels: seq<seq<int>>)
    requires |levels| == 1
    ensures WriteLevels(levels) == WriteValues(levels[0])
  {
  }

  /** What the other levels need is there still when one has been read. */
  lemma OtherLevels(level: nat, levels: seq<seq<int>>, r: Reading, next: Reading)
    requires levels != [] && level + |levels| == LEVEL_WDAY + 1 && LevelsInRange(level, levels)
    requires forall k :: level <= k <= LEVEL_WDAY ==> NothingAt(r.sel, k)
    requires forall k :: 0 <= k <= LEVEL_WDAY && k != level ==> SameLevel(r.sel, next.sel, k)
    ensures LevelsInRange(level + 1, levels[1..]) && forall k :: level + 1 <= k <= LEVEL_WDAY ==> NothingAt(next.sel, k)
  {
    hide Selected;
    forall k | level + 1 <= k <= LEVEL_WDAY
      ensures NothingAt(next.sel, k)
    {
      assert NothingAt(r.sel, k) && SameLevel(r.sel, next.sel, k);
    }
    forall k | 0 <= k < |levels| - 1
      ensures ValuesInRange(level + 1 + k, levels[1..][k])
    {
      assert ValuesInRange(level + (k + 1), levels[k + 1]);
    }
  }

  // ---- what is refused -----------------------------------------------------------------------------

  lemma {:induction false} RefuseValues(before: string, values: seq<int>, after: string, level: nat, r: Reading)
    requires level <= LEVEL_WDAY && !ValuesInRange(level, values) && r.i == |before|
    requires after == "" || after[0] == ';'
    ensures ReadValues(before + WriteValues(values) + after, level, r) == Err(OutOfRange)
    decreases |values|
  {
    hide ReadValue, Mark, WriteValue, At;
    var text := before + WriteValues(values) + after;
    if |values| == 1 {
      ReadWrittenValue(before, values[0], after, level, r);
    } else {
      var next := WriteValues(values[1..]);
      ReadWrittenValue(before, values[0], "," + next + after, level, r);
      assert text == before + WriteValue(values[0]) + ("," + next + after);
      if 0 <= values[0] < LevelLength(level) {
        var before' := before + WriteValue(values[0]) + ",";
        assert text == before' + next + after;
        assert values == [values[0]] + values[1..];
        RefuseValues(before', values[1..], after, level, Mark(level, r, values[0]).(i := |before'|));
      }
    }
  }

  lemma {:induction false} RefuseLevels(before: string, levels: seq<seq<int>>, rest: string, level: nat, r: Reading)
    requires levels != [] && level + |levels| == LEVEL_WDAY + 1 && !LevelsInRange(level, levels) && r.i == |before|
    requires rest == "" || rest[0] == ';'
    requires forall k :: level <= k <= LEVEL_WDAY ==> NothingAt(r.sel, k)
    ensures ReadLevels(before + WriteLevels(levels) + rest, level, r) == Err(OutOfRange)
    decreases |levels|
  {
    hide ReadLevel, WriteValues, WriteLevels, Selected;
    var text := before + WriteLevels(levels) + rest;
    var after := if |levels| == 1 then rest else ";" + WriteLevels(levels[1..]) + rest;
    FirstLevel(before, levels, rest);
    if !ValuesInRange(level, levels[0]) {
      RefuseLevel(before, levels[0], after, level, r);
    } else {
      ReadWrittenLevel(before, levels[0], after, level, r);
      var next := ReadLevel(text, level, r).value;
      forall k | level + 1 <= k <= LEVEL_WDAY
        ensures NothingAt(next.sel, k)
      {
        OtherLevel(level, k, r.sel, next.sel);
        assert NothingAt(r.sel, k) && SameLevel(r.sel, next.sel, k);
      }
      assert !LevelsInRange(level + 1, levels[1..]) by {
        var k :| 0 <= k < |levels| && !ValuesInRange(level + k, levels[k]);
        assert !ValuesInRange(level + 1 + (k - 1), levels[1..][k - 1]);
      }
      var before' := before + WriteValues(levels[0]) + ";";
      assert text == before' + WriteLevels(levels[1..]) + rest;
      RefuseLevels(before', levels[1..], rest, level + 1, next);
    }
  }

  lemma RefuseLevel(before: string, values: seq<int>, after: string, level: nat, r: Reading)
    requires level <= LEVEL_WDAY && !ValuesInRange(level, values) && r.i == |before|
    requires after == "" || after[0] == ';'
    ensures ReadLevel(before + WriteValues(values) + after, level, r) == Err(OutOfRange)
  {
    RefuseValues(before, values, after, level, r.(empty := true));
  }

  /**
   A written schedule with something behind it is refused as out of range if any value is, and otherwise as garbage if
   more than a last semicolon follows; if it is not refused, each level selects the listed values, or all of them.
   */
  lemma ReadBack(levels: seq<seq<int>>, rest: string)
    requires |levels| == LEVEL_WDAY + 1 && (rest == "" || rest[0] == ';')
    ensures var r := ReadText(WriteLevels(levels) + rest);
            if !LevelsInRange(0, levels) then r == Err(OutOfRange)
            else if |rest| > 1 && rest[1] != '\0' then r == Err(Garbage)
            else r.Ok? && AllSelectLists(r.value.sel, 0, levels)
  {
    var start := Reading(0, Nothing(), true, 32);
    assert "" + WriteLevels(levels) + rest == WriteLevels(levels) + rest;
    LevelsNotEmpty(levels);
    hide WriteLevels, WriteValues, LevelsInRange;
    if LevelsInRange(0, levels) {
      ReadWrittenLevels("", levels, rest, 0, start);
      assert "" + WriteLevels(levels) == WriteLevels(levels);
      hide ReadLevels, SelectsList, NothingAt;
      Behind(WriteLevels(levels), rest);
    } else {
      RefuseLevels("", levels, rest, 0, start);
      hide ReadLevels;
    }
  }

  lemma LevelsNotEmpty(levels: seq<seq<int>>)
    requires |levels| > 1
    ensures WriteLevels(levels) != ""
  {
  }

  lemma Behind(s: string, rest: string)
    ensures At(s + rest, |s| + if rest == "" then 0 else 1) == if |rest| > 1 then rest[1] else '\0'
  {
    if |rest| > 1 { assert (s + rest)[|s| + 1] == rest[1]; }
  }

  /** What starts neither a number nor ends a level is refused. */
  lemma RefuseLetter(text: string)
    requires text != "" && !IsDigit(text[0]) && !IsSpace(text[0]) && text[0] != '-' && text[0] != '+'
    requires !EndOfLevel(text[0])
    ensures ReadText(text) == Err(NonNumeric)
  {
    assert SkipSpaces(text, 0) == 0;
    assert Strtol(text, 0) == NoNumber;
    var r := Reading(0, Nothing(), true, 32);
    assert ReadValue(text, 0, r) == Err(NonNumeric);
    assert ReadLevel(text, 0, r) == Err(NonNumeric);
  }
}
