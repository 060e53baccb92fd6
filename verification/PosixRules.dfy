// Transition rules of POSIX TZ strings (IEEE Std 1003.1, Base Definitions, section 8.3): transtime
// and the table that tzparse of libtz.c generates from a pair of rules.
module PosixRules {
  import opened Machine
  import opened Calendar
  import opened CivilTime
  import opened LocalTime

  const EPOCH_YEAR: int := 1970
  const MAX_RULE_SECS: int := 604800

  /** struct rule: Jn, n and Mm.n.d, each with the time of day. */
  datatype Rule =
    | JulianDay(day: int, time: int)
    | DayOfYear(day: int, time: int)
    | MonthNthDay(mon: int, week: int, day: int, time: int)

  /** The ranges getrule accepts. */
  predicate ValidRule(r: Rule)
  {
    && 0 <= r.time <= MAX_RULE_SECS
    && match r
       case JulianDay(day, _) => 1 <= day <= 365
       case DayOfYear(day, _) => 0 <= day <= 365
       case MonthNthDay(mon, week, day, _) => 1 <= mon <= 12 && 1 <= week <= 5 && 0 <= day <= 6
  }

  /** Seconds west of UTC: what getoffset accepts, or an hour less where DST defaults to that. */
  type WestOffset = x: int | -608400 <= x <= 604800

  // ---- the day a rule names

  /** Days from the first of the month to the week-th weekday wday in it, or to the last one. */
  function NthDay(y: int, mon: int, week: int, wday: int): int
    requires 1 <= mon <= 12 && 1 <= week
  {
    var first := (wday - Weekday(DayNumber(y, mon - 1, 1))) % 7;
    var weeks := (MonthLength(IsLeap(y), mon - 1) - 1 - first) / 7;
    first + 7 * (if week - 1 <= weeks then week - 1 else weeks)
  }

  /** Days from January 1 to the day the rule names in year y. */
  function RuleDay(y: int, r: Rule): int
    requires ValidRule(r)
  {
    match r
    case JulianDay(day, _) => day - 1 + if IsLeap(y) && day >= 60 then 1 else 0
    case DayOfYear(day, _) => day
    case MonthNthDay(mon, week, day, _) => DaysBefore(IsLeap(y), mon - 1) + NthDay(y, mon, week, day)
  }

  function TransTimeSpec(y: int, r: Rule, offset: int): int
    requires ValidRule(r)
  {
    (YearStart(y) + RuleDay(y, r)) * SECSPERDAY + r.time + offset
  }

  /** Mm.n.d names a day of its month with the right weekday: the n-th such day or, when the month
      has no n-th one, the last. */
  lemma NthDayIsRight(y: int, mon: int, week: int, wday: int)
    requires 1 <= mon <= 12 && 1 <= week && 0 <= wday <= 6
    ensures var d, len := NthDay(y, mon, week, wday), MonthLength(IsLeap(y), mon - 1);
            && 0 <= d < len
            && Weekday(DayNumber(y, mon - 1, 1 + d)) == wday
            && (d / 7 + 1 == week || (d / 7 + 1 < week && d + 7 >= len))
  {
    hide IsLeap, YearStart, DaysBefore;
    var day1, d := DayNumber(y, mon - 1, 1), NthDay(y, mon, week, wday);
    var first := (wday - Weekday(day1)) % 7;
    assert DayNumber(y, mon - 1, 1 + d) == day1 + d;
    var w := wday - Weekday(day1);
    DivMod(day1 + 4 + first, 7, (day1 + 4) / 7 - w / 7, wday);
    SevenDivides(day1 + d + 4, day1 + 4 + first, (d - first) / 7);
  }

  /** Jn names the same date every year and never February 29. */
  lemma JulianDayIsRight(y: int, day: int, time: int)
    requires ValidRule(JulianDay(day, time))
    ensures var yday, leap := RuleDay(y, JulianDay(day, time)), IsLeap(y);
            && 0 <= yday < YearLength(y)
            && MonthOf(leap, yday) == MonthOf(false, day - 1)
            && yday - DaysBefore(leap, MonthOf(leap, yday)) == day - 1 - DaysBefore(false, MonthOf(false, day - 1))
  {
    var yday, leap := RuleDay(y, JulianDay(day, time)), IsLeap(y);
    MonthTable(leap);
    MonthTable(false);
    var m := MonthOf(false, day - 1);
    if MonthOf(leap, yday) < m { DaysBeforeGrows(leap, MonthOf(leap, yday), m); }
    if m < MonthOf(leap, yday) { DaysBeforeGrows(leap, m, MonthOf(leap, yday)); }
  }

  // ---- the date a rule names

  /** w is midnight of the date that the rule names in year y: for Jn the same month and day as in a
      common year, for n that many days after January 1 (the 366th day of a common year being January 1 of
      the next), and for Mm.n.d a day of its month, with its weekday, that is the n-th such or the last. */
  predicate IsMidnightOf(w: Reading, y: int, r: Rule)
    requires ValidRule(r)
  {
    && ValidReading(w) && w.hour == w.min == w.sec == 0
    && match r
       case JulianDay(day, _) =>
         w.year == y && DaysBefore(false, w.mon) + w.mday == day && w.mday <= MonthLength(false, w.mon)
       case DayOfYear(day, _) =>
         if day < YearLength(y) then w.year == y && DaysBefore(IsLeap(y), w.mon) + w.mday == day + 1
         else w == Reading(y + 1, 0, 1, 0, 0, 0)
       case MonthNthDay(mon, week, day, _) =>
         && w.year == y && w.mon == mon - 1 && Weekday(DayNumber(y, w.mon, w.mday)) == day
         && ((w.mday - 1) / 7 + 1 == week
             || ((w.mday - 1) / 7 + 1 < week && w.mday + 7 > MonthLength(IsLeap(y), w.mon)))
  }

  lemma DateOfDay(y: int, m: int, d: int)
    requires ValidDate(y, m, d)
    ensures Civil(DayNumber(y, m, d) * SECSPERDAY) == Reading(y, m, d, 0, 0, 0)
  {
    hide Civil, DayNumber;
    CivilUnique(Reading(y, m, d, 0, 0, 0));
  }

  lemma DateInYear(y: int, yday: int)
    requires 0 <= yday < YearLength(y)
    ensures var leap := IsLeap(y);
            var m := MonthOf(leap, yday);
            Civil((YearStart(y) + yday) * SECSPERDAY) == Reading(y, m, yday - DaysBefore(leap, m) + 1, 0, 0, 0)
  {
    hide Civil, IsLeap, YearStart, DaysBefore, MonthLength;
    var m := MonthOf(IsLeap(y), yday);
    DateOfDay(y, m, yday - DaysBefore(IsLeap(y), m) + 1);
  }

  /** A rule takes effect its time of day after midnight of the named date, on a clock with the offset. */
  lemma TakesEffect(y: int, r: Rule, offset: int)
    requires ValidRule(r)
    ensures IsMidnightOf(Civil(TransTimeSpec(y, r, offset) - offset - r.time), y, r)
  {
    hide Civil, YearStart, IsLeap, DaysBefore, NthDay, MonthOf;
    match r {
      case JulianDay(day, time) =>
        JulianDayIsRight(y, day, time);
        DateInYear(y, RuleDay(y, r));
        CommonMonth(day - 1);
      case DayOfYear(day, _) =>
        YearStep(y);
        if day < YearLength(y) { DateInYear(y, day); } else { NewYear(y + 1); }
      case MonthNthDay(mon, week, day, _) =>
        NthDayIsRight(y, mon, week, day);
        DateOfDay(y, mon - 1, 1 + NthDay(y, mon, week, day));
    }
  }

  lemma CommonMonth(yday: int)
    requires 0 <= yday < 365
    ensures var m := MonthOf(false, yday); yday - DaysBefore(false, m) + 1 <= MonthLength(false, m)
  {
  }

  lemma NewYear(y: int)
    ensures Civil(YearStart(y) * SECSPERDAY) == Reading(y, 0, 1, 0, 0, 0)
  {
    hide Civil, YearStart;
    DateOfDay(y, 0, 1);
  }

  // ---- transtime

  /** Zeller's congruence as transtime evaluates it. */
  function Zeller(y: int, mon: int): int
    requires 1 <= y && 1 <= mon <= 12
  {
    var m1 := (mon + 9) % 12 + 1;
    var yy0 := if mon <= 2 then y - 1 else y;
    var yy1, yy2 := yy0 / 100, yy0 % 100;
    var dow := TruncMod((26 * m1 - 2) / 10 + 1 + yy2 + yy2 / 4 + yy1 / 4 - 2 * yy1, 7);
    if dow < 0 then dow + 7 else dow
  }

  lemma LeapsByCentury(yy0: int)
    ensures Leaps(yy0) == 24 * (yy0 / 100) + yy0 % 100 / 4 + yy0 / 100 / 4
  {
    var a, b := yy0 / 100, yy0 % 100;
    DivMod(yy0, 4, 25 * a + b / 4, b % 4);
    DivMod(yy0, 400, a / 4, 100 * (a % 4) + b);
  }

  /** Days from March 1 to the first of the month, in the year that starts in March. */
  function MarchDays(mon: int): int
    requires 1 <= mon <= 12
  {
    if mon <= 2 then DaysBefore(false, mon - 1) + 306 else DaysBefore(false, mon - 1) - 59
  }

  /** Counting years from March on, leap days no longer depend on the month. */
  lemma FirstOfMonth(y: int, mon: int)
    requires 1 <= mon <= 12
    ensures var yy0 := if mon <= 2 then y - 1 else y;
            DayNumber(y, mon - 1, 1) == 365 * yy0 + Leaps(yy0) - 719468 + MarchDays(mon)
  {
    assert Leaps(1969) == 477;
    hide Leaps;
    YearStartClosed(y);
    LeapsStep(y);
    MonthTable(true);
    MonthTable(false);
  }

  lemma MonthTerm(mon: int)
    requires 1 <= mon <= 12
    ensures (MarchDays(mon) - 719465 - (26 * ((mon + 9) % 12 + 1) - 2) / 10) % 7 == 0
  {
    MonthTable(false);
  }

  /** The formula gives the weekday of the first of the month. */
  lemma ZellerIsRight(y: int, mon: int)
    requires 1 <= y && 1 <= mon <= 12
    ensures Zeller(y, mon) == Weekday(DayNumber(y, mon - 1, 1))
  {
    hide DayNumber, MarchDays, Leaps;
    var m1 := (mon + 9) % 12 + 1;
    var yy0 := if mon <= 2 then y - 1 else y;
    var a, b, t := yy0 / 100, yy0 % 100, (26 * m1 - 2) / 10;
    var sum := t + 1 + b + b / 4 + a / 4 - 2 * a;
    TruncModSeven(sum);
    FirstOfMonth(y, mon);
    LeapsByCentury(yy0);
    MonthTerm(mon);
    SevenDivides(DayNumber(y, mon - 1, 1) + 4, sum, 52 * yy0 + 18 * a + (MarchDays(mon) - 719465 - t) / 7);
  }

  method TransTime(janfirst: Long, year: int, r: Rule, offset: WestOffset) returns (value: int)
    requires ValidRule(r) && 1 <= year && janfirst == YearStart(year) * SECSPERDAY
    ensures value == TransTimeSpec(year, r, offset)
  {
    var leapyear := IsLeap(year);
    value := janfirst;
    match r {
      case JulianDay(day, _) =>
        value := janfirst + (day - 1) * SECSPERDAY;
        if leapyear && day >= 60 {
          value := value + SECSPERDAY;
        }
      case DayOfYear(day, _) =>
        value := janfirst + day * SECSPERDAY;
      case MonthNthDay(mon, week, day, _) =>
        for i := 0 to mon - 1
          invariant value == janfirst + DaysBefore(leapyear, i) * SECSPERDAY
        {
          value := value + MonthLength(leapyear, i) * SECSPERDAY;
        }
        var d := FindNthDay(year, mon, week, day);
        value := value + d * SECSPERDAY;
    }
    value := value + r.time + offset;
  }

  /** The weekday part of transtime. */
  method FindNthDay(year: int, mon: int, week: int, wday: int) returns (d: int)
    requires 1 <= year && 1 <= mon <= 12 && 1 <= week <= 5 && 0 <= wday <= 6
    ensures d == NthDay(year, mon, week, wday)
  {
    var len := MonthLength(IsLeap(year), mon - 1);
    hide IsLeap, DayNumber, Zeller;
    var dow := Zeller(year, mon);
    ZellerIsRight(year, mon);
    d := wday - dow;
    if d < 0 {
      d := d + 7;
    }

    ghost var first := d;
    for i := 1 to week
      invariant d == first + 7 * (if i - 1 <= (len - 1 - first) / 7 then i - 1 else (len - 1 - first) / 7)
    {
      if d + 7 >= len {
        break;
      }
      d := d + 7;
    }
  }

  // ---- the rule table

  /** What tzparse reads out of a TZ string that has rules. */
  datatype Posix = Posix(stdoffset: WestOffset, dstoffset: WestOffset, start: Rule, end: Rule, std: string, dst: string)

  predicate ValidPosix(p: Posix) { ValidRule(p.start) && ValidRule(p.end) }

  function Starts(p: Posix, y: int): int
    requires ValidPosix(p)
  {
    TransTimeSpec(y, p.start, p.stdoffset)
  }

  function Ends(p: Posix, y: int): int
    requires ValidPosix(p)
  {
    TransTimeSpec(y, p.end, p.dstoffset)
  }

  /** The rules' transitions over all years, in time order: entries 2j and 2j+1 belong to year 1970+j. */
  function RuleAt(p: Posix, k: int): int
    requires ValidPosix(p)
  {
    var y := EPOCH_YEAR + k / 2;
    var s, e := Starts(p, y), Ends(p, y);
    if (s > e) == (k % 2 == 0) then e else s
  }

  /** 0 where DST begins, 1 where it ends. */
  function RuleType(p: Posix, k: int): (r: nat)
    requires ValidPosix(p)
    ensures r <= 1
  {
    var y := EPOCH_YEAR + k / 2;
    if (Starts(p, y) > Ends(p, y)) == (k % 2 == 0) then 1 else 0
  }

  /** The two types of a generated table. */
  function RuleTypes(p: Posix): seq<TtInfo>
  {
    [TtInfo(-(p.dstoffset as int), 1, false, false, p.dst), TtInfo(-(p.stdoffset as int), 0, false, false, p.std)]
  }

  /** A table as tzparse generates it: 600 years from 1970 on. */
  ghost predicate IsRuleTable(p: Posix, z: Zone)
    requires ValidPosix(p)
  {
    && |z.ats| == |z.types| == TZ_MAX_TIMES && z.ttis == RuleTypes(p) && z.lsis == []
    && (forall k :: 0 <= k < TZ_MAX_TIMES ==> z.ats[k] == RuleAt(p, k) && z.types[k] == RuleType(p, k))
  }

  lemma RuleDayBounds(y: int, r: Rule)
    requires ValidRule(r)
    ensures 0 <= RuleDay(y, r) <= 365
    ensures r.MonthNthDay? && 2 <= r.mon <= 11 ==> 31 <= RuleDay(y, r) <= 334
  {
    hide IsLeap, DayNumber, NthDay;
    MonthTable(IsLeap(y));
    if r.MonthNthDay? { NthDayIsRight(y, r.mon, r.week, r.day); }
  }

  lemma TransTimeBounds(y: int, r: Rule, offset: WestOffset)
    requires ValidRule(r)
    ensures var t := TransTimeSpec(y, r, offset) - YearStart(y) * SECSPERDAY;
            -608400 <= t <= 380 * SECSPERDAY
  {
    hide RuleDay;
    RuleDayBounds(y, r);
  }

  /** The loop of tzparse over the years. */
  method FillTable(s: State, p: Posix)
    requires s.Shaped() && s.leapcnt == 0 && ValidPosix(p)
    modifies s`timecnt, s`typecnt, s.ats, s.types, s.ttis
    ensures s.Shaped() && IsRuleTable(p, s.View())
  {
    hide TransTimeSpec, IsLeap;
    s.typecnt := 2;
    s.ttis[0] := TtInfo(-(p.dstoffset as int), 1, false, false, p.dst);
    s.ttis[1] := TtInfo(-(p.stdoffset as int), 0, false, false, p.std);
    assert s.ttis[..2] == RuleTypes(p);
    s.timecnt := 0;
    var year, janfirst: Long := EPOCH_YEAR, 0;
    while s.timecnt + 2 <= TZ_MAX_TIMES
      invariant s.Shaped() && s.leapcnt == 0 && s.typecnt == 2 && s.ttis[..2] == RuleTypes(p)
      invariant s.timecnt == 2 * (year - EPOCH_YEAR) && 0 <= year - EPOCH_YEAR <= 600
      invariant janfirst == YearStart(year) * SECSPERDAY && 0 <= janfirst <= 31622400 * (year - EPOCH_YEAR)
      invariant forall k :: 0 <= k < s.timecnt ==> s.ats[k] == RuleAt(p, k) && s.types[k] == RuleType(p, k)
      decreases TZ_MAX_TIMES - s.timecnt
    {
      var starttime := TransTime(janfirst, year, p.start, p.stdoffset);
      var endtime := TransTime(janfirst, year, p.end, p.dstoffset);
      TransTimeBounds(year, p.start, p.stdoffset);
      TransTimeBounds(year, p.end, p.dstoffset);
      var k := s.timecnt;
      assert k / 2 == (k + 1) / 2 == year - EPOCH_YEAR && k % 2 == 0 && (k + 1) % 2 == 1;
      if starttime > endtime {
        s.ats[k], s.types[k] := endtime, 1;
        s.ats[k + 1], s.types[k + 1] := starttime, 0;
      } else {
        s.ats[k], s.types[k] := starttime, 0;
        s.ats[k + 1], s.types[k + 1] := endtime, 1;
      }
      s.timecnt := s.timecnt + 2;
      YearStep(year);
      var newfirst := janfirst + YearLength(year) * SECSPERDAY;
      if newfirst <= janfirst {
        assert false;
      }
      janfirst := newfirst;
      year := year + 1;
    }
  }
}
