// Order and periodicity of the transitions that a pair of rules prescribes over all years.
module RuleOrder {
  import opened Calendar
  import opened CivilTime
  import opened PosixRules

  /** A rule that keeps away from both ends of the year, so that no permitted time of day and UTC
      offset carries its transitions into another year. Mm.n.d does so from February to November, from
      the third week of January on, and up to the second week of December. */
  predicate MidYear(r: Rule)
  {
    ValidRule(r) &&
    match r
    case JulianDay(day, _) => 9 <= day <= 350
    case DayOfYear(day, _) => 8 <= day <= 350
    case MonthNthDay(mon, week, _, _) => 2 <= mon <= 11 || (mon == 1 && week >= 3) || (mon == 12 && week <= 2)
  }

  predicate MidYearRules(p: Posix) { MidYear(p.start) && MidYear(p.end) }

  /** Both transitions of a year lie inside that year, in UTC. */
  lemma InsideYear(p: Posix, y: int)
    requires MidYearRules(p)
    ensures YearStart(y) * SECSPERDAY <= Starts(p, y) < YearStart(y + 1) * SECSPERDAY
    ensures YearStart(y) * SECSPERDAY <= Ends(p, y) < YearStart(y + 1) * SECSPERDAY
  {
    hide RuleDay, IsLeap;
    YearStep(y);
    MidDay(y, p.start);
    MidDay(y, p.end);
  }

  /** Its day is at least a week from either end in every year. */
  lemma MidDay(y: int, r: Rule)
    requires MidYear(r)
    ensures 8 <= RuleDay(y, r) <= 350
  {
    if r.MonthNthDay? {
      hide NthDay, IsLeap;
      NthDayIsRight(y, r.mon, r.week, r.day);
      MonthTable(IsLeap(y));
    }
  }

  /** The year of entry k. */
  function YearAt(k: int): int { EPOCH_YEAR + k / 2 }

  lemma RuleStep(p: Posix, k: int)
    requires MidYearRules(p)
    ensures YearStart(YearAt(k)) * SECSPERDAY <= RuleAt(p, k) < YearStart(YearAt(k) + 1) * SECSPERDAY
    ensures RuleAt(p, k) <= RuleAt(p, k + 1)
    ensures RuleAt(p, k) == RuleAt(p, k + 1) <==> k % 2 == 0 && Starts(p, YearAt(k)) == Ends(p, YearAt(k))
  {
    hide TransTimeSpec, YearStart;
    InsideYear(p, YearAt(k));
    InsideYear(p, YearAt(k) + 1);
    assert if k % 2 == 0 then YearAt(k + 1) == YearAt(k) else YearAt(k + 1) == YearAt(k) + 1;
  }

  /** The generated sequence of transitions is in time order, over all years. */
  lemma {:induction false} RulesSorted(p: Posix, j: int, k: int)
    requires MidYearRules(p) && j <= k
    ensures RuleAt(p, j) <= RuleAt(p, k)
    decreases k - j
  {
    if j < k {
      RulesSorted(p, j, k - 1);
      RuleStep(p, k - 1);
    }
  }

  // ---- periodicity

  lemma NthDayRepeats(y: int, c: int, mon: int, week: int, wday: int)
    requires 1 <= mon <= 12 && 1 <= week
    ensures NthDay(y + YEARSPERREPEAT * c, mon, week, wday) == NthDay(y, mon, week, wday)
  {
    LeapRepeats(y, c);
    YearStartRepeats(y, c);
    var a, b := DayNumber(y, mon - 1, 1), DayNumber(y + YEARSPERREPEAT * c, mon - 1, 1);
    assert Weekday(b) == Weekday(a) by { SevenDivides(b + 4, a + 4, 20871 * c); }
  }

  lemma TransTimeRepeats(y: int, c: int, r: Rule, offset: WestOffset)
    requires ValidRule(r)
    ensures TransTimeSpec(y + YEARSPERREPEAT * c, r, offset) == TransTimeSpec(y, r, offset) + SECSPERREPEAT * c
  {
    hide NthDay, YearStart, IsLeap;
    LeapRepeats(y, c);
    YearStartRepeats(y, c);
    if r.MonthNthDay? { NthDayRepeats(y, c, r.mon, r.week, r.day); }
    assert RuleDay(y + YEARSPERREPEAT * c, r) == RuleDay(y, r);
  }

  /** Eight hundred entries on, 400 years later, the same transitions recur. */
  lemma RulesRepeat(p: Posix, k: int, c: int)
    requires ValidPosix(p)
    ensures RuleAt(p, k + 800 * c) == RuleAt(p, k) + SECSPERREPEAT * c
    ensures RuleType(p, k + 800 * c) == RuleType(p, k)
  {
    hide TransTimeSpec;
    assert (k + 800 * c) / 2 == k / 2 + 400 * c && (k + 800 * c) % 2 == k % 2;
    TransTimeRepeats(YearAt(k), c, p.start, p.stdoffset);
    TransTimeRepeats(YearAt(k), c, p.end, p.dstoffset);
    assert YearAt(k + 800 * c) == YearAt(k) + YEARSPERREPEAT * c;
  }

  // ---- what the rules prescribe

  /** The entry in effect at t, found from t's own year. */
  function RuleIndex(p: Posix, t: int): int
    requires MidYearRules(p)
  {
    var k := 2 * (YearOf(t / SECSPERDAY) - EPOCH_YEAR);
    if t < RuleAt(p, k) then k - 1 else if t < RuleAt(p, k + 1) then k else k + 1
  }

  /** It is the last transition of all years that is not after t. */
  lemma RuleIndexIsLast(p: Posix, t: int)
    requires MidYearRules(p)
    ensures var k := RuleIndex(p, t); RuleAt(p, k) <= t < RuleAt(p, k + 1)
  {
    hide RuleAt, YearOf;
    var y := YearOf(t / SECSPERDAY);
    var k := 2 * (y - EPOCH_YEAR);
    RuleStep(p, k - 1);
    RuleStep(p, k + 2);
    assert YearAt(k - 1) == y - 1 && YearAt(k + 2) == y + 1;
  }

  lemma RuleIndexUnique(p: Posix, t: int, k: int)
    requires MidYearRules(p) && RuleAt(p, k) <= t < RuleAt(p, k + 1)
    ensures RuleIndex(p, t) == k
  {
    hide RuleAt, RuleIndex;
    RuleIndexIsLast(p, t);
    var r := RuleIndex(p, t);
    if r < k { RulesSorted(p, r + 1, k); }
    if k < r { RulesSorted(p, k + 1, r); }
  }

  /** The type the rules prescribe at t: 0 for DST, 1 for standard time. */
  function Prescribed(p: Posix, t: int): (r: nat)
    requires MidYearRules(p)
    ensures r <= 1
  {
    RuleType(p, RuleIndex(p, t))
  }

  /** After the transitions of the given year: DST where it begins later than it ends, and standard time
      where it ends later or at the same instant. */
  function AfterYear(p: Posix, y: int): nat
    requires ValidPosix(p)
  {
    if Starts(p, y) > Ends(p, y) then 0 else 1
  }

  /** What the rules prescribe, for rules of any kind, by the transitions of t's own year y: DST from the
      start to the end, standard time from the end to the start, what the later of the two brings after
      both, and what the year before leaves before both. */
  lemma PrescribedByYear(p: Posix, t: int)
    requires MidYearRules(p)
    ensures var y := YearOf(t / SECSPERDAY);
            var s, e := Starts(p, y), Ends(p, y);
            && (s <= t < e ==> Prescribed(p, t) == 0)
            && (e <= t < s ==> Prescribed(p, t) == 1)
            && (s <= t && e <= t ==> Prescribed(p, t) == AfterYear(p, y))
            && (t < s && t < e ==> Prescribed(p, t) == AfterYear(p, y - 1))
  {
    hide TransTimeSpec, YearOf, MidYear;
    var y := YearOf(t / SECSPERDAY);
    var k := 2 * (y - EPOCH_YEAR);
    assert YearAt(k) == YearAt(k + 1) == y && YearAt(k - 1) == y - 1;
    assert k % 2 == 0 && (k + 1) % 2 == 1 && (k - 1) % 2 == 1;
  }

  /** Where DST starts two months or more before it ends, it holds from the start of t's own year to its end. */
  lemma PrescribedNorth(p: Posix, t: int)
    requires MidYearRules(p) && p.start.MonthNthDay? && p.end.MonthNthDay? && p.start.mon + 1 < p.end.mon
    ensures var y := YearOf(t / SECSPERDAY);
            Prescribed(p, t) == 0 <==> Starts(p, y) <= t < Ends(p, y)
  {
    hide TransTimeSpec, YearOf;
    var y := YearOf(t / SECSPERDAY);
    MonthsApart(y - 1, p.start, p.stdoffset, p.end, p.dstoffset);
    MonthsApart(y, p.start, p.stdoffset, p.end, p.dstoffset);
    var k := 2 * (y - EPOCH_YEAR);
    assert YearAt(k) == YearAt(k + 1) == y && YearAt(k - 1) == y - 1;
  }

  /** And where DST ends two months or more before it starts, standard time holds in between. */
  lemma PrescribedSouth(p: Posix, t: int)
    requires MidYearRules(p) && p.start.MonthNthDay? && p.end.MonthNthDay? && p.end.mon + 1 < p.start.mon
    ensures var y := YearOf(t / SECSPERDAY);
            Prescribed(p, t) == 1 <==> Ends(p, y) <= t < Starts(p, y)
  {
    hide TransTimeSpec, YearOf;
    var y := YearOf(t / SECSPERDAY);
    MonthsApart(y - 1, p.end, p.dstoffset, p.start, p.stdoffset);
    MonthsApart(y, p.end, p.dstoffset, p.start, p.stdoffset);
    var k := 2 * (y - EPOCH_YEAR);
    assert YearAt(k) == YearAt(k + 1) == y && YearAt(k - 1) == y - 1;
  }

  /** Rules from February to November that are two months or more apart, in either order. */
  predicate TwoMonthsApart(p: Posix)
  {
    && ValidPosix(p) && p.start.MonthNthDay? && p.end.MonthNthDay?
    && 2 <= p.start.mon <= 11 && 2 <= p.end.mon <= 11
    && (p.start.mon + 1 < p.end.mon || p.end.mon + 1 < p.start.mon)
  }

  lemma YearsApart(y: int, r1: Rule, o1: WestOffset, r2: Rule, o2: WestOffset)
    requires ValidRule(r1) && ValidRule(r2) && r1.MonthNthDay? && r2.MonthNthDay?
    requires 2 <= r1.mon <= 11 && 2 <= r2.mon <= 11
    ensures TransTimeSpec(y + 1, r2, o2) - TransTimeSpec(y, r1, o1)
         >= 30 * SECSPERDAY - MAX_RULE_SECS + (o2 as int - o1)
  {
    hide RuleDay, IsLeap;
    YearStep(y);
    RuleDayBounds(y, r1);
    RuleDayBounds(y + 1, r2);
  }

  /** Then all transitions of all years are as far apart as the two offsets, and more. */
  lemma RulesApart(p: Posix, k: int)
    requires TwoMonthsApart(p)
    ensures var diff := p.dstoffset as int - p.stdoffset;
            RuleAt(p, k + 1) - RuleAt(p, k) >= 30 * SECSPERDAY - MAX_RULE_SECS - (if diff < 0 then -diff else diff)
  {
    hide TransTimeSpec;
    var y := YearAt(k);
    if p.start.mon < p.end.mon {
      MonthsApart(y, p.start, p.stdoffset, p.end, p.dstoffset);
      MonthsApart(y + 1, p.start, p.stdoffset, p.end, p.dstoffset);
      YearsApart(y, p.end, p.dstoffset, p.start, p.stdoffset);
    } else {
      MonthsApart(y, p.end, p.dstoffset, p.start, p.stdoffset);
      MonthsApart(y + 1, p.end, p.dstoffset, p.start, p.stdoffset);
      YearsApart(y, p.start, p.stdoffset, p.end, p.dstoffset);
    }
    assert if k % 2 == 0 then YearAt(k + 1) == y else YearAt(k + 1) == y + 1;
  }

  lemma MonthsApart(y: int, r1: Rule, o1: WestOffset, r2: Rule, o2: WestOffset)
    requires MidYear(r1) && MidYear(r2) && r1.MonthNthDay? && r2.MonthNthDay? && r1.mon + 1 < r2.mon
    ensures TransTimeSpec(y, r1, o1) < TransTimeSpec(y, r2, o2)
    ensures 2 <= r1.mon ==>
      TransTimeSpec(y, r2, o2) - TransTimeSpec(y, r1, o1) >= 30 * SECSPERDAY - MAX_RULE_SECS + (o2 as int - o1)
  {
    hide NthDay, IsLeap, YearStart;
    MonthTable(IsLeap(y));
    assert RuleDay(y, r1) + (if r1.mon == 1 then 29 else 30) <= RuleDay(y, r2) by {
      NthDayIsRight(y, r1.mon, r1.week, r1.day);
      NthDayIsRight(y, r2.mon, r2.week, r2.day);
    }
    hide RuleDay;
  }
}
