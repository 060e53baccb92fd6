// The night in which the clocks of America/New_York were set back in 2024, with the zone of its TZ
// string: half past one came twice, and only one of the two instants comes back.
module DstExample {
  import opened Machine
  import opened Calendar
  import opened CivilTime
  import opened FindTime
  import opened LocalTime
  import opened PosixRules
  import opened RuleOrder
  import opened TzLoad
  import opened TzSyntax
  import opened ZoneChanges
  import opened ZoneRoundTrip

  const DST_START: int := 1710054000
  const DST_END: int := 1730613600

  /** 1:30 EDT and 1:30 EST on November 3. */
  const FIRST_HALF_PAST: Long := 1730611800
  const SECOND_HALF_PAST: Long := 1730615400

  lemma Year2024(y: int)
    requires y == 2024
    ensures YearStart(y) == 19723 && IsLeap(y) && YearStart(y + 1) == 20089
  {
    YearStartClosed(y);
    YearStep(y);
  }

  lemma Days2024(y: int)
    requires y == 2024
    ensures NthDay(y, 3, 2, 0) == 9 && NthDay(y, 11, 1, 0) == 2
    ensures DaysBefore(IsLeap(y), 2) == 60 && DaysBefore(IsLeap(y), 10) == 305
  {
    Year2024(y);
    MonthTable(true);
    hide YearStart, IsLeap, DaysBefore;
  }

  lemma Transitions2024(y: int)
    requires y == 2024
    ensures Starts(EASTERN, y) == DST_START && Ends(EASTERN, y) == DST_END
  {
    Year2024(y);
    Days2024(y);
    hide YearStart, IsLeap, DaysBefore, NthDay;
  }

  /** In that year DST is prescribed from its start to its end. */
  lemma Prescribed2024(t: int)
    requires 19723 * SECSPERDAY <= t < 20089 * SECSPERDAY
    ensures TwoMonthsApart(EASTERN)
    ensures Prescribed(EASTERN, t) == 0 <==> DST_START <= t < DST_END
  {
    var y := 2024;
    Year2024(y);
    YearOfUnique(y, t / SECSPERDAY);
    Transitions2024(y);
    hide Starts, Ends, YearOf, YearStart, Prescribed;
    PrescribedNorth(EASTERN, t);
  }

  lemma WithinTable(p: Posix, t: int)
    requires MidYearRules(p) && YearStart(1971) * SECSPERDAY <= t < YearStart(2569) * SECSPERDAY
    ensures RuleAt(p, 0) <= t < RuleAt(p, TZ_MAX_TIMES)
  {
    hide YearStart, RuleAt, Starts, Ends, MidYear;
    RuleStep(p, 0);
    RuleStep(p, TZ_MAX_TIMES);
    YearStartBounds(2569, YearAt(TZ_MAX_TIMES));
    assert YearAt(0) + 1 == 1971 && YearAt(TZ_MAX_TIMES) == 2570;
  }

  lemma OffsetIn2024(z: Zone, t: int)
    requires IsStringZone(z, EASTERN) && 19723 * SECSPERDAY <= t < 20089 * SECSPERDAY
    ensures ValidZone(z) && OffsetAt(z, t) == if DST_START <= t < DST_END then -14400 else -18000
  {
    Year2024(2024);
    YearStartBounds(1971, 2024);
    YearStartBounds(2025, 2569);
    Prescribed2024(t);
    hide YearStart, RuleAt, Prescribed, TypeFor, WellTyped;
    StringZoneSpan(z, EASTERN, t);
    WithinTable(EASTERN, t);
    assert z.ttis == RuleTypes(EASTERN);
  }

  lemma EasternOrdinary(z: Zone)
    requires IsStringZone(z, EASTERN)
    ensures Ordinary(z, 3600)
  {
    hide IsRuleTable, Ordinary;
    RuleZonesOrdinary(z, EASTERN, 3600);
  }

  /** Of all instants of the year but its first and last days only those of the hour that comes twice
      are around a set-back. */
  lemma OnlyTheRepeatedHour(z: Zone, t: int)
    requires IsStringZone(z, EASTERN) && 19724 * SECSPERDAY <= t < 20088 * SECSPERDAY
    ensures ValidZone(z)
    ensures (exists c :: AroundSetBack(z, c, t)) <==> DST_END - 3600 <= t < DST_END + 3600
  {
    EasternOrdinary(z);
    hide IsStringZone, OffsetAt, Spaced, AroundSetBack;
    forall c | AroundSetBack(z, c, t) ensures DST_END - 3600 <= t < DST_END + 3600 {
      OneSetBack(z, c, t);
    }
    if DST_END - 3600 <= t < DST_END + 3600 { TheSetBack(z, t); }
  }

  lemma TheSetBack(z: Zone, t: int)
    requires IsStringZone(z, EASTERN) && WellTyped(z) && DST_END - 3600 <= t < DST_END + 3600
    ensures AroundSetBack(z, DST_END, t)
  {
    hide IsStringZone, OffsetAt, WellTyped;
    OffsetIn2024(z, DST_END - 1);
    OffsetIn2024(z, DST_END);
  }

  lemma OneSetBack(z: Zone, c: int, t: int)
    requires IsStringZone(z, EASTERN) && Ordinary(z, 3600) && 19724 * SECSPERDAY <= t < 20088 * SECSPERDAY
    requires WellTyped(z) && AroundSetBack(z, c, t)
    ensures DST_END - 3600 <= t < DST_END + 3600
  {
    hide IsStringZone, OffsetAt, Spaced, EndsNear, ValidZone;
    Spread(z, 3600, c - 1, c);
    OffsetIn2024(z, c - 1);
    OffsetIn2024(z, c);
  }

  /** Half past one is shown twice, an hour apart, so one of the two instants does not come back. */
  lemma HalfPastOne(z: Zone)
    requires IsStringZone(z, EASTERN)
    ensures ValidZone(z)
    ensures var w := Reading(2024, 10, 3, 1, 30, 0); Reads(z, FIRST_HALF_PAST, w) && Reads(z, SECOND_HALF_PAST, w)
    ensures !(Returns(z, FIRST_HALF_PAST) && Returns(z, SECOND_HALF_PAST))
  {
    EasternOrdinary(z);
    HalfPast(z, FIRST_HALF_PAST);
    HalfPast(z, SECOND_HALF_PAST);
  }

  lemma HalfPast(z: Zone, t: Long)
    requires IsStringZone(z, EASTERN) && Ordinary(z, 3600) && t in {FIRST_HALF_PAST, SECOND_HALF_PAST}
    ensures ValidZone(z) && Reads(z, t, Reading(2024, 10, 3, 1, 30, 0))
  {
    hide Local, IsStringZone, OffsetAt, Spaced, EndsNear;
    OffsetIn2024(z, t);
    NearReadable(z, t);
    ShownSeconds(z, t);
    var w := Reading(2024, 10, 3, 1, 30, 0);
    WallClock(2024);
    hide Seconds, ValidReading;
    ReadingOrder(ReadingOf(Local(z, t).value), w);
  }

  lemma WallClock(y: int)
    requires y == 2024
    ensures var w := Reading(y, 10, 3, 1, 30, 0); ValidReading(w) && Seconds(w) == FIRST_HALF_PAST - 14400
  {
    Year2024(y);
    Days2024(y);
    hide YearStart, DaysBefore, IsLeap;
  }

  /** But each is found when the kind of time is given. */
  lemma HalfPastOneByKind(z: Zone)
    requires IsStringZone(z, EASTERN)
    ensures ValidZone(z)
    ensures var w := Reading(2024, 10, 3, 1, 30, 0);
            FindSpec(z, w, 1) == Some(FIRST_HALF_PAST) && FindSpec(z, w, 0) == Some(SECOND_HALF_PAST)
  {
    var w := Reading(2024, 10, 3, 1, 30, 0);
    HalfPastOne(z);
    EasternOrdinary(z);
    HalfPastKind(z, FIRST_HALF_PAST);
    HalfPastKind(z, SECOND_HALF_PAST);
    hide Local, IsStringZone, FindSpec, Found, Spaced, EndsNear, ValidZone, Skipped;
    ShownNotSkipped(z, 3600, FIRST_HALF_PAST);
    FoundOrSkipped(z, w);
    FindsKind(z, w, 1, FIRST_HALF_PAST);
    FindsKind(z, w, 0, SECOND_HALF_PAST);
    OnlyTwo(z, FindSpec(z, w, 1).value, 1);
    OnlyTwo(z, FindSpec(z, w, 0).value, 0);
  }

  lemma HalfPastKind(z: Zone, t: Long)
    requires IsStringZone(z, EASTERN) && ValidZone(z) && t in {FIRST_HALF_PAST, SECOND_HALF_PAST}
    requires Local(z, t).Some?
    ensures Local(z, t).value.isdst == if t == FIRST_HALF_PAST then 1 else 0
  {
    OffsetIn2024(z, t);
    assert z.ttis == RuleTypes(EASTERN);
    hide LocalSpec, IsStringZone, ValidZone, Denotes, TypeFor;
    LocalMeaning(z, t, BLANK);
  }

  lemma OnlyTwo(z: Zone, t: Long, isdst: int)
    requires IsStringZone(z, EASTERN) && ValidZone(z) && Reads(z, t, Reading(2024, 10, 3, 1, 30, 0))
    requires Local(z, t).value.isdst == isdst
    ensures t == if isdst == 1 then FIRST_HALF_PAST else SECOND_HALF_PAST
  {
    assert z.ttis == RuleTypes(EASTERN);
    HalfPastOne(z);
    OffsetIn2024(z, FIRST_HALF_PAST);
    hide Local, IsStringZone, ValidZone, TypeFor;
    SameSeconds(z, Reading(2024, 10, 3, 1, 30, 0), FIRST_HALF_PAST, t);
  }
}
