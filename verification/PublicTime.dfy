// The public conversions of dt_unix.c between timestamps and representations, given a time zone.
module PublicTime {
  import opened Machine
  import opened DtTypes
  import opened Calendar
  import opened CivilTime
  import opened FindTime
  import opened LocalTime
  import opened Normalise
  import opened MakeTime

  function WrapUShort(x: int): UShort
  {
    if 0 <= x < 0x1_0000 then x else x % 0x1_0000
  }

  /** dt_tm_to_representation; the nanoseconds pass through a long. */
  function TmToRepresentation(tm: Tm, nano: ULong): Representation
  {
    Representation(WrapInt(1900 + tm.year), WrapUShort(tm.mon + 1), WrapUShort(tm.mday), WrapUShort(tm.hour),
                   WrapUShort(tm.min), WrapUShort(tm.sec), WrapULong(WrapLong(nano)))
  }

  /** dt_representation_to_tm; the weekday and day of year, which tz_mktime never reads, stay 0. */
  function RepresentationToTm(r: Representation): Tm
  {
    Tm(WrapInt(r.year as int - 1900), r.month - 1, r.day, r.hour, r.minute, r.second, 0, 0, -1)
  }

  /** A valid date and minute, and seconds that can be those of a leap second. */
  predicate ValidFields(r: Reading) { ValidReading(r.(sec := 0)) && 0 <= r.sec <= 61 }

  /** The two field conversions are inverse on every reading, also where the year wraps around. */
  lemma RepresentationInverse(tm: Tm, nano: ULong)
    requires ValidFields(ReadingOf(tm))
    ensures var r := TmToRepresentation(tm, nano);
            r.nano == nano && ReadingOf(RepresentationToTm(r)) == ReadingOf(tm)
  {
    hide IsLeap;
  }

  /** The reading that the fields of a representation spell. */
  function Spelled(rep: Representation): Reading
  {
    Reading(rep.year, rep.month - 1, rep.day, rep.hour, rep.minute, rep.second)
  }

  /** A broken-down time in range is spelled field by field, where the year does not wrap. */
  lemma RepresentationSpells(tm: Tm, nano: ULong)
    requires ValidFields(ReadingOf(tm)) && FitsInt(tm.year + 1900)
    ensures var rep := TmToRepresentation(tm, nano); Spelled(rep) == ReadingOf(tm) && rep.nano == nano
  {
    hide IsLeap;
  }

  /** A representation asks for the seconds that its own fields add up to, whatever their values. */
  lemma RepresentationTotal(rep: Representation)
    requires FitsInt(rep.year as int - 1900)
    ensures var months := rep.month - 1;
            RawSeconds(RepresentationToTm(rep))
              == DayNumber(rep.year + months / 12, months % 12, rep.day) * SECSPERDAY
                 + rep.hour * 3600 + rep.minute * 60 + rep.second
    ensures RepresentationToTm(rep).isdst < 0
  {
    hide DayNumber;
  }

  // ---- the two conversions

  /** What a conversion of ts to a representation may return. */
  ghost predicate Represents(z: Zone, ts: Timestamp, status: Status, rep: Representation)
    requires ValidZone(z)
  {
    match Local(z, ts.second)
    case None => status == DtInvalidArgument
    case Some(tm) => status == DtOk && rep == TmToRepresentation(tm, ts.nano)
  }

  method TimestampToRepresentation(ts: Timestamp, s: State?, rep0: Representation)
    returns (status: Status, rep: Representation)
    requires s != null ==> s.Valid()
    ensures s == null ==> status == DtInvalidArgument && rep == rep0
    ensures s != null ==> Represents(s.View(), ts, status, rep)
  {
    hide ValidZone, Local, LocalSpec;
    if s == null {
      return DtInvalidArgument, rep0;
    }
    var out := LocalSub(s, ts.second, BLANK);
    BufferIrrelevant(s.View(), ts.second, BLANK);
    if !out.ok {
      return DtInvalidArgument, rep0;
    }
    return DtOk, TmToRepresentation(out.tm, ts.nano);
  }

  /** The representation spells the civil reading of the instant plus the offset of the type in effect. */
  lemma RepresentsCivil(z: Zone, ts: Timestamp, rep: Representation)
    requires ValidZone(z) && z.lsis == [] && Represents(z, ts, DtOk, rep)
    ensures var w := Civil(ts.second + z.ttis[TypeFor(z, ts.second)].gmtoff);
            (FitsInt(w.year) ==> Spelled(rep) == w) && rep.nano == ts.nano
  {
    hide LocalSpec, Civil, ValidZone, TypeFor, Folded, TmToRepresentation, Denotes, Spelled;
    LocalMeaning(z, ts.second, BLANK);
    var tm := Local(z, ts.second).value;
    RepresentationInverse(tm, ts.nano);
    if FitsInt(tm.year + 1900) { RepresentationSpells(tm, ts.nano); }
  }

  /** What the conversion of rep to a timestamp returns. */
  ghost predicate Denoted(z: Zone, rep: Representation, status: Status, ts: Timestamp)
    requires ValidZone(z)
  {
    var t := Time1Spec(z, RepresentationToTm(rep)).t;
    if t == WRONG then status == DtInvalidArgument else status == DtOk && ts == Timestamp(t, rep.nano)
  }

  method RepresentationToTimestamp(rep: Representation, s: State?, ts0: Timestamp)
    returns (status: Status, ts: Timestamp)
    requires s != null ==> s.Valid()
    ensures s == null ==> status == DtInvalidArgument
    ensures s != null ==> Denoted(s.View(), rep, status, ts)
    ensures status != DtOk ==> ts == ts0
    ensures status == DtOk && s != null ==> Local(s.View(), ts.second).Some? && ts.nano == rep.nano
  {
    hide ValidZone, Time1Spec, Local;
    if s == null {
      return DtInvalidArgument, ts0;
    }
    var tm := RepresentationToTm(rep);
    var t, tm' := Time1(s, tm);
    Time1Stores(s.View(), tm);
    if t == WRONG {
      return DtInvalidArgument, ts0;
    }
    return DtOk, Timestamp(t, rep.nano);
  }

  /** The reading that a representation normalises to. */
  function Requested(rep: Representation): Reading { Civil(RawSeconds(RepresentationToTm(rep))) }

  /** With seconds in 0..59 the conversion finds what the search finds, and fails exactly on nothing or -1. */
  lemma DenotedFound(z: Zone, rep: Representation, status: Status, ts: Timestamp)
    requires ValidZone(z) && Denoted(z, rep, status, ts) && rep.second < 60
    ensures var t := if Normalisable(RepresentationToTm(rep), false) then Found(z, Requested(rep)) else None;
            if t.Some? && t.value != WRONG then status == DtOk && ts == Timestamp(t.value, rep.nano)
            else status == DtInvalidArgument
  {
    hide ValidZone, Local, Civil, YearOf, Time1Spec, Found, Normalisable;
    Time1InRange(z, RepresentationToTm(rep));
  }

  /** So the timestamp reads the normalised representation; there is none exactly because the clock
      jumps over that reading or the instant found is -1. */
  lemma DenotedReads(z: Zone, rep: Representation, status: Status, ts: Timestamp)
    requires ValidZone(z) && Denoted(z, rep, status, ts) && rep.second < 60
    ensures if status == DtOk then ts.nano == rep.nano && ts.second != WRONG && Reads(z, ts.second, Requested(rep))
            else Reads(z, WRONG, Requested(rep))
                 || (Normalisable(RepresentationToTm(rep), false) ==> Skipped(z, Requested(rep)))
  {
    hide ValidZone, Local, Civil, YearOf, Time1Spec, FoundIn, Normalisable, Requested, Skipped;
    DenotedFound(z, rep, status, ts);
    FoundOrSkipped(z, Requested(rep));
  }

  // ---- round trips

  /** In a zone without leap seconds the way back ends on an instant of the same reading, unless the
      clock jumps over that reading elsewhere or the instant found is -1. */
  lemma RoundTripReads(z: Zone, ts: Timestamp, rep: Representation, status: Status, back: Timestamp)
    requires ValidZone(z) && z.lsis == []
    requires Represents(z, ts, DtOk, rep) && Denoted(z, rep, status, back)
    ensures var w := ReadingOf(Local(z, ts.second).value);
            if status == DtOk then back.nano == ts.nano && Reads(z, back.second, w)
            else Skipped(z, w) || Reads(z, WRONG, w)
  {
    hide Local, ValidZone, Civil, Denoted, Skipped, ReadingOf, RepresentationToTm, TmToRepresentation;
    ShownIsValid(z, ts.second);
    RepresentationInverse(Local(z, ts.second).value, ts.nano);
    NormalRequest(RepresentationToTm(rep));
    SecondsKept(rep);
    DenotedReads(z, rep, status, back);
  }

  lemma ShownIsValid(z: Zone, t: Long)
    requires ValidZone(z) && z.lsis == [] && Local(z, t).Some?
    ensures ValidReading(ReadingOf(Local(z, t).value))
  {
    hide LocalSpec, ValidZone, Denotes, TypeFor, Folded;
    LocalMeaning(z, t, BLANK);
  }

  lemma SecondsKept(rep: Representation)
    ensures ReadingOf(RepresentationToTm(rep)).sec == RepresentationToTm(rep).sec == rep.second
  {
  }

  /** A request in range is its own normal form, but for seconds beyond 59. */
  lemma NormalRequest(req: Tm)
    requires ValidFields(ReadingOf(req))
    ensures NormalReading(req, false) == ReadingOf(req) && Normalisable(req, false)
    ensures req.sec < 60 ==> Civil(RawSeconds(req)) == ReadingOf(req)
  {
    hide YearOf, Civil, NormalReading;
    assert RawDay(req) == DayNumber(req.year + 1900, req.mon, req.mday);
    NormalFormIsCivil(req, false, req);
    if req.sec < 60 { NormalReadingInRange(req, false); }
    assert CarriedMday(req, false) == req.mday;
    YearOfDate(req.year + 1900, req.mon, req.mday);
  }

  /** Without leap seconds a jump between two instants that have readings is a change to a greater
      offset, and a valid reading jumped over lies in the gap that the change opens. */
  lemma JumpIsGap(z: Zone, a: Long, w: Reading)
    requires ValidZone(z) && z.lsis == [] && ValidReading(w)
    requires JumpsOver(z, a, w) && Local(z, a).Some? && Local(z, a + 1).Some?
    ensures var before, after := z.ttis[TypeFor(z, a)].gmtoff, z.ttis[TypeFor(z, a + 1)].gmtoff;
            before < after && a as int + before < Seconds(w) < a as int + 1 + after
  {
    hide Civil, TypeFor, LocalSpec, ValidZone, Denotes, Folded, Seconds, ValidReading;
    LocalMeaning(z, a, BLANK);
    LocalMeaning(z, a + 1, BLANK);
    ReadingOrder(ReadingOf(Local(z, a).value), w);
    ReadingOrder(w, ReadingOf(Local(z, a + 1).value));
  }

  /** A zone whose clock is a constant offset from UTC. */
  predicate FixedOffset(z: Zone)
  {
    WellTyped(z) && z.ats == [] && z.lsis == [] && !z.goback && !z.goahead
  }

  function ClockOffset(z: Zone): Int
    requires FixedOffset(z)
  {
    z.ttis[TypeIndex(z, 0)].gmtoff
  }

  lemma FixedReading(z: Zone, t: Long)
    requires FixedOffset(z)
    ensures Local(z, t).Some? <==>
      FitsInt(YearOf(TruncDiv(t, SECSPERDAY))) && FitsInt(YearOf((t + ClockOffset(z)) / SECSPERDAY))
      && FitsInt(YearOf((t + ClockOffset(z)) / SECSPERDAY) - 1900)
    ensures Local(z, t).Some? ==> ReadingOf(Local(z, t).value) == Civil(t + ClockOffset(z))
  {
    TimeSubMeaning(t, ClockOffset(z), BLANK);
  }

  lemma YearOfGrows(a: int, b: int)
    requires a <= b
    ensures YearOf(a) <= YearOf(b)
  {
    YearAtLeast(YearOf(a), b);
  }

  lemma DaysGrow(a: int, b: int)
    requires a <= b
    ensures a / SECSPERDAY <= b / SECSPERDAY && TruncDiv(a, SECSPERDAY) <= TruncDiv(b, SECSPERDAY)
  {
  }

  lemma ReadableBetween(z: Zone, a: Long, t: Long, b: Long)
    requires FixedOffset(z) && a <= t <= b && Local(z, a).Some? && Local(z, b).Some?
    ensures Local(z, t).Some?
  {
    hide Local, YearOf, TruncDiv, ClockOffset, FixedOffset;
    FixedReading(z, a);
    FixedReading(z, t);
    FixedReading(z, b);
    DaysGrow(a, t);
    DaysGrow(t, b);
    DaysGrow(a + ClockOffset(z), t + ClockOffset(z));
    DaysGrow(t + ClockOffset(z), b + ClockOffset(z));
    YearOfGrows(TruncDiv(a, SECSPERDAY), TruncDiv(t, SECSPERDAY));
    YearOfGrows(TruncDiv(t, SECSPERDAY), TruncDiv(b, SECSPERDAY));
    YearOfGrows((a + ClockOffset(z)) / SECSPERDAY, (t + ClockOffset(z)) / SECSPERDAY);
    YearOfGrows((t + ClockOffset(z)) / SECSPERDAY, (b + ClockOffset(z)) / SECSPERDAY);
  }

  lemma EpochReadable(z: Zone)
    requires FixedOffset(z)
    ensures Local(z, 0).Some?
  {
    FixedReading(z, 0);
    YearOfUnique(1970, 0);
    var day := (0 + ClockOffset(z)) / SECSPERDAY;
    assert -25000 < day < 25000;
    hide Local, ClockOffset, FixedOffset, YearStart, YearOf;
    assert TruncDiv(0, SECSPERDAY) == 0;
    YearStartBounds(1870, 1970);
    YearStartBounds(1970, 2070);
    YearAtLeast(1870, day);
    YearAtMost(2070, day);
  }

  /** The clock of a fixed offset only ever moves forward. */
  lemma FixedIncreases(z: Zone, a: Long, b: Long)
    requires FixedOffset(z) && a < b && Local(z, a).Some? && Local(z, b).Some?
    ensures Before(ReadingOf(Local(z, a).value), ReadingOf(Local(z, b).value))
  {
    hide Local, Civil;
    FixedReading(z, a);
    FixedReading(z, b);
    CivilIncreases(a + ClockOffset(z), b + ClockOffset(z));
  }

  /** A clock that only moves forward, readable from some instant before the epoch to some instant after it. */
  ghost predicate Rising(z: Zone)
    requires ValidZone(z)
  {
    && Local(z, 0).Some?
    && (forall a: Long, t: Long, b: Long :: a <= t <= b && Local(z, a).Some? && Local(z, b).Some? ==> Local(z, t).Some?)
    && (forall a: Long, b: Long :: a < b && Local(z, a).Some? && Local(z, b).Some? ==>
          Before(ReadingOf(Local(z, a).value), ReadingOf(Local(z, b).value)))
  }

  lemma FixedRising(z: Zone)
    requires FixedOffset(z)
    ensures ValidZone(z) && Rising(z)
  {
    assert ValidZone(z);
    hide Local, FixedOffset, YearOf, ReadingOf, Before, ValidZone;
    EpochReadable(z);
    forall a: Long, t: Long, b: Long | a <= t <= b && Local(z, a).Some? && Local(z, b).Some? ensures Local(z, t).Some? {
      ReadableBetween(z, a, t, b);
    }
    forall a: Long, b: Long | a < b && Local(z, a).Some? && Local(z, b).Some?
      ensures Before(ReadingOf(Local(z, a).value), ReadingOf(Local(z, b).value))
    {
      FixedIncreases(z, a, b);
    }
  }

  /** Such a clock jumps over nothing that it shows, and the search finds the one instant that shows it. */
  lemma RisingFinds(z: Zone, t: Long)
    requires ValidZone(z) && Rising(z) && Local(z, t).Some?
    ensures var w := ReadingOf(Local(z, t).value); !Skipped(z, w) && Found(z, w) == Some(t)
  {
    hide Local, ValidZone, FoundIn;
    var w := ReadingOf(Local(z, t).value);
    forall a: Long ensures !JumpsOver(z, a, w) {
    }
    FoundOrSkipped(z, w);
  }

  lemma FixedSkipsNothing(z: Zone, t: Long)
    requires FixedOffset(z) && Local(z, t).Some?
    ensures !Skipped(z, ReadingOf(Local(z, t).value))
  {
    hide Local, FixedOffset, Rising, Skipped;
    FixedRising(z);
    RisingFinds(z, t);
  }

  /** At a fixed offset the way there and back is the identity, except at second -1, which the
      conversion back cannot tell from its error value. */
  lemma FixedRoundTrip(z: Zone, ts: Timestamp, rep: Representation, status: Status, back: Timestamp)
    requires ValidZone(z) && FixedOffset(z)
    requires Represents(z, ts, DtOk, rep) && Denoted(z, rep, status, back)
    ensures status == DtOk <==> ts.second != -1
    ensures status == DtOk ==> back == ts
  {
    hide Local;
    RoundTripReads(z, ts, rep, status, back);
    FixedSkipsNothing(z, ts.second);
    var u := if status == DtOk then back.second else WRONG;
    if u < ts.second { FixedIncreases(z, u, ts.second); }
    if ts.second < u { FixedIncreases(z, ts.second, u); }
  }

  /** The public conversions there and back. */
  method FixedThereAndBack(s: State, ts: Timestamp) returns (status: Status, back: Timestamp)
    requires s.Valid() && FixedOffset(s.View()) && Local(s.View(), ts.second).Some?
    ensures status == DtOk <==> ts.second != -1
    ensures status == DtOk ==> back == ts
  {
    hide Local, ValidZone, Denoted;
    var there, rep := TimestampToRepresentation(ts, s, Representation(0, 0, 0, 0, 0, 0, 0));
    status, back := RepresentationToTimestamp(rep, s, ts);
    FixedRoundTrip(s.View(), ts, rep, status, back);
  }
}
