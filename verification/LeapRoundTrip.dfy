// UTC with inserted leap seconds: the public conversions there and back, through every second 60.
module LeapRoundTrip {
  import opened Machine
  import opened DtTypes
  import opened Calendar
  import opened CivilTime
  import opened FindTime
  import opened LeapSeconds
  import opened LocalTime
  import opened MakeTime
  import opened Normalise
  import opened PublicTime

  /** A zone at UTC whose table lists inserted seconds. */
  ghost predicate LeapUtc(z: Zone)
  {
    && WellTyped(z) && z.ats == [] && !z.goback && !z.goahead && Inserted(z.lsis)
    && z.ttis[FirstStandard(z.ttis, 0)].gmtoff == 0
  }

  /** The seconds on the civil clock, a leap second counting as the second before it. */
  function CivilSeconds(z: Zone, t: int): int { t - Correction(z.lsis, t) }

  lemma UtcLocal(z: Zone, t: Long)
    requires LeapUtc(z)
    ensures ValidZone(z)
    ensures var year := YearOf(CivilSeconds(z, t) / SECSPERDAY);
            Local(z, t).Some? <==> FitsInt(YearOf(TruncDiv(t, SECSPERDAY))) && FitsInt(year) && FitsInt(year - 1900)
    ensures Local(z, t).Some? ==> ReadingOf(Local(z, t).value) == UtcReading(z.lsis, t)
  {
    hide YearOf, MakeTm, Inserted, UtcReading, Correction, LeapHit, TruncDiv;
    TimeSubShowsUtc(z.lsis, t, BLANK);
  }

  lemma {:induction false} CivilSecondsGrow(z: Zone, t: int, u: int)
    requires Inserted(z.lsis) && t <= u
    ensures CivilSeconds(z, t) <= CivilSeconds(z, u) && Correction(z.lsis, t) <= Correction(z.lsis, u)
    decreases u - t
  {
    hide Inserted, Correction, IsLeapSecond;
    if t < u {
      CorrectionStep(z.lsis, u - 1);
      CivilSecondsGrow(z, t, u - 1);
    }
  }

  lemma CorrectionRange(ls: seq<LeapSecond>, t: int)
    requires Inserted(ls)
    ensures 0 <= Correction(ls, t) <= TZ_MAX_LEAPS
  {
    EntryAt(ls, t, LeapIndex(ls, t, |ls|));
  }

  lemma UtcBetween(z: Zone, a: Long, t: Long, b: Long)
    requires LeapUtc(z) && ValidZone(z) && a <= t <= b && Local(z, a).Some? && Local(z, b).Some?
    ensures Local(z, t).Some?
  {
    hide Local, YearOf, TruncDiv, Inserted, Correction;
    UtcLocal(z, a);
    UtcLocal(z, t);
    UtcLocal(z, b);
    hide LeapUtc;
    CivilSecondsGrow(z, a, t);
    CivilSecondsGrow(z, t, b);
    hide CivilSeconds;
    DaysGrow(a, t);
    DaysGrow(t, b);
    DaysGrow(CivilSeconds(z, a), CivilSeconds(z, t));
    DaysGrow(CivilSeconds(z, t), CivilSeconds(z, b));
    YearOfGrows(TruncDiv(a, SECSPERDAY), TruncDiv(t, SECSPERDAY));
    YearOfGrows(TruncDiv(t, SECSPERDAY), TruncDiv(b, SECSPERDAY));
    YearOfGrows(CivilSeconds(z, a) / SECSPERDAY, CivilSeconds(z, t) / SECSPERDAY);
    YearOfGrows(CivilSeconds(z, t) / SECSPERDAY, CivilSeconds(z, b) / SECSPERDAY);
  }

  lemma UtcEpoch(z: Zone)
    requires LeapUtc(z)
    ensures ValidZone(z) && Local(z, 0).Some?
  {
    UtcLocal(z, 0);
    CorrectionRange(z.lsis, 0);
    var day := CivilSeconds(z, 0) / SECSPERDAY;
    assert -1 <= day <= 0;
    hide Local, LeapUtc, CivilSeconds, YearStart, YearOf;
    YearOfUnique(1970, 0);
    assert TruncDiv(0, SECSPERDAY) == 0;
    YearStartBounds(1969, 1970);
    YearStartBounds(1970, 1971);
    YearAtLeast(1969, day);
    YearAtMost(1971, day);
  }

  lemma UtcRising(z: Zone)
    requires LeapUtc(z)
    ensures ValidZone(z) && Rising(z)
  {
    hide Local, LeapUtc, YearOf, ReadingOf, Before, ValidZone;
    UtcEpoch(z);
    forall a: Long, t: Long, b: Long | a <= t <= b && Local(z, a).Some? && Local(z, b).Some? ensures Local(z, t).Some? {
      UtcBetween(z, a, t, b);
    }
    forall a: Long, b: Long | a < b && Local(z, a).Some? && Local(z, b).Some?
      ensures Before(ReadingOf(Local(z, a).value), ReadingOf(Local(z, b).value))
    {
      UtcBefore(z, a, b);
    }
  }

  lemma UtcBefore(z: Zone, a: Long, b: Long)
    requires LeapUtc(z) && ValidZone(z) && a < b && Local(z, a).Some? && Local(z, b).Some?
    ensures Before(ReadingOf(Local(z, a).value), ReadingOf(Local(z, b).value))
  {
    hide Local, YearOf, ReadingOf, Before, UtcReading, Inserted;
    UtcLocal(z, a);
    UtcLocal(z, b);
    UtcIncreases(z.lsis, a, b);
  }

  // ---- the instant that the search finds for a second 60

  /** Inserted seconds are more than a minute apart. */
  lemma MinutesApart(ls: seq<LeapSecond>, i: nat)
    requires Inserted(ls) && i + 1 < |ls|
    ensures ls[i].trans as int + 61 <= ls[i + 1].trans
  {
    assert ls[i].trans as int + 1 < ls[i + 1].trans;
    EndsOfMinutes(ls[i].trans as int - ls[i].corr, ls[i + 1].trans as int - ls[i + 1].corr);
  }

  lemma EndsOfMinutes(a: int, b: int)
    requires a % 60 == 59 && b % 60 == 59 && a < b
    ensures a + 60 <= b
  {
  }

  /** For a minute before a leap second the correction is the one before it, and none of its seconds is one. */
  lemma MinuteBefore(ls: seq<LeapSecond>, t: int, k: int)
    requires Inserted(ls) && IsLeapSecond(ls, t) && 1 <= k <= 60
    ensures Correction(ls, t - k) == Correction(ls, t) - 1 && LeapHit(ls, t - k) == 0
  {
    hide Correction, LeapHit;
    var i :| 0 <= i < |ls| && ls[i].trans == t;
    if i + 1 < |ls| { MinutesApart(ls, i); }
    if i > 0 { MinutesApart(ls, i - 1); }
    hide Inserted;
    EntryAt(ls, t, i);
    EntryAt(ls, t - k, i - 1);
  }

  lemma SameMinute(s: int, k: int)
    requires Civil(s).sec == 59 && 0 <= k <= 59
    ensures Civil(s - k) == Civil(s).(sec := 59 - k)
  {
    hide Civil;
    CivilUnique(Civil(s).(sec := 59 - k));
  }

  /** The seconds set aside lead from an instant that reads the rest back to t. */
  lemma BaseReading(ls: seq<LeapSecond>, t: int)
    requires Inserted(ls)
    ensures var r := UtcReading(ls, t);
            && ValidFields(r) && r.sec <= 60 && 0 <= Saved(r) <= 60
            && UtcReading(ls, t - Saved(r)) == Base(r)
            && (Saved(r) > 0 ==> Correction(ls, t - Saved(r)) == Correction(ls, t) - 1)
  {
    hide Civil, Correction, LeapHit, IsLeapSecond;
    SixtyExactly(ls, t);
    var r := UtcReading(ls, t);
    if IsLeapSecond(ls, t) {
      MinuteBefore(ls, t, Saved(r));
      SameMinute(t - Correction(ls, t), Saved(r) - 1);
    }
  }

  lemma BaseReadable(z: Zone, t: Long)
    requires LeapUtc(z) && ValidZone(z) && Local(z, t).Some?
    ensures var r := ReadingOf(Local(z, t).value);
            && ValidFields(r) && r.sec <= 60 && LONG_MIN <= t - Saved(r)
            && var t0: Long := t - Saved(r);
               Local(z, t0).Some? && ReadingOf(Local(z, t0).value) == Base(r)
  {
    hide Local, ReadingOf, TruncDiv, ValidZone, Inserted, Correction, LeapHit, UtcReading, CivilSeconds, YearOf,
         Saved, Base, ValidFields;
    UtcLocal(z, t);
    BaseReading(z.lsis, t);
    ReadableRange(z, t);
    var k := Saved(UtcReading(z.lsis, t));
    UtcLocal(z, t - k);
    YearKept(z, t, k);
    BetweenYears(CivilSeconds(z, t - k), t - k, t);
  }

  /** The instant before lies in the same civil year. */
  lemma YearKept(z: Zone, t: int, k: int)
    requires Inserted(z.lsis) && k == Saved(UtcReading(z.lsis, t))
    ensures YearOf(CivilSeconds(z, t - k) / SECSPERDAY) == YearOf(CivilSeconds(z, t) / SECSPERDAY)
    ensures CivilSeconds(z, t - k) <= t - k
  {
    hide YearOf, Inserted, Correction, LeapHit, ValidFields, UtcReading, Saved;
    BaseReading(z.lsis, t);
    CorrectionRange(z.lsis, t - k);
    CivilYear(z, t);
    CivilYear(z, t - k);
  }

  lemma CivilYear(z: Zone, t: int)
    ensures YearOf(CivilSeconds(z, t) / SECSPERDAY) == UtcReading(z.lsis, t).year
  {
    hide YearOf, Correction, LeapHit;
  }

  lemma BetweenYears(s: int, t0: int, t: int)
    requires s <= t0 <= t && FitsInt(YearOf(s / SECSPERDAY)) && FitsInt(YearOf(TruncDiv(t, SECSPERDAY)))
    ensures FitsInt(YearOf(TruncDiv(t0, SECSPERDAY)))
  {
    hide YearOf, TruncDiv;
    DaysGrow(s, t0);
    DaysGrow(t0, t);
    FloorIsLess(s);
    YearOfGrows(s / SECSPERDAY, TruncDiv(t0, SECSPERDAY));
    YearOfGrows(TruncDiv(t0, SECSPERDAY), TruncDiv(t, SECSPERDAY));
  }

  lemma FloorIsLess(s: int)
    ensures s / SECSPERDAY <= TruncDiv(s, SECSPERDAY)
  {
  }

  // ---- the round trip

  /** The first attempt of time2, with tm_sec as it stands, finds t again. */
  lemma ReadingFound(z: Zone, t: Long, req: Tm)
    requires LeapUtc(z) && ValidZone(z) && Local(z, t).Some?
    requires ReadingOf(req) == ReadingOf(Local(z, t).value) && req.isdst < 0
    ensures Time1Spec(z, req).t == t
  {
    hide Local, LocalSpec, LeapUtc, Rising, ValidZone, Found, Normalisable, NormalReading, Civil, RetryFrom;
    var r := ReadingOf(req);
    BaseReadable(z, t);
    NormalRequest(req);
    UtcRising(z);
    RisingFinds(z, t - Saved(r));
    BufferIrrelevant(z, t, req);
    assert Time2SubSpec(z, req, false) == Attempt(t, true, Local(z, t).value);
  }

  /** There and back is the identity, second 60 included, if and only if the second is not -1. */
  lemma LeapIdentity(z: Zone, ts: Timestamp, rep: Representation, status: Status, back: Timestamp)
    requires LeapUtc(z) && ValidZone(z) && Represents(z, ts, DtOk, rep) && Denoted(z, rep, status, back)
    ensures status == DtOk <==> ts.second != -1
    ensures status == DtOk ==> back == ts
  {
    hide Local, LeapUtc, ValidZone, Time1Spec, ReadingOf, RepresentationToTm, TmToRepresentation;
    BaseReadable(z, ts.second);
    RepresentationInverse(Local(z, ts.second).value, ts.nano);
    UnknownDst(rep);
    ReadingFound(z, ts.second, RepresentationToTm(rep));
  }

  lemma UnknownDst(rep: Representation)
    ensures RepresentationToTm(rep).isdst < 0
  {
  }

  /** The public conversions there and back. */
  method LeapThereAndBack(s: State, ts: Timestamp) returns (status: Status, back: Timestamp)
    requires s.Valid() && LeapUtc(s.View()) && Local(s.View(), ts.second).Some?
    ensures status == DtOk <==> ts.second != -1
    ensures status == DtOk ==> back == ts
  {
    hide Local, ValidZone, Denoted, LeapUtc;
    var there, rep := TimestampToRepresentation(ts, s, Representation(0, 0, 0, 0, 0, 0, 0));
    status, back := RepresentationToTimestamp(rep, s, ts);
    LeapIdentity(s.View(), ts, rep, status, back);
  }
}
