// The public conversions there and back in zones whose transitions keep their distance: exactly which
// instants come back.
module ZoneRoundTrip {
  import opened Machine
  import opened DtTypes
  import opened Calendar
  import opened CivilTime
  import opened FindTime
  import opened LocalTime
  import opened MakeTime
  import opened Normalise
  import opened PosixRules
  import opened PublicTime
  import opened RuleOrder
  import opened TzLoad
  import opened ZoneChanges

  // ---- ordinary zones

  /** A zone in which the way there and back is safe: no leap seconds, transitions that keep their
      distance, and no repeat from ends that are out of reach. */
  ghost predicate Ordinary(z: Zone, d: int)
  {
    ValidZone(z) && z.lsis == [] && Spaced(z, d) && EndsNear(z)
  }

  /** The way there and back ends on an instant of the same reading: the same instant, or one that
      the clock shows again after it was set back. Only if that instant is -1 is it not reported. */
  lemma SameReadingBack(z: Zone, d: int, ts: Timestamp, rep: Representation, status: Status, back: Timestamp)
    requires Ordinary(z, d) && -FAR <= ts.second <= FAR
    requires Represents(z, ts, DtOk, rep) && Denoted(z, rep, status, back)
    ensures var w := ReadingOf(Local(z, ts.second).value);
            if status == DtOk then
              && back.nano == ts.nano && Reads(z, back.second, w)
              && back.second + OffsetAt(z, back.second) == ts.second + OffsetAt(z, ts.second)
            else Reads(z, WRONG, w) && WRONG as int + OffsetAt(z, WRONG) == ts.second + OffsetAt(z, ts.second)
  {
    hide Local, Skipped, OffsetAt, Spaced;
    ShownNotSkipped(z, d, ts.second);
    RoundTripReads(z, ts, rep, status, back);
    ShownSeconds(z, ts.second);
    ShownSeconds(z, if status == DtOk then back.second else WRONG);
  }

  // ---- which instants come back

  /** t lies in one of the two stretches of time that read alike around a change at c that sets the
      clock back: as long as the clock is set back, before c or from c on. */
  predicate AroundSetBack(z: Zone, c: int, t: int)
    requires WellTyped(z)
  {
    var drop := OffsetAt(z, c - 1) as int - OffsetAt(z, c);
    drop > 0 && c - drop <= t < c + drop
  }

  /** Two instants that show the same seconds lie around a change that sets the clock back. */
  lemma ShownTwice(z: Zone, d: int, t: int, u: int) returns (c: int)
    requires ValidZone(z) && Spaced(z, d) && t < u && t + OffsetAt(z, t) == u + OffsetAt(z, u)
    ensures AroundSetBack(z, c, t) && AroundSetBack(z, c, u)
  {
    hide OffsetAt, WellTyped, Spaced;
    Spread(z, d, t, u);
    c := ChangeBetween(z, t, u);
    OnlyChange(z, d, t, c - 1);
    OnlyChange(z, d, u, c - 1);
  }

  /** And each instant around such a change has a partner across the change. */
  lemma PartnerAcross(z: Zone, d: int, c: int, t: int) returns (u: int)
    requires ValidZone(z) && Spaced(z, d) && AroundSetBack(z, c, t)
    ensures u != t && t - d <= u <= t + d && t + OffsetAt(z, t) == u + OffsetAt(z, u)
  {
    hide OffsetAt, WellTyped, Spaced;
    var drop := OffsetAt(z, c - 1) as int - OffsetAt(z, c);
    Spread(z, d, c - 1, c);
    u := if t < c then t + drop else t - drop;
    OnlyChange(z, d, t, c - 1);
    OnlyChange(z, d, u, c - 1);
  }

  /** The conversion there and back of instant t ends on t. */
  ghost predicate Returns(z: Zone, t: Long)
    requires ValidZone(z)
  {
    t != WRONG && Local(z, t).Some? && Found(z, ReadingOf(Local(z, t).value)) == Some(t)
  }

  /** That is what the public conversions do, whatever the nanoseconds. */
  lemma ReturnsExactly(z: Zone, d: int, ts: Timestamp, rep: Representation, status: Status, back: Timestamp)
    requires Ordinary(z, d) && -FAR <= ts.second <= FAR
    requires Represents(z, ts, DtOk, rep) && Denoted(z, rep, status, back)
    ensures status == DtOk && back == ts <==> Returns(z, ts.second)
  {
    hide Local, Found, Civil, Denoted, ValidZone, ReadingOf, RepresentationToTm, TmToRepresentation;
    var tm := Local(z, ts.second).value;
    ShownIsValid(z, ts.second);
    RepresentationInverse(tm, ts.nano);
    NormalRequest(RepresentationToTm(rep));
    RepresentationSeconds(rep);
    DenotedFound(z, rep, status, back);
  }

  lemma RepresentationSeconds(rep: Representation)
    requires ValidReading(ReadingOf(RepresentationToTm(rep)))
    ensures rep.second < 60
  {
  }

  /** Two near instants read the same exactly if they show the same seconds. */
  lemma SameReading(z: Zone, t: Long, u: Long)
    requires ValidZone(z) && z.lsis == [] && Local(z, t).Some? && Local(z, u).Some?
    ensures Reads(z, u, ReadingOf(Local(z, t).value)) <==> t + OffsetAt(z, t) == u + OffsetAt(z, u)
  {
    hide Local, ValidZone, OffsetAt, Seconds, ValidReading;
    ShownSeconds(z, t);
    ShownSeconds(z, u);
    ReadingOrder(ReadingOf(Local(z, t).value), ReadingOf(Local(z, u).value));
  }

  /** Away from set-backs an instant is the only one of its reading. */
  lemma OnlyReader(z: Zone, d: int, t: Long, u: Long)
    requires ValidZone(z) && z.lsis == [] && Spaced(z, d) && Local(z, t).Some?
    requires Reads(z, u, ReadingOf(Local(z, t).value)) && !exists c :: AroundSetBack(z, c, t)
    ensures u == t
  {
    hide Local, OffsetAt, ValidZone, Spaced, AroundSetBack;
    SameReading(z, t, u);
    if t < u { var c := ShownTwice(z, d, t, u); }
    if u < t { var c := ShownTwice(z, d, u, t); }
  }

  /** Around a set-back there is another one. */
  lemma OtherReader(z: Zone, d: int, c: int, t: Long) returns (u: Long)
    requires Ordinary(z, d) && -FAR <= t <= FAR && AroundSetBack(z, c, t) && Local(z, t).Some?
    ensures u != t && Reads(z, u, ReadingOf(Local(z, t).value))
  {
    assert d <= SECSPERREPEAT;
    hide Local, OffsetAt, ValidZone, Spaced, EndsNear, AroundSetBack;
    u := PartnerAcross(z, d, c, t);
    NearReadable(z, u);
    SameReading(z, t, u);
  }

  /** Every instant that reads what t reads comes back if and only if t does not lie around a change
      that sets the clock back, and is not -1. */
  lemma RoundTripExactly(z: Zone, d: int, t: Long)
    requires Ordinary(z, d) && -FAR <= t <= FAR
    ensures Local(z, t).Some?
    ensures (forall u: Long :: Reads(z, u, ReadingOf(Local(z, t).value)) ==> Returns(z, u))
            <==> t != WRONG && !exists c :: AroundSetBack(z, c, t)
  {
    hide Local, Found, OffsetAt, WellTyped, Spaced, EndsNear, Skipped, AroundSetBack;
    NearReadable(z, t);
    var w := ReadingOf(Local(z, t).value);
    if c :| AroundSetBack(z, c, t) {
      var u := OtherReader(z, d, c, t);
      assert Reads(z, t, w) && !(Returns(z, t) && Returns(z, u));
    } else {
      ShownNotSkipped(z, d, t);
      FoundOrSkipped(z, w);
      forall u: Long | Reads(z, u, w) ensures u == t {
        OnlyReader(z, d, t, u);
      }
      assert Found(z, w) == Some(t) && Reads(z, t, w);
    }
  }

  /** So everywhere but around set-backs there and back is the identity. */
  lemma IdentityOffSetBacks(z: Zone, d: int, ts: Timestamp, rep: Representation, status: Status, back: Timestamp)
    requires Ordinary(z, d) && -FAR <= ts.second <= FAR && !exists c :: AroundSetBack(z, c, ts.second)
    requires Represents(z, ts, DtOk, rep) && Denoted(z, rep, status, back)
    ensures status == DtOk <==> ts.second != -1
    ensures status == DtOk ==> back == ts
  {
    hide Local, OffsetAt, ValidZone, Spaced, EndsNear, AroundSetBack, Time1Spec;
    SameReadingBack(z, d, ts, rep, status, back);
    OnlyReader(z, d, ts.second, if status == DtOk then back.second else WRONG);
  }

  // ---- which zones are ordinary

  /** The zone of a TZ string whose rules are two months apart and whose offsets differ by at most d. */
  lemma RuleZonesOrdinary(z: Zone, p: Posix, d: int)
    requires TwoMonthsApart(p) && RulesWithin(p, d)
    requires IsRuleTable(p, z) && !z.goback && !z.goahead
    ensures Ordinary(z, d)
  {
    hide RuleAt, RuleType, MidYear;
    forall i | 0 < i < |z.ats| ensures z.ats[i] as int - z.ats[i - 1] >= d {
      RulesApart(p, i - 1);
    }
    forall i, j | 0 <= i < j < |z.ats| ensures z.ats[i] <= z.ats[j] {
      RulesSorted(p, i, j);
    }
  }

  /** The offsets differ by at most d seconds, and d leaves room between transitions; an hour does for
      the usual kind of DST. */
  predicate RulesWithin(p: Posix, d: int)
  {
    var diff := p.dstoffset as int - p.stdoffset;
    1 <= d && -d <= diff <= d && d + (if diff < 0 then -diff else diff) <= 30 * SECSPERDAY - MAX_RULE_SECS
  }

  /** Conditions on a file and its footer's rules: the transitions of either, and the first rule entry
      behind the file's last transition, are at least d seconds apart, and all offsets are within d. */
  ghost predicate FileWithin(z0: Zone, p: Posix, ts: Zone, d: int)
  {
    && WellTyped(z0) && z0.ats != [] && |z0.ttis| + 2 <= TZ_MAX_TYPES && z0.lsis == []
    && TwoMonthsApart(p) && RulesWithin(p, d) && IsRuleTable(p, ts)
    && (forall i :: 0 < i < |z0.ats| ==> z0.ats[i] as int - z0.ats[i - 1] >= d)
    && (var last := z0.ats[|z0.ats| - 1]; var q := FirstAfter(ts.ats, last);
        -FAR <= last <= FAR && (q < |ts.ats| ==> ts.ats[q] as int - last >= d))
    && OffsetsWithin(z0.ttis + RuleTypes(p), d)
  }

  lemma LoadedGap(z0: Zone, p: Posix, ts: Zone, d: int, i: nat)
    requires FileWithin(z0, p, ts, d) && 0 < i < |z0.ats| + Room(z0, ts)
    ensures |ts.types| == |ts.ats|
    ensures var z := Spliced(z0, ts); i < |z.ats| && z.ats[i] as int - z.ats[i - 1] >= d
  {
    hide RuleAt, RuleType, FirstAfter, TwoMonthsApart, RulesWithin, IsRuleTable, Sorted, OffsetsWithin, Spliced, Room;
    TableTypes(p, ts);
    HeadEntry(z0, ts, if i < |z0.ats| then i else |z0.ats| - 1);
    HeadEntry(z0, ts, if i < |z0.ats| then i - 1 else 0);
    if i > |z0.ats| {
      TailGap(z0, p, ts, d, i);
    } else if i == |z0.ats| {
      SplicedEntry(z0, ts, i);
    }
  }

  lemma HeadEntry(z0: Zone, ts: Zone, i: nat)
    requires 1 <= |z0.ats| <= TZ_MAX_TIMES && |ts.types| == |ts.ats| && i < |z0.ats|
    ensures i < |Spliced(z0, ts).ats| && Spliced(z0, ts).ats[i] == z0.ats[i]
  {
    hide FirstAfter;
  }

  lemma TailGap(z0: Zone, p: Posix, ts: Zone, d: int, i: nat)
    requires TwoMonthsApart(p) && RulesWithin(p, d) && IsRuleTable(p, ts)
    requires 1 <= |z0.ats| <= TZ_MAX_TIMES && |z0.types| == |z0.ats| && |ts.types| == |ts.ats|
    requires |z0.ats| < i < |z0.ats| + Room(z0, ts)
    ensures var z := Spliced(z0, ts); i < |z.ats| && z.ats[i] as int - z.ats[i - 1] >= d
  {
    hide RuleAt, RuleType, FirstAfter, TwoMonthsApart, RulesWithin, IsRuleTable, Spliced;
    SplicedEntry(z0, ts, i);
    SplicedEntry(z0, ts, i - 1);
    RuleGap(p, ts, d, i - 1 - |z0.ats| + FirstAfter(ts.ats, z0.ats[|z0.ats| - 1]));
  }

  lemma RuleGap(p: Posix, ts: Zone, d: int, k: nat)
    requires TwoMonthsApart(p) && RulesWithin(p, d) && IsRuleTable(p, ts) && k + 1 < |ts.ats|
    ensures ts.ats[k + 1] as int - ts.ats[k] >= d
  {
    hide RuleAt, RuleType, MidYear;
    RulesApart(p, k);
  }

  lemma LoadedLast(z0: Zone, p: Posix, ts: Zone, d: int)
    requires FileWithin(z0, p, ts, d)
    ensures var ats := Spliced(z0, ts).ats; ats != [] && -FAR <= ats[|ats| - 1] <= FAR && ats[0] == z0.ats[0] <= FAR
  {
    hide RuleAt, RuleType, FirstAfter, RulesWithin;
    if Room(z0, ts) > 0 {
      var i := |z0.ats| + Room(z0, ts) - 1;
      SplicedEntry(z0, ts, i);
      RuleFits(p, i - |z0.ats| + FirstAfter(ts.ats, z0.ats[|z0.ats| - 1]));
    }
  }

  /** A zone loaded from such a file is ordinary. */
  lemma LoadedZonesOrdinary(z: Zone, z0: Zone, p: Posix, ts: Zone, d: int)
    requires FileWithin(z0, p, ts, d) && WellTyped(ts) && z == Loaded(z0, ts)
    requires z.goback ==> -FAR <= z0.ats[0]
    ensures Ordinary(z, d)
  {
    hide RuleAt, RuleType, FirstAfter, WellTyped, RepeatsBack, RepeatsAhead, TwoMonthsApart, IsRuleTable, OffsetsWithin;
    TableTypes(p, ts);
    assert z.ats == Spliced(z0, ts).ats && z.ttis == z0.ttis + RuleTypes(p);
    forall i | 0 < i < |z.ats| ensures z.ats[i] as int - z.ats[i - 1] >= d {
      LoadedGap(z0, p, ts, d, i);
    }
    LoadedLast(z0, p, ts, d);
  }

  lemma TableTypes(p: Posix, ts: Zone)
    requires TwoMonthsApart(p) && IsRuleTable(p, ts)
    ensures ts.ttis == RuleTypes(p) && |ts.types| == |ts.ats|
  {
  }

  // ---- conversions that succeed, and round trips

  /** The normalised reading of a representation, its seconds as they stand. */
  function Asked(rep: Representation): Reading { NormalReading(RepresentationToTm(rep), false) }

  /** A moderate representation is converted whenever some near instant reads it, but for the seconds set
      aside beyond 59: to an instant that reads the same, so many seconds later, unless that is -1. */
  lemma ConvertsBeyondSixty(z: Zone, d: int, rep: Representation, t: Long, status: Status, ts: Timestamp)
    requires Ordinary(z, d) && -FAR <= t <= FAR && -1_000_000_000 <= rep.year <= 1_000_000_000
    requires Reads(z, t, Base(Asked(rep))) && Denoted(z, rep, status, ts)
    ensures var t0 := Found(z, Base(Asked(rep)));
            && t0.Some? && Reads(z, t0.value, Base(Asked(rep)))
            && if t0.value + Saved(Asked(rep)) == WRONG then status == DtInvalidArgument
               else status == DtOk && ts.nano == rep.nano && ts.second == t0.value + Saved(Asked(rep))
  {
    hide Local, LocalSpec, FoundIn, Civil, ValidZone, Skipped, Normalisable, Spaced, EndsNear, NormalReading, OffsetAt,
         Time1Spec, RawSeconds, Saved, Base, SecondsOverflow;
    var tm, r := RepresentationToTm(rep), Asked(rep);
    ModerateNormalises(tm, false);
    SavedRange(rep);
    ShownNotSkipped(z, d, t);
    FoundOrSkipped(z, Base(r));
    var t0: Long := Found(z, Base(r)).value;
    NearReader(z, d, t, t0);
    NearReadable(z, t0 + Saved(r));
    FirstTryWorks(z, tm, t0);
  }

  lemma FirstTryWorks(z: Zone, tm: Tm, t0: Long)
    requires ValidZone(z) && Normalisable(tm, false) && tm.isdst < 0
    requires var r := NormalReading(tm, false);
             && !SecondsOverflow(r) && Found(z, Base(r)) == Some(t0)
             && LONG_MIN <= t0 + Saved(r) <= LONG_MAX && Local(z, t0 + Saved(r)).Some?
    ensures Time1Spec(z, tm).t == t0 + Saved(NormalReading(tm, false))
  {
    hide Local, LocalSpec, Found, Civil, ValidZone, Normalisable, NormalReading, RetryFrom, RawSeconds, Saved, Base,
         SecondsOverflow;
    BufferIrrelevant(z, t0 + Saved(NormalReading(tm, false)), tm);
  }

  lemma SavedRange(rep: Representation)
    ensures 0 <= Saved(Asked(rep)) < 0x1_0000 && !SecondsOverflow(Asked(rep)) && RepresentationToTm(rep).isdst < 0
    ensures -1_000_000_000 <= rep.year <= 1_000_000_000 ==> Moderate(RepresentationToTm(rep))
  {
    hide Civil, RawSeconds;
  }

  /** Instants of one reading are close together. */
  lemma NearReader(z: Zone, d: int, t: Long, u: Long)
    requires Ordinary(z, d) && Local(z, t).Some? && Reads(z, u, ReadingOf(Local(z, t).value))
    ensures t - SECSPERREPEAT <= u <= t + SECSPERREPEAT
  {
    assert d <= SECSPERREPEAT;
    hide Local, OffsetAt, WellTyped, Spaced, EndsNear;
    SameReading(z, t, u);
    Spread(z, d, t, u);
    Spread(z, d, u, t);
  }

  /** With seconds in 0..59 that is: a moderate representation whose reading some near instant shows is
      converted to an instant of that reading, unless the one found is -1. */
  lemma ConvertsWhenShown(z: Zone, d: int, rep: Representation, t: Long, status: Status, ts: Timestamp)
    requires Ordinary(z, d) && -FAR <= t <= FAR && Reads(z, t, Requested(rep))
    requires -1_000_000_000 <= rep.year <= 1_000_000_000 && rep.second < 60 && Denoted(z, rep, status, ts)
    ensures Found(z, Requested(rep)).Some?
    ensures status == DtOk <==> Found(z, Requested(rep)) != Some(WRONG)
    ensures status == DtOk ==> ts.nano == rep.nano && Reads(z, ts.second, Requested(rep))
  {
    hide Local, FoundIn, Civil, Denoted, ValidZone, Requested, Skipped, Normalisable, Spaced, EndsNear;
    ModerateNormalises(RepresentationToTm(rep), false);
    ShownNotSkipped(z, d, t);
    FoundOrSkipped(z, Requested(rep));
    DenotedFound(z, rep, status, ts);
  }

  /** The public conversions there and back. */
  method ThereAndBack(s: State, ts: Timestamp, ghost d: int) returns (status: Status, back: Timestamp)
    requires s.Valid() && Ordinary(s.View(), d) && -FAR <= ts.second <= FAR
    ensures status == DtOk && back == ts <==> Returns(s.View(), ts.second)
    ensures status == DtOk ==>
      var z := s.View();
      back.nano == ts.nano && back.second + OffsetAt(z, back.second) == ts.second + OffsetAt(z, ts.second)
    ensures ts.second != -1 && !(exists c :: AroundSetBack(s.View(), c, ts.second)) ==> status == DtOk && back == ts
  {
    hide Ordinary, Denoted, Local, OffsetAt, AroundSetBack, Returns;
    ghost var z := s.View();
    NearTimestamp(z, d, ts);
    var there, rep := TimestampToRepresentation(ts, s, Representation(0, 0, 0, 0, 0, 0, 0));
    status, back := RepresentationToTimestamp(rep, s, ts);
    SameReadingBack(z, d, ts, rep, status, back);
    ReturnsExactly(z, d, ts, rep, status, back);
    if !exists c :: AroundSetBack(z, c, ts.second) { IdentityOffSetBacks(z, d, ts, rep, status, back); }
  }

  lemma NearTimestamp(z: Zone, d: int, ts: Timestamp)
    requires Ordinary(z, d) && -FAR <= ts.second <= FAR
    ensures ValidZone(z) && Local(z, ts.second).Some?
  {
    hide Local, Spaced;
    NearReadable(z, ts.second);
  }
}
