// Zones whose transitions keep their distance: when the clock's offset changes, for all time, and why
// no reading that the clock shows is jumped over elsewhere.
module ZoneChanges {
  import opened Machine
  import opened Calendar
  import opened CivilTime
  import opened FindTime
  import opened LocalTime
  import opened MakeTime
  import opened Normalise
  import opened PublicTime

  /** Some 570 million years. */
  const FAR: int := 0x40_0000_0000_0000

  /** Consecutive transitions are at least d seconds apart, and no two offsets differ by more. */
  predicate Spaced(z: Zone, d: int)
  {
    && 1 <= d <= SECSPERREPEAT
    && (forall i :: 0 < i < |z.ats| ==> z.ats[i] as int - z.ats[i - 1] >= d)
    && OffsetsWithin(z.ttis, d)
  }

  predicate OffsetsWithin(ttis: seq<TtInfo>, d: int)
  {
    forall a, b :: 0 <= a < |ttis| && 0 <= b < |ttis| ==> ttis[a].gmtoff as int - ttis[b].gmtoff <= d
  }

  /** An end from which the table repeats is within FAR of the epoch. */
  predicate EndsNear(z: Zone)
  {
    z.ats != [] ==>
      && (z.goback ==> -FAR <= z.ats[0] <= FAR)
      && (z.goahead ==> -FAR <= z.ats[|z.ats| - 1] <= FAR)
  }

  function OffsetAt(z: Zone, t: int): Int
    requires WellTyped(z)
  {
    z.ttis[TypeFor(z, t)].gmtoff
  }

  predicate Changes(z: Zone, t: int)
    requires WellTyped(z)
  {
    OffsetAt(z, t - 1) != OffsetAt(z, t)
  }

  // ---- the offset changes only at table entries, and those keep their distance

  lemma {:induction false} EntriesApart(z: Zone, d: int, i: nat, j: nat)
    requires Spaced(z, d) && i < j < |z.ats|
    ensures z.ats[j] as int - z.ats[i] >= d
    decreases j
  {
    if i < j - 1 { EntriesApart(z, d, i, j - 1); }
  }

  lemma IndexOrder(ats: seq<int>, i: nat, j: nat)
    requires Sorted(ats) && i < |ats| && j < |ats| && ats[i] < ats[j]
    ensures i < j
  {
  }

  lemma DirectChange(z: Zone, t: int)
    requires WellTyped(z) && TypeIndex(z, t - 1) != TypeIndex(z, t)
    ensures t in z.ats
  {
    if t > z.ats[0] {
      var k := LastNotAfter(z.ats, t - 1);
      if k + 1 == |z.ats| || t < z.ats[k + 1] { LookupUnique(z.ats, t, k); }
    }
  }

  /** In the table, an instant at which an entry takes effect has that entry's type. */
  lemma EntryType(z: Zone, d: int, i: nat)
    requires WellTyped(z) && Spaced(z, d) && i < |z.ats|
    ensures TypeIndex(z, z.ats[i]) == z.types[i]
  {
    if i + 1 < |z.ats| { EntriesApart(z, d, i, i + 1); }
    LookupUnique(z.ats, z.ats[i], i);
  }

  /** Where the folded instant lies. */
  lemma FoldRange(z: Zone, t: int)
    requires ValidZone(z)
    ensures t == Folded(z, t) + SECSPERREPEAT * Cycle(z, t)
    ensures Cycle(z, t) != 0 ==> z.ats != [] && z.ats[0] <= Folded(z, t) <= z.ats[|z.ats| - 1]
    ensures Cycle(z, t) > 0 ==> z.goahead && z.ats[|z.ats| - 1] - SECSPERREPEAT < Folded(z, t)
    ensures Cycle(z, t) < 0 ==> z.goback && Folded(z, t) < z.ats[0] + SECSPERREPEAT
    ensures Cycle(z, t) == 0 && z.ats != [] ==>
      (z.goback ==> z.ats[0] <= Folded(z, t)) && (z.goahead ==> Folded(z, t) <= z.ats[|z.ats| - 1])
  {
    hide WellTyped, RepeatsBack, RepeatsAhead;
    if Cycle(z, t) != 0 { FoldLands(z, t); }
  }

  // The seam between two cycles: kb and kc count the cycles of two instants, fb and fc are the
  // folded instants, and last and first are the ends of the table.

  lemma AheadOfSeam(kb: int, kc: int, fb: int, fc: int, last: int)
    requires kb != kc > 0 && fb <= last && last - SECSPERREPEAT < fc <= last && (kb > 0 ==> last - SECSPERREPEAT < fb)
    requires fb + SECSPERREPEAT * kb < fc + SECSPERREPEAT * kc
    ensures fc + SECSPERREPEAT * kc - (fb + SECSPERREPEAT * kb) >= (last - fb) + (fc - (last - SECSPERREPEAT))
  {
  }

  lemma BehindSeam(kb: int, kc: int, fb: int, fc: int, first: int, last: int)
    requires kb != kc <= 0 && first <= fb && first <= fc && first <= last
    requires (kb < 0 ==> fb < first + SECSPERREPEAT) && (kc < 0 ==> fc < first + SECSPERREPEAT)
    requires (kb > 0 ==> last - SECSPERREPEAT < fb) && (kb > 0 && kc == 0 ==> fc <= last)
    requires fb + SECSPERREPEAT * kb < fc + SECSPERREPEAT * kc
    ensures kb < 0 && fc + SECSPERREPEAT * kc - (fb + SECSPERREPEAT * kb) >= (first + SECSPERREPEAT - fb) + (fc - first)
  {
  }

  /** Just behind the end of the table the clock goes on as just behind the entry 400 years before. */
  lemma WrapsAhead(z: Zone, d: int, t: int)
    requires ValidZone(z) && Spaced(z, d) && z.goahead && Changes(z, t)
    requires Folded(z, t - 1) == z.ats[|z.ats| - 1] && Folded(z, t) == z.ats[|z.ats| - 1] - SECSPERREPEAT + 1
    ensures Folded(z, t) in z.ats
  {
    hide TypeIndex, Folded;
    var last := |z.ats| - 1;
    var i :| 0 <= i < last && RepeatPair(z, i, last);
    EntryType(z, d, i);
    EntryType(z, d, last);
    DirectChange(z, Folded(z, t));
  }

  /** From one second to the next the cycle changes only where the table's end meets the entry 400 years before. */
  lemma SeamStep(z: Zone, t: int)
    requires ValidZone(z) && Cycle(z, t - 1) != Cycle(z, t)
    ensures z.ats != []
    ensures if Cycle(z, t) > 0
            then var last := z.ats[|z.ats| - 1];
                 z.goahead && Folded(z, t - 1) == last && Folded(z, t) == last - SECSPERREPEAT + 1
            else Folded(z, t) == z.ats[0]
  {
    FoldRange(z, t - 1);
    FoldRange(z, t);
    var first, last := z.ats[0], z.ats[|z.ats| - 1];
    assert first <= last;
    hide ValidZone, Cycle, Folded;
    var kb, kc, fb, fc := Cycle(z, t - 1), Cycle(z, t), Folded(z, t - 1), Folded(z, t);
    if kc > 0 {
      AheadOfSeam(kb, kc, fb, fc, last);
    } else {
      BehindSeam(kb, kc, fb, fc, first, last);
    }
  }

  /** Beyond the table's ends too, a change of offset happens where the folded instant is an entry. */
  lemma ChangeIsEntry(z: Zone, d: int, t: int)
    requires ValidZone(z) && Spaced(z, d) && Changes(z, t)
    ensures Folded(z, t) in z.ats
  {
    hide TypeIndex, Cycle;
    if Cycle(z, t - 1) == Cycle(z, t) {
      DirectChange(z, Folded(z, t));
    } else {
      hide Changes, Folded;
      SeamStep(z, t);
      if Cycle(z, t) > 0 { WrapsAhead(z, d, t); }
    }
  }

  // Two entries in one cycle, or on either side of the seam between two cycles.

  lemma SameCycle(z: Zone, d: int, b: int, c: int, i: nat, j: nat)
    requires ValidZone(z) && Spaced(z, d) && b < c && Cycle(z, b) == Cycle(z, c)
    requires i < |z.ats| && j < |z.ats| && z.ats[i] == Folded(z, b) && z.ats[j] == Folded(z, c)
    ensures c - b >= d
  {
    hide Cycle, Spaced;
    IndexOrder(z.ats, i, j);
    EntriesApart(z, d, i, j);
  }

  lemma SeamAhead(z: Zone, d: int, b: int, c: int, i: nat, j: nat)
    requires ValidZone(z) && Spaced(z, d) && b < c && Cycle(z, b) != Cycle(z, c) && Cycle(z, c) > 0
    requires i < |z.ats| && j < |z.ats| && z.ats[i] == Folded(z, b) && z.ats[j] == Folded(z, c)
    ensures c - b >= d
  {
    FoldRange(z, b);
    FoldRange(z, c);
    hide Cycle, Folded, Spaced;
    var last := |z.ats| - 1;
    var r :| 0 <= r < last && RepeatPair(z, r, last);
    assert z.ats[i] <= z.ats[last];
    hide ValidZone;
    AheadOfSeam(Cycle(z, b), Cycle(z, c), z.ats[i], z.ats[j], z.ats[last]);
    IndexOrder(z.ats, r, j);
    EntriesApart(z, d, r, j);
  }

  lemma SeamBehind(z: Zone, d: int, b: int, c: int, i: nat, j: nat)
    requires ValidZone(z) && Spaced(z, d) && b < c && Cycle(z, b) != Cycle(z, c) && Cycle(z, c) <= 0
    requires i < |z.ats| && j < |z.ats| && z.ats[i] == Folded(z, b) && z.ats[j] == Folded(z, c)
    ensures c - b >= d
  {
    FoldRange(z, b);
    FoldRange(z, c);
    hide Cycle, Folded, Spaced;
    var last := |z.ats| - 1;
    assert z.ats[0] <= z.ats[i] && z.ats[0] <= z.ats[j] <= z.ats[last];
    BehindSeam(Cycle(z, b), Cycle(z, c), z.ats[i], z.ats[j], z.ats[0], z.ats[last]);
    var r :| 1 <= r < |z.ats| && RepeatPair(z, 0, r);
    hide ValidZone;
    IndexOrder(z.ats, i, r);
    EntriesApart(z, d, i, r);
  }

  /** Less than d seconds after a change there is no other one. */
  lemma ChangesApart(z: Zone, d: int, b: int, c: int)
    requires ValidZone(z) && Spaced(z, d) && Changes(z, b) && Changes(z, c) && b < c
    ensures c - b >= d
  {
    hide Changes;
    ChangeIsEntry(z, d, b);
    ChangeIsEntry(z, d, c);
    hide ValidZone, Cycle, Spaced;
    var i :| 0 <= i < |z.ats| && z.ats[i] == Folded(z, b);
    var j :| 0 <= j < |z.ats| && z.ats[j] == Folded(z, c);
    if Cycle(z, b) == Cycle(z, c) {
      SameCycle(z, d, b, c, i, j);
    } else if Cycle(z, c) > 0 {
      SeamAhead(z, d, b, c, i, j);
    } else {
      SeamBehind(z, d, b, c, i, j);
    }
  }

  lemma {:induction false} ChangeBetween(z: Zone, a: int, b: int) returns (c: int)
    requires WellTyped(z) && a <= b && OffsetAt(z, a) != OffsetAt(z, b)
    ensures a < c <= b && Changes(z, c)
    decreases b - a
  {
    hide OffsetAt;
    if OffsetAt(z, b - 1) != OffsetAt(z, b) {
      c := b;
    } else {
      c := ChangeBetween(z, a, b - 1);
    }
  }

  /** A change at a + 1 is the only one within d seconds, on either side. */
  lemma OnlyChange(z: Zone, d: int, t: int, a: int)
    requires ValidZone(z) && Spaced(z, d) && Changes(z, a + 1)
    ensures t <= a < t + d ==> OffsetAt(z, t) == OffsetAt(z, a)
    ensures a < t <= a + d ==> OffsetAt(z, t) == OffsetAt(z, a + 1)
  {
    hide OffsetAt, Changes;
    if t <= a < t + d && OffsetAt(z, t) != OffsetAt(z, a) {
      var c := ChangeBetween(z, t, a);
      ChangesApart(z, d, c, a + 1);
    }
    if a < t <= a + d && OffsetAt(z, t) != OffsetAt(z, a + 1) {
      var c := ChangeBetween(z, a + 1, t);
      ChangesApart(z, d, a + 1, c);
    }
  }

  // ---- instants near the epoch have readings

  lemma YearNear(day: int, n: nat)
    requires -365 * n <= day <= 365 * n
    ensures 1970 - n <= YearOf(day) <= 1970 + n
  {
    YearStartBounds(1970 - n, 1970);
    YearStartBounds(1970, 1970 + n + 1);
    YearAtLeast(1970 - n, day);
    YearAtMost(1970 + n + 1, day);
  }

  lemma NearYear(s: int)
    requires -3 * FAR <= s <= 3 * FAR
    ensures -1800000000 <= YearOf(s / SECSPERDAY) <= 1800003940
    ensures -1800000000 <= YearOf(TruncDiv(s, SECSPERDAY)) <= 1800003940
  {
    YearNear(s / SECSPERDAY, 1800001970);
    YearNear(TruncDiv(s, SECSPERDAY), 1800001970);
  }

  lemma NearFold(z: Zone, t: int)
    requires ValidZone(z) && EndsNear(z) && -2 * FAR <= t <= 2 * FAR
    ensures -2 * FAR <= Folded(z, t) <= 2 * FAR
  {
    if Cycle(z, t) != 0 { FoldLands(z, t); }
  }

  /** An instant is readable where it, its folded instant and their local times are near. */
  lemma NearReadable(z: Zone, t: Long)
    requires ValidZone(z) && z.lsis == [] && EndsNear(z) && -2 * FAR <= t <= 2 * FAR
    ensures Local(z, t).Some?
  {
    hide TypeIndex, YearOf, Cycle, EndsNear, RepeatsBack, RepeatsAhead, TimeSubSpec, Civil;
    NearFold(z, t);
    var k, newt: Long := Cycle(z, t), Folded(z, t);
    NearReading(newt, z.ttis[TypeIndex(z, newt)].gmtoff, k);
  }

  lemma NearReading(newt: Long, offset: Int, k: int)
    requires -2 * FAR <= newt <= 2 * FAR && -2 * FAR <= newt + SECSPERREPEAT * k <= 2 * FAR
    ensures var out := TimeSubSpec(newt, offset, [], BLANK); out.ok && FitsInt(out.tm.year + k * YEARSPERREPEAT)
  {
    hide YearOf, TimeSubSpec;
    NearYear(newt);
    NearYear(newt + offset);
    NearYear(newt + offset + SECSPERREPEAT * k);
    TimeSubMeaning(newt, offset, BLANK);
    CivilRepeats(newt + offset, k);
  }

  // ---- nothing shown is skipped

  /** The seconds that the clock shows. */
  lemma ShownSeconds(z: Zone, t: Long)
    requires ValidZone(z) && z.lsis == [] && Local(z, t).Some?
    ensures ValidReading(ReadingOf(Local(z, t).value)) && Seconds(ReadingOf(Local(z, t).value)) == t + OffsetAt(z, t)
  {
    hide TypeFor;
    LocalMeaning(z, t, BLANK);
  }

  /** The clock does not jump over w at instants that have no readings. */
  lemma NoFarJump(z: Zone, w: Reading, a: Long)
    requires ValidZone(z) && z.lsis == [] && EndsNear(z) && ValidReading(w)
    requires -3 * FAR < 2 * Seconds(w) < 3 * FAR && JumpsOver(z, a, w)
    ensures Local(z, a).Some? && Local(z, a + 1).Some?
  {
    hide Local, Seconds, OffsetAt, ValidReading;
    if -2 * FAR <= a <= 2 * FAR { NearReadable(z, a); }
    if -2 * FAR <= a + 1 <= 2 * FAR { NearReadable(z, a + 1); }
    if Local(z, a).Some? {
      ShownSeconds(z, a);
      ReadingOrder(ReadingOf(Local(z, a).value), w);
    }
    if Local(z, a + 1).Some? {
      ShownSeconds(z, a + 1);
      ReadingOrder(w, ReadingOf(Local(z, a + 1).value));
    }
  }

  /** A reading that the clock shows is jumped over nowhere. */
  lemma ShownNotSkipped(z: Zone, d: int, t: Long)
    requires ValidZone(z) && z.lsis == [] && Spaced(z, d) && EndsNear(z) && -FAR <= t <= FAR
    ensures Local(z, t).Some? && !Skipped(z, ReadingOf(Local(z, t).value))
  {
    hide Local, Seconds, ValidReading, JumpsOver, OffsetAt;
    NearReadable(z, t);
    ShownSeconds(z, t);
    var w := ReadingOf(Local(z, t).value);
    forall a: Long ensures !JumpsOver(z, a, w) {
      if JumpsOver(z, a, w) {
        NoFarJump(z, w, a);
        Gap(z, d, a, w);
        OnlyChange(z, d, t, a);
        Spread(z, d, t, a);
        Spread(z, d, a + 1, t);
        assert false;
      }
    }
  }

  lemma Spread(z: Zone, d: int, a: int, b: int)
    requires WellTyped(z) && Spaced(z, d)
    ensures OffsetAt(z, a) as int - OffsetAt(z, b) <= d
  {
    hide TypeFor;
  }

  lemma Gap(z: Zone, d: int, a: Long, w: Reading)
    requires ValidZone(z) && z.lsis == [] && ValidReading(w) && Spaced(z, d)
    requires JumpsOver(z, a, w) && Local(z, a).Some? && Local(z, a + 1).Some?
    ensures Changes(z, a + 1) && OffsetAt(z, a) < OffsetAt(z, a + 1)
    ensures a as int + OffsetAt(z, a) < Seconds(w) < a as int + 1 + OffsetAt(z, a + 1)
  {
    hide Seconds, ValidReading, ValidZone, JumpsOver, Local;
    JumpIsGap(z, a, w);
  }

  // ---- nothing drifts

  /** The seconds that the search sets aside lead out of representable time for no request near the epoch. */
  lemma NearRequest(z: Zone, tm: Tm)
    requires ValidZone(z) && z.lsis == [] && EndsNear(z) && -FAR <= RawSeconds(tm) <= FAR
    ensures !Drifts(z, tm)
  {
    hide Local, ValidZone, EndsNear, RawSeconds, OffsetAt, Seconds, ValidReading, NormalReading, DayNumber;
    if Drifts(z, tm) {
      var t0: Long :| DriftsFrom(z, tm, t0);
      var r := NormalReading(tm, false);
      ShownSeconds(z, t0);
      NormalReadingSeconds(tm, false);
      BaseSeconds(r);
      NearReadable(z, t0 + Saved(r));
      assert false;
    }
  }

  lemma BaseSeconds(r: Reading)
    requires 0 <= r.mon
    ensures Seconds(Base(r)) == Seconds(r) - Saved(r)
  {
  }

  /** So of a request near the epoch, time1 tells the truth: it is answered, answered in the other kind
      of time, or there is no such instant, not even after a move to the other kind of time. */
  lemma NearTime1(z: Zone, tm: Tm, t: Long, tm': Tm)
    requires ValidZone(z) && z.lsis == [] && EndsNear(z) && -FAR < 2 * RawSeconds(tm) < FAR
    requires t == Time1Spec(z, tm).t && tm' == Time1Spec(z, tm).tm
    ensures var req := Clamped(tm);
            || (Local(z, t) == Some(tm') && Answered(z, req, t))
            || (t == WRONG && tm' == req && Unmet(z, req) && (req.isdst >= 0 ==> AllUnmet(z, req)))
            || (req.isdst >= 0 && Unmet(z, req) && Local(z, t) == Some(tm') && RetypedAnswer(z, req, t, tm')
                && exists same: nat, other: nat ::
                  RetypedPair(z, req, same, other) && Answered(z, Retyped(z, req, same, other), t))
  {
    hide Local, Answered, Drifts, Unmet, PairsUnmet, EndsNear, ValidZone, Time1Spec, TypesFrom;
    var req := Clamped(tm);
    Time1Meaning(z, tm);
    NearRequest(z, req);
    forall same: nat, other: nat | RetypedPair(z, req, same, other) ensures !Drifts(z, Retyped(z, req, same, other)) {
      NearRequest(z, Retyped(z, req, same, other));
    }
  }
}
