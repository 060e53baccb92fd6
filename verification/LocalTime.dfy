// Zone tables and localsub of libtz.c: transition lookup and the 400-year fold.
module LocalTime {
  import opened Machine
  import opened Calendar
  import opened CivilTime

  const TZ_MAX_TIMES: int := 1200
  const TZ_MAX_TYPES: int := 256

  type Flag = x: int | 0 <= x <= 1

  /** struct ttinfo, with the abbreviation itself in place of its index. */
  datatype TtInfo = TtInfo(gmtoff: Int, isdst: Flag, ttisstd: bool, ttisgmt: bool, abbr: string)

  const GMT: TtInfo := TtInfo(0, 0, false, false, "GMT")

  /** The value of a struct state. */
  datatype Zone = Zone(ats: seq<Long>, types: seq<nat>, ttis: seq<TtInfo>, lsis: seq<LeapSecond>,
                       goback: bool, goahead: bool)

  predicate Sorted(ats: seq<int>)
  {
    forall i, j :: 0 <= i < j < |ats| ==> ats[i] <= ats[j]
  }

  predicate DifferByRepeat(t1: int, t0: int) { t1 - t0 == SECSPERREPEAT }

  /** differ_by_repeat and typesequiv between table entries i and j. */
  predicate RepeatPair(z: Zone, i: int, j: int)
    requires |z.types| == |z.ats| && 0 <= i < |z.ats| && 0 <= j < |z.ats|
    requires z.types[i] < |z.ttis| && z.types[j] < |z.ttis|
  {
    DifferByRepeat(z.ats[j], z.ats[i]) && z.ttis[z.types[i]] == z.ttis[z.types[j]]
  }

  predicate WellTyped(z: Zone)
  {
    && |z.types| == |z.ats| <= TZ_MAX_TIMES && 1 <= |z.ttis| <= TZ_MAX_TYPES
    && (forall i :: 0 <= i < |z.types| ==> z.types[i] < |z.ttis|)
    && Sorted(z.ats) && ValidLeaps(z.lsis)
  }

  predicate RepeatsBack(z: Zone)
    requires WellTyped(z)
  {
    exists i :: 1 <= i < |z.ats| && RepeatPair(z, 0, i)
  }

  predicate RepeatsAhead(z: Zone)
    requires WellTyped(z)
  {
    |z.ats| > 0 && var last := |z.ats| - 1; exists i :: 0 <= i < last && RepeatPair(z, i, last)
  }

  /** Whether an end of a table repeats is a matter of its entries and their types only. */
  lemma RepeatsCarryOver(a: Zone, b: Zone)
    requires WellTyped(a) && WellTyped(b) && a.ats == b.ats && a.types == b.types && a.ttis == b.ttis
    ensures RepeatsBack(a) ==> RepeatsBack(b)
    ensures RepeatsAhead(a) ==> RepeatsAhead(b)
  {
    if RepeatsBack(a) {
      var i :| 1 <= i < |a.ats| && RepeatPair(a, 0, i);
      assert RepeatPair(b, 0, i);
    }
    if RepeatsAhead(a) {
      var i :| 0 <= i < |a.ats| - 1 && RepeatPair(a, i, |a.ats| - 1);
      assert RepeatPair(b, i, |b.ats| - 1);
    }
  }

  /** A table as tzload leaves it. */
  predicate ValidZone(z: Zone)
  {
    WellTyped(z) && (z.goback ==> RepeatsBack(z)) && (z.goahead ==> RepeatsAhead(z))
  }

  class State {
    const ats: array<Long>
    const types: array<nat>
    const ttis: array<TtInfo>
    const lsis: array<LeapSecond>
    var timecnt: nat
    var typecnt: nat
    var leapcnt: nat
    var goback: bool
    var goahead: bool

    ghost predicate Shaped()
      reads this, ats, types, ttis, lsis
    {
      && ats.Length == types.Length == TZ_MAX_TIMES && timecnt <= TZ_MAX_TIMES
      && ttis.Length == TZ_MAX_TYPES && typecnt <= TZ_MAX_TYPES
      && lsis.Length == TZ_MAX_LEAPS && leapcnt <= TZ_MAX_LEAPS
    }

    /** The types that localsub can pick: also with typecnt 0 it picks the first. */
    function TypeCount(): (n: nat)
      reads this
      ensures n >= 1
    {
      if typecnt == 0 then 1 else typecnt
    }

    ghost function View(): Zone
      requires Shaped()
      reads this, ats, types, ttis, lsis
    {
      Zone(ats[..timecnt], types[..timecnt], ttis[..TypeCount()], lsis[..leapcnt], goback, goahead)
    }

    ghost predicate Valid()
      reads this, ats, types, ttis, lsis
    {
      Shaped() && ValidZone(View())
    }

    /** tz_alloc of an empty name: UTC, without so much as one type. */
    constructor ()
      ensures Valid() && timecnt == typecnt == leapcnt == 0 && View() == Zone([], [], [GMT], [], false, false)
      ensures fresh(ats) && fresh(types) && fresh(ttis) && fresh(lsis)
    {
      ats := new Long[TZ_MAX_TIMES];
      types := new nat[TZ_MAX_TIMES];
      ttis := new TtInfo[TZ_MAX_TYPES](_ => GMT);
      lsis := new LeapSecond[TZ_MAX_LEAPS](_ => LeapSecond(0, 0));
      timecnt, typecnt, leapcnt, goback, goahead := 0, 0, 0, false, false;
    }
  }

  // ---- which type applies

  predicate AllDst(ttis: seq<TtInfo>, i: nat, n: nat)
    requires n <= |ttis|
  {
    forall j :: i <= j < n ==> ttis[j].isdst == 1
  }

  /** The first of the types from index i on that is not DST; 0 when there is none. */
  function FirstStandard(ttis: seq<TtInfo>, i: nat): (r: nat)
    requires i < |ttis|
    ensures r < |ttis|
    ensures if AllDst(ttis, i, |ttis|) then r == 0 else i <= r && AllDst(ttis, i, r) && ttis[r].isdst == 0
    decreases |ttis| - i
  {
    if ttis[i].isdst == 0 then i
    else if i + 1 >= |ttis| then 0
    else FirstStandard(ttis, i + 1)
  }

  /** The last entry that is not after t, looked for one by one from the end. */
  function LastNotAfter(ats: seq<int>, t: int): (r: nat)
    requires ats != [] && ats[0] <= t
    ensures r < |ats| && ats[r] <= t
    ensures forall j :: r < j < |ats| ==> t < ats[j]
  {
    if ats[|ats| - 1] <= t then |ats| - 1 else LastNotAfter(ats[..|ats| - 1], t)
  }

  /** The type in effect at t, read off the table. */
  function TypeIndex(z: Zone, t: int): (r: nat)
    requires WellTyped(z)
    ensures r < |z.ttis|
  {
    if z.ats == [] || t < z.ats[0] then FirstStandard(z.ttis, 0)
    else z.types[LastNotAfter(z.ats, t)]
  }

  lemma LookupUnique(ats: seq<int>, t: int, k: nat)
    requires k < |ats| && Sorted(ats) && ats[k] <= t && (k + 1 < |ats| ==> t < ats[k + 1])
    ensures ats[0] <= t && LastNotAfter(ats, t) == k
  {
    assert forall j :: k < j < |ats| ==> ats[k + 1] <= ats[j];
    assert ats[0] <= ats[k];
  }

  /** The binary search of localsub agrees with the linear scan. */
  method FindTransition(s: State, t: Long) returns (k: nat)
    requires s.Shaped() && Sorted(s.ats[..s.timecnt])
    requires s.timecnt > 0 && s.ats[0] <= t
    ensures k == LastNotAfter(s.ats[..s.timecnt], t)
  {
    var lo, hi := 1, s.timecnt;
    while lo < hi
      invariant 1 <= lo <= hi <= s.timecnt
      invariant s.ats[lo - 1] <= t
      invariant hi < s.timecnt ==> t < s.ats[hi]
    {
      var mid := (lo + hi) / 2;
      if t < s.ats[mid] {
        hi := mid;
      } else {
        lo := mid + 1;
      }
    }
    k := lo - 1;
    LookupUnique(s.ats[..s.timecnt], t, k);
  }

  // ---- the 400-year fold

  /** How many 400-year cycles t lies after (or, negated, before) the part of time the table serves. */
  function Cycle(z: Zone, t: int): int
  {
    if |z.ats| == 0 then 0
    else if z.goback && t < z.ats[0] then -((z.ats[0] - t - 1) / SECSPERREPEAT + 1)
    else if z.goahead && t > z.ats[|z.ats| - 1] then (t - z.ats[|z.ats| - 1] - 1) / SECSPERREPEAT + 1
    else 0
  }

  function Folded(z: Zone, t: int): int { t - Cycle(z, t) * SECSPERREPEAT }

  /** The type in effect at t, beyond the ends of the table too. */
  function TypeFor(z: Zone, t: int): (r: nat)
    requires WellTyped(z)
    ensures r < |z.ttis|
  {
    TypeIndex(z, Folded(z, t))
  }

  /** The folded instant is a whole number of 400-year cycles away, in the 400 years next to the end of
      the table that t lies beyond; and it is t where the table serves t or does not repeat. */
  lemma FoldExactly(z: Zone, t: int)
    ensures (t - Folded(z, t)) % SECSPERREPEAT == 0
    ensures var n := |z.ats|;
            if n > 0 && z.goback && t < z.ats[0] then
              z.ats[0] <= Folded(z, t) < z.ats[0] + SECSPERREPEAT
            else if n > 0 && z.goahead && t > z.ats[n - 1] then
              z.ats[n - 1] - SECSPERREPEAT < Folded(z, t) <= z.ats[n - 1]
            else Folded(z, t) == t
  {
  }

  /** The folded instant lands inside the table, where no further fold applies. */
  lemma FoldLands(z: Zone, t: int)
    requires ValidZone(z) && Cycle(z, t) != 0
    ensures var newt := Folded(z, t);
            z.ats[0] <= newt <= z.ats[|z.ats| - 1] && Cycle(z, newt) == 0
    ensures Cycle(z, t) < 0 <==> t < z.ats[0]
    ensures Cycle(z, t) > 0 <==> t > z.ats[|z.ats| - 1]
  {
    var last := |z.ats| - 1;
    if z.goback && t < z.ats[0] {
      var i :| 1 <= i < |z.ats| && RepeatPair(z, 0, i);
      assert z.ats[i] <= z.ats[last];
    } else {
      var i :| 0 <= i < |z.ats| - 1 && RepeatPair(z, i, last);
      assert z.ats[0] <= z.ats[i];
    }
  }

  /** localsub on an instant that needs no fold. */
  function DirectSpec(z: Zone, t: Long, tmp: Tm): Outcome
    requires WellTyped(z)
  {
    var tt := z.ttis[TypeIndex(z, t)];
    var out := TimeSubSpec(t, tt.gmtoff, z.lsis, tmp);
    Outcome(out.ok, out.tm.(isdst := tt.isdst))
  }

  /** localsub's answer for newt, moved on by k cycles of 400 years. */
  function CycledSpec(z: Zone, newt: Long, k: int, tmp: Tm): Outcome
    requires WellTyped(z)
  {
    var out := DirectSpec(z, newt, tmp);
    var newy := out.tm.year + k * YEARSPERREPEAT;
    if k == 0 || !out.ok then out
    else Outcome(newy == WrapInt(newy), out.tm.(year := WrapInt(newy)))
  }

  /** What localsub does for every instant. */
  function LocalSpec(z: Zone, t: Long, tmp: Tm): (out: Outcome)
    requires ValidZone(z)
    ensures 0 <= out.tm.isdst <= 1
  {
    if Cycle(z, t) == 0 then DirectSpec(z, t, tmp)
    else
      FoldLands(z, t);
      CycledSpec(z, Folded(z, t), Cycle(z, t), tmp)
  }

  /** The nested truncating divisions of localsub divide by one 400-year cycle. */
  lemma NestedDivision(s: nat)
    ensures s / YEARSPERREPEAT / 31556952 == s / SECSPERREPEAT
  {
    var a, b := s / 400, s / 400 / 31556952;
    assert 31556952 * b <= a < 31556952 * b + 31556952;
    assert SECSPERREPEAT * b <= s < SECSPERREPEAT * b + SECSPERREPEAT;
  }

  method FindType(s: State, t: Long) returns (i: nat)
    requires s.Valid()
    ensures i == TypeIndex(s.View(), t) && i < s.TypeCount()
  {
    i := 0;
    if s.timecnt == 0 || t < s.ats[0] {
      ghost var ttis := s.ttis[..s.TypeCount()];
      while s.ttis[i].isdst == 1
        invariant 0 <= i < s.TypeCount()
        invariant FirstStandard(ttis, 0) == FirstStandard(ttis, i)
        decreases s.TypeCount() - i
      {
        i := i + 1;
        if i >= s.typecnt {
          i := 0;
          break;
        }
      }
    } else {
      var k := FindTransition(s, t);
      i := s.types[k];
    }
  }

  /** The cycles and the folded instant that localsub computes outside the table. */
  method Fold(s: State, t: Long) returns (icycles: int, newt: Long)
    requires s.Valid() && Cycle(s.View(), t) != 0
    ensures icycles == Cycle(s.View(), t) && newt == Folded(s.View(), t)
  {
    FoldLands(s.View(), t);
    var seconds := if t < s.ats[0] then s.ats[0] - t else t - s.ats[s.timecnt - 1];
    seconds := seconds - 1;
    NestedDivision(seconds);
    var tcycles := seconds / YEARSPERREPEAT / 31556952;
    tcycles := tcycles + 1;
    seconds := tcycles * YEARSPERREPEAT * 31556952;
    if t < s.ats[0] {
      return -tcycles, t + seconds;
    } else {
      return tcycles, t - seconds;
    }
  }

  method LocalSub(s: State, t: Long, tmp: Tm) returns (out: Outcome)
    requires s.Valid()
    ensures out == LocalSpec(s.View(), t, tmp)
    decreases Cycle(s.View(), t) != 0
  {
    hide TimeSubSpec, TypeIndex;
    if (s.goback && t < s.ats[0]) || (s.goahead && t > s.ats[s.timecnt - 1]) {
      FoldLands(s.View(), t);
      var icycles, newt := Fold(s, t);
      if newt < s.ats[0] || newt > s.ats[s.timecnt - 1] {
        assert false;
      }
      out := LocalSub(s, newt, tmp);
      if out.ok {
        var newy := out.tm.year + icycles * YEARSPERREPEAT;
        out := Outcome(newy == WrapInt(newy), out.tm.(year := WrapInt(newy)));
      }
      return;
    }
    var i := FindType(s, t);
    var tt := s.ttis[i];
    out := TimeSub(t, tt.gmtoff, s.lsis[..s.leapcnt], tmp);
    out := Outcome(out.ok, out.tm.(isdst := tt.isdst));
  }

  // ---- what the reading means

  /** The weekday and day of year stay right, or wrong, from one 400-year cycle to another. */
  lemma FoldedDays(tm: Tm, x: int, k: int)
    requires ReadingOf(tm) == Civil(x) && FitsInt(tm.year + k * YEARSPERREPEAT)
    requires var tm' := tm.(year := tm.year + k * YEARSPERREPEAT); ReadingOf(tm') == Civil(x + SECSPERREPEAT * k)
    ensures Denotes(tm.(year := tm.year + k * YEARSPERREPEAT), x + SECSPERREPEAT * k) <==> Denotes(tm, x)
  {
    hide Civil, YearStart, Weekday;
    DayRepeats(x, k);
    YearStartRepeats(tm.year + 1900, k);
    assert tm.year + k * YEARSPERREPEAT + 1900 == tm.year + 1900 + YEARSPERREPEAT * k;
  }

  lemma FoldedMeaning(tm: Tm, x: int, k: int)
    requires ReadingOf(tm) == Civil(x) && FitsInt(tm.year + k * YEARSPERREPEAT)
    ensures var tm' := tm.(year := tm.year + k * YEARSPERREPEAT);
            && ReadingOf(tm') == Civil(x + SECSPERREPEAT * k)
            && (Denotes(tm', x + SECSPERREPEAT * k) <==> Denotes(tm, x))
  {
    hide Civil, Denotes;
    CivilRepeats(x, k);
    FoldedDays(tm, x, k);
  }

  lemma CycledMeaning(z: Zone, newt: Long, k: int, tmp: Tm)
    requires WellTyped(z) && z.lsis == []
    ensures var out, tt := CycledSpec(z, newt, k, tmp), z.ttis[TypeIndex(z, newt)];
            var s := newt + tt.gmtoff + SECSPERREPEAT * k;
            out.ok ==>
              && ReadingOf(out.tm) == Civil(s)
              && out.tm.isdst == tt.isdst
              && (Denotes(out.tm, s) <==> FitsInt(Civil(newt + tt.gmtoff).year - 1970))
  {
    hide Civil, TypeIndex, TimeSubSpec;
    var tt := z.ttis[TypeIndex(z, newt)];
    if CycledSpec(z, newt, k, tmp).ok {
      TimeSubMeaning(newt, tt.gmtoff, tmp);
      FoldedMeaning(TimeSubSpec(newt, tt.gmtoff, [], tmp).tm, newt + tt.gmtoff, k);
    }
  }

  /** Without leap seconds the fields are those of t plus the offset of the type in effect. The
      weekday is right if and only if the year of the folded instant is not one of the 70 lowest. */
  lemma LocalMeaning(z: Zone, t: Long, tmp: Tm)
    requires ValidZone(z) && z.lsis == []
    ensures var out, tt := LocalSpec(z, t, tmp), z.ttis[TypeFor(z, t)];
            out.ok ==>
              && ReadingOf(out.tm) == Civil(t + tt.gmtoff)
              && out.tm.isdst == tt.isdst
              && (Denotes(out.tm, t + tt.gmtoff) <==> FitsInt(Civil(Folded(z, t) + tt.gmtoff).year - 1970))
  {
    hide Civil, Denotes, TimeSubSpec, TypeIndex;
    var k, newt := Cycle(z, t), Folded(z, t);
    if k != 0 { FoldLands(z, t); }
    CycledMeaning(z, newt, k, tmp);
    assert newt + SECSPERREPEAT * k == t;
  }

  lemma FoldedFits(z: Zone, t: Long)
    requires ValidZone(z)
    ensures LONG_MIN <= Folded(z, t) <= LONG_MAX
  {
    if Cycle(z, t) != 0 { FoldLands(z, t); }
  }

  /** With leap seconds too: the fields are those of t plus the offset of the type in effect, less the
      correction and plus the leap seconds hit at the folded instant. */
  lemma LocalShows(z: Zone, t: Long, tmp: Tm)
    requires ValidZone(z)
    ensures var out, tt, newt := LocalSpec(z, t, tmp), z.ttis[TypeFor(z, t)], Folded(z, t);
            var r := Civil(t + tt.gmtoff - Correction(z.lsis, newt));
            out.ok ==> ReadingOf(out.tm) == r.(sec := r.sec + LeapHit(z.lsis, newt)) && out.tm.isdst == tt.isdst
  {
    hide Civil, TimeSubSpec, TypeIndex, Correction, LeapHit, Cycle;
    FoldedFits(z, t);
    var k, newt: Long := Cycle(z, t), Folded(z, t);
    var tt := z.ttis[TypeIndex(z, newt)];
    TimeSubShows(newt, tt.gmtoff, z.lsis, tmp);
    CivilRepeats(newt + tt.gmtoff - Correction(z.lsis, newt), k);
    assert newt + tt.gmtoff - Correction(z.lsis, newt) + SECSPERREPEAT * k == t + tt.gmtoff - Correction(z.lsis, newt);
  }

  /** It succeeds exactly where the years that it goes through fit. */
  lemma LocalSucceeds(z: Zone, t: Long, tmp: Tm)
    requires ValidZone(z)
    ensures var tt, newt := z.ttis[TypeFor(z, t)], Folded(z, t);
            var corr := Correction(z.lsis, newt);
            var year := Civil(newt + tt.gmtoff - corr).year;
            LocalSpec(z, t, tmp).ok <==>
              && FitsInt(YearOf(TruncDiv(newt, SECSPERDAY))) && FitsInt(year) && FitsInt(year - 1900)
              && FitsInt(Civil(t + tt.gmtoff - corr).year - 1900)
  {
    hide Civil, TimeSubSpec, TypeIndex, Correction, LeapHit, Cycle, YearOf;
    FoldedFits(z, t);
    var k, newt: Long := Cycle(z, t), Folded(z, t);
    var tt := z.ttis[TypeIndex(z, newt)];
    TimeSubShows(newt, tt.gmtoff, z.lsis, tmp);
    CivilRepeats(newt + tt.gmtoff - Correction(z.lsis, newt), k);
    assert newt + tt.gmtoff - Correction(z.lsis, newt) + SECSPERREPEAT * k == t + tt.gmtoff - Correction(z.lsis, newt);
  }

  // ---- which type that is

  /** Before the first transition of a table that does not repeat backward, the clock shows the first
      type that is not DST or, where all are DST, type 0. */
  lemma BeforeFirst(z: Zone, t: Long, k: nat, tmp: Tm)
    requires ValidZone(z) && z.lsis == [] && (z.ats == [] || (t < z.ats[0] && !z.goback)) && k < |z.ttis|
    requires if AllDst(z.ttis, 0, |z.ttis|) then k == 0 else AllDst(z.ttis, 0, k) && z.ttis[k].isdst == 0
    ensures var out := LocalSpec(z, t, tmp);
            out.ok ==> ReadingOf(out.tm) == Civil(t + z.ttis[k].gmtoff) && out.tm.isdst == z.ttis[k].isdst
  {
    hide Civil, LocalSpec, Denotes;
    LocalMeaning(z, t, tmp);
    if z.ats != [] { assert z.ats[0] <= z.ats[|z.ats| - 1]; }
    assert TypeFor(z, t) == k;
  }

  /** From a transition to the next, or on and on behind the last one of a table that does not repeat
      forward, it shows the type of that transition. */
  lemma FromTransition(z: Zone, t: Long, i: nat, tmp: Tm)
    requires ValidZone(z) && z.lsis == [] && i < |z.ats| && z.ats[i] <= t
    requires if i + 1 < |z.ats| then t < z.ats[i + 1] else !z.goahead || t == z.ats[i]
    ensures var out, tt := LocalSpec(z, t, tmp), z.ttis[z.types[i]];
            out.ok ==> ReadingOf(out.tm) == Civil(t + tt.gmtoff) && out.tm.isdst == tt.isdst
  {
    hide Civil, LocalSpec, Denotes;
    LocalMeaning(z, t, tmp);
    LookupUnique(z.ats, t, i);
    if i + 1 < |z.ats| { assert z.ats[i + 1] <= z.ats[|z.ats| - 1]; }
    assert TypeFor(z, t) == z.types[i];
  }

  /** Where the fold's 64-bit intermediate values would overflow, the answer is NULL anyway. */
  lemma FoldOverflowIsNull(z: Zone, t: Long, tmp: Tm)
    requires ValidZone(z)
    requires var k := Cycle(z, t); LONG_MAX < (if k < 0 then -k else k) * SECSPERREPEAT
    ensures !LocalSpec(z, t, tmp).ok
  {
    hide TimeSubSpec, TypeIndex;
    FoldLands(z, t);
  }
}
