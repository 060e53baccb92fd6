// The search for an instant that reads what is wanted, and the hunt for one of the wanted kind of
// time: the inner part of time2sub of libtz.c.
module FindTime {
  import opened Machine
  import opened Calendar
  import opened CivilTime
  import opened LocalTime

  const BLANK: Tm := Tm(0, 0, 0, 0, 0, 0, 0, 0, 0)

  // ---- what an instant reads

  function Local(z: Zone, t: Long): Option<Tm>
    requires ValidZone(z)
  {
    var out := LocalSpec(z, t, BLANK);
    if out.ok then Some(out.tm) else None
  }

  /** A successful conversion does not depend on what was in the caller's buffer. */
  lemma BufferIrrelevant(z: Zone, t: Long, tmp: Tm)
    requires ValidZone(z)
    ensures var out := LocalSpec(z, t, tmp); Local(z, t) == if out.ok then Some(out.tm) else None
  {
    hide MakeTm, TypeIndex, LeapHit, Correction;
    if Cycle(z, t) != 0 { FoldLands(z, t); }
  }

  lemma TimeSubRange(t: Long, offset: Int, ls: seq<LeapSecond>, tmp: Tm)
    requires ValidLeaps(ls) && TimeSubSpec(t, offset, ls, tmp).ok
    ensures -0x200_0000_0000_0000 <= t <= 0x200_0000_0000_0000
  {
    hide MakeTm, YearOf, Correction, LeapHit;
    var day := TruncDiv(t, SECSPERDAY);
    var y := YearOf(day);
    assert FitsInt(y);
    if y >= 1970 { YearStartBounds(1970, y + 1); } else { YearStartBounds(y, 1970); }
    assert -366 * 0x8000_1000 <= day <= 366 * 0x8000_1000;
  }

  /** Only instants within 2^60 seconds of the epoch have a reading. */
  lemma ReadableRange(z: Zone, t: Long)
    requires ValidZone(z) && Local(z, t).Some?
    ensures -0x1000_0000_0000_0000 <= t <= 0x1000_0000_0000_0000
  {
    hide TimeSubSpec, TypeIndex;
    var k, newt := Cycle(z, t), Folded(z, t);
    if k != 0 { FoldLands(z, t); }
    TimeSubRange(newt, z.ttis[TypeIndex(z, newt)].gmtoff, z.lsis, BLANK);
    assert -0x200_0000 <= k <= 0x200_0000;
  }

  /** tmcomp: the first differing field decides. */
  function TmComp(a: Tm, b: Tm): (r: int)
    ensures r < 0 <==> Before(ReadingOf(a), ReadingOf(b))
    ensures r > 0 <==> Before(ReadingOf(b), ReadingOf(a))
    ensures r == 0 <==> ReadingOf(a) == ReadingOf(b)
  {
    if a.year != b.year then a.year as int - b.year
    else if a.mon != b.mon then a.mon as int - b.mon
    else if a.mday != b.mday then a.mday as int - b.mday
    else if a.hour != b.hour then a.hour as int - b.hour
    else if a.min != b.min then a.min as int - b.min
    else a.sec as int - b.sec
  }

  ghost predicate Reads(z: Zone, t: Long, w: Reading)
    requires ValidZone(z)
  {
    Local(z, t).Some? && ReadingOf(Local(z, t).value) == w
  }

  /** The clock at t shows less than w; an instant too early to be represented counts as such. */
  ghost predicate Below(z: Zone, t: Long, w: Reading)
    requires ValidZone(z)
  {
    match Local(z, t) case None => t <= 0 case Some(tm) => Before(ReadingOf(tm), w)
  }

  ghost predicate Above(z: Zone, t: Long, w: Reading)
    requires ValidZone(z)
  {
    match Local(z, t) case None => t > 0 case Some(tm) => Before(w, ReadingOf(tm))
  }

  /** Between a and a + 1 the clock jumps from below w to above it. */
  ghost predicate JumpsOver(z: Zone, a: Long, w: Reading)
    requires ValidZone(z)
  {
    a < LONG_MAX && Below(z, a, w) && Above(z, a + 1, w)
  }

  ghost predicate Skipped(z: Zone, w: Reading)
    requires ValidZone(z)
  {
    exists a: Long :: JumpsOver(z, a, w)
  }

  // ---- the binary search over all of time_t

  /** The most probes a search makes on lo..lo + w. */
  function Budget(w: nat): nat
  {
    if w <= 2 then w + 1 else 1 + Budget(2 + (w - 2) / 2)
  }

  lemma {:induction false} BudgetGrows(v: nat, w: nat)
    requires v <= w
    ensures Budget(v) <= Budget(w)
    decreases w
  {
    if w > 2 {
      if v > 2 { BudgetGrows(2 + (v - 2) / 2, 2 + (w - 2) / 2); }
      else { BudgetGrows(v, 2 + (w - 2) / 2); }
    }
  }

  lemma BudgetPositive(w: nat)
    ensures 1 <= Budget(w)
  {
  }

  lemma BudgetStep(w: nat, v: nat)
    requires if w <= 2 then v < w else 2 * (v - 2) <= w - 2
    ensures 1 + Budget(v) <= Budget(w)
  {
    BudgetGrows(v, if w <= 2 then w - 1 else 2 + (w - 2) / 2);
  }

  function Pow2(n: nat): nat { if n == 0 then 1 else 2 * Pow2(n - 1) }

  lemma {:induction false} PowerOfSum(m: nat, n: nat)
    ensures Pow2(m + n) == Pow2(m) * Pow2(n)
    decreases n
  {
    if n > 0 { PowerOfSum(m, n - 1); }
  }

  lemma PowerOf64()
    ensures Pow2(64) == 0x1_0000_0000_0000_0000
  {
    assert Pow2(8) == 256;
    PowerOfSum(8, 8);
    PowerOfSum(16, 16);
    PowerOfSum(32, 32);
  }

  /** The search is logarithmic in the width of the interval. */
  lemma {:induction false} BudgetIsLogarithmic(w: nat, n: nat)
    requires w < 2 + Pow2(n)
    ensures Budget(w) <= n + 3
  {
    if w > 2 {
      BudgetIsLogarithmic(2 + (w - 2) / 2, n - 1);
    }
  }

  /** The point probed next: lo / 2 + hi / 2 in C division, pulled back between the ends. */
  function Middle(lo: Long, hi: Long): (t: Long)
    requires lo <= hi
    ensures lo <= t <= hi
  {
    var t := TruncDiv(lo, 2) + TruncDiv(hi, 2);
    if t < lo then lo else if t > hi then hi else t
  }

  /** Despite the truncation the probe lies strictly inside and leaves at most half the excess over 2. */
  lemma MiddleHalves(lo: Long, hi: Long)
    requires lo <= hi && hi as int - lo > 2
    ensures var t := Middle(lo, hi);
            && lo < t < hi
            && 2 * (t as int - lo - 2) <= hi as int - lo - 2
            && 2 * (hi as int - t - 2) <= hi as int - lo - 2
  {
  }

  /** Negative, zero or positive as the probe at t reads before, at or after want. */
  method Probe(s: State, t: Long, want: Tm, buf: Tm) returns (dir: int, mytm: Tm)
    requires s.Valid()
    ensures dir < 0 <==> Below(s.View(), t, ReadingOf(want))
    ensures dir > 0 <==> Above(s.View(), t, ReadingOf(want))
    ensures dir == 0 ==> Local(s.View(), t) == Some(mytm) && ReadingOf(mytm) == ReadingOf(want)
  {
    hide LocalSpec;
    var out := LocalSub(s, t, buf);
    BufferIrrelevant(s.View(), t, buf);
    mytm := out.tm;
    if !out.ok {
      dir := if t > 0 then 1 else -1;
    } else {
      dir := TmComp(mytm, want);
    }
  }

  lemma EndsAreFar(z: Zone, w: Reading)
    requires ValidZone(z)
    ensures Below(z, LONG_MIN, w) && Above(z, LONG_MAX, w)
  {
    if Local(z, LONG_MIN).Some? { ReadableRange(z, LONG_MIN); }
    if Local(z, LONG_MAX).Some? { ReadableRange(z, LONG_MAX); }
  }

  /** The ends of the interval after a miss at its middle, which read too little or too much; None
      where they would cross. */
  function Narrowed(lo: Long, hi: Long, below: bool): (r: Option<(Long, Long)>)
    requires lo <= hi
    ensures r.Some? ==> r.value.0 <= r.value.1 && r.value.1 as int - r.value.0 < hi as int - lo
  {
    var t := Middle(lo, hi);
    if t == lo then (if lo == hi then None else Some((lo + 1, if below then hi else lo + 1)))
    else if t == hi then Some((if below then hi - 1 else lo, hi - 1))
    else if below then Some((t, hi)) else Some((lo, t))
  }

  lemma NarrowedBudget(lo: Long, hi: Long, below: bool)
    requires lo <= hi
    ensures var r := Narrowed(lo, hi, below);
            r.Some? ==> 1 + Budget(r.value.1 as int - r.value.0) <= Budget(hi as int - lo)
  {
    hide Budget, TruncDiv;
    if hi as int - lo > 2 { MiddleHalves(lo, hi); }
    var r := Narrowed(lo, hi, below);
    if r.Some? { BudgetStep(hi as int - lo, r.value.1 as int - r.value.0); }
  }

  /** What the search finds between lo and hi. */
  ghost function FoundIn(z: Zone, w: Reading, lo: Long, hi: Long): (r: Option<Long>)
    requires ValidZone(z) && lo <= hi
    ensures r.Some? ==> Reads(z, r.value, w)
    decreases hi as int - lo
  {
    hide ValidZone, Local, Middle, TruncDiv;
    var t := Middle(lo, hi);
    if !Below(z, t, w) && !Above(z, t, w) then NeitherReads(z, t, w); Some(t)
    else
      var ends := Narrowed(lo, hi, Below(z, t, w));
      if ends.None? then None else FoundIn(z, w, ends.value.0, ends.value.1)
  }

  lemma NeitherReads(z: Zone, t: Long, w: Reading)
    requires ValidZone(z) && !Below(z, t, w) && !Above(z, t, w)
    ensures Reads(z, t, w)
  {
    hide Local;
  }

  /** What it finds in all of time_t. */
  ghost function Found(z: Zone, w: Reading): (r: Option<Long>)
    requires ValidZone(z)
    ensures r.Some? ==> Reads(z, r.value, w)
  {
    FoundIn(z, w, LONG_MIN, LONG_MAX)
  }

  /** At or just outside either end the clock is known to show too little, and too much. */
  ghost predicate Brackets(z: Zone, w: Reading, lo: Long, hi: Long)
    requires ValidZone(z)
  {
    && (Below(z, lo, w) || (lo > LONG_MIN && Below(z, lo - 1, w)))
    && (Above(z, hi, w) || (hi < LONG_MAX && Above(z, hi + 1, w)))
  }

  lemma NarrowedBrackets(z: Zone, w: Reading, lo: Long, hi: Long)
    requires ValidZone(z) && lo <= hi && Brackets(z, w, lo, hi)
    requires Below(z, Middle(lo, hi), w) != Above(z, Middle(lo, hi), w)
    ensures match Narrowed(lo, hi, Below(z, Middle(lo, hi), w))
            case None => Skipped(z, w)
            case Some(ends) => Brackets(z, w, ends.0, ends.1) || Skipped(z, w)
  {
    hide Below, Above, Middle;
    var t := Middle(lo, hi);
    if t == lo && Above(z, t, w) { assert Below(z, lo, w) || JumpsOver(z, lo - 1, w); }
    if t == hi && Below(z, t, w) { assert Above(z, hi, w) || JumpsOver(z, hi, w); }
  }

  /** Whatever the search misses, the clock jumps over; no monotonicity is assumed. */
  lemma {:induction false} MissedIsSkipped(z: Zone, w: Reading, lo: Long, hi: Long)
    requires ValidZone(z) && lo <= hi && (Skipped(z, w) || Brackets(z, w, lo, hi)) && FoundIn(z, w, lo, hi).None?
    ensures Skipped(z, w)
    decreases hi as int - lo
  {
    hide ValidZone, Local, Skipped, Brackets, Middle;
    var t := Middle(lo, hi);
    if !Skipped(z, w) {
      OneSide(z, t, w);
      NarrowedBrackets(z, w, lo, hi);
      var ends := Narrowed(lo, hi, Below(z, t, w));
      if ends.Some? { MissedIsSkipped(z, w, ends.value.0, ends.value.1); }
    }
  }

  lemma OneSide(z: Zone, t: Long, w: Reading)
    requires ValidZone(z)
    ensures !(Below(z, t, w) && Above(z, t, w))
  {
    hide Local;
  }

  lemma FoundOrSkipped(z: Zone, w: Reading)
    requires ValidZone(z)
    ensures Found(z, w).Some? || Skipped(z, w)
  {
    hide ValidZone, Below, Above, Skipped, FoundIn;
    EndsAreFar(z, w);
    if Found(z, w).None? { MissedIsSkipped(z, w, LONG_MIN, LONG_MAX); }
  }

  method Narrow(lo: Long, hi: Long, dir: int) returns (r: Option<(Long, Long)>)
    requires lo <= hi && dir != 0
    ensures r == Narrowed(lo, hi, dir < 0)
  {
    hide TruncDiv;
    var lo', hi', t := lo, hi, Middle(lo, hi);
    hide Middle;
    if t == lo {
      t := WrapLong(t + 1);
      if t <= lo {
        return None;
      }
      lo' := lo' + 1;
    } else if t == hi {
      t := WrapLong(t - 1);
      if t >= hi {
        assert false;
      }
      hi' := hi' - 1;
    }
    if lo' > hi' {
      return None;
    }
    if dir > 0 {
      hi' := t;
    } else {
      lo' := t;
    }
    return Some((lo', hi'));
  }

  /** The search, in at most 67 probes of localsub. */
  method Search(s: State, want: Tm) returns (r: Option<(Long, Tm)>, ghost probes: nat)
    requires s.Valid()
    ensures match r
            case None => Found(s.View(), ReadingOf(want)) == None
            case Some((t, tm)) => Found(s.View(), ReadingOf(want)) == Some(t) && Local(s.View(), t) == Some(tm)
    ensures probes <= 67
  {
    hide Below, Above, Budget, TruncDiv, Middle, ValidZone, Local, State.Shaped, Narrowed;
    ghost var z, w := s.View(), ReadingOf(want);
    var lo: Long, hi: Long := LONG_MIN, LONG_MAX;
    var mytm := BLANK;
    probes := 0;
    PowerOf64();
    BudgetIsLogarithmic(hi as int - lo, 64);
    while true
      invariant lo <= hi && probes + Budget(hi as int - lo) <= 67
      invariant FoundIn(z, w, lo, hi) == Found(z, w)
      decreases hi as int - lo
    {
      BudgetPositive(hi as int - lo);
      var t := Middle(lo, hi);
      var dir;
      dir, mytm := Probe(s, t, want, mytm);
      probes := probes + 1;
      if dir == 0 {
        return Some((t, mytm)), probes;
      }
      NarrowedBudget(lo, hi, dir < 0);
      var ends := Narrow(lo, hi, dir);
      if ends.None? {
        return None, probes;
      }
      lo, hi := ends.value.0, ends.value.1;
    }
  }

  // ---- the hunt for the right kind of time

  function HuntedAt(z: Zone, t: Long, i: nat, j: nat): Long
    requires i < |z.ttis| && j < |z.ttis|
  {
    WrapLong(t + z.ttis[j].gmtoff - z.ttis[i].gmtoff)
  }

  /** The hunt from t by way of types i and j leads to an instant that reads w with the right tm_isdst. */
  ghost predicate Hunted(z: Zone, w: Reading, isdst: int, t: Long, i: nat, j: nat)
    requires ValidZone(z) && i < |z.ttis| && j < |z.ttis|
  {
    && z.ttis[i].isdst == isdst != z.ttis[j].isdst
    && Reads(z, HuntedAt(z, t, i, j), w) && Local(z, HuntedAt(z, t, i, j)).value.isdst == isdst
  }

  /** The result of the hunt with type i and the first n others, the last of them first. */
  ghost function HuntRow(z: Zone, w: Reading, isdst: int, t: Long, i: nat, n: nat): (r: Option<Long>)
    requires ValidZone(z) && i < |z.ttis| && n <= |z.ttis|
    ensures r.Some? ==> Reads(z, r.value, w) && Local(z, r.value).value.isdst == isdst
  {
    if n == 0 then None
    else if Hunted(z, w, isdst, t, i, n - 1) then Some(HuntedAt(z, t, i, n - 1))
    else HuntRow(z, w, isdst, t, i, n - 1)
  }

  /** The result of the hunt with the first n types and all others. */
  ghost function HuntFrom(z: Zone, w: Reading, isdst: int, t: Long, n: nat): (r: Option<Long>)
    requires ValidZone(z) && n <= |z.ttis|
    ensures r.Some? ==> Reads(z, r.value, w) && Local(z, r.value).value.isdst == isdst
  {
    if n == 0 then None
    else
      var row := HuntRow(z, w, isdst, t, n - 1, |z.ttis|);
      if row.Some? then row else HuntFrom(z, w, isdst, t, n - 1)
  }

  lemma {:induction false} RowMisses(z: Zone, w: Reading, isdst: int, t: Long, i: nat, n: nat)
    requires ValidZone(z) && i < |z.ttis| && n <= |z.ttis| && HuntRow(z, w, isdst, t, i, n).None?
    ensures forall j: nat :: j < n ==> !Hunted(z, w, isdst, t, i, j)
  {
    hide Hunted, ValidZone;
    if n > 0 { RowMisses(z, w, isdst, t, i, n - 1); }
  }

  /** Where the hunt finds nothing, no pair of types leads to such an instant. */
  lemma {:induction false} HuntMisses(z: Zone, w: Reading, isdst: int, t: Long, n: nat)
    requires ValidZone(z) && n <= |z.ttis| && HuntFrom(z, w, isdst, t, n).None?
    ensures forall i: nat, j: nat :: i < n && j < |z.ttis| ==> !Hunted(z, w, isdst, t, i, j)
  {
    hide Hunted, ValidZone, HuntRow;
    if n > 0 {
      RowMisses(z, w, isdst, t, n - 1, |z.ttis|);
      HuntMisses(z, w, isdst, t, n - 1);
    }
  }

  /** No type of the given ones, with any other, leads to such an instant. */
  ghost predicate NoneHunted(z: Zone, w: Reading, isdst: int, t: Long, from: nat, to: nat)
    requires ValidZone(z) && to <= |z.ttis|
  {
    forall i: nat, j: nat :: from <= i < to && j < |z.ttis| ==> !Hunted(z, w, isdst, t, i, j)
  }

  /** The instant comes by way of types i and j, and no pair before them, in the order of the double loop
      from the last types down, leads to one. */
  ghost predicate FirstHunted(z: Zone, w: Reading, isdst: int, t: Long, i: nat, j: nat, r: Long)
    requires ValidZone(z) && i < |z.ttis| && j < |z.ttis|
  {
    && Hunted(z, w, isdst, t, i, j) && r == HuntedAt(z, t, i, j)
    && forall k: nat :: j < k < |z.ttis| ==> !Hunted(z, w, isdst, t, i, k)
  }

  lemma {:induction false} RowHits(z: Zone, w: Reading, isdst: int, t: Long, i: nat, n: nat) returns (j: nat)
    requires ValidZone(z) && i < |z.ttis| && n <= |z.ttis| && HuntRow(z, w, isdst, t, i, n).Some?
    ensures j < n && Hunted(z, w, isdst, t, i, j) && HuntRow(z, w, isdst, t, i, n).value == HuntedAt(z, t, i, j)
    ensures forall j': nat :: j < j' < n ==> !Hunted(z, w, isdst, t, i, j')
  {
    hide Hunted, ValidZone, HuntedAt, Reads, Local;
    if Hunted(z, w, isdst, t, i, n - 1) { j := n - 1; } else { j := RowHits(z, w, isdst, t, i, n - 1); }
  }

  /** Of several pairs of types that lead to such an instant, the one met first decides. */
  lemma {:induction false} HuntHits(z: Zone, w: Reading, isdst: int, t: Long, n: nat) returns (i: nat, j: nat)
    requires ValidZone(z) && n <= |z.ttis| && HuntFrom(z, w, isdst, t, n).Some?
    ensures i < n && j < |z.ttis| && FirstHunted(z, w, isdst, t, i, j, HuntFrom(z, w, isdst, t, n).value)
    ensures NoneHunted(z, w, isdst, t, i + 1, n)
  {
    hide Hunted, ValidZone, HuntRow, HuntedAt, Reads, Local;
    if HuntRow(z, w, isdst, t, n - 1, |z.ttis|).Some? {
      i := n - 1;
      j := RowHits(z, w, isdst, t, i, |z.ttis|);
    } else {
      RowMisses(z, w, isdst, t, n - 1, |z.ttis|);
      i, j := HuntHits(z, w, isdst, t, n - 1);
    }
  }

  /** The inner loop of the hunt. */
  method HuntOthers(s: State, want: Tm, t: Long, i: nat) returns (r: Option<Long>)
    requires s.Valid() && i < s.typecnt && s.ttis[i].isdst == want.isdst
    ensures r == HuntRow(s.View(), ReadingOf(want), want.isdst, t, i, |s.View().ttis|)
  {
    hide LocalSpec, ValidZone, WrapLong, Local;
    ghost var z, w := s.View(), ReadingOf(want);
    var j: int := s.typecnt - 1;
    while j >= 0
      invariant -1 <= j < s.typecnt
      invariant HuntRow(z, w, want.isdst, t, i, |z.ttis|) == HuntRow(z, w, want.isdst, t, i, j + 1)
    {
      if s.ttis[j].isdst != want.isdst {
        var newt := WrapLong(t + s.ttis[j].gmtoff - s.ttis[i].gmtoff);
        assert newt == HuntedAt(z, t, i, j);
        var found := ReadsWanted(s, newt, want);
        if found {
          return Some(newt);
        }
      }
      j := j - 1;
    }
    return None;
  }

  /** The checks on a guess. */
  method ReadsWanted(s: State, t: Long, want: Tm) returns (found: bool)
    requires s.Valid()
    ensures found <==> Reads(s.View(), t, ReadingOf(want)) && Local(s.View(), t).value.isdst == want.isdst
  {
    hide LocalSpec, ValidZone;
    var out := LocalSub(s, t, BLANK);
    found := out.ok && TmComp(out.tm, want) == 0 && out.tm.isdst == want.isdst;
  }

  /** Hunts for an instant that reads want and has its tm_isdst, one pair of types apart from t. */
  method HuntType(s: State, want: Tm, t: Long) returns (r: Option<Long>)
    requires s.Valid()
    ensures r == HuntFrom(s.View(), ReadingOf(want), want.isdst, t, |s.View().ttis|)
  {
    hide LocalSpec, ValidZone, HuntRow, Reads, Local;
    ghost var z, w := s.View(), ReadingOf(want);
    if s.typecnt == 0 { OneTypeHunt(z, w, want.isdst, t); }
    var i: int := s.typecnt - 1;
    while i >= 0
      invariant -1 <= i < s.typecnt
      invariant s.typecnt > 0 ==> HuntFrom(z, w, want.isdst, t, |z.ttis|) == HuntFrom(z, w, want.isdst, t, i + 1)
    {
      if s.ttis[i].isdst == want.isdst {
        r := HuntOthers(s, want, t, i);
        if r.Some? {
          return;
        }
      } else {
        NoSuchRow(z, w, want.isdst, t, i, |z.ttis|);
      }
      i := i - 1;
    }
    return None;
  }

  lemma {:induction false} NoSuchRow(z: Zone, w: Reading, isdst: int, t: Long, i: nat, n: nat)
    requires ValidZone(z) && i < |z.ttis| && n <= |z.ttis| && z.ttis[i].isdst != isdst
    ensures HuntRow(z, w, isdst, t, i, n) == None
  {
    hide ValidZone;
    if n > 0 { NoSuchRow(z, w, isdst, t, i, n - 1); }
  }

  lemma OneTypeHunt(z: Zone, w: Reading, isdst: int, t: Long)
    requires ValidZone(z) && |z.ttis| == 1
    ensures HuntFrom(z, w, isdst, t, 1) == None
  {
    assert HuntRow(z, w, isdst, t, 0, 1) == None;
  }

  // ---- both

  /** The instant found for a reading and a tm_isdst. */
  ghost function FindSpec(z: Zone, w: Reading, isdst: int): (r: Option<Long>)
    requires ValidZone(z)
    ensures r.Some? ==> Reads(z, r.value, w) && (isdst >= 0 ==> Local(z, r.value).value.isdst == isdst)
  {
    var t := Found(z, w);
    if t.None? || isdst < 0 || Local(z, t.value).value.isdst == isdst then t
    else HuntFrom(z, w, isdst, t.value, |z.ttis|)
  }

  ghost predicate WrongTypeAt(z: Zone, w: Reading, isdst: int, t: Long)
    requires ValidZone(z)
  {
    && Reads(z, t, w) && Local(z, t).value.isdst != isdst
    && forall i: nat, j: nat :: i < |z.ttis| && j < |z.ttis| ==> !Hunted(z, w, isdst, t, i, j)
  }

  /** No instant is found that reads w with the given tm_isdst: the clock jumps over w, or an instant
      reads w in the wrong kind of time and no pair of types leads from it to one in the right kind. */
  ghost predicate Unfound(z: Zone, w: Reading, isdst: int)
    requires ValidZone(z)
  {
    Skipped(z, w) || (isdst >= 0 && exists t: Long :: WrongTypeAt(z, w, isdst, t))
  }

  lemma FoundOrUnfound(z: Zone, w: Reading, isdst: int)
    requires ValidZone(z)
    ensures FindSpec(z, w, isdst).Some? || Unfound(z, w, isdst)
  {
    hide ValidZone, Hunted, Skipped, FoundIn;
    FoundOrSkipped(z, w);
    if FindSpec(z, w, isdst).None? && Found(z, w).Some? {
      HuntMisses(z, w, isdst, Found(z, w).value, |z.ttis|);
      assert WrongTypeAt(z, w, isdst, Found(z, w).value);
    }
  }

  /** Instants that read the same show the same seconds, each by the offset of its type. */
  lemma SameSeconds(z: Zone, w: Reading, t: Long, u: Long)
    requires ValidZone(z) && z.lsis == [] && Reads(z, t, w) && Reads(z, u, w)
    ensures t + z.ttis[TypeFor(z, t)].gmtoff == u + z.ttis[TypeFor(z, u)].gmtoff
    ensures Local(z, t).value.isdst == z.ttis[TypeFor(z, t)].isdst
         && Local(z, u).value.isdst == z.ttis[TypeFor(z, u)].isdst
  {
    hide LocalSpec, ValidZone, Civil, TypeFor, Folded, Denotes;
    LocalMeaning(z, t, BLANK);
    LocalMeaning(z, u, BLANK);
  }

  /** Without leap seconds, if any instant reads w in the requested kind of time, the hunt from an instant
      that reads it in the other kind finds one. */
  lemma HuntFinds(z: Zone, w: Reading, isdst: int, t: Long, u: Long)
    requires ValidZone(z) && z.lsis == [] && Reads(z, t, w) && Reads(z, u, w)
    requires Local(z, t).value.isdst != isdst == Local(z, u).value.isdst
    ensures HuntFrom(z, w, isdst, t, |z.ttis|).Some?
  {
    SameSeconds(z, w, t, u);
    var i, j := TypeFor(z, u), TypeFor(z, t);
    hide Local, Reads, HuntFrom, TypeFor, ValidZone;
    assert HuntedAt(z, t, i, j) == u;
    assert Hunted(z, w, isdst, t, i, j);
    if HuntFrom(z, w, isdst, t, |z.ttis|).None? { HuntMisses(z, w, isdst, t, |z.ttis|); }
  }

  /** So an instant of the reading and tm_isdst asked for is found whenever there is one and the search
      does not miss the reading altogether. */
  lemma FindsKind(z: Zone, w: Reading, isdst: int, u: Long)
    requires ValidZone(z) && z.lsis == [] && Found(z, w).Some?
    requires Reads(z, u, w) && (isdst >= 0 ==> Local(z, u).value.isdst == isdst)
    ensures FindSpec(z, w, isdst).Some?
  {
    hide Local, FoundIn, HuntFrom, ValidZone;
    var t := Found(z, w).value;
    if isdst >= 0 && Local(z, t).value.isdst != isdst { HuntFinds(z, w, isdst, t, u); }
  }

  /** The search and, where it ends in the wrong kind of time, the hunt. */
  method FindInstant(s: State, want: Tm) returns (r: Option<Long>)
    requires s.Valid()
    ensures r == FindSpec(s.View(), ReadingOf(want), want.isdst)
  {
    hide Local, ValidZone, Found, HuntFrom;
    var found, _ := Search(s, want);
    if found.None? {
      return None;
    }
    var t, mytm := found.value.0, found.value.1;
    if !(want.isdst < 0 || mytm.isdst == want.isdst) {
      r := HuntType(s, want, t);
      return;
    }
    return Some(t);
  }
}
