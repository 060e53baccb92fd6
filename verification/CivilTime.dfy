// From an instant and a UTC offset to a broken-down time: timesub of libtz.c.
module CivilTime {
  import opened Machine
  import opened Calendar

  const TZ_MAX_LEAPS: int := 50

  /** struct tm. */
  datatype Tm = Tm(year: Int, mon: Int, mday: Int, hour: Int, min: Int, sec: Int,
                   wday: Int, yday: Int, isdst: Int)

  /** struct lsinfo. */
  datatype LeapSecond = LeapSecond(trans: Long, corr: Int)

  /** What a conversion leaves behind: whether it returned non-NULL, and the caller's buffer. */
  datatype Outcome = Outcome(ok: bool, tm: Tm)

  function ReadingOf(tm: Tm): Reading
  {
    Reading(tm.year + 1900, tm.mon, tm.mday, tm.hour, tm.min, tm.sec)
  }

  /** increment_overflow: whether adding j to i leaves the int range. */
  predicate IncrementOverflows(i: Int, j: Int)
    ensures IncrementOverflows(i, j) <==> !FitsInt(i + j)
  {
    if i >= 0 then j > INT_MAX - i else j < INT_MIN - i
  }

  /** leaps_thru_end_of, with C division on non-negative operands only. */
  function LeapsThruEndOf(y: int): (n: int)
    ensures n == Leaps(y)
    decreases y < 0
  {
    if y >= 0 then y / 4 - y / 100 + y / 400
    else
      assert forall n | n == 4 || n == 100 || n == 400 :: y / n == -(-(y + 1) / n + 1);
      -(LeapsThruEndOf(-(y + 1)) + 1)
  }

  // ---- leap seconds

  /** A leap table that never makes the code read before its first entry. */
  predicate ValidLeaps(ls: seq<LeapSecond>)
  {
    |ls| <= TZ_MAX_LEAPS && (ls != [] ==> ls[0].corr > 0)
  }

  /** Index of the last of the first n entries that is not after t, or -1. */
  function LeapIndex(ls: seq<LeapSecond>, t: int, n: nat): (i: int)
    requires n <= |ls|
    ensures -1 <= i < n
    ensures i >= 0 ==> ls[i].trans <= t
    ensures forall j :: i < j < n ==> t < ls[j].trans
  {
    if n == 0 then -1
    else if t >= ls[n - 1].trans then n - 1
    else LeapIndex(ls, t, n - 1)
  }

  /** Number of entries directly before entry i that continue the same run of leap seconds. */
  function LeapRun(ls: seq<LeapSecond>, i: nat): (n: nat)
    requires i < |ls|
    ensures n <= i
  {
    if i > 0 && ls[i].trans == ls[i - 1].trans + 1 && ls[i].corr == ls[i - 1].corr + 1
    then 1 + LeapRun(ls, i - 1) else 0
  }

  function Correction(ls: seq<LeapSecond>, t: int): Int
  {
    var i := LeapIndex(ls, t, |ls|);
    if i < 0 then 0 else ls[i].corr
  }

  /** How far past second 59 the instant t is: positive only on a positive leap second. */
  function LeapHit(ls: seq<LeapSecond>, t: int): (n: nat)
    ensures n <= |ls|
  {
    var i := LeapIndex(ls, t, |ls|);
    if i < 0 || t != ls[i].trans || ls[i].corr <= (if i == 0 then 0 else ls[i - 1].corr) then 0
    else 1 + LeapRun(ls, i)
  }

  method FindCorrection(t: Long, ls: seq<LeapSecond>) returns (corr: Int, hit: nat)
    requires ValidLeaps(ls)
    ensures corr == Correction(ls, t) && hit == LeapHit(ls, t)
  {
    corr, hit := 0, 0;
    var i := |ls| - 1;
    while i >= 0
      invariant -1 <= i < |ls| && corr == 0 && hit == 0
      invariant LeapIndex(ls, t, |ls|) == LeapIndex(ls, t, i + 1)
    {
      if t >= ls[i].trans {
        corr := ls[i].corr;
        if t == ls[i].trans {
          hit := if (i == 0 && corr > 0) || corr > ls[i - 1].corr then 1 else 0;
          if hit > 0 {
            ghost var top := i;
            while i > 0 && ls[i].trans == ls[i - 1].trans + 1 && ls[i].corr == ls[i - 1].corr + 1
              invariant 0 <= i <= top && hit >= 1
              invariant hit + LeapRun(ls, i) == 1 + LeapRun(ls, top)
            {
              hit := hit + 1;
              i := i - 1;
            }
          }
        }
        return;
      }
      i := i - 1;
    }
  }

  // ---- the conversion

  /** The weekday timesub stores. Below INT_MIN + 1970 its y - EPOCH_YEAR wraps around. */
  function StoredWeekday(y: int, day: int): int
  {
    if FitsInt(y - 1970) then Weekday(day) else (day + 8) % 7
  }

  /** The broken-down time of second sod of a day, hit seconds into a leap second. */
  function MakeTm(day: int, sod: int, hit: nat): Tm
    requires 0 <= sod < SECSPERDAY && FitsInt(YearOf(day) - 1900) && hit <= TZ_MAX_LEAPS
  {
    var r := ReadingAt(day, sod);
    Tm(r.year - 1900, r.mon, r.mday, r.hour, r.min, r.sec + hit,
       StoredWeekday(r.year, day), day - YearStart(r.year), 0)
  }

  /** What timesub does for every instant: a civil reading of the local seconds, or NULL. */
  function TimeSubSpec(t: Long, offset: Int, ls: seq<LeapSecond>, tmp: Tm): Outcome
    requires ValidLeaps(ls)
  {
    var utcYear := YearOf(TruncDiv(t, SECSPERDAY));
    var local := t + offset - Correction(ls, t);
    var year := YearOf(local / SECSPERDAY);
    if !FitsInt(utcYear) || !FitsInt(year) then Outcome(false, tmp)
    else if !FitsInt(year - 1900) then Outcome(false, tmp.(year := year))
    else Outcome(true, MakeTm(local / SECSPERDAY, local % SECSPERDAY, LeapHit(ls, t)))
  }

  lemma YearAtLeast(y: int, day: int)
    requires YearStart(y) <= day
    ensures y <= YearOf(day)
  {
    if YearOf(day) < y { YearStartBounds(YearOf(day) + 1, y); }
  }

  lemma YearAtMost(y: int, day: int)
    requires day < YearStart(y)
    ensures YearOf(day) < y
  {
    if y <= YearOf(day) { YearStartBounds(y, YearOf(day)); }
  }

  /** The years one pass of the year-guessing loop moves. */
  function YearDelta(tdays: int): int
  {
    var q := TruncDiv(tdays, 366);
    if q == 0 then (if tdays < 0 then -1 else 1) else q
  }

  /** The loop's measure: it falls even when the pass goes from before the year to inside it. */
  function DaysLeft(tdays: int): nat { if tdays < 0 then 366 - tdays else tdays }

  /** A step of days / 366 years, in which days is a year length or more, uses up some days. */
  lemma StepArithmetic(tdays: int, moved: int)
    requires tdays < 0 || tdays >= 365
    requires var d := YearDelta(tdays); if d > 0 then 365 * d <= moved <= 366 * d else 366 * d <= moved <= 365 * d
    requires tdays == 365 ==> moved == 365
    ensures if tdays >= 0 then 0 <= tdays - moved < tdays else tdays < tdays - moved
    ensures tdays < 0 && moved < tdays ==> YearDelta(tdays) == -1
  {
  }

  /** One pass shrinks the remaining day count and does not pass the year sought. */
  lemma StepStaysShort(y: int, tdays: int, day: int)
    requires tdays + YearStart(y) == day
    requires tdays < 0 || tdays >= YearLength(y)
    ensures var d := YearDelta(tdays); var rest := day - YearStart(y + d);
            if tdays >= 0 then y < y + d <= YearOf(day) && 0 <= rest < tdays
            else YearOf(day) <= y + d < y && tdays < rest < 366 && (rest >= 0 ==> rest < YearLength(y + d))
    ensures DaysLeft(day - YearStart(y + YearDelta(tdays))) < DaysLeft(tdays)
  {
    var d := YearDelta(tdays);
    var moved := YearStart(y + d) - YearStart(y);
    YearStep(y);
    YearStep(y - 1);
    if tdays >= 0 {
      YearStartBounds(y, y + d);
      StepArithmetic(tdays, moved);
      YearAtLeast(y + d, day);
    } else {
      YearStartBounds(y + d, y);
      StepArithmetic(tdays, moved);
      YearStep(y + d);
      YearAtMost(y + d + 1, day);
    }
  }

  /** When the guessed step does not fit an int, neither does the year sought. */
  lemma StepTooLong(y: int, tdays: int, day: int)
    requires tdays + YearStart(y) == day
    requires if tdays >= 0 then 1970 <= y else y <= 1970
    requires !FitsInt(TruncDiv(tdays, 366))
    ensures !FitsInt(YearOf(day))
  {
    if tdays >= 0 {
      StepStaysShort(y, tdays, day) by { YearStartBounds(y, y + 1); }
    } else {
      YearStartBounds(y, 1970);
      YearStartClosed(INT_MIN);
      YearAtMost(INT_MIN, day);
    }
  }

  lemma YearShift(y: int, newy: int, tdays: int)
    ensures tdays - (newy - y) * 365 - (Leaps(newy - 1) - Leaps(y - 1)) == tdays + YearStart(y) - YearStart(newy)
  {
    YearStartClosed(y);
    YearStartClosed(newy);
  }

  /** One pass of the year-guessing loop: the next year to try and the days left to it. */
  method GuessPass(y: Int, tdays: Long, ghost day: int) returns (ok: bool, newy: Int, rest: Long)
    requires tdays + YearStart(y) == day
    requires if tdays >= 0 then 1970 <= y && tdays >= YearLength(y) else y <= 1970
    ensures !ok ==> !FitsInt(YearOf(day))
    ensures ok ==> newy == y + YearDelta(tdays) && rest == day - YearStart(newy)
  {
    hide YearStart, IsLeap, YearOf, Leaps, LeapsThruEndOf, WrapInt, TruncDiv, YearDelta, DaysLeft;
    StepStaysShort(y, tdays, day);
    var tdelta := TruncDiv(tdays, 366);
    var idelta: Int := WrapInt(tdelta);
    if tdelta - idelta >= 1 || idelta - tdelta >= 1 {
      StepTooLong(y, tdays, day);
      return false, y, tdays;
    }
    DeltaIs(tdays, idelta);
    if idelta == 0 {
      idelta := if tdays < 0 then -1 else 1;
    }
    if IncrementOverflows(y, idelta) {
      StepOutOfRange(y, tdays, day);
      return false, y, tdays;
    }
    newy := y + idelta;
    var leapdays := LeapsThruEndOf(newy - 1) - LeapsThruEndOf(y - 1);
    YearShift(y, newy, tdays);
    return true, newy, tdays - (newy - y) * 365 - leapdays;
  }

  lemma DeltaIs(tdays: int, idelta: int)
    requires idelta == TruncDiv(tdays, 366)
    ensures YearDelta(tdays) == if idelta == 0 then (if tdays < 0 then -1 else 1) else idelta
  {
  }

  lemma StepOutOfRange(y: int, tdays: int, day: int)
    requires tdays + YearStart(y) == day
    requires if tdays >= 0 then 1970 <= y && tdays >= YearLength(y) else y <= 1970
    requires !FitsInt(y + YearDelta(tdays))
    ensures !FitsInt(YearOf(day))
  {
    StepStaysShort(y, tdays, day);
  }

  /** The year-guessing loop: steps of days / 366 years, which approach the year from one side. */
  method FindYear(day: Long) returns (r: Option<(Int, int)>)
    ensures r == if FitsInt(YearOf(day)) then Some((YearOf(day), day - YearStart(YearOf(day)))) else None
    ensures r.Some? ==> 0 <= r.value.1 < 366
  {
    var y: Int, tdays: Long := 1970, day;
    while tdays < 0 || tdays >= YearLength(y)
      invariant tdays + YearStart(y) == day
      invariant if tdays >= 0 then 1970 <= y || tdays < YearLength(y) else y <= 1970
      decreases DaysLeft(tdays)
    {
      StepStaysShort(y, tdays, day);
      var ok;
      ok, y, tdays := GuessPass(y, tdays, day);
      if !ok {
        return None;
      }
    }
    YearStep(y);
    YearOfUnique(y, day);
    return Some((y, tdays));
  }

  /** Adds the seconds within the day, offset included, and carries into days and then years. */
  method SettleDay(y0: Int, yday0: Int, rem0: Long, ghost local: int) returns (ok: bool, y: Int, idays: int, rem: int)
    requires (YearStart(y0) + yday0) * SECSPERDAY + rem0 == local
    ensures ok <==> FitsInt(YearOf(local / SECSPERDAY))
    ensures ok ==> y == YearOf(local / SECSPERDAY) && YearStart(y) + idays == local / SECSPERDAY
    ensures ok ==> 0 <= idays < YearLength(y)
    ensures ok ==> rem == local % SECSPERDAY
  {
    y, idays, rem := y0, yday0, rem0;
    while rem < 0
      invariant (YearStart(y) + idays) * SECSPERDAY + rem == local
      decreases -rem
    {
      rem := rem + SECSPERDAY;
      idays := idays - 1;
    }
    while rem >= SECSPERDAY
      invariant (YearStart(y) + idays) * SECSPERDAY + rem == local && rem >= 0
    {
      rem := rem - SECSPERDAY;
      idays := idays + 1;
    }

    ghost var day := YearStart(y) + idays;
    assert day == local / SECSPERDAY && rem == local % SECSPERDAY;
    while idays < 0
      invariant YearStart(y) + idays == day
      decreases -idays
    {
      YearAtMost(y, day);
      if IncrementOverflows(y, -1) {
        return false, y, idays, rem;
      }
      YearStep(y - 1);
      y := y - 1;
      idays := idays + YearLength(y);
    }
    while idays >= YearLength(y)
      invariant YearStart(y) + idays == day && idays >= 0
      decreases idays
    {
      YearStep(y);
      YearAtLeast(y + 1, day);
      idays := idays - YearLength(y);
      if IncrementOverflows(y, 1) {
        return false, y, idays, rem;
      }
      y := y + 1;
    }
    YearStep(y);
    YearOfUnique(y, day);
    ok := true;
  }

  lemma SevenDivides(a: int, b: int, k: int)
    requires a == b + 7 * k
    ensures a % 7 == b % 7
  {
    DivMod(a, 7, b / 7 + k, b % 7);
  }

  lemma WeekdaySum(x: int, wrapped: int, q: int, leaps: int, yday: int)
    ensures wrapped == x ==>
      (4 + (wrapped - q * 7) * (365 % 7) + leaps + yday) % 7 == (365 * x + leaps + yday + 4) % 7
    ensures wrapped == x + 0x1_0000_0000 ==>
      (4 + (wrapped - q * 7) * (365 % 7) + leaps + yday) % 7 == (365 * x + leaps + yday + 8) % 7
  {
    var w := 4 + (wrapped - q * 7) * (365 % 7) + leaps + yday;
    if wrapped == x {
      SevenDivides(w, 365 * x + leaps + yday + 4, -52 * x - q);
    } else if wrapped == x + 0x1_0000_0000 {
      SevenDivides(w, 365 * x + leaps + yday + 8, -52 * x - q + 613566756);
    }
  }

  lemma WeekdayOfSum(y: Int, yday: int, w: int)
    requires w == 4 + TruncMod(WrapInt(y - 1970), 7) * (365 % 7) + (Leaps(y - 1) - Leaps(1969)) + yday
    ensures w % 7 == StoredWeekday(y, YearStart(y) + yday)
  {
    YearStartClosed(y);
    var x := y - 1970;
    WrapBelow(x);
    hide YearStart, Leaps, WrapInt, TruncDiv;
    WeekdaySum(x, WrapInt(x), TruncDiv(WrapInt(x), 7), Leaps(y - 1) - Leaps(1969), yday);
  }

  lemma WrapBelow(x: int)
    requires INT_MIN - 1970 <= x <= INT_MAX
    ensures WrapInt(x) == if FitsInt(x) then x else x + 0x1_0000_0000
  {
  }

  lemma TruncModSeven(w: int)
    ensures var r := TruncMod(w, 7); (if r < 0 then r + 7 else r) == w % 7
  {
    var q := TruncDiv(w, 7);
    SevenDivides(w - 7 * q, w, -q);
  }

  method StoreWeekday(y: Int, yday: int) returns (wday: Int)
    ensures wday == StoredWeekday(y, YearStart(y) + yday)
  {
    var w := 4 + TruncMod(WrapInt(y - 1970), 7) * (365 % 7) + (LeapsThruEndOf(y - 1) - LeapsThruEndOf(1969)) + yday;
    WeekdayOfSum(y, yday, w);
    TruncModSeven(w);
    var r := TruncMod(w, 7);
    wday := if r < 0 then r + 7 else r;
  }

  method FindMonth(leap: bool, yday: int) returns (mon: nat, mday: int)
    requires 0 <= yday < if leap then 366 else 365
    ensures mon == MonthOf(leap, yday) && mday == yday - DaysBefore(leap, mon) + 1
  {
    var idays := yday;
    mon := 0;
    MonthTable(leap);
    while idays >= MonthLength(leap, mon)
      invariant 0 <= mon < 12 && idays >= 0 && idays + DaysBefore(leap, mon) == yday
      invariant MonthOf(leap, yday) == MonthFrom(leap, mon, yday)
      decreases idays
    {
      idays := idays - MonthLength(leap, mon);
      mon := mon + 1;
    }
    mday := idays + 1;
  }

  method FillFields(y: Int, yday: int, sod: int, hit: nat) returns (tm: Tm)
    requires y == YearOf(YearStart(y) + yday) && 0 <= yday < YearLength(y)
    requires 0 <= sod < SECSPERDAY && FitsInt(y - 1900) && hit <= TZ_MAX_LEAPS
    ensures tm == MakeTm(YearStart(y) + yday, sod, hit)
  {
    hide YearOf, YearStart, IsLeap, DaysBefore, StoredWeekday;
    var wday := StoreWeekday(y, yday);
    ghost var day := YearStart(y) + yday;
    assert day - YearStart(YearOf(day)) == yday;
    var mon, mday := FindMonth(IsLeap(y), yday);
    tm := Tm(y - 1900, mon, mday, sod / 3600, sod % 3600 / 60, sod % 60 + hit, wday, yday, 0);
  }

  method TimeSub(t: Long, offset: Int, ls: seq<LeapSecond>, tmp: Tm) returns (out: Outcome)
    requires ValidLeaps(ls)
    ensures out == TimeSubSpec(t, offset, ls, tmp)
  {
    hide YearOf, YearStart, IsLeap, MakeTm, Leaps, Correction, LeapHit;
    var corr, hit := FindCorrection(t, ls);
    var tdays := TruncDiv(t, SECSPERDAY);
    var guess := FindYear(tdays);
    if guess.None? {
      return Outcome(false, tmp);
    }
    var rem: Long := t - tdays * SECSPERDAY + (offset - corr);
    var ok, y, idays, sod := SettleDay(guess.value.0, guess.value.1, rem, t + offset - corr);
    if !ok {
      return Outcome(false, tmp);
    }
    if IncrementOverflows(y, -1900) {
      return Outcome(false, tmp.(year := y));
    }
    var tm := FillFields(y, idays, sod, hit);
    out := Outcome(true, tm);
  }

  // ---- what a conversion means

  /** tm is the reading of the local second count s, with the matching day of year and weekday. */
  predicate Denotes(tm: Tm, s: int)
  {
    && ReadingOf(tm) == Civil(s)
    && tm.yday == s / SECSPERDAY - YearStart(tm.year + 1900)
    && tm.wday == Weekday(s / SECSPERDAY)
  }

  lemma MakeTmMeaning(s: int)
    requires FitsInt(Civil(s).year - 1900)
    ensures var tm, year := MakeTm(s / SECSPERDAY, s % SECSPERDAY, 0), Civil(s).year;
            && ReadingOf(tm) == Civil(s)
            && tm.yday == DaysBefore(IsLeap(year), tm.mon) + tm.mday - 1
            && (Denotes(tm, s) <==> FitsInt(year - 1970))
  {
    var day := s / SECSPERDAY;
    assert (day + 8) % 7 != Weekday(day);
  }

  /** With any leap table and any offset: when exactly timesub succeeds, that it shows the local seconds
      less the correction, plus the leap seconds hit, and what it leaves in the buffer where it fails. */
  lemma TimeSubShows(t: Long, offset: Int, ls: seq<LeapSecond>, tmp: Tm)
    requires ValidLeaps(ls)
    ensures var out, r := TimeSubSpec(t, offset, ls, tmp), Civil(t + offset - Correction(ls, t));
            var inInts := FitsInt(YearOf(TruncDiv(t, SECSPERDAY))) && FitsInt(r.year);
            && (out.ok <==> inInts && FitsInt(r.year - 1900))
            && (out.ok ==> ReadingOf(out.tm) == r.(sec := r.sec + LeapHit(ls, t)))
            && (!out.ok ==> out.tm == if inInts then tmp.(year := r.year) else tmp)
  {
    hide YearOf, IsLeap, LeapHit, Correction, DaysBefore;
  }

  /** The correction is that of the last entry not after t. */
  lemma CorrectionAt(ls: seq<LeapSecond>, t: int, i: int)
    requires -1 <= i < |ls| && (i >= 0 ==> ls[i].trans <= t) && forall j :: i < j < |ls| ==> t < ls[j].trans
    ensures Correction(ls, t) == if i < 0 then 0 else ls[i].corr
  {
  }

  /** Entry i goes on with the run of leap seconds that the entry before it belongs to. */
  predicate Continues(ls: seq<LeapSecond>, i: nat)
    requires i < |ls|
  {
    i > 0 && ls[i].trans == ls[i - 1].trans + 1 && ls[i].corr == ls[i - 1].corr + 1
  }

  lemma {:induction false} LeapRunMeaning(ls: seq<LeapSecond>, i: nat)
    requires i < |ls|
    ensures var n := LeapRun(ls, i); (forall j :: i - n < j <= i ==> Continues(ls, j)) && !Continues(ls, i - n)
  {
    if Continues(ls, i) { LeapRunMeaning(ls, i - 1); }
  }

  /** An instant is hit if an entry listed for it raises the correction; the hits are those of the run up to it. */
  lemma LeapHitAt(ls: seq<LeapSecond>, t: int, i: nat)
    requires i < |ls| && ls[i].trans <= t && forall j :: i < j < |ls| ==> t < ls[j].trans
    ensures LeapHit(ls, t) > 0 <==> ls[i].trans == t && ls[i].corr > if i == 0 then 0 else ls[i - 1].corr
    ensures var n := LeapHit(ls, t) - 1;
            n >= 0 ==> n <= i && (forall j :: i - n < j <= i ==> Continues(ls, j)) && !Continues(ls, i - n)
  {
    LeapRunMeaning(ls, i);
  }

  /** Without leap seconds timesub succeeds on exactly these instants, with the fields of t + offset. */
  lemma TimeSubMeaning(t: Long, offset: Int, tmp: Tm)
    ensures var out, year := TimeSubSpec(t, offset, [], tmp), Civil(t + offset).year;
            && (out.ok <==> FitsInt(YearOf(TruncDiv(t, SECSPERDAY))) && FitsInt(year) && FitsInt(year - 1900))
            && (out.ok ==>
                 && ReadingOf(out.tm) == Civil(t + offset)
                 && out.tm.yday == DaysBefore(IsLeap(year), out.tm.mon) + out.tm.mday - 1
                 && (Denotes(out.tm, t + offset) <==> FitsInt(year - 1970)))
  {
    hide YearOf, IsLeap, DaysBefore, MakeTm, Denotes;
    assert LeapHit([], t) == 0 && Correction([], t) == 0;
    if FitsInt(Civil(t + offset).year - 1900) {
      MakeTmMeaning(t + offset);
    }
  }

  /** The weekday is wrong 70 years long: at the first instant of the first year that tm_year holds. */
  lemma WeekdayWraps(tmp: Tm)
    ensures var t := -67768040609740800;
            var out := TimeSubSpec(t, 0, [], tmp);
            out.ok && ReadingOf(out.tm) == Civil(t) && out.tm.wday != Weekday(t / SECSPERDAY)
  {
    var t, y := -67768040609740800, INT_MIN + 1900;
    YearStartClosed(y);
    YearStep(y);
    YearOfUnique(y, t / SECSPERDAY);
    TimeSubMeaning(t, 0, tmp);
  }
}
