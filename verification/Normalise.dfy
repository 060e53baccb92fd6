// The normalisation of broken-down times at the start of time2sub in libtz.c.
module Normalise {
  import opened Machine
  import opened Calendar
  import opened CivilTime

  // ---- what the fields of an arbitrary struct tm add up to

  /** The day named by year, month and day of month, the month carried into the year. */
  function RawDay(tm: Tm): int
  {
    DayNumber(tm.year + 1900 + tm.mon / 12, tm.mon % 12, tm.mday)
  }

  function RawSeconds(tm: Tm): int
  {
    RawDay(tm) * SECSPERDAY + tm.hour * 3600 + tm.min * 60 + tm.sec
  }

  function CarriedMin(tm: Tm, secs: bool): int { tm.min + if secs then tm.sec / 60 else 0 }
  function CarriedHour(tm: Tm, secs: bool): int { tm.hour + CarriedMin(tm, secs) / 60 }
  function CarriedMday(tm: Tm, secs: bool): int { tm.mday + CarriedHour(tm, secs) / 24 }

  /** Whether every carry and the resulting year stay in the int range. */
  predicate Normalisable(tm: Tm, secs: bool)
  {
    && FitsInt(CarriedMin(tm, secs)) && FitsInt(CarriedHour(tm, secs)) && FitsInt(CarriedMday(tm, secs))
    && FitsInt(YearOf(RawDay(tm) - tm.mday + CarriedMday(tm, secs)) - 1900)
  }

  /** n is tm with its fields brought into range (the seconds only when secs is set). */
  predicate NormalForm(tm: Tm, secs: bool, n: Tm)
  {
    && ValidDate(n.year + 1900, n.mon, n.mday) && 0 <= n.hour < 24 && 0 <= n.min < 60
    && RawSeconds(n) == RawSeconds(tm)
    && (if secs then 0 <= n.sec < 60 else n.sec == tm.sec)
    && n.isdst == tm.isdst
  }

  /** The reading that the normalised fields make up; unless secs is set, its seconds can be any. */
  function NormalReading(tm: Tm, secs: bool): Reading
  {
    if secs then Civil(RawSeconds(tm)) else Civil(RawSeconds(tm) - tm.sec).(sec := tm.sec)
  }

  /** Normal forms are determined by the total, so normalising loses and invents nothing. */
  lemma NormalFormIsCivil(tm: Tm, secs: bool, n: Tm)
    requires NormalForm(tm, secs, n)
    ensures ReadingOf(n) == NormalReading(tm, secs)
  {
    hide Civil;
    var r := ReadingOf(n).(sec := if secs then n.sec else 0);
    assert Seconds(r) == RawSeconds(n) - (n.sec - r.sec);
    CivilUnique(r);
  }

  /** It stands for the total of the given fields. */
  lemma NormalReadingSeconds(tm: Tm, secs: bool)
    ensures 0 <= NormalReading(tm, secs).mon && Seconds(NormalReading(tm, secs)) == RawSeconds(tm)
  {
    hide Civil, RawDay, YearStart, DaysBefore, IsLeap;
    var r := Civil(RawSeconds(tm) - tm.sec);
    assert Seconds(r) == (RawDay(tm) * 1440 + tm.hour * 60 + tm.min) * 60;
    assert r.sec == 0;
  }

  /** With tm_sec in 0..59 it is the civil reading of the total, normalised or not. */
  lemma NormalReadingInRange(tm: Tm, secs: bool)
    requires 0 <= tm.sec < 60
    ensures NormalReading(tm, secs) == Civil(RawSeconds(tm))
    ensures Normalisable(tm, secs) == Normalisable(tm, false)
  {
    hide Civil, YearOf, RawDay, Seconds;
    NormalReadingSeconds(tm, secs);
    CivilUnique(NormalReading(tm, secs));
    assert CarriedMin(tm, secs) == tm.min;
  }

  // ---- carries

  predicate LongIncrementOverflows(l: Long, m: Int)
    ensures LongIncrementOverflows(l, m) <==> !(LONG_MIN <= l + m <= LONG_MAX)
  {
    if l >= 0 then m > LONG_MAX - l else m < LONG_MIN - l
  }

  /** The carry of normalize_overflow: a floor division made of truncating ones. */
  function TensDelta(units: Int, base: int): (d: int)
    requires base in {12, 24, 60}
    ensures d == units / base
  {
    if units >= 0 then units / base else -1 - (-1 - units) / base
  }

  method NormalizeOverflow(tens: Int, units: Int, base: int) returns (over: bool, tens': Int, units': Int)
    requires base in {12, 24, 60}
    ensures over <==> !FitsInt(tens + units / base)
    ensures 0 <= units' < base
    ensures !over ==> tens' * base + units' == tens * base + units
  {
    var tensdelta := TensDelta(units, base);
    units' := units - tensdelta * base;
    if IncrementOverflows(tens, tensdelta) {
      return true, tens, units';
    }
    return false, tens + tensdelta, units';
  }

  method LongNormalizeOverflow(tens: Long, units: Int, base: int) returns (over: bool, tens': Long, units': Int)
    requires base in {12, 24, 60}
    ensures over <==> !(LONG_MIN <= tens + units / base <= LONG_MAX)
    ensures 0 <= units' < base
    ensures !over ==> tens' == tens + units / base && units' == units % base
  {
    var tensdelta := TensDelta(units, base);
    units' := units - tensdelta * base;
    if LongIncrementOverflows(tens, tensdelta) {
      return true, tens, units';
    }
    return false, tens + tensdelta, units';
  }

  // ---- the three date loops

  /** From month m of one year to month m of the next there are as many days as the year whose February lies between. */
  lemma YearCarry(y: int, m: nat, d: int)
    requires m < 12
    ensures DayNumber(y + 1, m, d) == DayNumber(y, m, d) + YearLength(y + if 1 < m then 1 else 0)
  {
    YearStep(y);
    MonthTable(IsLeap(y));
    MonthTable(IsLeap(y + 1));
  }

  lemma MonthCarry(y: int, m: nat, d: int)
    requires m < 12
    ensures var m' := if m == 11 then 0 else m + 1;
            DayNumber(if m == 11 then y + 1 else y, m', d) == DayNumber(y, m, d) + MonthLength(IsLeap(y), m)
  {
    YearStep(y);
    MonthTable(IsLeap(y));
  }

  lemma YearOfDate(y: int, m: int, d: int)
    requires ValidDate(y, m, d)
    ensures YearOf(DayNumber(y, m, d)) == y
  {
    MonthTable(IsLeap(y));
    YearStep(y);
    DaysBeforeGrows(IsLeap(y), m, 12);
    if m > 0 { DaysBeforeGrows(IsLeap(y), 0, m); }
    YearOfUnique(y, DayNumber(y, m, d));
  }

  /** Brings the day of month into range by whole years and then whole months. */
  method NormalizeDate(y0: Long, mon0: Int, mday0: Int) returns (y: Long, mon: Int, mday: Int)
    requires 0 <= mon0 < 12 && -0x1_0000_0000 <= y0 <= 0x1_0000_0000
    ensures ValidDate(y, mon, mday) && DayNumber(y, mon, mday) == DayNumber(y0, mon0, mday0)
    ensures -0x4_0000_0000 <= y <= 0x4_0000_0000
  {
    y, mon, mday := y0, mon0, mday0;
    ghost var first: int := mday0;
    while mday <= 0
      invariant y <= y0 && y0 - y <= mday - first && mday <= 366 + (if first > 0 then first else 0)
      invariant DayNumber(y, mon, mday) == DayNumber(y0, mon0, mday0)
      decreases -(mday as int)
    {
      if LongIncrementOverflows(y, -1) {
        assert false;
      }
      YearCarry(y - 1, mon, mday);
      y := y - 1;
      var li := y + if 1 < mon then 1 else 0;
      mday := mday + YearLength(li);
    }

    ghost var y1 := y;
    while mday > 366
      invariant y1 <= y && y - y1 + mday <= 0x8000_0000 && 1 <= mday
      invariant DayNumber(y, mon, mday) == DayNumber(y0, mon0, mday0)
      decreases mday
    {
      YearCarry(y, mon, mday);
      var li := y + if 1 < mon then 1 else 0;
      mday := mday - YearLength(li);
      if LongIncrementOverflows(y, 1) {
        assert false;
      }
      y := y + 1;
    }

    ghost var y2 := y;
    while mday > MonthLength(IsLeap(y), mon)
      invariant 0 <= mon < 12 && 1 <= mday <= 366 && y2 <= y && y - y2 + mday <= 366
      invariant DayNumber(y, mon, mday) == DayNumber(y0, mon0, mday0)
      decreases mday
    {
      MonthCarry(y, mon, mday);
      mday := mday - MonthLength(IsLeap(y), mon);
      mon := mon + 1;
      if mon >= 12 {
        mon := 0;
        if LongIncrementOverflows(y, 1) {
          assert false;
        }
        y := y + 1;
      }
    }
  }

  method NormalizeFields(tm: Tm, secs: bool) returns (r: Option<Tm>)
    ensures r.Some? <==> Normalisable(tm, secs)
    ensures r.Some? ==> NormalForm(tm, secs, r.value)
  {
    hide YearOf, IsLeap, YearStart, WrapInt, DaysBefore, MonthLength, ValidDate;
    var your := tm;
    var over, tens, units := false, your.min, your.sec;
    if secs {
      over, tens, units := NormalizeOverflow(your.min, your.sec, 60);
      if over {
        return None;
      }
    }
    var sec := units;
    var min, hour, mday, mon;
    over, hour, min := NormalizeOverflow(your.hour, tens, 60);
    if over {
      return None;
    }
    over, mday, hour := NormalizeOverflow(your.mday, hour, 24);
    if over {
      return None;
    }
    var y: Long := your.year;
    over, y, mon := LongNormalizeOverflow(y, your.mon, 12);
    if over || LongIncrementOverflows(y, 1900) {
      assert false;
    }
    y := y + 1900;
    ghost var day := DayNumber(y, mon, mday);
    y, mon, mday := NormalizeDate(y, mon, mday);
    YearOfDate(y, mon, mday);
    if LongIncrementOverflows(y, -1900) {
      assert false;
    }
    y := y - 1900;
    if WrapInt(y) != y {
      return None;
    }
    return Some(Tm(y, mon, mday, hour, min, sec, your.wday, your.yday, your.isdst));
  }

  // ---- requests that are sure to normalise

  /** The year within a billion and every other field within 16 bits, signed or not. */
  predicate Moderate(tm: Tm)
  {
    && -1_000_000_000 <= tm.year + 1900 <= 1_000_000_000
    && -0x8000 <= tm.mon < 0x1_0000 && -0x8000 <= tm.mday < 0x1_0000 && -0x8000 <= tm.hour < 0x1_0000
    && -0x8000 <= tm.min < 0x1_0000 && -0x8000 <= tm.sec < 0x1_0000
  }

  lemma YearWithin(y: int, m: nat, d: int)
    requires m < 12 && -70000 <= d <= 70000
    ensures y - 400 <= YearOf(DayNumber(y, m, d)) <= y + 400
  {
    hide YearOf, IsLeap;
    var day := DayNumber(y, m, d);
    YearStartBounds(y - 400, y);
    YearStartBounds(y, y + 401);
    MonthTable(IsLeap(y));
    if m > 0 { DaysBeforeGrows(IsLeap(y), 0, m); }
    DaysBeforeGrows(IsLeap(y), m, 12);
    YearAtLeast(y - 400, day);
    YearAtMost(y + 401, day);
  }

  /** Such a request normalises, with its seconds or without. */
  lemma ModerateNormalises(tm: Tm, secs: bool)
    requires Moderate(tm)
    ensures Normalisable(tm, secs)
  {
    hide YearOf, YearStart, DaysBefore, IsLeap;
    var y, mday := tm.year + 1900 + tm.mon / 12, CarriedMday(tm, secs);
    assert -70000 <= mday <= 70000;
    YearWithin(y, tm.mon % 12, mday);
    assert RawDay(tm) - tm.mday + mday == DayNumber(y, tm.mon % 12, mday);
  }
}
