// The proleptic Gregorian calendar over all integers, and wall-clock readings.
//
// Days are numbered from 1970-01-01 (day 0); months count from 0 as in struct tm.
module Calendar {
  import opened Machine

  const SECSPERDAY: int := 86400
  const DAYSPERREPEAT: int := 146097
  const YEARSPERREPEAT: int := 400
  const SECSPERREPEAT: int := 400 * 31556952

  predicate IsLeap(y: int) { y % 4 == 0 && (y % 100 != 0 || y % 400 == 0) }

  function YearLength(y: int): int { if IsLeap(y) then 366 else 365 }

  function MonthLength(leap: bool, m: int): int
  {
    if m == 1 then (if leap then 29 else 28)
    else if m == 3 || m == 5 || m == 8 || m == 10 then 30
    else 31
  }

  /** Day number of January 1 of year y: the lengths of the years between 1970 and y, added up. */
  function YearStart(y: int): int
    decreases if y >= 1970 then y - 1970 else 1970 - y
  {
    if y == 1970 then 0
    else if y > 1970 then YearStart(y - 1) + YearLength(y - 1)
    else YearStart(y + 1) - YearLength(y)
  }

  /** Days of the year before month m. */
  function DaysBefore(leap: bool, m: nat): int
  {
    if m == 0 then 0 else DaysBefore(leap, m - 1) + MonthLength(leap, m - 1)
  }

  function DayNumber(y: int, m: nat, d: int): int
  {
    YearStart(y) + DaysBefore(IsLeap(y), m) + d - 1
  }

  function Weekday(day: int): int { (day + 4) % 7 }

  /** Leap years through the end of year y, counted so that year 0 gives 0; floor division. */
  function Leaps(y: int): int { y / 4 - y / 100 + y / 400 }

  // ---- year starts

  lemma YearStep(y: int)
    ensures YearStart(y + 1) == YearStart(y) + YearLength(y)
  {
  }

  lemma LeapsStep(y: int)
    ensures Leaps(y) == Leaps(y - 1) + if IsLeap(y) then 1 else 0
  {
    QuotientStep(y, 4);
    QuotientStep(y, 100);
    QuotientStep(y, 400);
    LeapOfRemainder(y / 400, y % 400);
  }

  lemma QuotientStep(y: int, n: int)
    requires 1 < n
    ensures (y - 1) / n == y / n - if y % n == 0 then 1 else 0
  {
    if y % n == 0 {
      assert n * (y / n - 1) == n * (y / n) - n;
      DivMod(y - 1, n, y / n - 1, n - 1);
    } else {
      DivMod(y - 1, n, y / n, y % n - 1);
    }
  }

  /** The closed form that the conversion code relies on. */
  lemma {:induction false} YearStartClosed(y: int)
    ensures YearStart(y) == 365 * (y - 1970) + Leaps(y - 1) - Leaps(1969)
    decreases if y >= 1970 then y - 1970 else 1970 - y
  {
    if y > 1970 {
      YearStartClosed(y - 1);
      LeapsStep(y - 1);
    } else if y < 1970 {
      YearStartClosed(y + 1);
      LeapsStep(y);
    }
  }

  lemma {:induction false} YearStartBounds(a: int, b: int)
    requires a <= b
    ensures 365 * (b - a) <= YearStart(b) - YearStart(a) <= 366 * (b - a)
    decreases b - a
  {
    if a < b {
      YearStartBounds(a, b - 1);
      YearStep(b - 1);
    }
  }

  lemma LeapsRepeat(x: int, k: int)
    ensures Leaps(x + 400 * k) == Leaps(x) + 97 * k
  {
    DivMod(x + 400 * k, 4, x / 4 + 100 * k, x % 4);
    DivMod(x + 400 * k, 100, x / 100 + 4 * k, x % 100);
    DivMod(x + 400 * k, 400, x / 400 + k, x % 400);
  }

  lemma LeapOfRemainder(q: int, r: int)
    requires 0 <= r < 400
    ensures IsLeap(400 * q + r) == IsLeap(r)
    ensures IsLeap(r) <==> r % 4 == 0 && (r % 100 != 0 || r == 0)
    ensures (400 * q + r) % 4 == r % 4 && (400 * q + r) % 100 == r % 100 && (400 * q + r) % 400 == r
  {
    DivMod(400 * q + r, 4, 100 * q + r / 4, r % 4);
    DivMod(400 * q + r, 100, 4 * q + r / 100, r % 100);
    DivMod(400 * q + r, 400, q, r);
  }

  lemma {:induction false} LeapRepeats(y: int, k: int)
    ensures IsLeap(y + YEARSPERREPEAT * k) == IsLeap(y)
  {
    var q, r := y / 400, y % 400;
    assert y + 400 * k == 400 * (q + k) + r;
    LeapOfRemainder(q, r);
    LeapOfRemainder(q + k, r);
  }

  lemma {:induction false} YearStartRepeats(y: int, k: int)
    ensures YearStart(y + YEARSPERREPEAT * k) == YearStart(y) + DAYSPERREPEAT * k
  {
    YearStartClosed(y);
    YearStartClosed(y + YEARSPERREPEAT * k);
    LeapsRepeat(y - 1, k);
    assert y + YEARSPERREPEAT * k - 1 == (y - 1) + 400 * k;
  }

  // ---- months

  lemma MonthTable(leap: bool)
    ensures DaysBefore(leap, 0) == 0 && DaysBefore(leap, 1) == 31
    ensures var n := if leap then 1 else 0;
            && DaysBefore(leap, 2) == 59 + n && DaysBefore(leap, 3) == 90 + n
            && DaysBefore(leap, 4) == 120 + n && DaysBefore(leap, 5) == 151 + n
            && DaysBefore(leap, 6) == 181 + n && DaysBefore(leap, 7) == 212 + n
            && DaysBefore(leap, 8) == 243 + n && DaysBefore(leap, 9) == 273 + n
            && DaysBefore(leap, 10) == 304 + n && DaysBefore(leap, 11) == 334 + n
            && DaysBefore(leap, 12) == 365 + n
  {
    assert DaysBefore(leap, 3) == DaysBefore(leap, 2) + 31;
    assert DaysBefore(leap, 6) == DaysBefore(leap, 5) + 30;
    assert DaysBefore(leap, 9) == DaysBefore(leap, 8) + 30;
  }

  lemma {:induction false} DaysBeforeGrows(leap: bool, a: nat, b: nat)
    requires a < b
    ensures DaysBefore(leap, a) + MonthLength(leap, a) <= DaysBefore(leap, b)
    decreases b
  {
    if a < b - 1 {
      DaysBeforeGrows(leap, a, b - 1);
    }
  }

  // ---- from a day number to a date

  /** The year that holds the given day, searched from year y. */
  function YearFrom(y: int, day: int): (r: int)
    ensures YearStart(r) <= day < YearStart(r + 1)
    decreases if day < YearStart(y) then 366 + YearStart(y) - day else day - YearStart(y)
  {
    assert YearStart(y + 1) == YearStart(y) + YearLength(y);
    assert YearStart(y) == YearStart(y - 1) + YearLength(y - 1) by { YearStep(y - 1); }
    if day < YearStart(y) then YearFrom(y - 1, day)
    else if day >= YearStart(y + 1) then YearFrom(y + 1, day)
    else y
  }

  function YearOf(day: int): (r: int)
    ensures YearStart(r) <= day < YearStart(r + 1)
  {
    YearFrom(1970, day)
  }

  lemma YearOfUnique(y: int, day: int)
    requires YearStart(y) <= day < YearStart(y + 1)
    ensures YearOf(day) == y
  {
    var r := YearOf(day);
    if r < y { YearStartBounds(r + 1, y); }
    if y < r { YearStartBounds(y + 1, r); }
  }

  /** The month that holds day yday of a year, searched upward from month m. */
  function MonthFrom(leap: bool, m: nat, yday: int): (r: nat)
    requires m < 12 && DaysBefore(leap, m) <= yday < DaysBefore(leap, 12)
    ensures m <= r < 12
    ensures DaysBefore(leap, r) <= yday < DaysBefore(leap, r) + MonthLength(leap, r)
    decreases 12 - m
  {
    if yday < DaysBefore(leap, m) + MonthLength(leap, m) then m
    else assert yday >= DaysBefore(leap, m + 1); MonthFrom(leap, m + 1, yday)
  }

  function MonthOf(leap: bool, yday: int): (r: nat)
    requires 0 <= yday < if leap then 366 else 365
    ensures r < 12 && DaysBefore(leap, r) <= yday < DaysBefore(leap, r) + MonthLength(leap, r)
  {
    MonthTable(leap);
    MonthFrom(leap, 0, yday)
  }

  // ---- wall-clock readings

  /** A wall-clock reading; the year is the actual year, the month counts from 0. */
  datatype Reading = Reading(year: int, mon: int, mday: int, hour: int, min: int, sec: int)

  predicate ValidDate(y: int, m: int, d: int)
  {
    0 <= m < 12 && 1 <= d <= MonthLength(IsLeap(y), m)
  }

  predicate ValidReading(r: Reading)
  {
    ValidDate(r.year, r.mon, r.mday) && 0 <= r.hour < 24 && 0 <= r.min < 60 && 0 <= r.sec < 60
  }

  /** Seconds from 1970-01-01 00:00:00 on the same clock. */
  function Seconds(r: Reading): int
    requires 0 <= r.mon
  {
    DayNumber(r.year, r.mon, r.mday) * SECSPERDAY + r.hour * 3600 + r.min * 60 + r.sec
  }

  /** The reading at second sod of the given day. */
  function ReadingAt(day: int, sod: int): (r: Reading)
    requires 0 <= sod < SECSPERDAY
    ensures ValidReading(r) && Seconds(r) == day * SECSPERDAY + sod && r.year == YearOf(day)
  {
    var y := YearOf(day);
    var yday := day - YearStart(y);
    var m := MonthOf(IsLeap(y), yday);
    Reading(y, m, yday - DaysBefore(IsLeap(y), m) + 1, sod / 3600, sod % 3600 / 60, sod % 60)
  }

  /** Inverts the day count: the valid reading that denotes s. */
  function Civil(s: int): (r: Reading)
    ensures ValidReading(r) && Seconds(r) == s
  {
    ReadingAt(s / SECSPERDAY, s % SECSPERDAY)
  }

  /** Lexicographic order. */
  predicate Before(a: Reading, b: Reading)
  {
    if a.year != b.year then a.year < b.year
    else if a.mon != b.mon then a.mon < b.mon
    else if a.mday != b.mday then a.mday < b.mday
    else if a.hour != b.hour then a.hour < b.hour
    else if a.min != b.min then a.min < b.min
    else a.sec < b.sec
  }

  lemma DateOrder(y1: int, m1: int, d1: int, y2: int, m2: int, d2: int)
    requires ValidDate(y1, m1, d1) && ValidDate(y2, m2, d2)
    requires y1 < y2 || (y1 == y2 && (m1 < m2 || (m1 == m2 && d1 < d2)))
    ensures DayNumber(y1, m1, d1) < DayNumber(y2, m2, d2)
  {
    MonthTable(IsLeap(y1));
    if y1 < y2 {
      YearStartBounds(y1 + 1, y2);
      YearStep(y1);
      DaysBeforeGrows(IsLeap(y1), m1, 12);
      if m2 > 0 { DaysBeforeGrows(IsLeap(y2), 0, m2); }
    } else if m1 < m2 {
      DaysBeforeGrows(IsLeap(y1), m1, m2);
    }
  }

  /** On valid readings the lexicographic order is the order of the seconds they denote. */
  lemma ReadingOrder(a: Reading, b: Reading)
    requires ValidReading(a) && ValidReading(b)
    ensures Before(a, b) <==> Seconds(a) < Seconds(b)
    ensures a == b <==> Seconds(a) == Seconds(b)
  {
    if Before(a, b) {
      SecondsGrow(a, b);
    } else if a != b {
      SecondsGrow(b, a);
    }
  }

  lemma SecondsGrow(a: Reading, b: Reading)
    requires ValidReading(a) && ValidReading(b) && Before(a, b)
    ensures Seconds(a) < Seconds(b)
  {
    if (a.year, a.mon, a.mday) != (b.year, b.mon, b.mday) {
      DateOrder(a.year, a.mon, a.mday, b.year, b.mon, b.mday);
    }
  }

  lemma CivilUnique(r: Reading)
    requires ValidReading(r)
    ensures Civil(Seconds(r)) == r
  {
    ReadingOrder(Civil(Seconds(r)), r);
  }

  lemma CivilIncreases(a: int, b: int)
    requires a < b
    ensures Before(Civil(a), Civil(b))
  {
    ReadingOrder(Civil(a), Civil(b));
  }

  lemma {:induction false} DayRepeats(s: int, k: int)
    ensures (s + SECSPERREPEAT * k) / SECSPERDAY == s / SECSPERDAY + DAYSPERREPEAT * k
    ensures (s + SECSPERREPEAT * k) % SECSPERDAY == s % SECSPERDAY
    ensures Weekday((s + SECSPERREPEAT * k) / SECSPERDAY) == Weekday(s / SECSPERDAY)
  {
    var q, r := s / SECSPERDAY, s % SECSPERDAY;
    DivMod(s + SECSPERREPEAT * k, SECSPERDAY, q + DAYSPERREPEAT * k, r);
    DivMod(q + DAYSPERREPEAT * k + 4, 7, (q + 4) / 7 + 20871 * k, (q + 4) % 7);
  }

  lemma {:induction false} YearOfRepeats(day: int, k: int)
    ensures YearOf(day + DAYSPERREPEAT * k) == YearOf(day) + YEARSPERREPEAT * k
  {
    var y := YearOf(day);
    YearStartRepeats(y, k);
    YearStartRepeats(y + 1, k);
    assert y + 1 + YEARSPERREPEAT * k == y + YEARSPERREPEAT * k + 1;
    YearOfUnique(y + YEARSPERREPEAT * k, day + DAYSPERREPEAT * k);
  }

  lemma {:induction false} ReadingRepeats(day: int, sod: int, k: int)
    requires 0 <= sod < SECSPERDAY
    ensures var r := ReadingAt(day, sod);
            ReadingAt(day + DAYSPERREPEAT * k, sod) == r.(year := r.year + YEARSPERREPEAT * k)
  {
    var day', y, y' := day + DAYSPERREPEAT * k, YearOf(day), YearOf(day + DAYSPERREPEAT * k);
    assert y' == y + YEARSPERREPEAT * k by { YearOfRepeats(day, k); }
    assert day' - YearStart(y') == day - YearStart(y) by { YearStartRepeats(y, k); }
    assert IsLeap(y') == IsLeap(y) by { LeapRepeats(y, k); }
  }

  /** 400 Gregorian years are exactly 146097 days, which are exactly 20871 weeks. */
  lemma {:induction false} CivilRepeats(s: int, k: int)
    ensures var r := Civil(s);
            Civil(s + SECSPERREPEAT * k) == r.(year := r.year + YEARSPERREPEAT * k)
    ensures Weekday((s + SECSPERREPEAT * k) / SECSPERDAY) == Weekday(s / SECSPERDAY)
  {
    DayRepeats(s, k);
    ReadingRepeats(s / SECSPERDAY, s % SECSPERDAY, k);
  }
}
