// Inserted leap seconds: what timesub of libtz.c shows when the table lists them.
module LeapSeconds {
  import opened Machine
  import opened Calendar
  import opened CivilTime

  /** A table of inserted seconds: the i-th raises the correction to i + 1 and happens at the end
      of a minute, and no two are adjacent. */
  predicate Inserted(ls: seq<LeapSecond>)
  {
    && |ls| <= TZ_MAX_LEAPS
    && (forall i :: 0 <= i < |ls| ==> ls[i].corr == i + 1 && (ls[i].trans as int - ls[i].corr) % 60 == 59)
    && (forall i, j :: 0 <= i < j < |ls| ==> ls[i].trans as int + 1 < ls[j].trans)
  }

  predicate IsLeapSecond(ls: seq<LeapSecond>, t: int)
  {
    exists i :: 0 <= i < |ls| && ls[i].trans == t
  }

  /** The UTC reading at t; its second may be 60. */
  function UtcReading(ls: seq<LeapSecond>, t: int): Reading
  {
    var r := Civil(t - Correction(ls, t));
    r.(sec := r.sec + LeapHit(ls, t))
  }

  /** It is what timesub returns for UTC. */
  lemma TimeSubShowsUtc(ls: seq<LeapSecond>, t: Long, tmp: Tm)
    requires Inserted(ls)
    ensures ValidLeaps(ls)
    ensures var out := TimeSubSpec(t, 0, ls, tmp); out.ok ==> ReadingOf(out.tm) == UtcReading(ls, t)
  {
    hide YearOf, IsLeap, LeapHit, Correction;
    assert 0 <= LeapHit(ls, t) <= TZ_MAX_LEAPS;
  }

  lemma EntryAt(ls: seq<LeapSecond>, t: int, i: int)
    requires Inserted(ls) && -1 <= i < |ls|
    requires (i >= 0 ==> ls[i].trans <= t) && (i + 1 < |ls| ==> t < ls[i + 1].trans)
    ensures Correction(ls, t) == i + 1
    ensures LeapHit(ls, t) == if i >= 0 && ls[i].trans == t then 1 else 0
    ensures IsLeapSecond(ls, t) <==> i >= 0 && ls[i].trans == t
  {
    var r := LeapIndex(ls, t, |ls|);
    assert forall j :: i + 1 < j < |ls| ==> ls[i + 1].trans as int + 1 < ls[j].trans;
    assert r == i;
    if i > 0 { assert ls[i - 1].trans as int + 1 < ls[i].trans; }
    assert forall j :: 0 <= j < i ==> ls[j].trans as int + 1 < ls[i].trans;
  }

  /** tm_sec is 60 exactly at the listed instants. */
  lemma SixtyExactly(ls: seq<LeapSecond>, t: int)
    requires Inserted(ls)
    ensures UtcReading(ls, t).sec == 60 <==> IsLeapSecond(ls, t)
    ensures IsLeapSecond(ls, t) ==> Civil(t - Correction(ls, t)).sec == 59
    ensures LeapHit(ls, t) == if IsLeapSecond(ls, t) then 1 else 0
  {
    hide Civil;
    var i := LeapIndex(ls, t, |ls|);
    EntryAt(ls, t, i);
    SecondOfMinute(t - Correction(ls, t));
  }

  lemma MinutesDivideDays(s: int)
    ensures s % SECSPERDAY % 60 == s % 60
  {
    var q, r := s / SECSPERDAY, s % SECSPERDAY;
    assert s == 60 * (1440 * q + r / 60) + r % 60;
  }

  lemma SecondOfMinute(s: int)
    ensures Civil(s).sec == s % 60
  {
    MinutesDivideDays(s);
    hide YearOf, MonthOf, IsLeap, DaysBefore;
  }

  lemma {:induction false} BeforeTransitive(a: Reading, b: Reading, c: Reading)
    requires Before(a, b) && Before(b, c)
    ensures Before(a, c)
  {
  }

  /** From one second to the next either the correction or the local second count grows. */
  lemma CorrectionStep(ls: seq<LeapSecond>, t: int)
    requires Inserted(ls)
    ensures Correction(ls, t + 1) == Correction(ls, t) + if IsLeapSecond(ls, t + 1) then 1 else 0
    ensures IsLeapSecond(ls, t + 1) ==> !IsLeapSecond(ls, t)
  {
    var i := LeapIndex(ls, t, |ls|);
    EntryAt(ls, t, i);
    if i + 1 < |ls| && ls[i + 1].trans == t + 1 {
      if i + 2 < |ls| { assert ls[i + 1].trans as int + 1 < ls[i + 2].trans; }
      EntryAt(ls, t + 1, i + 1);
      if i >= 0 { assert ls[i].trans as int + 1 < ls[i + 1].trans; }
    } else {
      EntryAt(ls, t + 1, i);
    }
  }

  lemma NextSecond(ls: seq<LeapSecond>, t: int)
    requires Inserted(ls)
    ensures Before(UtcReading(ls, t), UtcReading(ls, t + 1))
  {
    hide Civil, Correction, LeapHit, IsLeapSecond;
    var s := t - Correction(ls, t);
    CorrectionStep(ls, t);
    SixtyExactly(ls, t);
    SixtyExactly(ls, t + 1);
    if !IsLeapSecond(ls, t + 1) {
      CivilIncreases(s, s + 1);
      SecondOfMinute(s);
      SecondOfMinute(s + 1);
    }
  }

  /** The clock strictly increases, through every leap second. */
  lemma {:induction false} UtcIncreases(ls: seq<LeapSecond>, a: int, b: int)
    requires Inserted(ls) && a < b
    ensures Before(UtcReading(ls, a), UtcReading(ls, b))
    decreases b - a
  {
    hide UtcReading;
    NextSecond(ls, b - 1);
    if a < b - 1 {
      UtcIncreases(ls, a, b - 1);
      BeforeTransitive(UtcReading(ls, a), UtcReading(ls, b - 1), UtcReading(ls, b));
    }
  }
}
