// From a broken-down time back to an instant: time2sub, time2 and time1 of libtz.c.
module MakeTime {
  import opened Machine
  import opened Calendar
  import opened CivilTime
  import opened FindTime
  import opened LocalTime
  import opened Normalise
  import opened Sequences

  const WRONG: Long := -1

  /** What an attempt to convert a request leaves behind: its result, whether it was okay, and the buffer. */
  datatype Attempt = Attempt(t: Long, okay: bool, tm: Tm)

  // ---- time2sub

  /** Seconds kept aside during the search: those by which tm_sec lies outside 0..59. */
  function Saved(r: Reading): int
  {
    if 0 <= r.sec < 60 then 0 else if r.year < 1970 then r.sec - 59 else r.sec
  }

  /** The reading that is searched for. */
  function Base(r: Reading): Reading { r.(sec := r.sec - Saved(r)) }

  predicate SecondsOverflow(r: Reading)
  {
    !(0 <= r.sec < 60) && r.year < 1970 && !FitsInt(r.sec - 59)
  }

  /** What is searched for has seconds in 0..59, and the seconds kept aside make up the rest: beyond 59 the
      search goes for the start of the minute or, before 1970, for its last second. */
  lemma SavedMeaning(r: Reading)
    ensures Base(r) == r.(sec := Base(r).sec) && 0 <= Base(r).sec < 60 && Base(r).sec + Saved(r) == r.sec
    ensures 0 <= r.sec < 60 ==> Saved(r) == 0
    ensures !(0 <= r.sec < 60) ==> Base(r).sec == if r.year < 1970 then 59 else 0
    ensures INT_MIN + 59 <= r.sec <= INT_MAX ==> !SecondsOverflow(r)
  {
  }

  /** What time2sub does with every request. */
  ghost function Time2SubSpec(z: Zone, tm: Tm, secs: bool): Attempt
    requires ValidZone(z)
  {
    hide ValidZone, YearOf, Civil;
    var r := NormalReading(tm, secs);
    if !Normalisable(tm, secs) || SecondsOverflow(r) then Attempt(WRONG, false, tm) else
    var t0 := FindSpec(z, Base(r), tm.isdst);
    if t0.None? || !(LONG_MIN <= t0.value + Saved(r) <= LONG_MAX) then Attempt(WRONG, false, tm)
    else
      var out := LocalSpec(z, t0.value + Saved(r), tm);
      Attempt(t0.value + Saved(r), out.ok, out.tm)
  }

  /** Splits a normalised request into what is searched for and the seconds kept aside. */
  method SetAside(n: Tm) returns (ok: bool, your: Tm, saved: int)
    ensures ok <==> !SecondsOverflow(ReadingOf(n))
    ensures ok ==> ReadingOf(your) == Base(ReadingOf(n)) && saved == Saved(ReadingOf(n)) && your.isdst == n.isdst
  {
    your, saved := n, 0;
    if 0 <= your.sec < 60 {
      saved := 0;
    } else if your.year + 1900 < 1970 {
      if IncrementOverflows(your.sec, 1 - 60) {
        return false, your, saved;
      }
      saved := your.sec - 59;
      your := your.(sec := 59);
    } else {
      saved := your.sec;
      your := your.(sec := 0);
    }
    ok := true;
  }

  method Time2Sub(s: State, tmp: Tm, secs: bool) returns (t: Long, okay: bool, tmp': Tm)
    requires s.Valid()
    ensures Attempt(t, okay, tmp') == Time2SubSpec(s.View(), tmp, secs)
  {
    hide LocalSpec, Civil, ValidZone, Normalisable, NormalReading, FindSpec, RawSeconds, ReadingOf,
         SecondsOverflow, Base;
    var n := NormalizeFields(tmp, secs);
    if n.None? {
      return WRONG, false, tmp;
    }
    NormalFormIsCivil(tmp, secs, n.value);
    var ok, your, saved := SetAside(n.value);
    if !ok {
      return WRONG, false, tmp;
    }
    var found := FindInstant(s, your);
    if found.None? {
      return WRONG, false, tmp;
    }
    var newt := WrapLong(found.value + saved);
    SavedSmall(n.value);
    if (newt < found.value) != (saved < 0) {
      return WRONG, false, tmp;
    }
    t := newt;
    var out := LocalSub(s, t, tmp);
    okay, tmp' := out.ok, out.tm;
  }

  lemma SavedSmall(n: Tm)
    ensures -0x1_0000_0000 <= Saved(ReadingOf(n)) <= INT_MAX
  {
  }

  // ---- time2

  /** What time2 does with every request: two attempts, the second one on the buffer that the first one leaves. */
  ghost function Time2Spec(z: Zone, tm: Tm): Attempt
    requires ValidZone(z)
  {
    var first := Time2SubSpec(z, tm, false);
    if first.okay then first else Time2SubSpec(z, first.tm, true)
  }

  /** time2: first with tm_sec as it stands (it may name a leap second), then normalised. */
  method Time2(s: State, tmp: Tm) returns (t: Long, okay: bool, tmp': Tm)
    requires s.Valid()
    ensures Attempt(t, okay, tmp') == Time2Spec(s.View(), tmp)
  {
    hide ValidZone, Time2SubSpec;
    t, okay, tmp' := Time2Sub(s, tmp, false);
    if !okay {
      t, okay, tmp' := Time2Sub(s, tmp', true);
    }
  }

  // ---- what an attempt means

  /** t lies the seconds set aside after an instant that reads the rest of the request, with its tm_isdst. */
  ghost predicate Answers(z: Zone, tm: Tm, secs: bool, t: Long)
    requires ValidZone(z)
  {
    exists t0: Long :: AnswersFrom(z, tm, secs, t0, t)
  }

  ghost predicate AnswersFrom(z: Zone, tm: Tm, secs: bool, t0: Long, t: Long)
    requires ValidZone(z)
  {
    var r := NormalReading(tm, secs);
    && t == t0 + Saved(r) && Reads(z, t0, Base(r))
    && (tm.isdst >= 0 ==> Local(z, t0).value.isdst == tm.isdst)
  }

  /** The search finds an instant, but the seconds set aside lead from there out of what can be represented. */
  ghost predicate Drifts(z: Zone, tm: Tm)
    requires ValidZone(z)
  {
    exists t0: Long :: DriftsFrom(z, tm, t0)
  }

  ghost predicate DriftsFrom(z: Zone, tm: Tm, t0: Long)
    requires ValidZone(z)
  {
    var r := NormalReading(tm, false);
    && Saved(r) != 0 && Reads(z, t0, Base(r))
    && LONG_MIN <= t0 + Saved(r) <= LONG_MAX && Local(z, t0 + Saved(r)).None?
  }

  /** The normalised request, if it can be normalised, is not found. */
  ghost predicate Unmet(z: Zone, tm: Tm)
    requires ValidZone(z)
  {
    Normalisable(tm, true) ==> Unfound(z, Civil(RawSeconds(tm)), tm.isdst)
  }

  /** Why an attempt can fail: the fields do not normalise, there is no instant of what is searched for, or
      the seconds set aside lead from there to no instant that can be represented. */
  ghost predicate Fails(z: Zone, tm: Tm, secs: bool)
    requires ValidZone(z)
  {
    var r := NormalReading(tm, secs);
    || !Normalisable(tm, secs) || SecondsOverflow(r) || Unfound(z, Base(r), tm.isdst)
    || exists t0: Long :: LeadsNowhere(z, r, t0)
  }

  ghost predicate LeadsNowhere(z: Zone, r: Reading, t0: Long)
    requires ValidZone(z)
  {
    Reads(z, t0, Base(r)) && (LONG_MIN <= t0 + Saved(r) <= LONG_MAX ==> Local(z, t0 + Saved(r)).None?)
  }

  /** t answers the request with its seconds as they stand or, where that attempt fails, normalised. */
  ghost predicate Answered(z: Zone, tm: Tm, t: Long)
    requires ValidZone(z)
  {
    Answers(z, tm, false, t) || (Fails(z, tm, false) && Answers(z, tm, true, t))
  }

  lemma SavedNothing(tm: Tm)
    ensures var r := NormalReading(tm, true);
            r == Civil(RawSeconds(tm)) && Saved(r) == 0 && Base(r) == r && !SecondsOverflow(r)
  {
    hide Civil;
  }

  /** A success stores the reading of an instant that answers the request; a failure with normalised
      seconds leaves the buffer alone, and there is no such instant. */
  lemma AttemptMeaning(z: Zone, tm: Tm, secs: bool)
    requires ValidZone(z)
    ensures var a := Time2SubSpec(z, tm, secs);
            && (a.okay ==> Local(z, a.t) == Some(a.tm) && Answers(z, tm, secs, a.t))
            && (!a.okay && secs ==> a.t == WRONG && a.tm == tm && Unmet(z, tm))
            && (!a.okay && !secs ==> a.tm == tm || Drifts(z, tm))
            && (!a.okay ==> Fails(z, tm, secs))
  {
    hide ValidZone, Local, LocalSpec, Civil, YearOf, FindSpec, Unfound, NormalReading, Normalisable, RawSeconds,
         DayNumber;
    var r := NormalReading(tm, secs);
    SavedNothing(tm);
    if Normalisable(tm, secs) && !SecondsOverflow(r) {
      FoundOrUnfound(z, Base(r), tm.isdst);
      var t0 := FindSpec(z, Base(r), tm.isdst);
      if t0.Some? && LONG_MIN <= t0.value + Saved(r) <= LONG_MAX {
        var t: Long := t0.value + Saved(r);
        BufferIrrelevant(z, t, tm);
        if Local(z, t).Some? { assert AnswersFrom(z, tm, secs, t0.value, t); }
        else if !secs { assert Saved(r) != 0 && DriftsFrom(z, tm, t0.value); }
      }
      if t0.Some? { assert LeadsNowhere(z, r, t0.value) || Time2SubSpec(z, tm, secs).okay; }
    }
  }

  /** What time2 may do with a request: answer it, or fail because there is no such instant. */
  ghost predicate Time2Post(z: Zone, tm: Tm, t: Long, okay: bool, tm': Tm)
    requires ValidZone(z)
  {
    if okay then Local(z, t) == Some(tm') && (Answered(z, tm, t) || Drifts(z, tm))
    else t == WRONG && (Drifts(z, tm) || (tm' == tm && Unmet(z, tm)))
  }

  lemma Time2Meaning(z: Zone, tm: Tm)
    requires ValidZone(z)
    ensures var a := Time2Spec(z, tm); Time2Post(z, tm, a.t, a.okay, a.tm)
  {
    hide ValidZone, Local, Time2SubSpec, Answers, Drifts, Unmet, Fails;
    AttemptMeaning(z, tm, false);
    AttemptMeaning(z, Time2SubSpec(z, tm, false).tm, true);
  }

  /** The answer to a request with tm_sec in 0..59: the instant found for its normalised reading, or none. */
  ghost function Resolved(z: Zone, tm: Tm): Attempt
    requires ValidZone(z)
  {
    hide ValidZone, Local, YearOf, Civil;
    var t := if Normalisable(tm, false) then FindSpec(z, Civil(RawSeconds(tm)), tm.isdst) else None;
    if t.None? then Attempt(WRONG, false, tm) else Attempt(t.value, true, Local(z, t.value).value)
  }

  lemma InRangeBase(w: Reading)
    requires ValidReading(w)
    ensures Base(w) == w && Saved(w) == 0 && !SecondsOverflow(w)
  {
  }

  lemma AttemptInRange(z: Zone, tm: Tm, secs: bool)
    requires ValidZone(z) && 0 <= tm.sec < 60
    ensures Time2SubSpec(z, tm, secs) == Resolved(z, tm)
  {
    hide ValidZone, Local, LocalSpec, Civil, YearOf, FindSpec, NormalReading, Normalisable, RawSeconds, DayNumber;
    NormalReadingInRange(tm, secs);
    var w := Civil(RawSeconds(tm));
    InRangeBase(w);
    var t := FindSpec(z, w, tm.isdst);
    if t.Some? { BufferIrrelevant(z, t.value, tm); }
  }

  lemma Time2InRange(z: Zone, tm: Tm)
    requires ValidZone(z) && 0 <= tm.sec < 60
    ensures Time2Spec(z, tm) == Resolved(z, tm)
  {
    hide ValidZone, Time2SubSpec;
    AttemptInRange(z, tm, false);
    AttemptInRange(z, tm, true);
  }

  /** It reads exactly what was asked for and has the requested tm_isdst, or there is no such instant. */
  lemma ResolvedMeaning(z: Zone, tm: Tm)
    requires ValidZone(z)
    ensures var a := Resolved(z, tm);
            && (a.okay ==> Reads(z, a.t, Civil(RawSeconds(tm))) && Local(z, a.t) == Some(a.tm)
                           && (tm.isdst >= 0 ==> a.tm.isdst == tm.isdst))
            && (!a.okay ==> a.t == WRONG && a.tm == tm)
            && (!a.okay && Normalisable(tm, false) ==> Unfound(z, Civil(RawSeconds(tm)), tm.isdst))
  {
    hide ValidZone, Local, Civil, YearOf, FindSpec, Unfound, Normalisable;
    FoundOrUnfound(z, Civil(RawSeconds(tm)), tm.isdst);
  }

  // ---- the types that transitions use

  /** Those used from entry i on, latest first, each once. */
  function TypesFrom(types: seq<nat>, i: nat): seq<nat>
    requires i <= |types|
    decreases |types| - i
  {
    if i == |types| then []
    else
      var L := TypesFrom(types, i + 1);
      if types[i] in L then L else L + [types[i]]
  }

  lemma {:induction false} BoundedSet(S: set<nat>, n: nat)
    requires forall k :: k in S ==> k < n
    ensures |S| <= n
  {
    if n > 0 { BoundedSet(S - {n - 1}, n - 1); }
  }

  lemma DistinctBelow(L: seq<nat>, n: nat)
    requires Distinct(L) && forall x :: x in L ==> x < n
    ensures |L| <= n
  {
    var S := set x | x in L;
    DistinctFits(L, S);
    BoundedSet(S, n);
  }

  lemma DistinctAppend(L: seq<nat>, x: nat, n: nat)
    requires Distinct(L) && x !in L && x < n && forall y :: y in L ==> y < n
    ensures Distinct(L + [x]) && |L| + 1 <= n
  {
    DistinctBelow(L + [x], n);
  }

  /** L holds, each once, the types from index i on, all of them less than n. */
  ghost predicate Collected(types: seq<nat>, L: seq<nat>, i: int, n: nat)
  {
    && Distinct(L) && |L| <= n
    && (forall k :: 0 <= i <= k < |types| ==> types[k] in L)
    && (forall k :: k in L ==> k < n && k in types)
  }

  lemma CollectNext(types: seq<nat>, L: seq<nat>, i: nat, n: nat)
    requires i < |types| && Collected(types, L, i + 1, n) && types[i] < n
    ensures Collected(types, if types[i] in L then L else L + [types[i]], i, n)
  {
    if types[i] !in L { DistinctAppend(L, types[i], n); }
  }

  lemma {:induction false} TypesCollected(types: seq<nat>, i: nat, n: nat)
    requires i <= |types| && forall k :: 0 <= k < |types| ==> types[k] < n
    ensures Collected(types, TypesFrom(types, i), i, n)
    decreases |types| - i
  {
    if i < |types| {
      TypesCollected(types, i + 1, n);
      CollectNext(types, TypesFrom(types, i + 1), i, n);
    }
  }

  /** They are the used types, each once, and fit the buffer. */
  lemma TypesUsed(types: seq<nat>, n: nat)
    requires forall k :: 0 <= k < |types| ==> types[k] < n
    ensures var L := TypesFrom(types, 0);
            && Distinct(L) && |L| <= n && (forall k :: k in L <==> k in types)
            && forall k :: 0 <= k < |L| ==> L[k] < n
  {
    TypesCollected(types, 0, n);
    var L := TypesFrom(types, 0);
    assert forall k :: 0 <= k < |L| ==> L[k] in L;
  }

  lemma {:induction false} TypesIn(types: seq<nat>, i: nat, x: nat)
    requires i <= |types|
    ensures x in TypesFrom(types, i) <==> x in types[i..]
    decreases |types| - i
  {
    if i < |types| {
      TypesIn(types, i + 1, x);
      assert types[i..] == [types[i]] + types[i + 1..];
    }
  }

  /** Of two types seen, the earlier one in the list has the later last use. */
  lemma {:induction false} LatestFirst(types: seq<nat>, i: nat, a: nat, b: nat)
    requires i <= |types| && a < b < |TypesFrom(types, i)|
    ensures exists k :: i <= k < |types| && types[k] == TypesFrom(types, i)[a]
                        && TypesFrom(types, i)[b] !in types[k..]
    decreases |types| - i
  {
    if i < |types| {
      var L := TypesFrom(types, i + 1);
      if b < |L| {
        LatestFirst(types, i + 1, a, b);
      } else {
        TypesIn(types, i + 1, L[a]);
        TypesIn(types, i + 1, types[i]);
        var k :| 0 <= k < |types[i + 1..]| && types[i + 1..][k] == L[a];
        assert types[k + i + 1..] == types[i + 1..][k..];
      }
    }
  }

  method TypesSeen(s: State) returns (types: array<nat>, nseen: nat)
    requires s.Valid()
    ensures fresh(types) && nseen <= types.Length && types[..nseen] == TypesFrom(s.types[..s.timecnt], 0)
  {
    hide Collected;
    ghost var used: seq<nat>, n := s.types[..s.timecnt], s.TypeCount();
    assert forall k :: 0 <= k < |used| ==> used[k] == s.View().types[k] < n;
    hide ValidZone;
    var seen := new bool[TZ_MAX_TYPES](_ => false);
    types := new nat[TZ_MAX_TYPES];
    nseen := 0;
    var i: int := s.timecnt - 1;
    while i >= 0
      invariant -1 <= i < |used| && nseen <= TZ_MAX_TYPES && types[..nseen] == TypesFrom(used, i + 1)
      invariant forall k: nat :: k < TZ_MAX_TYPES ==> (seen[k] <==> k in TypesFrom(used, i + 1))
    {
      var ty := s.types[i];
      TypesFit(used, i, n);
      if !seen[ty] {
        seen[ty] := true;
        types[nseen] := ty;
        nseen := nseen + 1;
      }
      i := i - 1;
    }
  }

  lemma TypesFit(types: seq<nat>, i: nat, n: nat)
    requires i <= |types| && forall k :: 0 <= k < |types| ==> types[k] < n
    ensures |TypesFrom(types, i)| <= n
  {
    TypesCollected(types, i, n);
  }

  // ---- time1

  /** C's logical negation. */
  function Not(x: Int): Int { if x == 0 then 1 else 0 }

  /** The request moved from type other, which it may have been computed in, to type same. */
  function Retyped(z: Zone, tm: Tm, same: nat, other: nat): Tm
    requires same < |z.ttis| && other < |z.ttis|
  {
    tm.(sec := WrapInt(tm.sec + (z.ttis[other].gmtoff as int - z.ttis[same].gmtoff)), isdst := Not(tm.isdst))
  }

  /** And moved back. */
  function MovedBack(z: Zone, tm: Tm, same: nat, other: nat): Tm
    requires same < |z.ttis| && other < |z.ttis|
  {
    tm.(sec := WrapInt(tm.sec - (z.ttis[other].gmtoff as int - z.ttis[same].gmtoff)), isdst := Not(tm.isdst))
  }

  /** Where nothing wraps, the request moved asks in type other for the instant that the request
      itself asks for in type same: t + gmtoff of other is the former exactly when t + gmtoff of same
      is the latter. */
  lemma RetypedSeconds(z: Zone, tm: Tm, same: nat, other: nat)
    requires same < |z.ttis| && other < |z.ttis|
    requires FitsInt(tm.sec + (z.ttis[other].gmtoff as int - z.ttis[same].gmtoff))
    ensures var moved := Retyped(z, tm, same, other);
            && RawSeconds(moved) - z.ttis[other].gmtoff == RawSeconds(tm) - z.ttis[same].gmtoff
            && (0 <= tm.isdst <= 1 ==> moved.isdst == 1 - tm.isdst)
  {
    hide DayNumber;
  }

  lemma MoveUndone(z: Zone, tm: Tm, same: nat, other: nat)
    requires same < |z.ttis| && other < |z.ttis| && 0 <= tm.isdst <= 1
    ensures MovedBack(z, Retyped(z, tm, same, other), same, other) == tm
  {
    var delta := z.ttis[other].gmtoff as int - z.ttis[same].gmtoff;
    var n := (tm.sec + delta - INT_MIN) / 0x1_0000_0000;
    assert WrapInt(tm.sec + delta) == tm.sec + delta - n * 0x1_0000_0000;
  }

  /** One pass of the inner loop: try the moved request, and move back what that leaves in the buffer. */
  ghost function Tried(z: Zone, tm: Tm, same: nat, other: nat): Attempt
    requires ValidZone(z) && same < |z.ttis| && other < |z.ttis|
  {
    var a := Time2Spec(z, Retyped(z, tm, same, other));
    if a.okay then a else a.(tm := MovedBack(z, a.tm, same, other))
  }

  method TryRetyped(s: State, tm: Tm, same: nat, other: nat) returns (t: Long, okay: bool, tm': Tm)
    requires s.Valid() && same < s.TypeCount() && other < s.TypeCount()
    ensures Attempt(t, okay, tm') == Tried(s.View(), tm, same, other)
  {
    hide ValidZone, Time2Spec, WrapInt;
    var delta := s.ttis[other].gmtoff as int - s.ttis[same].gmtoff;
    t, okay, tm' := Time2(s, tm.(sec := WrapInt(tm.sec + delta), isdst := Not(tm.isdst)));
    if !okay {
      tm' := tm'.(sec := WrapInt(tm'.sec - delta), isdst := Not(tm'.isdst));
    }
  }

  predicate TypesOf(z: Zone, L: seq<nat>) { forall k :: 0 <= k < |L| ==> L[k] < |z.ttis| }

  /** The inner loop from the k-th of the types L on. */
  ghost function RetryOthers(z: Zone, L: seq<nat>, same: nat, k: nat, tm: Tm): Attempt
    requires ValidZone(z) && TypesOf(z, L) && same < |z.ttis| && k <= |L|
    decreases |L| - k
  {
    if k == |L| then Attempt(WRONG, false, tm)
    else if z.ttis[L[k]].isdst == tm.isdst then RetryOthers(z, L, same, k + 1, tm)
    else
      var a := Tried(z, tm, same, L[k]);
      if a.okay then a else RetryOthers(z, L, same, k + 1, a.tm)
  }

  /** The outer loop from the k-th of the types L on. */
  ghost function RetryFrom(z: Zone, L: seq<nat>, k: nat, tm: Tm): Attempt
    requires ValidZone(z) && TypesOf(z, L) && k <= |L|
    decreases |L| - k
  {
    if k == |L| then Attempt(WRONG, false, tm)
    else if z.ttis[L[k]].isdst != tm.isdst then RetryFrom(z, L, k + 1, tm)
    else
      var a := RetryOthers(z, L, L[k], 0, tm);
      if a.okay then a else RetryFrom(z, L, k + 1, a.tm)
  }

  method RetryWith(s: State, types: array<nat>, nseen: nat, samei: nat, tm: Tm) returns (t: Long, okay: bool, tm': Tm)
    requires s.Valid() && nseen <= types.Length && TypesOf(s.View(), types[..nseen]) && samei < s.TypeCount()
    ensures Attempt(t, okay, tm') == RetryOthers(s.View(), types[..nseen], samei, 0, tm)
  {
    hide ValidZone, Tried;
    ghost var z, L := s.View(), types[..nseen];
    tm' := tm;
    for otherind := 0 to nseen
      invariant RetryOthers(z, L, samei, otherind, tm') == RetryOthers(z, L, samei, 0, tm)
    {
      var otheri := types[otherind];
      assert otheri == L[otherind] && z.ttis[otheri] == s.ttis[otheri];
      if s.ttis[otheri].isdst != tm'.isdst {
        t, okay, tm' := TryRetyped(s, tm', samei, otheri);
        if okay {
          return;
        }
      }
    }
    t, okay := WRONG, false;
  }

  /** The double loop of time1 over the types that transitions use. */
  method Retry(s: State, tm: Tm) returns (t: Long, tm': Tm)
    requires s.Valid()
    ensures var L := TypesFrom(s.View().types, 0);
            TypesOf(s.View(), L) && (t, tm') == (RetryFrom(s.View(), L, 0, tm).t, RetryFrom(s.View(), L, 0, tm).tm)
  {
    ghost var z := s.View();
    TypesUsed(z.types, |z.ttis|);
    hide ValidZone, RetryOthers, TypesFrom;
    tm' := tm;
    var types, nseen := TypesSeen(s);
    ghost var L := types[..nseen];
    for sameind := 0 to nseen
      invariant types[..nseen] == L && RetryFrom(z, L, sameind, tm') == RetryFrom(z, L, 0, tm)
    {
      var samei := types[sameind];
      assert samei == L[sameind] && z.ttis[samei] == s.ttis[samei];
      if s.ttis[samei].isdst == tm'.isdst {
        var okay;
        t, okay, tm' := RetryWith(s, types, nseen, samei, tm');
        if okay {
          return;
        }
      }
    }
    t := WRONG;
  }

  /** tm_isdst as time1 takes it: any value above 1 counts as 1. */
  function Clamped(tm: Tm): Tm { if tm.isdst > 1 then tm.(isdst := 1) else tm }

  /** What tz_mktime does with every request. */
  ghost function Time1Spec(z: Zone, tm: Tm): Attempt
    requires ValidZone(z)
  {
    var a := Time2Spec(z, Clamped(tm));
    if a.okay || a.tm.isdst < 0 then a
    else
      TypesUsed(z.types, |z.ttis|);
      RetryFrom(z, TypesFrom(z.types, 0), 0, a.tm)
  }

  /** tz_mktime */
  method Time1(s: State, tm: Tm) returns (t: Long, tm': Tm)
    requires s.Valid()
    ensures t == Time1Spec(s.View(), tm).t && tm' == Time1Spec(s.View(), tm).tm
  {
    hide ValidZone, Time2Spec, RetryFrom;
    tm' := if tm.isdst > 1 then tm.(isdst := 1) else tm;
    var okay;
    t, okay, tm' := Time2(s, tm');
    if okay || tm'.isdst < 0 {
      return;
    }
    t, tm' := Retry(s, tm');
  }

  // ---- what time1 means

  predicate RetypedPair(z: Zone, tm: Tm, same: nat, other: nat)
  {
    same < |z.ttis| && other < |z.ttis| && z.ttis[same].isdst == tm.isdst != z.ttis[other].isdst
  }

  ghost predicate RetypedDrift(z: Zone, tm: Tm)
    requires ValidZone(z)
  {
    exists same: nat, other: nat ::
      RetypedPair(z, tm, same, other) && Drifts(z, Retyped(z, tm, same, other))
  }

  /** No move of the request between one of the types and one of the others is met. */
  ghost predicate PairsUnmet(z: Zone, tm: Tm, types: seq<nat>, others: seq<nat>)
    requires ValidZone(z)
  {
    forall same: nat, other: nat :: same in types && other in others && RetypedPair(z, tm, same, other) ==>
      Unmet(z, Retyped(z, tm, same, other))
  }

  /** No move of the request between two types that transitions use is met either. */
  ghost predicate AllUnmet(z: Zone, tm: Tm)
    requires ValidZone(z)
  {
    PairsUnmet(z, tm, z.types, z.types)
  }

  /** The request moved between the a-th and the b-th of the types L is answered, and no move before
      that one, in the order of the double loop, is met. */
  ghost predicate FirstAnswer(z: Zone, tm: Tm, L: seq<nat>, a: nat, b: nat, t: Long, tm': Tm)
    requires ValidZone(z)
  {
    && a < |L| && b < |L| && RetypedPair(z, tm, L[a], L[b])
    && Time2Post(z, Retyped(z, tm, L[a], L[b]), t, true, tm')
    && PairsUnmet(z, tm, L[..a], L) && PairsUnmet(z, tm, [L[a]], L[..b])
  }

  /** The first move to be met, between two of the types that transitions use, is answered. */
  ghost predicate RetypedAnswer(z: Zone, tm: Tm, t: Long, tm': Tm)
    requires ValidZone(z)
  {
    exists a: nat, b: nat :: FirstAnswer(z, tm, TypesFrom(z.types, 0), a, b, t, tm')
  }

  /** What the retries may do with a request. */
  ghost predicate RetriesPost(z: Zone, tm: Tm, r: Attempt, L: seq<nat>, types: seq<nat>, others: seq<nat>)
    requires ValidZone(z)
  {
    RetypedDrift(z, tm) ||
    if r.okay then exists a: nat, b: nat :: FirstAnswer(z, tm, L, a, b, r.t, r.tm)
    else r.t == WRONG && r.tm == tm && PairsUnmet(z, tm, types, others)
  }

  lemma TriedMeaning(z: Zone, tm: Tm, same: nat, other: nat)
    requires ValidZone(z) && RetypedPair(z, tm, same, other)
    ensures var r, req := Tried(z, tm, same, other), Retyped(z, tm, same, other);
            || Drifts(z, req) || (r.okay && Time2Post(z, req, r.t, true, r.tm))
            || (!r.okay && r.t == WRONG && r.tm == tm && Unmet(z, req))
  {
    hide ValidZone, Time2Spec, Unmet, Drifts, Answered, Local, Retyped, MovedBack;
    Time2Meaning(z, Retyped(z, tm, same, other));
    assert 0 <= z.ttis[same].isdst <= 1;
    MoveUndone(z, tm, same, other);
  }

  lemma {:induction false} OthersMeaning(z: Zone, L: seq<nat>, a: nat, k: nat, tm: Tm)
    requires ValidZone(z) && TypesOf(z, L) && a < |L| && k <= |L| && z.ttis[L[a]].isdst == tm.isdst
    requires PairsUnmet(z, tm, L[..a], L) && PairsUnmet(z, tm, [L[a]], L[..k])
    ensures RetriesPost(z, tm, RetryOthers(z, L, L[a], k, tm), L, [L[a]], L)
    decreases |L| - k
  {
    hide ValidZone, Tried, Unmet, Drifts, Time2Post, Retyped;
    if k < |L| {
      if z.ttis[L[k]].isdst == tm.isdst {
        assert PairsUnmet(z, tm, [L[a]], L[..k + 1]);
        OthersMeaning(z, L, a, k + 1, tm);
      } else {
        TriedMeaning(z, tm, L[a], L[k]);
        var r := Tried(z, tm, L[a], L[k]);
        if r.okay {
          assert FirstAnswer(z, tm, L, a, k, r.t, r.tm) || RetypedDrift(z, tm);
        } else if !RetypedDrift(z, tm) {
          assert PairsUnmet(z, tm, [L[a]], L[..k + 1]);
          OthersMeaning(z, L, a, k + 1, tm);
        }
      }
    } else {
      assert L[..k] == L;
    }
  }

  lemma {:induction false} RetriesMeaning(z: Zone, L: seq<nat>, k: nat, tm: Tm)
    requires ValidZone(z) && TypesOf(z, L) && k <= |L| && 0 <= tm.isdst <= 1 && PairsUnmet(z, tm, L[..k], L)
    ensures RetriesPost(z, tm, RetryFrom(z, L, k, tm), L, L, L)
    decreases |L| - k
  {
    hide ValidZone, RetryOthers, Unmet, RetypedDrift, FirstAnswer, Retyped;
    if k < |L| {
      if z.ttis[L[k]].isdst == tm.isdst { OthersMeaning(z, L, k, 0, tm); }
      if z.ttis[L[k]].isdst != tm.isdst || (!RetypedDrift(z, tm) && !RetryOthers(z, L, L[k], 0, tm).okay) {
        assert L[..k + 1] == L[..k] + [L[k]];
        assert PairsUnmet(z, tm, L[..k + 1], L);
        RetriesMeaning(z, L, k + 1, tm);
      }
    } else {
      assert L[..k] == L;
    }
  }

  /** What time1 may do with a request: what time2 does or, where that fails for a known tm_isdst,
      answer the first move of the request to the other kind of time that is met, or find none. Only
      where seconds set aside drift out of what can be represented is more possible. */
  ghost predicate Time1Post(z: Zone, tm: Tm, t: Long, tm': Tm)
    requires ValidZone(z)
  {
    var req := Clamped(tm);
    || Drifts(z, req) || Time2Post(z, req, t, true, tm')
    || (Unmet(z, req) &&
        if req.isdst < 0 then t == WRONG && tm' == req
        else || RetypedAnswer(z, req, t, tm') || RetypedDrift(z, req)
             || (t == WRONG && tm' == req && AllUnmet(z, req)))
  }

  lemma Time1Meaning(z: Zone, tm: Tm)
    requires ValidZone(z)
    ensures Time1Post(z, tm, Time1Spec(z, tm).t, Time1Spec(z, tm).tm)
  {
    TypesUsed(z.types, |z.ttis|);
    hide ValidZone, Time2Spec, Unmet, Drifts, Answered, Local, RetryFrom, RetypedDrift, FirstAnswer;
    var req := Clamped(tm);
    Time2Meaning(z, req);
    if req.isdst >= 0 {
      var L := TypesFrom(z.types, 0);
      RetriesMeaning(z, L, 0, req);
    }
  }

  // ---- success stores the reading of the instant, whatever drifts

  ghost predicate Stores(z: Zone, a: Attempt)
    requires ValidZone(z)
  {
    (a.okay ==> Local(z, a.t) == Some(a.tm)) && (!a.okay ==> a.t == WRONG)
  }

  lemma Time2Stores(z: Zone, tm: Tm)
    requires ValidZone(z)
    ensures Stores(z, Time2Spec(z, tm))
  {
    hide ValidZone, Local, Time2SubSpec, Answers, Drifts, Unmet;
    AttemptMeaning(z, tm, false);
    AttemptMeaning(z, Time2SubSpec(z, tm, false).tm, true);
  }

  lemma {:induction false} OthersStore(z: Zone, L: seq<nat>, same: nat, k: nat, tm: Tm)
    requires ValidZone(z) && TypesOf(z, L) && same < |z.ttis| && k <= |L|
    ensures Stores(z, RetryOthers(z, L, same, k, tm))
    decreases |L| - k
  {
    hide ValidZone, Local, Time2Spec, Retyped, MovedBack;
    if k < |L| {
      Time2Stores(z, Retyped(z, tm, same, L[k]));
      OthersStore(z, L, same, k + 1, if z.ttis[L[k]].isdst == tm.isdst then tm else Tried(z, tm, same, L[k]).tm);
    }
  }

  lemma {:induction false} RetriesStore(z: Zone, L: seq<nat>, k: nat, tm: Tm)
    requires ValidZone(z) && TypesOf(z, L) && k <= |L|
    ensures Stores(z, RetryFrom(z, L, k, tm))
    decreases |L| - k
  {
    hide ValidZone, Local, RetryOthers;
    if k < |L| {
      OthersStore(z, L, L[k], 0, tm);
      RetriesStore(z, L, k + 1, if z.ttis[L[k]].isdst != tm.isdst then tm else RetryOthers(z, L, L[k], 0, tm).tm);
    }
  }

  lemma Time1Stores(z: Zone, tm: Tm)
    requires ValidZone(z)
    ensures Stores(z, Time1Spec(z, tm))
  {
    TypesUsed(z.types, |z.ttis|);
    hide ValidZone, Local, Time2Spec, RetryFrom;
    Time2Stores(z, Clamped(tm));
    RetriesStore(z, TypesFrom(z.types, 0), 0, Time2Spec(z, Clamped(tm)).tm);
  }

  /** With tm_sec in 0..59 and tm_isdst unknown, time1 does what the search does. */
  lemma Time1InRange(z: Zone, tm: Tm)
    requires ValidZone(z) && 0 <= tm.sec < 60 && tm.isdst < 0
    ensures Time1Spec(z, tm) == Resolved(z, tm)
  {
    hide ValidZone, Local, Time2Spec, FindSpec, Civil, YearOf, RetryFrom, Normalisable;
    Time2InRange(z, tm);
  }
}
