// The last part of tzload in libtz.c, after the data block (RFC 8536, section 3.2) has been decoded:
// the table of the footer's rules (section 3.3) is spliced on, and the table is tested for a
// 400-year repeat.
module TzLoad {
  import opened Machine
  import opened Calendar
  import opened CivilTime
  import opened LocalTime
  import opened PosixRules
  import opened RuleOrder

  // ---- splicing

  /** The first entry of ats after t. */
  function FirstAfter(ats: seq<int>, t: int): (q: nat)
    ensures q <= |ats|
    ensures forall i :: 0 <= i < q ==> ats[i] <= t
    ensures q < |ats| ==> t < ats[q]
  {
    if ats == [] || t < ats[0] then 0 else 1 + FirstAfter(ats[1..], t)
  }

  /** Entries of the rule table that still fit behind the file's. */
  function Room(z: Zone, ts: Zone): nat
    requires 1 <= |z.ats| <= TZ_MAX_TIMES
  {
    var rest, room := |ts.ats| - FirstAfter(ts.ats, z.ats[|z.ats| - 1]), TZ_MAX_TIMES - |z.ats|;
    if rest <= room then rest else room
  }

  function Shifted(types: seq<nat>, base: nat): (r: seq<nat>)
    ensures |r| == |types| && forall i :: 0 <= i < |r| ==> r[i] == base + types[i]
  {
    seq(|types|, i requires 0 <= i < |types| => base + types[i])
  }

  /** The file's table z followed by the later part of the rule table ts, with ts's types behind z's. */
  ghost function Spliced(z: Zone, ts: Zone): Zone
    requires 1 <= |z.ats| <= TZ_MAX_TIMES && |ts.types| == |ts.ats|
  {
    var q := FirstAfter(ts.ats, z.ats[|z.ats| - 1]);
    var n := Room(z, ts);
    z.(ats := z.ats + ts.ats[q..q + n],
       types := z.types + Shifted(ts.types[q..q + n], |z.ttis|),
       ttis := z.ttis + ts.ttis)
  }

  /** The entries behind the file's are the rule table's, with their types renumbered. */
  lemma SplicedEntry(z: Zone, ts: Zone, i: nat)
    requires 1 <= |z.ats| <= TZ_MAX_TIMES && |z.types| == |z.ats| && |ts.types| == |ts.ats|
    requires |z.ats| <= i < |z.ats| + Room(z, ts)
    ensures var r, k := Spliced(z, ts), i - |z.ats| + FirstAfter(ts.ats, z.ats[|z.ats| - 1]);
            i < |r.ats| == |r.types| && k < |ts.ats| && r.ats[i] == ts.ats[k] && r.types[i] == |z.ttis| + ts.types[k]
  {
  }

  /** The spliced table is as well formed as the file's: sorted, within bounds, every type known. */
  lemma SplicedWellTyped(z: Zone, ts: Zone)
    requires WellTyped(z) && z.ats != [] && |z.ttis| + 2 <= TZ_MAX_TYPES
    requires WellTyped(ts) && |ts.ttis| == 2
    ensures WellTyped(Spliced(z, ts))
  {
    hide Spliced, FirstAfter, Sorted, Room;
    SplicedShape(z, ts);
    var r := Spliced(z, ts);
    SplicedSorted(z, ts);
    forall i | |z.ats| <= i < |r.types| ensures r.types[i] < |r.ttis| {
      SplicedEntry(z, ts, i);
    }
  }

  lemma SplicedShape(z: Zone, ts: Zone)
    requires 1 <= |z.ats| <= TZ_MAX_TIMES && |z.types| == |z.ats| && |ts.types| == |ts.ats|
    ensures var r := Spliced(z, ts);
            && |r.ats| == |r.types| == |z.ats| + Room(z, ts) <= TZ_MAX_TIMES && |r.ttis| == |z.ttis| + |ts.ttis|
            && (forall i :: 0 <= i < |z.ats| ==> r.ats[i] == z.ats[i] && r.types[i] == z.types[i]) && r.lsis == z.lsis
  {
    hide FirstAfter;
  }

  lemma SplicedSorted(z: Zone, ts: Zone)
    requires WellTyped(z) && z.ats != [] && WellTyped(ts)
    ensures Sorted(Spliced(z, ts).ats)
  {
    hide Spliced, Room, ValidLeaps;
    SplicedShape(z, ts);
    var r, f, q := Spliced(z, ts), |z.ats|, FirstAfter(ts.ats, z.ats[|z.ats| - 1]);
    hide FirstAfter;
    forall i, j | 0 <= i < j < |r.ats| ensures r.ats[i] <= r.ats[j] {
      if j >= f {
        SplicedEntry(z, ts, j);
        if i >= f { SplicedEntry(z, ts, i); }
        else { assert z.ats[i] <= z.ats[f - 1] < ts.ats[q] <= ts.ats[q + (j - f)]; }
      }
    }
  }

  /** The first loop of the splice: past the rule entries that the file's table covers. */
  method SkipCovered(s: State, ts: State) returns (i: nat)
    requires s.Shaped() && ts.Shaped() && s.timecnt >= 1
    ensures i == FirstAfter(ts.ats[..ts.timecnt], s.ats[s.timecnt - 1])
  {
    ghost var ats, last := ts.ats[..ts.timecnt], s.ats[s.timecnt - 1];
    i := 0;
    while i < ts.timecnt && ts.ats[i] <= s.ats[s.timecnt - 1]
      invariant 0 <= i <= ts.timecnt
      invariant FirstAfter(ats, last) == i + FirstAfter(ats[i..], last)
    {
      assert ats[i..][1..] == ats[i + 1..];
      i := i + 1;
    }
  }

  /** One turn of the second loop of the splice. */
  method AppendEntry(s: State, at: Long, ty: nat)
    requires s.Shaped() && s.timecnt < TZ_MAX_TIMES
    modifies s`timecnt, s.ats, s.types
    ensures s.Shaped() && s.timecnt == old(s.timecnt) + 1
    ensures s.ats[..s.timecnt] == old(s.ats[..s.timecnt]) + [at]
    ensures s.types[..s.timecnt] == old(s.types[..s.timecnt]) + [ty]
  {
    s.ats[s.timecnt] := at;
    s.types[s.timecnt] := ty;
    s.timecnt := s.timecnt + 1;
  }

  lemma NextAppended(was: seq<Long>, ats: seq<Long>, wasTypes: seq<nat>, types: seq<nat>, base: nat, q: nat, i: nat)
    requires q <= i < |ats| == |types|
    ensures was + ats[q..i] + [ats[i]] == was + ats[q..i + 1]
    ensures wasTypes + Shifted(types[q..i], base) + [base + types[i]] == wasTypes + Shifted(types[q..i + 1], base)
  {
  }

  /** The second loop: append the rest as far as there is room. */
  method AppendRules(s: State, ts: State, q: nat) returns (n: nat)
    requires s.Shaped() && ts.Shaped() && s.ats != ts.ats && s.types != ts.types && s != ts && q <= ts.timecnt
    modifies s`timecnt, s.ats, s.types
    ensures s.Shaped() && q + n <= ts.timecnt && s.timecnt == old(s.timecnt) + n
    ensures q + n == ts.timecnt || s.timecnt == TZ_MAX_TIMES
    ensures s.ats[..s.timecnt] == old(s.ats[..s.timecnt]) + ts.ats[..][q..q + n]
    ensures s.types[..s.timecnt] == old(s.types[..s.timecnt]) + Shifted(ts.types[..][q..q + n], s.typecnt)
  {
    hide Shifted;
    ghost var ats, types: seq<nat> := ts.ats[..], ts.types[..];
    ghost var was, wasTypes := s.ats[..s.timecnt], s.types[..s.timecnt];
    var i := q;
    assert was + [] == was && wasTypes + [] == wasTypes;
    NothingShifted(s.typecnt);
    while i < ts.timecnt && s.timecnt < TZ_MAX_TIMES
      invariant s.Shaped() && q <= i <= ts.timecnt && s.timecnt == old(s.timecnt) + (i - q)
      invariant ts.ats[..] == ats && ts.types[..] == types
      invariant s.ats[..s.timecnt] == was + ats[q..i]
      invariant s.types[..s.timecnt] == wasTypes + Shifted(types[q..i], s.typecnt)
    {
      NextAppended(was, ats, wasTypes, types, s.typecnt, q, i);
      AppendEntry(s, ts.ats[i], s.typecnt + ts.types[i]);
      i := i + 1;
    }
    n := i - q;
  }

  lemma NothingShifted(base: nat)
    ensures Shifted([], base) == []
  {
  }

  method AppendTypes(s: State, ts: State)
    requires s.Shaped() && ts.Shaped() && s.ttis != ts.ttis && s != ts
    requires s.typecnt + 2 <= TZ_MAX_TYPES && ts.typecnt == 2
    modifies s`typecnt, s.ttis
    ensures s.Shaped() && s.typecnt == old(s.typecnt) + 2
    ensures s.ttis[..s.typecnt] == old(s.ttis[..s.typecnt]) + ts.ttis[..2]
  {
    s.ttis[s.typecnt] := ts.ttis[0];
    s.typecnt := s.typecnt + 1;
    s.ttis[s.typecnt] := ts.ttis[1];
    s.typecnt := s.typecnt + 1;
  }

  lemma Window<T>(s: seq<T>, len: nat, i: nat, j: nat)
    requires i <= j <= len <= |s|
    ensures s[..len][i..j] == s[i..j]
  {
  }

  method Splice(s: State, ts: State)
    requires s.Shaped() && ts.Shaped() && s.ats != ts.ats && s.types != ts.types && s.ttis != ts.ttis && s != ts
    requires s.timecnt >= 1 && 1 <= s.typecnt <= TZ_MAX_TYPES - 2 && ts.typecnt == 2
    modifies s`timecnt, s`typecnt, s.ats, s.types, s.ttis
    ensures s.Shaped() && s.View() == old(Spliced(s.View(), ts.View()))
  {
    hide Shifted, FirstAfter;
    ghost var z, tz := s.View(), ts.View();
    ghost var r := Spliced(z, tz);
    var q := SkipCovered(s, ts);
    var n := AppendRules(s, ts, q);
    assert n == Room(z, tz);
    assert ts.ats[..ts.timecnt] == tz.ats && ts.types[..ts.timecnt] == tz.types;
    Window(ts.ats[..], ts.timecnt, q, q + n);
    Window(ts.types[..], ts.timecnt, q, q + n);
    assert s.ats[..s.timecnt] == r.ats && s.types[..s.timecnt] == r.types;
    AppendTypes(s, ts);
  }

  // ---- repeats

  /** typesequiv */
  predicate TypesEquivalent(s: State, a: int, b: int)
    requires s.Shaped()
    reads s, s.ats, s.types, s.ttis, s.lsis
  {
    0 <= a < s.typecnt && 0 <= b < s.typecnt && s.ttis[a] == s.ttis[b]
  }

  method FindRepeatBack(s: State) returns (found: bool)
    requires s.Shaped() && WellTyped(s.View()) && s.typecnt >= 1
    ensures found <==> RepeatsBack(s.View())
  {
    ghost var z := s.View();
    var i := 1;
    while i < s.timecnt
      invariant 1 <= i && (s.timecnt > 1 ==> i <= s.timecnt)
      invariant forall k :: 1 <= k < i && k < s.timecnt ==> !RepeatPair(z, 0, k)
    {
      if TypesEquivalent(s, s.types[i], s.types[0]) && DifferByRepeat(s.ats[i], s.ats[0]) {
        assert RepeatPair(z, 0, i);
        return true;
      }
      i := i + 1;
    }
    return false;
  }

  method FindRepeatAhead(s: State) returns (found: bool)
    requires s.Shaped() && WellTyped(s.View()) && s.typecnt >= 1 && s.timecnt > 1
    ensures found <==> RepeatsAhead(s.View())
  {
    ghost var z := s.View();
    var last := s.timecnt - 1;
    var i: int := s.timecnt - 2;
    while i >= 0
      invariant -1 <= i < last
      invariant forall k :: i < k < last ==> !RepeatPair(z, k, last)
    {
      if TypesEquivalent(s, s.types[last], s.types[i]) && DifferByRepeat(s.ats[last], s.ats[i]) {
        assert RepeatPair(z, i, last);
        return true;
      }
      i := i - 1;
    }
    return false;
  }

  /** goback and goahead are set exactly when that end of the table repeats. */
  method SetRepeats(s: State)
    requires s.Shaped() && WellTyped(s.View()) && s.typecnt >= 1 && !s.goback && !s.goahead
    modifies s`goback, s`goahead
    ensures s.Shaped()
    ensures s.View() == old(s.View()).(goback := RepeatsBack(old(s.View())), goahead := RepeatsAhead(old(s.View())))
  {
    if s.timecnt > 1 {
      var back := FindRepeatBack(s);
      var ahead := FindRepeatAhead(s);
      if back {
        s.goback := true;
      }
      if ahead {
        s.goahead := true;
      }
    }
  }

  /** What tzload makes of a decoded file z with a footer whose rule table is ts. */
  ghost function Loaded(z: Zone, ts: Zone): (l: Zone)
    requires WellTyped(z) && z.ats != [] && |z.ttis| + 2 <= TZ_MAX_TYPES
    requires WellTyped(ts) && |ts.ttis| == 2
    ensures ValidZone(l)
  {
    SplicedWellTyped(z, ts);
    var r := Spliced(z, ts);
    FlagsDoNotMatter(r, RepeatsBack(r), RepeatsAhead(r));
    r.(goback := RepeatsBack(r), goahead := RepeatsAhead(r))
  }

  /** Whether an end of a table repeats does not depend on the flags. */
  lemma FlagsDoNotMatter(r: Zone, back: bool, ahead: bool)
    requires WellTyped(r)
    ensures var z := r.(goback := back, goahead := ahead);
            WellTyped(z) && RepeatsBack(z) == RepeatsBack(r) && RepeatsAhead(z) == RepeatsAhead(r)
  {
    var z := r.(goback := back, goahead := ahead);
    RepeatsCarryOver(r, z);
    RepeatsCarryOver(z, r);
  }

  method Load(s: State, ts: State)
    requires s.Shaped() && ts.Shaped() && s.ats != ts.ats && s.types != ts.types && s.ttis != ts.ttis && s != ts
    requires WellTyped(s.View()) && s.timecnt >= 1 && 1 <= s.typecnt <= TZ_MAX_TYPES - 2 && !s.goback && !s.goahead
    requires WellTyped(ts.View()) && ts.typecnt == 2
    modifies s, s.ats, s.types, s.ttis
    ensures s.Valid() && s.View() == old(Loaded(s.View(), ts.View()))
  {
    SplicedWellTyped(s.View(), ts.View());
    Splice(s, ts);
    ghost var r := s.View();
    SetRepeats(s);
    FlagsDoNotMatter(r, s.goback, s.goahead);
  }

  // ---- the rules hold for all later time

  /** A rule table is sorted and well typed. */
  lemma RuleTableWellTyped(p: Posix, ts: Zone)
    requires MidYearRules(p) && IsRuleTable(p, ts)
    ensures WellTyped(ts)
  {
    hide RuleAt, RuleType;
    forall i, j | 0 <= i < j < |ts.ats| ensures ts.ats[i] <= ts.ats[j] {
      RulesSorted(p, i, j);
    }
  }

  /** Entries f.. of the table are entries q.. of the rule table, the last one being entry K. */
  ghost predicate EndsInRules(z: Zone, p: Posix, base: nat, f: nat, q: int, K: int)
    requires MidYearRules(p)
  {
    && WellTyped(z) && f < |z.ats| && K == q + (|z.ats| - f) - 1
    && base + 2 == |z.ttis| && z.ttis[base..] == RuleTypes(p)
    && forall i :: f <= i < |z.ats| ==>
         z.ats[i] == RuleAt(p, q + (i - f)) && z.types[i] == base + RuleType(p, q + (i - f))
  }

  /** Inside the table the type is the prescribed one, if the table does not end between two coinciding entries. */
  lemma TypeInTable(z: Zone, p: Posix, base: nat, f: nat, q: int, K: int, t: int)
    requires MidYearRules(p) && EndsInRules(z, p, base, f, q, K) && RuleAt(p, K) < RuleAt(p, K + 1)
    requires RuleAt(p, q) <= t < RuleAt(p, K + 1)
    ensures TypeIndex(z, t) == base + Prescribed(p, t)
  {
    hide RuleAt, RuleType, RuleIndex;
    var k := RuleIndex(p, t);
    RuleIndexIsLast(p, t);
    if k < q { RulesSorted(p, k + 1, q); }
    if k > K { RulesSorted(p, K + 1, k); }
    LookupUnique(z.ats, t, f + (k - q));
  }

  /** With 801 rule entries at the end the table repeats there. */
  lemma RulesGoAhead(z: Zone, p: Posix, base: nat, f: nat, q: int, K: int)
    requires MidYearRules(p) && EndsInRules(z, p, base, f, q, K) && K - q >= 800
    ensures RepeatsAhead(z)
  {
    hide RuleAt, RuleType;
    RulesRepeat(p, K - 800, 1);
    var i, last := |z.ats| - 801, |z.ats| - 1;
    assert z.ats[i] == RuleAt(p, K - 800) && z.ats[last] == RuleAt(p, K);
    assert RepeatPair(z, i, last);
  }

  /** From the first rule entry on, localsub picks the type that the rules prescribe at every t,
      however far beyond the table. */
  lemma RulesForever(z: Zone, p: Posix, base: nat, f: nat, q: int, K: int, t: int)
    requires MidYearRules(p) && EndsInRules(z, p, base, f, q, K) && K - q >= 800
    requires z.goahead && (z.goback ==> RepeatsBack(z)) && RuleAt(p, K) < RuleAt(p, K + 1)
    requires RuleAt(p, q) <= t
    ensures TypeFor(z, t) == base + Prescribed(p, t)
  {
    hide RuleAt, RuleType, RuleIndex;
    RulesGoAhead(z, p, base, f, q, K);
    assert z.ats[0] <= z.ats[f];
    var c, newt := Cycle(z, t), Folded(z, t);
    assert RuleAt(p, K - 800) < newt <= RuleAt(p, K) || c == 0 by { RulesRepeat(p, K - 800, 1); }
    RulesSorted(p, q, K - 800);
    TypeInTable(z, p, base, f, q, K, newt);
    var k := RuleIndex(p, newt);
    RuleIndexIsLast(p, newt);
    RulesRepeat(p, k, c);
    RulesRepeat(p, k + 1, c);
    RuleIndexUnique(p, t, k + 800 * c);
  }

  lemma CoincidingTypes(p: Posix, k: int)
    requires MidYearRules(p) && RuleAt(p, k) == RuleAt(p, k + 1)
    ensures RuleType(p, k) == 0 && RuleType(p, k + 1) == 1 && RuleAt(p, k + 1) < RuleAt(p, k + 2)
  {
    hide TransTimeSpec;
    RuleStep(p, k);
    RuleStep(p, k + 1);
    assert k / 2 == (k + 1) / 2;
  }

  /** When the table does end between two coinciding entries, the property fails at that very instant. */
  lemma RulesCutShort(z: Zone, p: Posix, base: nat, f: nat, q: int, K: int)
    requires MidYearRules(p) && EndsInRules(z, p, base, f, q, K)
    requires z.goahead ==> RepeatsAhead(z)
    requires z.goback ==> RepeatsBack(z)
    requires RuleAt(p, K) == RuleAt(p, K + 1)
    ensures TypeFor(z, RuleAt(p, K)) != base + Prescribed(p, RuleAt(p, K))
  {
    hide RuleAt, RuleType, RuleIndex;
    var t := RuleAt(p, K);
    CoincidingTypes(p, K);
    RuleStep(p, K);
    RuleStep(p, K + 1);
    RuleIndexUnique(p, t, K + 1);
    assert z.ats[0] <= z.ats[|z.ats| - 1];
    LookupUnique(z.ats, t, |z.ats| - 1);
  }

  /** The last rule entry of the loaded table. */
  ghost function LastRule(z0: Zone, ts: Zone): int
    requires 1 <= |z0.ats| <= TZ_MAX_TIMES
  {
    FirstAfter(ts.ats, z0.ats[|z0.ats| - 1]) + Room(z0, ts) - 1
  }

  /** At least 801 rule entries follow the file's transitions. */
  ghost predicate Extensible(z0: Zone, p: Posix, ts: Zone)
  {
    && WellTyped(z0) && z0.ats != [] && |z0.ttis| + 2 <= TZ_MAX_TYPES
    && MidYearRules(p) && IsRuleTable(p, ts) && Room(z0, ts) >= 801
  }

  /** They do behind a file with at most 399 transitions, the last of them before rule entry 399,
      in the year 2169. */
  lemma RoomForRules(z0: Zone, p: Posix, ts: Zone)
    requires WellTyped(z0) && 1 <= |z0.ats| <= 399 && |z0.ttis| + 2 <= TZ_MAX_TYPES
    requires MidYearRules(p) && IsRuleTable(p, ts) && z0.ats[|z0.ats| - 1] < RuleAt(p, 399)
    ensures Extensible(z0, p, ts) && WellTyped(ts)
  {
    hide RuleAt, RuleType;
    RuleTableWellTyped(p, ts);
    assert ts.ats[399] == RuleAt(p, 399);
  }

  lemma LoadedShape(z0: Zone, p: Posix, ts: Zone)
    requires Extensible(z0, p, ts) && WellTyped(ts)
    ensures var z := Loaded(z0, ts);
            && ValidZone(z) && z.lsis == z0.lsis && z.goahead == RepeatsAhead(z)
            && |z.ats| == |z0.ats| + Room(z0, ts) && |z.ttis| == |z0.ttis| + 2 && z.ttis[|z0.ttis|..] == RuleTypes(p)
            && z.ats == Spliced(z0, ts).ats && z.types == Spliced(z0, ts).types
  {
    SplicedWellTyped(z0, ts);
    var r := Spliced(z0, ts);
    FlagsDoNotMatter(r, RepeatsBack(r), RepeatsAhead(r));
    hide RuleAt, RuleType, FirstAfter, WellTyped, RepeatsBack, RepeatsAhead;
  }

  lemma LoadedEndsInRules(z0: Zone, p: Posix, ts: Zone)
    requires Extensible(z0, p, ts) && WellTyped(ts)
    ensures var q, K := FirstAfter(ts.ats, z0.ats[|z0.ats| - 1]), LastRule(z0, ts);
            EndsInRules(Loaded(z0, ts), p, |z0.ttis|, |z0.ats|, q, K) && K - q >= 800
    ensures ValidZone(Loaded(z0, ts)) && Loaded(z0, ts).lsis == z0.lsis && Loaded(z0, ts).goahead
  {
    hide RuleAt, RuleType, Loaded, Spliced, RepeatsAhead, RepeatsBack;
    LoadedShape(z0, p, ts);
    var z, f, q := Loaded(z0, ts), |z0.ats|, FirstAfter(ts.ats, z0.ats[|z0.ats| - 1]);
    forall i | f <= i < |z.ats|
      ensures z.ats[i] == RuleAt(p, q + (i - f)) && z.types[i] == |z0.ttis| + RuleType(p, q + (i - f))
    {
      SplicedEntry(z0, ts, i);
    }
    RulesGoAhead(z, p, |z0.ttis|, f, q, LastRule(z0, ts));
  }

  lemma LoadedHead(z0: Zone, ts: Zone)
    requires WellTyped(z0) && z0.ats != [] && |z0.ttis| + 2 <= TZ_MAX_TYPES && WellTyped(ts) && |ts.ttis| == 2
    ensures var z := Loaded(z0, ts);
            && WellTyped(z) && |z.ats| == |z0.ats| + Room(z0, ts) && |z0.ttis| <= |z.ttis|
            && (forall i :: 0 <= i < |z0.ats| ==> z.ats[i] == z0.ats[i] && z.types[i] == z0.types[i])
            && (forall i :: 0 <= i < |z0.ttis| ==> z.ttis[i] == z0.ttis[i])
  {
    SplicedShape(z0, ts);
    assert ValidZone(Loaded(z0, ts));
    hide WellTyped, RepeatsBack, RepeatsAhead, Room, FirstAfter;
  }

  /** Up to its own last transition, and on to the first rule entry where there is one, the loaded zone
      keeps to the file: localsub picks the type that the file's table says. */
  lemma LoadedKeepsFile(z0: Zone, ts: Zone, t: int)
    requires WellTyped(z0) && z0.ats != [] && |z0.ttis| + 2 <= TZ_MAX_TYPES && WellTyped(ts) && |ts.ttis| == 2
    requires var f := |z0.ats|;
             z0.ats[0] <= t && (t <= z0.ats[f - 1] || (Room(z0, ts) > 0 && t < Loaded(z0, ts).ats[f]))
    ensures var z := Loaded(z0, ts);
            TypeFor(z, t) == TypeIndex(z0, t) && z.ttis[TypeFor(z, t)] == z0.ttis[TypeIndex(z0, t)]
  {
    LoadedHead(z0, ts);
    hide Loaded, Room, ValidZone, ValidLeaps;
    var z, i := Loaded(z0, ts), LastNotAfter(z0.ats, t);
    hide LastNotAfter;
    assert t <= z.ats[|z.ats| - 1];
    FoldExactly(z, t);
    hide Folded;
    LookupUnique(z.ats, t, i);
  }

  /** After loading, goahead is set, and from the first rule entry on the type localsub picks is the
      prescribed one for all time, if and only if the table does not end between two coinciding entries. */
  lemma LoadedFollowsRules(z0: Zone, p: Posix, ts: Zone)
    requires Extensible(z0, p, ts) && WellTyped(ts)
    ensures var z, q, K := Loaded(z0, ts), FirstAfter(ts.ats, z0.ats[|z0.ats| - 1]), LastRule(z0, ts);
            && z.goahead && WellTyped(z)
            && ((forall t :: RuleAt(p, q) <= t ==> TypeFor(z, t) == |z0.ttis| + Prescribed(p, t))
                <==> RuleAt(p, K) < RuleAt(p, K + 1))
  {
    hide RuleAt, RuleType, RuleIndex, Prescribed, Loaded, Spliced, EndsInRules, RepeatsBack, RepeatsAhead, TypeFor;
    var z, q, K := Loaded(z0, ts), FirstAfter(ts.ats, z0.ats[|z0.ats| - 1]), LastRule(z0, ts);
    LoadedEndsInRules(z0, p, ts);
    RulesSorted(p, q, K);
    RulesSorted(p, K, K + 1);
    if RuleAt(p, K) < RuleAt(p, K + 1) {
      forall t | RuleAt(p, q) <= t ensures TypeFor(z, t) == |z0.ttis| + Prescribed(p, t) {
        RulesForever(z, p, |z0.ttis|, |z0.ats|, q, K, t);
      }
    } else {
      RulesCutShort(z, p, |z0.ttis|, |z0.ats|, q, K);
    }
  }

  // ---- a loaded zone that departs from its rules

  lemma {:induction false} YearStartBelow(y: int)
    requires EPOCH_YEAR <= y
    ensures 0 <= YearStart(y) <= 366 * (y - EPOCH_YEAR)
  {
    if y > EPOCH_YEAR {
      YearStartBelow(y - 1);
      YearStep(y - 1);
    }
  }

  lemma RuleFits(p: Posix, k: int)
    requires MidYearRules(p) && 0 <= k < TZ_MAX_TIMES
    ensures 0 <= RuleAt(p, k) <= 366 * 601 * SECSPERDAY
  {
    hide RuleAt, YearStart;
    RuleStep(p, k);
    YearStartBelow(YearAt(k));
    YearStartBelow(YearAt(k) + 1);
  }

  /** The table generated from p. */
  ghost function RuleTable(p: Posix): (z: Zone)
    requires MidYearRules(p)
    ensures IsRuleTable(p, z)
  {
    assert forall k :: 0 <= k < TZ_MAX_TIMES ==> LONG_MIN <= RuleAt(p, k) <= LONG_MAX by {
      forall k | 0 <= k < TZ_MAX_TIMES ensures LONG_MIN <= RuleAt(p, k) <= LONG_MAX { RuleFits(p, k); }
    }
    Zone(seq(TZ_MAX_TIMES, k requires 0 <= k < TZ_MAX_TIMES => RuleAt(p, k)),
         seq(TZ_MAX_TIMES, k requires 0 <= k < TZ_MAX_TIMES => RuleType(p, k)), RuleTypes(p), [], false, false)
  }

  /** A file whose one transition is just before 1970. */
  ghost function OneTransition(): Zone
  {
    Zone([-1], [0], [TtInfo(0, 0, false, false, "STD")], [], false, false)
  }

  /** Such a file takes the rules of every pair, but for the very last entry. */
  lemma OneTransitionExtends(p: Posix)
    requires MidYearRules(p)
    ensures var z0, ts := OneTransition(), RuleTable(p);
            && Extensible(z0, p, ts) && WellTyped(ts)
            && FirstAfter(ts.ats, -1) == 0 && LastRule(z0, ts) == TZ_MAX_TIMES - 2
  {
    hide RuleAt, RuleType, RuleTable;
    RuleTableWellTyped(p, RuleTable(p));
    RuleFits(p, 0);
  }

  /** DST begins at 2:00 on the second Sunday of March and ends at the same instant, 3:00 DST. */
  const NO_DST: Posix := Posix(0, -3600, MonthNthDay(3, 2, 0, 7200), MonthNthDay(3, 2, 0, 10800), "STD", "DST")

  lemma NoDstCoincides(y: int)
    ensures MidYearRules(NO_DST) && Starts(NO_DST, y) == Ends(NO_DST, y)
  {
    hide YearStart, NthDay;
  }

  /** At t, in the time of the rules of p, the zone loaded from z0 does not follow them. */
  ghost predicate Departs(z0: Zone, p: Posix, t: int)
  {
    MidYearRules(p) && var ts := RuleTable(p);
    && Extensible(z0, p, ts) && WellTyped(ts) && RuleAt(p, FirstAfter(ts.ats, z0.ats[|z0.ats| - 1])) <= t
    && TypeFor(Loaded(z0, ts), t) != |z0.ttis| + Prescribed(p, t)
  }

  lemma CutShortAt(p: Posix, k: int)
    requires MidYearRules(p) && k == TZ_MAX_TIMES - 2 && RuleAt(p, k) == RuleAt(p, k + 1)
    ensures Departs(OneTransition(), p, RuleAt(p, k))
  {
    hide RuleTable, Loaded, TypeFor, Prescribed, RuleAt, RuleType, EndsInRules;
    OneTransitionExtends(p);
    LoadedEndsInRules(OneTransition(), p, RuleTable(p));
    RulesSorted(p, 0, k);
    RulesCutShort(Loaded(OneTransition(), RuleTable(p)), p, 1, 1, 0, k);
  }

  /** The instant in the year 2569. */
  const NO_DST_END: int := 18908733600

  lemma NoDstDay(y: int)
    requires y == 2569
    ensures YearStart(y) == 218781 && DaysBefore(IsLeap(y), 2) == 59 && NthDay(y, 3, 2, 0) == 11
  {
    assert !IsLeap(y) && YearStart(y) == 218781 by { YearStartClosed(y); }
    assert DaysBefore(IsLeap(y), 2) == 59 by { MonthTable(false); }
    hide YearStart, IsLeap, DaysBefore;
  }

  lemma NoDstEnd(y: int)
    requires y == 2569
    ensures Starts(NO_DST, y) == NO_DST_END
  {
    NoDstDay(y);
    hide YearStart, IsLeap, DaysBefore, NthDay;
  }

  /** With these rules the loaded zone departs from them at that instant. */
  lemma CutShortExample()
    ensures Departs(OneTransition(), NO_DST, NO_DST_END)
  {
    var y := YearAt(TZ_MAX_TIMES - 2);
    NoDstCoincides(y);
    hide Departs, TransTimeSpec, NO_DST;
    CutShortAt(NO_DST, TZ_MAX_TIMES - 2);
    NoDstEnd(y);
  }

  // ---- a zone made from a TZ string alone

  /** The table of a TZ string, never tested for a repeat. */
  ghost predicate IsStringZone(z: Zone, p: Posix)
  {
    MidYearRules(p) && IsRuleTable(p, z) && !z.goback && !z.goahead
  }

  /** What its type should be at every t: standard time before the 600 years of the table, the
      prescribed type within them, and the last type ever after. */
  function StringZoneType(p: Posix, t: int): nat
    requires MidYearRules(p)
  {
    if t < RuleAt(p, 0) then 1
    else if t < RuleAt(p, TZ_MAX_TIMES) then Prescribed(p, t)
    else RuleType(p, TZ_MAX_TIMES - 1)
  }

  lemma BeforeTable(z: Zone, p: Posix, t: int)
    requires WellTyped(z) && IsStringZone(z, p) && t < z.ats[0]
    ensures TypeIndex(z, t) == 1
  {
    hide RuleAt, RuleType;
    assert z.ttis == RuleTypes(p);
    assert z.ttis[0].isdst == 1 && z.ttis[1].isdst == 0;
  }

  lemma StringZoneSpan(z: Zone, p: Posix, t: int)
    requires IsStringZone(z, p)
    ensures ValidZone(z) && TypeFor(z, t) == StringZoneType(p, t)
  {
    hide RuleAt, RuleType, Prescribed, TypeIndex, WellTyped;
    RuleTableWellTyped(p, z);
    var K := TZ_MAX_TIMES - 1;
    assert z.ats[0] == RuleAt(p, 0) && z.ats[K] == RuleAt(p, K) && z.types[K] == RuleType(p, K);
    assert RuleAt(p, K) < RuleAt(p, K + 1) by { RuleStep(p, K); }
    assert EndsInRules(z, p, 0, 0, 0, K);
    hide IsStringZone;
    if t < RuleAt(p, 0) {
      BeforeTable(z, p, t);
    } else if t < RuleAt(p, TZ_MAX_TIMES) {
      TypeInTable(z, p, 0, 0, 0, K, t);
    } else {
      AfterTable(z, t);
    }
  }

  /** So it follows its rules from their first transition on to the end of the year 2569. */
  lemma StringZoneYears(z: Zone, p: Posix, t: int)
    requires IsStringZone(z, p) && RuleAt(p, 0) <= t && YearOf(t / SECSPERDAY) < EPOCH_YEAR + TZ_MAX_TIMES / 2
    ensures ValidZone(z) && TypeFor(z, t) == Prescribed(p, t)
  {
    hide RuleAt, RuleType, Prescribed, TypeFor, WellTyped, IsRuleTable, YearOf, YearStart;
    StringZoneSpan(z, p, t);
    var y := YearOf(t / SECSPERDAY);
    YearStartBounds(y + 1, EPOCH_YEAR + TZ_MAX_TIMES / 2);
    RuleStep(p, TZ_MAX_TIMES);
  }

  lemma AfterTable(z: Zone, t: int)
    requires WellTyped(z) && z.ats != [] && z.ats[|z.ats| - 1] <= t
    ensures TypeIndex(z, t) == z.types[|z.ats| - 1]
  {
    LookupUnique(z.ats, t, |z.ats| - 1);
  }

  /** So in no later year with two distinct transitions does it follow them both. */
  lemma StringZoneStops(z: Zone, p: Posix, k: int)
    requires IsStringZone(z, p) && TZ_MAX_TIMES <= 2 * k && RuleAt(p, 2 * k) < RuleAt(p, 2 * k + 1)
    ensures ValidZone(z)
    ensures !(forall t :: RuleAt(p, 2 * k) <= t <= RuleAt(p, 2 * k + 1) ==> TypeFor(z, t) == Prescribed(p, t))
  {
    hide RuleAt, RuleType, Prescribed, TypeFor, IsRuleTable, WellTyped;
    var s, e := RuleAt(p, 2 * k), RuleAt(p, 2 * k + 1);
    StringZoneSpan(z, p, s);
    StringZoneSpan(z, p, e);
    PrescribedDiffers(p, k);
    LaterEntries(p, k);
    assert TypeFor(z, s) == TypeFor(z, e) && Prescribed(p, s) != Prescribed(p, e);
  }

  /** The two transitions of year 1970 + k are one and the same instant. */
  predicate Coincide(p: Posix, k: int)
    requires MidYearRules(p)
  {
    RuleAt(p, 2 * k) == RuleAt(p, 2 * k + 1)
  }

  /** It follows its rules for all time if and only if they never ask for DST in any later year. */
  lemma StringZoneFollows(z: Zone, p: Posix)
    requires IsStringZone(z, p)
    ensures ValidZone(z)
    ensures (forall t :: TypeFor(z, t) == Prescribed(p, t)) <==> (forall k :: TZ_MAX_TIMES <= 2 * k ==> Coincide(p, k))
  {
    hide RuleAt, RuleType, Prescribed, TypeFor, IsRuleTable, WellTyped, Coincide;
    StringZoneSpan(z, p, 0);
    if forall k :: TZ_MAX_TIMES <= 2 * k ==> Coincide(p, k) {
      forall t ensures TypeFor(z, t) == Prescribed(p, t) {
        StringZoneSpan(z, p, t);
        NeverDst(p, t);
        NeverDstType(p, TZ_MAX_TIMES / 2 - 1);
      }
    } else {
      var k :| TZ_MAX_TIMES <= 2 * k && !Coincide(p, k);
      DistinctInYear(p, k);
      StringZoneStops(z, p, k);
    }
  }

  lemma DistinctInYear(p: Posix, k: int)
    requires MidYearRules(p) && !Coincide(p, k)
    ensures RuleAt(p, 2 * k) < RuleAt(p, 2 * k + 1)
  {
    hide RuleAt;
    RulesSorted(p, 2 * k, 2 * k + 1);
  }

  lemma AlwaysCoincide(p: Posix, k: int)
    requires MidYearRules(p) && forall k :: TZ_MAX_TIMES <= 2 * k ==> Coincide(p, k)
    ensures Coincide(p, k)
  {
    hide RuleAt, RuleType;
    var c := if k < 0 then 2 - k else 2;
    assert Coincide(p, k + 400 * c);
    RulesRepeat(p, 2 * k, c);
    RulesRepeat(p, 2 * k + 1, c);
    assert 2 * (k + 400 * c) == 2 * k + 800 * c;
  }

  lemma NeverDstType(p: Posix, k: int)
    requires MidYearRules(p) && forall k :: TZ_MAX_TIMES <= 2 * k ==> Coincide(p, k)
    ensures RuleType(p, 2 * k + 1) == 1
  {
    hide RuleAt, RuleType;
    AlwaysCoincide(p, k);
    CoincidingTypes(p, 2 * k);
  }

  lemma NeverDst(p: Posix, t: int)
    requires MidYearRules(p) && forall k :: TZ_MAX_TIMES <= 2 * k ==> Coincide(p, k)
    ensures Prescribed(p, t) == 1
  {
    hide RuleAt, RuleType, RuleIndex;
    var i := RuleIndex(p, t);
    RuleIndexIsLast(p, t);
    var k := i / 2;
    AlwaysCoincide(p, k);
    assert i == 2 * k + 1;
    NeverDstType(p, k);
  }

  lemma LaterEntries(p: Posix, k: int)
    requires MidYearRules(p) && TZ_MAX_TIMES <= 2 * k
    ensures RuleAt(p, 0) <= RuleAt(p, TZ_MAX_TIMES) <= RuleAt(p, 2 * k) <= RuleAt(p, 2 * k + 1)
  {
    hide RuleAt;
    RulesSorted(p, 0, TZ_MAX_TIMES);
    RulesSorted(p, TZ_MAX_TIMES, 2 * k);
    RulesSorted(p, 2 * k, 2 * k + 1);
  }

  lemma TypesAlternate(p: Posix, k: int)
    requires MidYearRules(p)
    ensures RuleType(p, 2 * k) != RuleType(p, 2 * k + 1)
  {
    hide Starts, Ends, MidYear;
    assert 2 * k / 2 == (2 * k + 1) / 2 == k && 2 * k % 2 == 0 && (2 * k + 1) % 2 == 1;
  }

  lemma PrescribedAt(p: Posix, k: int)
    requires MidYearRules(p) && RuleAt(p, k) < RuleAt(p, k + 1)
    ensures Prescribed(p, RuleAt(p, k)) == RuleType(p, k)
  {
    hide RuleAt, RuleIndex, RuleType;
    RuleIndexUnique(p, RuleAt(p, k), k);
  }

  lemma LastOfYear(p: Posix, k: int)
    requires MidYearRules(p)
    ensures RuleAt(p, 2 * k + 1) < RuleAt(p, 2 * k + 2)
  {
    hide RuleAt, Starts, Ends, YearStart, MidYear;
    RuleStep(p, 2 * k + 1);
    assert (2 * k + 1) % 2 == 1;
  }

  lemma PrescribedDiffers(p: Posix, k: int)
    requires MidYearRules(p) && RuleAt(p, 2 * k) < RuleAt(p, 2 * k + 1)
    ensures Prescribed(p, RuleAt(p, 2 * k)) != Prescribed(p, RuleAt(p, 2 * k + 1))
  {
    hide RuleAt, RuleType, Prescribed, MidYear;
    TypesAlternate(p, k);
    LastOfYear(p, k);
    PrescribedAt(p, 2 * k);
    PrescribedAt(p, 2 * k + 1);
  }

  // ---- the clock of a loaded zone

  /** z is the loaded zone, its table does not end between two coinciding entries, and t is in the
      time of the rules. */
  ghost predicate ServedByRules(z: Zone, z0: Zone, p: Posix, ts: Zone, t: int)
  {
    && Extensible(z0, p, ts) && WellTyped(ts) && z == Loaded(z0, ts)
    && RuleAt(p, LastRule(z0, ts)) < RuleAt(p, LastRule(z0, ts) + 1)
    && RuleAt(p, FirstAfter(ts.ats, z0.ats[|z0.ats| - 1])) <= t
  }

  lemma ServedShape(z: Zone, z0: Zone, p: Posix, ts: Zone, t: int)
    requires ServedByRules(z, z0, p, ts, t)
    ensures ValidZone(z) && WellTyped(z) && MidYearRules(p) && z.lsis == z0.lsis && |z0.ttis| + 2 == |z.ttis|
    ensures z.ttis[|z0.ttis|..] == RuleTypes(p) && TypeFor(z, t) == |z0.ttis| + Prescribed(p, t)
  {
    hide RuleAt, Loaded, TypeFor, IsRuleTable, ValidZone, WellTyped, Prescribed, LastRule, Room, MidYearRules,
         FirstAfter;
    LoadedEndsInRules(z0, p, ts);
    LoadedFollowsRules(z0, p, ts);
  }

  lemma LoadedType(z: Zone, z0: Zone, p: Posix, ts: Zone, t: int)
    requires ServedByRules(z, z0, p, ts, t) && WellTyped(z) && MidYearRules(p)
    ensures z.ttis[TypeFor(z, t)] == RuleTypes(p)[Prescribed(p, t)]
  {
    hide ServedByRules, TypeFor, WellTyped, Prescribed, MidYearRules;
    ServedShape(z, z0, p, ts, t);
    var b := |z0.ttis|;
    assert z.ttis[b + Prescribed(p, t)] == z.ttis[b..][Prescribed(p, t)];
  }

  /** So the clock of a loaded zone without leap seconds shows, at every later instant that has a
      reading, UTC less the prescribed offset. */
  lemma LoadedReading(z: Zone, z0: Zone, p: Posix, ts: Zone, t: Long, tmp: Tm)
    requires ServedByRules(z, z0, p, ts, t) && z0.lsis == []
    ensures ValidZone(z) && MidYearRules(p)
    ensures var out, dst := LocalSpec(z, t, tmp), Prescribed(p, t) == 0;
            out.ok ==>
              && ReadingOf(out.tm) == Civil(t - if dst then p.dstoffset else p.stdoffset)
              && out.tm.isdst == if dst then 1 else 0
  {
    hide ServedByRules, ValidZone, MidYearRules, Prescribed, TypeFor, LocalSpec, Civil, Denotes, Folded, TypeIndex;
    ServedShape(z, z0, p, ts, t);
    LoadedType(z, z0, p, ts, t);
    LocalMeaning(z, t, tmp);
  }
}
