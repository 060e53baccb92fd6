// The grammar of the TZ strings that TzString parses: syntax trees, their texts and their meanings.
// A text is written in front of the rest of the string.
module TzSyntax {
  import opened Machine
  import opened Digits
  import opened PosixRules
  import opened TzString

  // ---- numbers

  /** A run of digits that spells a number in the given range; leading zeros are allowed. */
  predicate IsNumber(d: string, min: int, max: int)
  {
    d != "" && (forall i :: 0 <= i < |d| ==> IsDigit(d[i])) && min <= NumberOf(d) <= max
  }

  lemma NumberRead(d: string, rest: string, min: int, max: int)
    requires IsNumber(d, min, max) && NumberEnds(rest)
    ensures NumberAt(d + rest, min, max) == Some((NumberOf(d), rest))
  {
    SkipIs(d + rest, |d|);
    assert (d + rest)[..|d|] == d && (d + rest)[|d|..] == rest;
  }

  lemma NumberFirst(d: string, rest: string, min: int, max: int)
    requires IsNumber(d, min, max)
    ensures d + rest != "" && IsDigit((d + rest)[0])
  {
  }

  lemma NumberWritten(s: string, min: int, max: int) returns (d: string)
    requires NumberAt(s, min, max).Some?
    ensures var (n, rest) := NumberAt(s, min, max).value;
            IsNumber(d, min, max) && NumberOf(d) == n && NumberEnds(rest) && s == d + rest
  {
    d := s[..SkipDigits(s)];
  }

  // ---- times

  datatype Clock = H(h: string) | HM(h: string, m: string) | HMS(h: string, m: string, s: string)

  predicate ValidClock(c: Clock)
  {
    && IsNumber(c.h, 0, 167)
    && (c.H? || IsNumber(c.m, 0, 59))
    && (c.HMS? ==> IsNumber(c.s, 0, 60))
  }

  function ClockText(c: Clock, rest: string): string
  {
    match c
    case H(h) => h + rest
    case HM(h, m) => h + (":" + (m + rest))
    case HMS(h, m, s) => h + (":" + (m + (":" + (s + rest))))
  }

  function ClockValue(c: Clock): (t: int)
    requires ValidClock(c)
    ensures 0 <= t <= MAX_RULE_SECS
  {
    match c
    case H(h) => NumberOf(h) * 3600
    case HM(h, m) => NumberOf(h) * 3600 + NumberOf(m) * 60
    case HMS(h, m, s) => NumberOf(h) * 3600 + NumberOf(m) * 60 + NumberOf(s)
  }

  /** The rest does not continue the time. */
  predicate ClockEnds(c: Clock, rest: string)
  {
    NumberEnds(rest) && (c.HMS? || !StartsWith(rest, ':'))
  }

  lemma ClockRead(c: Clock, rest: string)
    requires ValidClock(c) && ClockEnds(c, rest)
    ensures GetSecs(ClockText(c, rest)) == Some((ClockValue(c), rest))
  {
    hide NumberAt, IsNumber;
    match c {
      case H(h) =>
        NumberRead(h, rest, 0, 167);
      case HM(h, m) =>
        NumberRead(h, ":" + (m + rest), 0, 167);
        NumberRead(m, rest, 0, 59);
        assert (":" + (m + rest))[1..] == m + rest;
      case HMS(h, m, s) =>
        var s2 := ":" + (s + rest);
        var s1 := ":" + (m + s2);
        NumberRead(h, s1, 0, 167);
        NumberRead(m, s2, 0, 59);
        NumberRead(s, rest, 0, 60);
        assert s1[1..] == m + s2 && s2[1..] == s + rest;
    }
  }

  lemma StartsText(s: string, c: char)
    requires StartsWith(s, c)
    ensures s == [c] + s[1..]
  {
  }

  lemma ClockWritten(s: string) returns (c: Clock)
    requires GetSecs(s).Some?
    ensures var (t, rest) := GetSecs(s).value;
            ValidClock(c) && ClockValue(c) == t && ClockEnds(c, rest) && s == ClockText(c, rest)
  {
    hide NumberAt, IsNumber, NumberOf;
    var h := NumberWritten(s, 0, 167);
    var s1 := NumberAt(s, 0, 167).value.1;
    if !StartsWith(s1, ':') {
      return H(h);
    }
    StartsText(s1, ':');
    var m := NumberWritten(s1[1..], 0, 59);
    var s2 := NumberAt(s1[1..], 0, 59).value.1;
    if !StartsWith(s2, ':') {
      return HM(h, m);
    }
    StartsText(s2, ':');
    var sec := NumberWritten(s2[1..], 0, 60);
    return HMS(h, m, sec);
  }

  // ---- offsets

  datatype Sign = Bare | Plus | Minus

  datatype Signed = Signed(sign: Sign, clock: Clock)

  function SignedText(o: Signed, rest: string): string
  {
    match o.sign
    case Bare => ClockText(o.clock, rest)
    case Plus => "+" + ClockText(o.clock, rest)
    case Minus => "-" + ClockText(o.clock, rest)
  }

  function SignedValue(o: Signed): (t: int)
    requires ValidClock(o.clock)
    ensures -MAX_RULE_SECS <= t <= MAX_RULE_SECS
  {
    if o.sign.Minus? then -ClockValue(o.clock) else ClockValue(o.clock)
  }

  lemma ClockFirst(c: Clock, rest: string)
    requires ValidClock(c)
    ensures ClockText(c, rest) != "" && IsDigit(ClockText(c, rest)[0])
  {
  }

  lemma SignedRead(o: Signed, rest: string)
    requires ValidClock(o.clock) && ClockEnds(o.clock, rest)
    ensures GetOffset(SignedText(o, rest)) == Some((SignedValue(o), rest))
  {
    hide GetSecs, ValidClock, ClockText, ClockValue;
    ClockRead(o.clock, rest);
    ClockFirst(o.clock, rest);
    assert !o.sign.Bare? ==> SignedText(o, rest)[1..] == ClockText(o.clock, rest);
  }

  lemma SignedWritten(s: string) returns (o: Signed)
    requires GetOffset(s).Some?
    ensures var (t, rest) := GetOffset(s).value;
            ValidClock(o.clock) && SignedValue(o) == t && ClockEnds(o.clock, rest) && s == SignedText(o, rest)
  {
    hide GetSecs, ValidClock, ClockText, ClockValue, ClockEnds;
    if StartsWith(s, '-') {
      StartsText(s, '-');
      var c := ClockWritten(s[1..]);
      o := Signed(Minus, c);
    } else if StartsWith(s, '+') {
      StartsText(s, '+');
      var c := ClockWritten(s[1..]);
      o := Signed(Plus, c);
    } else {
      var c := ClockWritten(s);
      o := Signed(Bare, c);
    }
  }

  // ---- rules

  datatype Date = J(day: string) | N(day: string) | M(mon: string, week: string, day: string)

  datatype DateAt = DateAt(date: Date, at: Option<Clock>)

  predicate ValidDateAt(r: DateAt)
  {
    && (r.at.Some? ==> ValidClock(r.at.value))
    && match r.date
       case J(day) => IsNumber(day, 1, 365)
       case N(day) => IsNumber(day, 0, 365)
       case M(mon, week, day) => IsNumber(mon, 1, 12) && IsNumber(week, 1, 5) && IsNumber(day, 0, 6)
  }

  function DateText(d: Date, rest: string): string
  {
    match d
    case J(day) => "J" + (day + rest)
    case N(day) => day + rest
    case M(mon, week, day) => "M" + (mon + ("." + (week + ("." + (day + rest)))))
  }

  function AtText(at: Option<Clock>, rest: string): string
  {
    match at case None => rest case Some(c) => "/" + ClockText(c, rest)
  }

  function DateAtText(r: DateAt, rest: string): string { DateText(r.date, AtText(r.at, rest)) }

  /** Without a time of day a rule takes effect at two in the morning. */
  function AtValue(at: Option<Clock>): int
    requires at.Some? ==> ValidClock(at.value)
  {
    match at case None => 2 * 3600 case Some(c) => ClockValue(c)
  }

  function RuleOf(r: DateAt): (rule: Rule)
    requires ValidDateAt(r)
    ensures ValidRule(rule)
  {
    match r.date
    case J(day) => JulianDay(NumberOf(day), AtValue(r.at))
    case N(day) => DayOfYear(NumberOf(day), AtValue(r.at))
    case M(mon, week, day) => MonthNthDay(NumberOf(mon), NumberOf(week), NumberOf(day), AtValue(r.at))
  }

  predicate AtEnds(at: Option<Clock>, rest: string)
  {
    match at case None => NumberEnds(rest) && !StartsWith(rest, '/') case Some(c) => ClockEnds(c, rest)
  }

  lemma AtRead(at: Option<Clock>, rest: string)
    requires (at.Some? ==> ValidClock(at.value)) && AtEnds(at, rest)
    ensures NumberEnds(AtText(at, rest)) && GetRuleTime(AtText(at, rest)) == Some((AtValue(at), rest))
  {
    hide GetSecs, ClockText, ClockValue, ValidClock, ClockEnds;
    if at.Some? {
      ClockRead(at.value, rest);
      assert AtText(at, rest)[1..] == ClockText(at.value, rest);
    }
  }

  lemma AtWritten(s: string) returns (at: Option<Clock>)
    requires NumberEnds(s) && GetRuleTime(s).Some?
    ensures var (t, rest) := GetRuleTime(s).value;
            (at.Some? ==> ValidClock(at.value)) && AtValue(at) == t && AtEnds(at, rest) && s == AtText(at, rest)
  {
    hide GetSecs, ClockText, ClockValue, ValidClock, ClockEnds;
    if StartsWith(s, '/') {
      StartsText(s, '/');
      var c := ClockWritten(s[1..]);
      at := Some(c);
    } else {
      at := None;
    }
  }

  lemma MonthRead(mon: string, week: string, day: string, t: string)
    requires IsNumber(mon, 1, 12) && IsNumber(week, 1, 5) && IsNumber(day, 0, 6) && NumberEnds(t)
    ensures var s2 := "." + (day + t); var s1 := "." + (week + s2); var s := "M" + (mon + s1);
            && s[1..] == mon + s1 && s1[1..] == week + s2 && s2[1..] == day + t
            && NumberAt(s[1..], 1, 12) == Some((NumberOf(mon), s1))
            && NumberAt(s1[1..], 1, 5) == Some((NumberOf(week), s2))
            && NumberAt(s2[1..], 0, 6) == Some((NumberOf(day), t))
  {
    hide NumberAt, IsNumber, NumberOf;
    var s2 := "." + (day + t);
    var s1 := "." + (week + s2);
    NumberRead(mon, s1, 1, 12);
    NumberRead(week, s2, 1, 5);
    NumberRead(day, t, 0, 6);
    assert s1[1..] == week + s2 && s2[1..] == day + t && ("M" + (mon + s1))[1..] == mon + s1;
  }

  lemma DayRead(r: DateAt, rest: string)
    requires ValidDateAt(r) && AtEnds(r.at, rest) && !r.date.M?
    ensures GetRule(DateAtText(r, rest)) == Some((RuleOf(r), rest))
  {
    var day, t := r.date.day, AtText(r.at, rest);
    AtRead(r.at, rest);
    hide GetRuleTime, NumberAt, AtText, AtValue, AtEnds, ValidClock, NumberOf, IsNumber;
    NumberRead(day, t, if r.date.J? then 1 else 0, 365);
    NumberFirst(day, t, if r.date.J? then 1 else 0, 365);
    assert ("J" + (day + t))[1..] == day + t;
  }

  lemma RuleRead(r: DateAt, rest: string)
    requires ValidDateAt(r) && AtEnds(r.at, rest)
    ensures GetRule(DateAtText(r, rest)) == Some((RuleOf(r), rest))
  {
    hide NumberAt, ClockText, ValidClock, NumberOf, IsNumber, AtEnds, ClockValue, GetSecs;
    if r.date.M? {
      AtRead(r.at, rest);
      hide GetRuleTime, AtText;
      MonthRead(r.date.mon, r.date.week, r.date.day, AtText(r.at, rest));
    } else {
      hide GetRule, DateAtText, RuleOf;
      DayRead(r, rest);
    }
  }

  lemma MonthWritten(s: string) returns (r: DateAt)
    requires StartsWith(s, 'M') && GetRule(s).Some?
    ensures var (rule, rest) := GetRule(s).value;
            ValidDateAt(r) && RuleOf(r) == rule && AtEnds(r.at, rest) && s == DateAtText(r, rest)
  {
    hide GetRuleTime, NumberAt, AtText, AtValue, AtEnds, ValidClock, IsNumber, NumberOf;
    StartsText(s, 'M');
    var mon := NumberWritten(s[1..], 1, 12);
    var s1 := NumberAt(s[1..], 1, 12).value.1;
    StartsText(s1, '.');
    var week := NumberWritten(s1[1..], 1, 5);
    var s2 := NumberAt(s1[1..], 1, 5).value.1;
    StartsText(s2, '.');
    var day := NumberWritten(s2[1..], 0, 6);
    var at := AtWritten(NumberAt(s2[1..], 0, 6).value.1);
    r := DateAt(M(mon, week, day), at);
  }

  lemma RuleWritten(s: string) returns (r: DateAt)
    requires GetRule(s).Some?
    ensures var (rule, rest) := GetRule(s).value;
            ValidDateAt(r) && RuleOf(r) == rule && AtEnds(r.at, rest) && s == DateAtText(r, rest)
  {
    hide GetRuleTime, NumberAt, AtText, AtValue, AtEnds, ValidClock, IsNumber, NumberOf;
    if StartsWith(s, 'J') {
      StartsText(s, 'J');
      var day := NumberWritten(s[1..], 1, 365);
      var at := AtWritten(NumberAt(s[1..], 1, 365).value.1);
      r := DateAt(J(day), at);
    } else if StartsWith(s, 'M') {
      r := MonthWritten(s);
    } else {
      var day := NumberWritten(s, 0, 365);
      var at := AtWritten(NumberAt(s, 0, 365).value.1);
      r := DateAt(N(day), at);
    }
  }

  datatype RulePair = RulePair(separator: char, start: DateAt, end: DateAt)

  predicate ValidRulePair(r: RulePair)
  {
    r.separator in {',', ';'} && ValidDateAt(r.start) && ValidDateAt(r.end)
  }

  function RulePairText(r: RulePair): (s: string)
    ensures s != "" && s[0] == r.separator
  {
    [r.separator] + DateAtText(r.start, "," + DateAtText(r.end, ""))
  }

  lemma RulePairRead(r: RulePair)
    requires ValidRulePair(r)
    ensures GetRules(RulePairText(r)) == Some((RuleOf(r.start), RuleOf(r.end)))
  {
    var s1 := "," + DateAtText(r.end, "");
    assert AtEnds(r.start.at, s1) && AtEnds(r.end.at, "");
    hide GetRule, DateAtText, AtEnds, ValidDateAt, RuleOf;
    RuleRead(r.start, s1);
    RuleRead(r.end, "");
    assert RulePairText(r)[1..] == DateAtText(r.start, s1) && s1[1..] == DateAtText(r.end, "");
  }

  lemma RulePairWritten(s: string) returns (r: RulePair)
    requires GetRules(s).Some?
    ensures ValidRulePair(r) && (RuleOf(r.start), RuleOf(r.end)) == GetRules(s).value && s == RulePairText(r)
  {
    hide GetRule, DateAtText, AtEnds, ValidDateAt, RuleOf;
    StartsText(s, s[0]);
    var start := RuleWritten(s[1..]);
    var s1 := GetRule(s[1..]).value.1;
    StartsText(s1, ',');
    var end := RuleWritten(s1[1..]);
    r := RulePair(s[0], start, end);
  }

  // ---- names

  datatype Name = Plain(text: string) | Quoted(text: string)

  /** What ends an unquoted name. */
  predicate IsStop(c: char) { IsDigit(c) || c == ',' || c == '-' || c == '+' }

  predicate ValidName(n: Name)
  {
    match n
    case Plain(text) => !StartsWith(text, '<') && forall i :: 0 <= i < |text| ==> !IsStop(text[i])
    case Quoted(text) => '>' !in text
  }

  function NameText(n: Name, rest: string): string
  {
    match n case Plain(text) => text + rest case Quoted(text) => "<" + (text + (">" + rest))
  }

  predicate NameEnds(n: Name, rest: string)
  {
    n.Quoted? || rest == "" || IsStop(rest[0])
  }

  lemma {:induction false} PlainIs(text: string, rest: string)
    requires (forall i :: 0 <= i < |text| ==> !IsStop(text[i])) && (rest == "" || IsStop(rest[0]))
    ensures NameLength(text + rest) == |text|
  {
    if text == "" {
      assert text + rest == rest;
    } else {
      assert (text + rest)[1..] == text[1..] + rest;
      PlainIs(text[1..], rest);
    }
  }

  lemma {:induction false} QuotedIs(text: string, rest: string)
    requires '>' !in text
    ensures QuotedLength(text + (">" + rest)) == |text|
  {
    var s := text + (">" + rest);
    if text != "" {
      assert s[1..] == text[1..] + (">" + rest);
      QuotedIs(text[1..], rest);
    }
  }

  lemma NameRead(n: Name, rest: string)
    requires ValidName(n) && NameEnds(n, rest)
    ensures GetName(NameText(n, rest)) == Some((n.text, rest))
  {
    match n {
      case Plain(text) =>
        PlainIs(text, rest);
        assert (text + rest)[..|text|] == text && (text + rest)[|text|..] == rest;
      case Quoted(text) =>
        var s := text + (">" + rest);
        QuotedIs(text, rest);
        assert ("<" + s)[1..] == s && ("<" + s)[1..1 + |text|] == text && ("<" + s)[2 + |text|..] == rest;
    }
  }

  lemma {:induction false} LengthsStop(s: string)
    ensures forall i :: 0 <= i < NameLength(s) ==> !IsStop(s[i])
    ensures NameLength(s) < |s| ==> IsStop(s[NameLength(s)])
    ensures forall i :: 0 <= i < QuotedLength(s) ==> s[i] != '>'
  {
    if s != "" {
      LengthsStop(s[1..]);
      assert forall i :: 1 <= i < |s| ==> s[i] == s[1..][i - 1];
    }
  }

  lemma NameWritten(s: string) returns (n: Name)
    requires GetName(s).Some?
    ensures var (text, rest) := GetName(s).value;
            ValidName(n) && n.text == text && NameEnds(n, rest) && s == NameText(n, rest)
  {
    if StartsWith(s, '<') {
      LengthsStop(s[1..]);
      n := Quoted(GetName(s).value.0);
      var k := QuotedLength(s[1..]);
      assert s == "<" + (s[1..1 + k] + (">" + s[2 + k..]));
    } else {
      LengthsStop(s);
      n := Plain(GetName(s).value.0);
    }
  }

  // ---- the whole string

  datatype Dst = Dst(name: Name, offset: Option<Signed>, rules: Option<RulePair>)

  datatype Tz = Tz(std: Name, offset: Signed, dst: Option<Dst>)

  function RulesTail(r: Option<RulePair>): string
  {
    match r case None => "" case Some(r) => RulePairText(r)
  }

  function OffsetTail(o: Option<Signed>, rest: string): string
  {
    match o case None => rest case Some(o) => SignedText(o, rest)
  }

  function DstTail(d: Option<Dst>): string
  {
    match d case None => "" case Some(d) => NameText(d.name, OffsetTail(d.offset, RulesTail(d.rules)))
  }

  function TzText(x: Tz): string { NameText(x.std, SignedText(x.offset, DstTail(x.dst))) }

  predicate ValidDst(d: Dst)
  {
    && ValidName(d.name) && NameEnds(d.name, OffsetTail(d.offset, RulesTail(d.rules)))
    && (d.offset.Some? ==> ValidClock(d.offset.value.clock))
    && (d.rules.Some? ==> ValidRulePair(d.rules.value))
  }

  /** A TZ string that says what it seems to say: its parts are in range and none runs into the next. */
  predicate WellSpelled(x: Tz)
  {
    && ValidName(x.std) && ValidClock(x.offset.clock) && ClockEnds(x.offset.clock, DstTail(x.dst))
    && (x.dst.Some? ==> ValidDst(x.dst.value) && DstTail(x.dst) != "")
  }

  /** First Sunday in April to last Sunday in October. */
  const DEFAULT_START: Rule := MonthNthDay(4, 1, 0, 7200)
  const DEFAULT_END: Rule := MonthNthDay(10, 5, 0, 7200)

  function RulesMeaning(r: Option<RulePair>): (Rule, Rule)
    requires r.Some? ==> ValidRulePair(r.value)
  {
    match r case None => (DEFAULT_START, DEFAULT_END) case Some(r) => (RuleOf(r.start), RuleOf(r.end))
  }

  /** One offset, or two with the rules for changing between them; by default DST is an hour ahead. */
  function Meaning(x: Tz): TzSpec
    requires WellSpelled(x)
  {
    var stdoffset := SignedValue(x.offset);
    match x.dst
    case None => Fixed(x.std.text, stdoffset)
    case Some(d) =>
      var dstoffset := if d.offset.Some? then SignedValue(d.offset.value) else stdoffset - 3600;
      var (start, end) := RulesMeaning(d.rules);
      WithRules(Posix(stdoffset, dstoffset, start, end, x.std.text, d.name.text))
  }

  lemma OneDigit(d: string)
    requires |d| == 1 && IsDigit(d[0])
    ensures NumberOf(d) == DigitValue(d[0])
  {
    assert d[..0] == "";
  }

  lemma TwoDigits(d: string)
    requires |d| == 2 && IsDigit(d[0]) && IsDigit(d[1])
    ensures NumberOf(d) == 10 * DigitValue(d[0]) + DigitValue(d[1])
  {
    OneDigit(d[..1]);
  }

  /** Mm.n.d with one digit for n and d, and no time. */
  lemma MonthRule(mon: string, week: string, day: string)
    requires 1 <= |mon| <= 2 && |week| == 1 && |day| == 1 && forall c :: c in mon + week + day ==> IsDigit(c)
    requires var m := if |mon| == 1 then DigitValue(mon[0]) else 10 * DigitValue(mon[0]) + DigitValue(mon[1]);
             1 <= m <= 12 && 1 <= DigitValue(week[0]) <= 5 && DigitValue(day[0]) <= 6
    ensures var r := DateAt(M(mon, week, day), None);
            var m := if |mon| == 1 then DigitValue(mon[0]) else 10 * DigitValue(mon[0]) + DigitValue(mon[1]);
            ValidDateAt(r) && RuleOf(r) == MonthNthDay(m, DigitValue(week[0]), DigitValue(day[0]), 7200)
  {
    hide NumberOf;
    if |mon| == 1 { OneDigit(mon); } else { TwoDigits(mon); }
    OneDigit(week);
    OneDigit(day);
  }

  lemma DefaultRules()
    ensures GetRules(DEFAULT_RULES) == Some((DEFAULT_START, DEFAULT_END))
  {
    hide ValidDateAt, RuleOf, GetRules;
    var r := RulePair(',', DateAt(M("4", "1", "0"), None), DateAt(M("10", "5", "0"), None));
    MonthRule("4", "1", "0");
    MonthRule("10", "5", "0");
    assert DEFAULT_RULES == RulePairText(r);
    hide RulePairText;
    RulePairRead(r);
  }

  lemma RulesTailRead(r: Option<RulePair>)
    requires r.Some? ==> ValidRulePair(r.value)
    ensures GetRulesOrDefault(RulesTail(r)) == Some(RulesMeaning(r))
  {
    hide GetRules, RulePairText, ValidRulePair, RuleOf;
    DefaultRules();
    if r.Some? { RulePairRead(r.value); }
  }

  lemma OffsetTailRead(o: Option<Signed>, std: int, r: Option<RulePair>)
    requires -MAX_RULE_SECS <= std <= MAX_RULE_SECS
    requires (o.Some? ==> ValidClock(o.value.clock)) && (r.Some? ==> ValidRulePair(r.value))
    ensures GetDstOffset(std, OffsetTail(o, RulesTail(r)))
         == Some((if o.Some? then SignedValue(o.value) else std - 3600, RulesTail(r)))
  {
    var rest := RulesTail(r);
    assert rest != "" ==> rest[0] in {',', ';'};
    hide RulesTail, ClockText, ValidClock, GetSecs;
    if o.Some? {
      SignedRead(o.value, rest);
      ClockFirst(o.value.clock, rest);
    }
  }

  lemma DstRead(x: Tz)
    requires WellSpelled(x)
    ensures GetDst(x.std.text, SignedValue(x.offset), DstTail(x.dst)) == Some(Meaning(x))
  {
    hide ValidClock, ValidName, NameEnds, ValidRulePair, NameText, OffsetTail, GetName, GetDstOffset, GetRulesOrDefault,
         SignedValue, RulesMeaning, RulesTail, ClockEnds;
    if x.dst.Some? {
      var d := x.dst.value;
      NameRead(d.name, OffsetTail(d.offset, RulesTail(d.rules)));
      OffsetTailRead(d.offset, SignedValue(x.offset), d.rules);
      RulesTailRead(d.rules);
    }
  }

  /** Every well-spelled string is read as it is meant. */
  lemma TzRead(x: Tz)
    requires WellSpelled(x)
    ensures ParseTz(TzText(x)) == Some(Meaning(x))
  {
    var tail := SignedText(x.offset, DstTail(x.dst));
    ClockFirst(x.offset.clock, DstTail(x.dst));
    assert tail != "" && NameEnds(x.std, tail);
    DstRead(x);
    hide ValidClock, ValidName, NameEnds, NameText, DstTail, GetName, GetOffset, GetDst, SignedText, SignedValue,
         Meaning;
    NameRead(x.std, tail);
    SignedRead(x.offset, DstTail(x.dst));
  }

  lemma OffsetTailWritten(std: int, s: string) returns (o: Option<Signed>)
    requires -MAX_RULE_SECS <= std <= MAX_RULE_SECS && GetDstOffset(std, s).Some?
    ensures (o.Some? ==> ValidClock(o.value.clock)) && s == OffsetTail(o, GetDstOffset(std, s).value.1)
  {
    hide GetOffset, ValidClock, SignedText;
    if s == "" || s[0] == ',' || s[0] == ';' {
      o := None;
    } else {
      var signed := SignedWritten(s);
      o := Some(signed);
    }
  }

  lemma DstWritten(std: string, offset: int, s: string) returns (d: Option<Dst>)
    requires -MAX_RULE_SECS <= offset <= MAX_RULE_SECS && GetDst(std, offset, s).Some?
    ensures s == DstTail(d) && (d.Some? ==> ValidDst(d.value) && s != "")
  {
    hide GetName, GetDstOffset, GetRules, ValidName, ValidClock, ValidRulePair, NameEnds, NameText, OffsetTail,
         RulePairText;
    if s == "" {
      return None;
    }
    var name := NameWritten(s);
    var s1 := GetName(s).value.1;
    var o := OffsetTailWritten(offset, s1);
    var s2 := GetDstOffset(offset, s1).value.1;
    if s2 == "" {
      return Some(Dst(name, o, None));
    }
    var rules := RulePairWritten(s2);
    return Some(Dst(name, o, Some(rules)));
  }

  /** Every string that is accepted is well spelled. */
  lemma TzWritten(s: string) returns (x: Tz)
    requires ParseTz(s).Some?
    ensures WellSpelled(x) && TzText(x) == s
  {
    hide GetName, GetOffset, GetDst, ValidName, ValidClock, NameEnds, NameText, SignedText, DstTail, ValidDst,
         ClockEnds, SignedValue;
    var std := NameWritten(s);
    var s1 := GetName(s).value.1;
    var offset := SignedWritten(s1);
    var (o, s2) := GetOffset(s1).value;
    var dst := DstWritten(std.text, o, s2);
    return Tz(std, offset, dst);
  }

  /** The parser accepts exactly the well-spelled strings, each with its meaning. */
  lemma TzGrammar(s: string, v: TzSpec)
    ensures ParseTz(s) == Some(v) <==> exists x :: WellSpelled(x) && TzText(x) == s && Meaning(x) == v
  {
    hide ParseTz, WellSpelled, TzText, Meaning;
    if ParseTz(s) == Some(v) {
      var x := TzWritten(s);
      TzRead(x);
    }
    forall x | WellSpelled(x) && TzText(x) == s ensures ParseTz(s) == Some(Meaning(x)) {
      TzRead(x);
    }
  }

  // ---- every meaning has a spelling

  function Decimal(n: nat): (s: string)
    ensures s != "" && forall i :: 0 <= i < |s| ==> IsDigit(s[i])
  {
    if n < 10 then [DigitChar(n)] else Decimal(n / 10) + [DigitChar(n % 10)]
  }

  lemma {:induction false} DecimalNumber(n: nat)
    ensures NumberOf(Decimal(n)) == n
  {
    var s := Decimal(n);
    if n < 10 {
      assert s[..0] == "";
    } else {
      DecimalNumber(n / 10);
      assert s[..|s| - 1] == Decimal(n / 10);
    }
  }

  function ClockFor(t: nat): Clock
    requires t <= MAX_RULE_SECS
  {
    if t == MAX_RULE_SECS then HMS(Decimal(167), Decimal(59), Decimal(60))
    else HMS(Decimal(t / 3600), Decimal(t % 3600 / 60), Decimal(t % 60))
  }

  /** Every time that a rule can hold has a spelling. */
  lemma ClockSpells(t: nat)
    requires t <= MAX_RULE_SECS
    ensures ValidClock(ClockFor(t)) && ClockValue(ClockFor(t)) == t
  {
    hide Decimal, NumberOf;
    DecimalNumber(if t == MAX_RULE_SECS then 167 else t / 3600);
    DecimalNumber(if t == MAX_RULE_SECS then 59 else t % 3600 / 60);
    DecimalNumber(if t == MAX_RULE_SECS then 60 else t % 60);
  }

  function SignedFor(o: int): Signed
    requires -MAX_RULE_SECS <= o <= MAX_RULE_SECS
  {
    if o < 0 then Signed(Minus, ClockFor(-o)) else Signed(Plus, ClockFor(o))
  }

  lemma SignedSpells(o: int)
    requires -MAX_RULE_SECS <= o <= MAX_RULE_SECS
    ensures ValidClock(SignedFor(o).clock) && SignedValue(SignedFor(o)) == o
  {
    ClockSpells(if o < 0 then -o else o);
    hide ClockFor, ClockValue, ValidClock;
  }

  function DateFor(r: Rule): DateAt
    requires ValidRule(r)
  {
    var at := Some(ClockFor(r.time));
    match r
    case JulianDay(day, _) => DateAt(J(Decimal(day)), at)
    case DayOfYear(day, _) => DateAt(N(Decimal(day)), at)
    case MonthNthDay(mon, week, day, _) => DateAt(M(Decimal(mon), Decimal(week), Decimal(day)), at)
  }

  lemma RuleSpells(r: Rule)
    requires ValidRule(r)
    ensures ValidDateAt(DateFor(r)) && RuleOf(DateFor(r)) == r
  {
    ClockSpells(r.time);
    hide Decimal, NumberOf, ClockFor, ClockValue, ValidClock;
    DecimalNumber(r.day);
    if r.MonthNthDay? {
      DecimalNumber(r.mon);
      DecimalNumber(r.week);
    }
  }

  /** A spelling with nothing left out. */
  function Spelling(p: Posix): Tz
    requires ValidPosix(p) && -MAX_RULE_SECS <= p.stdoffset && -MAX_RULE_SECS <= p.dstoffset
  {
    Tz(Quoted(p.std), SignedFor(p.stdoffset),
       Some(Dst(Quoted(p.dst), Some(SignedFor(p.dstoffset)), Some(RulePair(',', DateFor(p.start), DateFor(p.end))))))
  }

  lemma SpellingSpells(p: Posix)
    requires ValidPosix(p) && -MAX_RULE_SECS <= p.stdoffset && -MAX_RULE_SECS <= p.dstoffset
    requires '>' !in p.std && '>' !in p.dst
    ensures WellSpelled(Spelling(p)) && Meaning(Spelling(p)) == WithRules(p)
  {
    hide SignedFor, DateFor, ValidClock, ValidDateAt, RuleOf, SignedValue, OffsetTail, RulesTail;
    SignedSpells(p.stdoffset);
    SignedSpells(p.dstoffset);
    RuleSpells(p.start);
    RuleSpells(p.end);
    assert StartsWith(DstTail(Spelling(p).dst), '<');
    hide DstTail;
  }

  /** Every pair of offsets with every pair of rules is read back from its spelling. */
  lemma TzRoundTrip(p: Posix)
    requires ValidPosix(p) && -MAX_RULE_SECS <= p.stdoffset && -MAX_RULE_SECS <= p.dstoffset
    requires '>' !in p.std && '>' !in p.dst
    ensures ParseTz(TzText(Spelling(p))) == Some(WithRules(p))
  {
    SpellingSpells(p);
    hide ParseTz, TzText, WellSpelled, Meaning, Spelling;
    TzRead(Spelling(p));
  }

  /** The usual form: plain names, one offset, no times. */
  const USUAL: string := "EST5EDT,M3.2.0,M11.1.0"

  function UsualRules(): RulePair
  {
    RulePair(',', DateAt(M("3", "2", "0"), None), DateAt(M("11", "1", "0"), None))
  }

  function Usual(): Tz
  {
    Tz(Plain("EST"), Signed(Bare, H("5")), Some(Dst(Plain("EDT"), None, Some(UsualRules()))))
  }

  lemma UsualRulesText()
    ensures RulePairText(UsualRules()) == ",M3.2.0,M11.1.0"
  {
    var end := DateAtText(UsualRules().end, "");
    assert end == "M11.1.0";
    assert DateAtText(UsualRules().start, "," + end) == "M3.2.0" + ("," + end);
  }

  lemma UsualText()
    ensures DstTail(Usual().dst) == "EDT,M3.2.0,M11.1.0"
    ensures TzText(Usual()) == USUAL
  {
    UsualRulesText();
    hide RulePairText;
    assert DstTail(Usual().dst) == "EDT" + ",M3.2.0,M11.1.0";
    assert SignedText(Usual().offset, DstTail(Usual().dst)) == "5" + "EDT,M3.2.0,M11.1.0";
    hide SignedText, DstTail;
  }

  lemma UsualSpells()
    ensures WellSpelled(Usual())
  {
    UsualText();
    MonthRule("3", "2", "0");
    MonthRule("11", "1", "0");
    OneDigit("5");
    UsualRulesText();
    hide RulePairText, ValidDateAt, NumberOf;
  }

  /** What it says: five hours behind UTC, four from March to November. */
  const EASTERN: Posix := Posix(18000, 14400, MonthNthDay(3, 2, 0, 7200), MonthNthDay(11, 1, 0, 7200), "EST", "EDT")

  lemma UsualForm()
    ensures ParseTz(USUAL) == Some(WithRules(EASTERN))
  {
    UsualText();
    UsualSpells();
    hide TzText, WellSpelled, ParseTz, RuleOf, NumberOf;
    MonthRule("3", "2", "0");
    MonthRule("11", "1", "0");
    OneDigit("5");
    TzRead(Usual());
  }

  /** A semicolon behind a plain DST name is taken for a part of the name, and the rules for an offset. */
  const SEMICOLON: string := "EST5EDT;M3.2.0,M11.1.0"

  lemma HourRead(h: string, rest: string)
    requires |h| == 1 && IsDigit(h[0]) && ClockEnds(H(h), rest)
    ensures GetOffset(h + rest) == Some((3600 * DigitValue(h[0]), rest))
  {
    OneDigit(h);
    SignedRead(Signed(Bare, H(h)), rest);
  }

  lemma SemicolonSplit()
    ensures "EST" + "5EDT;M3.2.0,M11.1.0" == SEMICOLON
    ensures "5" + "EDT;M3.2.0,M11.1.0" == "5EDT;M3.2.0,M11.1.0"
    ensures "EDT;M" + "3.2.0,M11.1.0" == "EDT;M3.2.0,M11.1.0"
    ensures "3" + ".2.0,M11.1.0" == "3.2.0,M11.1.0"
  {
  }

  lemma RulesTurnedAway(offset: int)
    requires -MAX_RULE_SECS <= offset <= MAX_RULE_SECS
    ensures GetDst("EST", offset, "EDT;M3.2.0,M11.1.0") == None
  {
    hide GetName, GetSecs, NumberOf, GetRule, GetOffset;
    SemicolonSplit();
    NameRead(Plain("EDT;M"), "3.2.0,M11.1.0");
    HourRead("3", ".2.0,M11.1.0");
    assert GetRulesOrDefault(".2.0,M11.1.0") == None;
  }

  lemma SemicolonTaken()
    ensures ParseTz(SEMICOLON) == None
  {
    hide GetName, GetSecs, NumberOf, GetOffset, GetDst;
    SemicolonSplit();
    NameRead(Plain("EST"), "5EDT;M3.2.0,M11.1.0");
    HourRead("5", "EDT;M3.2.0,M11.1.0");
    RulesTurnedAway(18000);
  }

  lemma ThreeDigits(d: string)
    requires |d| == 3 && IsDigit(d[0]) && IsDigit(d[1]) && IsDigit(d[2])
    ensures NumberOf(d) == 100 * DigitValue(d[0]) + 10 * DigitValue(d[1]) + DigitValue(d[2])
  {
    TwoDigits(d[..2]);
    assert d[..2][0] == d[0] && d[..2][1] == d[1];
  }

  // ---- zones ahead of UTC

  /** A quoted name without DST. */
  const INDIA: string := "<+0530>-5:30"

  lemma HalfHour(h: string)
    requires |h| == 1 && IsDigit(h[0])
    ensures ValidClock(HM(h, "30")) && SignedValue(Signed(Minus, HM(h, "30"))) == -(DigitValue(h[0]) * 3600 + 1800)
  {
    OneDigit(h);
    TwoDigits("30");
    hide NumberOf;
  }

  /** A sign behind the name counts towards the west. */
  lemma IndiaIsAhead()
    ensures ParseTz(INDIA) == Some(Fixed("+0530", -19800))
  {
    var x := Tz(Quoted("+0530"), Signed(Minus, HM("5", "30")), None);
    HalfHour("5");
    hide ParseTz, ClockValue, ValidClock;
    assert TzText(x) == INDIA by {
      assert SignedText(x.offset, "") == "-5:30";
    }
    TzRead(x);
  }

  /** Iran until 2022: DST from the 80th day to the 264th, February 29 not counted, both at midnight. */
  const IRAN: string := "IRST-3:30IRDT,J80/0,J264/0"

  function IranRules(): RulePair
  {
    RulePair(',', DateAt(J("80"), Some(H("0"))), DateAt(J("264"), Some(H("0"))))
  }

  function Iran(): Tz
  {
    Tz(Plain("IRST"), Signed(Minus, HM("3", "30")), Some(Dst(Plain("IRDT"), None, Some(IranRules()))))
  }

  lemma IranRulesText()
    ensures RulePairText(IranRules()) == ",J80/0,J264/0"
  {
    var r := IranRules();
    assert AtText(r.end.at, "") == "/0" && DateAtText(r.end, "") == "J264/0";
    var tail := "," + DateAtText(r.end, "");
    assert DateAtText(r.start, tail) == "J80/0" + tail;
  }

  lemma AheadText(h: string, rest: string)
    ensures SignedText(Signed(Minus, HM(h, "30")), rest) == "-" + (h + (":30" + rest))
  {
    assert ":30" + rest == ":" + ("30" + rest);
  }

  lemma IranTail()
    ensures DstTail(Iran().dst) == "IRDT,J80/0,J264/0"
  {
    IranRulesText();
    hide RulePairText;
    assert DstTail(Iran().dst) == "IRDT" + ",J80/0,J264/0";
  }

  lemma IranText()
    ensures TzText(Iran()) == IRAN
  {
    IranTail();
    hide DstTail, RulesTail, OffsetTail;
    var x, h, rest := Iran(), "3", DstTail(Iran().dst);
    AheadText(h, rest);
    hide SignedText;
    assert x.offset == Signed(Minus, HM(h, "30"));
    assert "IRST" + ("-" + (h + (":30" + rest))) == IRAN;
  }

  lemma JulianRules()
    ensures ValidRulePair(IranRules())
    ensures RuleOf(IranRules().start) == JulianDay(80, 0) && RuleOf(IranRules().end) == JulianDay(264, 0)
  {
    OneDigit("0");
    TwoDigits("80");
    ThreeDigits("264");
    hide NumberOf;
  }

  lemma IranSpells()
    ensures WellSpelled(Iran())
  {
    IranTail();
    HalfHour("3");
    JulianRules();
    hide RulePairText, ValidRulePair, ValidClock, ClockValue;
  }

  /** Three and a half hours ahead of UTC, and four and a half from one rule to the other. */
  const TEHRAN: Posix := Posix(-12600, -16200, JulianDay(80, 0), JulianDay(264, 0), "IRST", "IRDT")

  lemma JulianForm()
    ensures ParseTz(IRAN) == Some(WithRules(TEHRAN))
  {
    IranText();
    IranSpells();
    HalfHour("3");
    JulianRules();
    hide TzText, WellSpelled, ParseTz, RuleOf, SignedValue, ValidRulePair, ValidClock;
    TzRead(Iran());
  }
}
