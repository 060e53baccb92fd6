// The parser of POSIX TZ strings (IEEE Std 1003.1, Base Definitions, section 8.3) in libtz.c, from
// getnum to tzparse. A pointer into the string is the rest of it.
module TzString {
  import opened Machine
  import opened Digits
  import opened PosixRules

  type Parse<T> = Option<(T, string)>

  // ---- numbers

  function SkipDigits(s: string): (n: nat)
    ensures n <= |s| && (forall i :: 0 <= i < n ==> IsDigit(s[i])) && (n < |s| ==> !IsDigit(s[n]))
  {
    if s == "" || !IsDigit(s[0]) then 0 else 1 + SkipDigits(s[1..])
  }

  /** A number in the given range and the rest behind its digits. */
  function NumberAt(s: string, min: int, max: int): Parse<int>
  {
    var n := SkipDigits(s);
    var v := NumberOf(s[..n]);
    if n > 0 && min <= v <= max then Some((v, s[n..])) else None
  }

  lemma {:induction false} PrefixNumber(s: string, j: nat, n: nat)
    requires j <= n <= |s| && forall i :: 0 <= i < n ==> IsDigit(s[i])
    ensures NumberOf(s[..j]) <= NumberOf(s[..n])
    decreases n
  {
    if j < n {
      PrefixNumber(s, j, n - 1);
      assert s[..n][..n - 1] == s[..n - 1];
    }
  }

  lemma {:induction false} SkipIs(s: string, n: nat)
    requires n <= |s| && (forall i :: 0 <= i < n ==> IsDigit(s[i])) && (n < |s| ==> !IsDigit(s[n]))
    ensures SkipDigits(s) == n
    decreases n
  {
    if n > 0 { SkipIs(s[1..], n - 1); }
  }

  /** getnum, which gives up as soon as the number exceeds max. */
  method GetNum(s: string, min: int, max: int) returns (r: Parse<int>)
    ensures r == NumberAt(s, min, max)
  {
    if s == "" || !IsDigit(s[0]) {
      return None;
    }
    var num, i := 0, 0;
    ghost var n := SkipDigits(s);
    while i < |s| && IsDigit(s[i])
      invariant i <= n && num == NumberOf(s[..i]) && (i > 0 ==> num <= max)
      decreases |s| - i
    {
      assert s[..i + 1][..i] == s[..i];
      num := num * 10 + DigitValue(s[i]);
      if num > max {
        PrefixNumber(s, i + 1, n);
        return None;
      }
      i := i + 1;
    }
    if num < min {
      return None;
    }
    return Some((num, s[i..]));
  }

  /** What follows a number must not continue it. */
  predicate NumberEnds(rest: string) { rest == "" || !IsDigit(rest[0]) }

  // ---- hh[:mm[:ss]]

  predicate StartsWith(s: string, c: char) { s != "" && s[0] == c }

  /** getsecs: up to 167:59:60. */
  function GetSecs(s: string): (r: Parse<int>)
    ensures r.Some? ==> 0 <= r.value.0 <= MAX_RULE_SECS
  {
    match NumberAt(s, 0, 167)
    case None => None
    case Some((h, s1)) =>
      if !StartsWith(s1, ':') then Some((h * 3600, s1)) else
      match NumberAt(s1[1..], 0, 59)
      case None => None
      case Some((m, s2)) =>
        if !StartsWith(s2, ':') then Some((h * 3600 + m * 60, s2)) else
        match NumberAt(s2[1..], 0, 60)
        case None => None
        case Some((sec, s3)) => Some((h * 3600 + m * 60 + sec, s3))
  }

  /** getoffset */
  function GetOffset(s: string): (r: Parse<int>)
    ensures r.Some? ==> -MAX_RULE_SECS <= r.value.0 <= MAX_RULE_SECS
  {
    var neg := StartsWith(s, '-');
    match GetSecs(if neg || StartsWith(s, '+') then s[1..] else s)
    case None => None
    case Some((secs, rest)) => Some((if neg then -secs else secs, rest))
  }

  // ---- rules

  /** The time behind a date, two in the morning by default. */
  function GetRuleTime(s: string): (r: Parse<int>)
    ensures r.Some? ==> 0 <= r.value.0 <= MAX_RULE_SECS
  {
    if StartsWith(s, '/') then GetSecs(s[1..]) else Some((2 * 3600, s))
  }

  /** getrule: date[/time], the date as Jn, Mm.n.d or n. */
  function GetRule(s: string): (r: Parse<Rule>)
    ensures r.Some? ==> ValidRule(r.value.0)
  {
    if StartsWith(s, 'J') then
      match NumberAt(s[1..], 1, 365)
      case None => None
      case Some((day, s1)) =>
        (match GetRuleTime(s1) case None => None case Some((time, rest)) => Some((JulianDay(day, time), rest)))
    else if StartsWith(s, 'M') then
      match NumberAt(s[1..], 1, 12)
      case None => None
      case Some((mon, s1)) =>
        if !StartsWith(s1, '.') then None else
        match NumberAt(s1[1..], 1, 5)
        case None => None
        case Some((week, s2)) =>
          if !StartsWith(s2, '.') then None else
          match NumberAt(s2[1..], 0, 6)
          case None => None
          case Some((day, s3)) =>
            match GetRuleTime(s3)
            case None => None
            case Some((time, rest)) => Some((MonthNthDay(mon, week, day, time), rest))
    else
      match NumberAt(s, 0, 365)
      case None => None
      case Some((day, s1)) =>
        match GetRuleTime(s1) case None => None case Some((time, rest)) => Some((DayOfYear(day, time), rest))
  }

  // ---- the whole string

  /** What a TZ string says: one offset, or two with the rules for changing between them. */
  datatype TzSpec = Fixed(std: string, stdoffset: int) | WithRules(posix: Posix)

  /** Length of an unquoted name: up to a digit, a comma or a sign. */
  function NameLength(s: string): (n: nat)
    ensures n <= |s|
  {
    if s == "" || IsDigit(s[0]) || s[0] == ',' || s[0] == '-' || s[0] == '+' then 0 else 1 + NameLength(s[1..])
  }

  function QuotedLength(s: string): (n: nat)
    ensures n <= |s| && (n < |s| ==> s[n] == '>')
  {
    if s == "" || s[0] == '>' then 0 else 1 + QuotedLength(s[1..])
  }

  /** A zone name, in angle brackets or plain. */
  function GetName(s: string): Parse<string>
  {
    if StartsWith(s, '<') then
      var n := QuotedLength(s[1..]);
      if 1 + n == |s| then None else Some((s[1..1 + n], s[2 + n..]))
    else
      var n := NameLength(s);
      Some((s[..n], s[n..]))
  }

  /** Both rules, behind a comma or semicolon, up to the end of the string. */
  function GetRules(s: string): (r: Option<(Rule, Rule)>)
    ensures r.Some? ==> ValidRule(r.value.0) && ValidRule(r.value.1)
  {
    if !StartsWith(s, ',') && !StartsWith(s, ';') then None else
    match GetRule(s[1..])
    case None => None
    case Some((start, s1)) =>
      if !StartsWith(s1, ',') then None else
      match GetRule(s1[1..])
      case None => None
      case Some((end, s2)) => if s2 == "" then Some((start, end)) else None
  }

  /** The rules used when a string gives none and no file of default rules loads. */
  const DEFAULT_RULES: string := ",M4.1.0,M10.5.0"

  function GetRulesOrDefault(s: string): (r: Option<(Rule, Rule)>)
    ensures r.Some? ==> ValidRule(r.value.0) && ValidRule(r.value.1)
  {
    GetRules(if s == "" then DEFAULT_RULES else s)
  }

  /** The DST offset; without one, DST is an hour ahead of standard time. */
  function GetDstOffset(stdoffset: int, s: string): (r: Parse<int>)
    requires -MAX_RULE_SECS <= stdoffset <= MAX_RULE_SECS
    ensures r.Some? ==> -MAX_RULE_SECS - 3600 <= r.value.0 <= MAX_RULE_SECS
  {
    if s == "" || s[0] == ',' || s[0] == ';' then Some((stdoffset - 3600, s)) else GetOffset(s)
  }

  /** The part of a TZ string behind the standard offset. */
  function GetDst(std: string, stdoffset: int, s: string): (r: Option<TzSpec>)
    requires -MAX_RULE_SECS <= stdoffset <= MAX_RULE_SECS
    ensures r.Some? && r.value.WithRules? ==> ValidPosix(r.value.posix)
  {
    if s == "" then Some(Fixed(std, stdoffset)) else
    match GetName(s)
    case None => None
    case Some((dst, s1)) =>
      match GetDstOffset(stdoffset, s1)
      case None => None
      case Some((dstoffset, s2)) =>
        match GetRulesOrDefault(s2)
        case None => None
        case Some((start, end)) => Some(WithRules(Posix(stdoffset, dstoffset, start, end, std, dst)))
  }

  /** tzparse up to the table. */
  function ParseTz(s: string): (r: Option<TzSpec>)
    ensures r.Some? && r.value.WithRules? ==> ValidPosix(r.value.posix)
  {
    match GetName(s)
    case None => None
    case Some((std, s1)) =>
      if s1 == "" then None else
      match GetOffset(s1)
      case None => None
      case Some((stdoffset, s2)) => GetDst(std, stdoffset, s2)
  }
}
