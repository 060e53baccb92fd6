// Fractional seconds in format strings: the scanner, printer and parser of dt.c.
module Fraction {
  import opened Machine
  import opened Digits
  import opened DtTypes

  // ---- tokens of a format string

  /** Plain characters, fraction specifiers %f and %<digit>f, and any other % with what it takes along. */
  datatype Token = Plain(c: char) | Fraction(precision: nat, text: string) | Other(text: string)

  function Text(t: Token): string
  {
    match t case Plain(c) => [c] case Fraction(_, text) => text case Other(text) => text
  }

  /** The first token; a digit after % takes the next character along, whatever it is. */
  function First(s: string): (t: Token)
    requires s != ""
    ensures 0 < |Text(t)| <= |s| && Text(t) == s[..|Text(t)|] && (t.Fraction? ==> t.precision <= 9)
  {
    if s[0] != '%' then Plain(s[0])
    else if |s| >= 2 && s[1] == 'f' then Fraction(0, s[..2])
    else if |s| >= 2 && !IsDigit(s[1]) then Other(s[..2])
    else if |s| >= 3 && s[2] == 'f' then Fraction(DigitValue(s[1]), s[..3])
    else if |s| >= 3 then Other(s[..3])
    else Other(s)
  }

  /** Left-to-right tokenisation. */
  function Tokens(s: string): seq<Token>
    decreases |s|
  {
    if s == "" then [] else [First(s)] + Tokens(s[|Text(First(s))|..])
  }

  function Flatten(ts: seq<Token>): string
  {
    if ts == [] then "" else Text(ts[0]) + Flatten(ts[1..])
  }

  /** Tokenising loses nothing. */
  lemma {:induction false} TokensCoverFormat(s: string)
    ensures Flatten(Tokens(s)) == s
    decreases |s|
  {
    if s != "" {
      var t, ts := First(s), Tokens(s);
      hide First, Text;
      TokensCoverFormat(s[|Text(t)|..]);
      assert ts[0] == t && ts[1..] == Tokens(s[|Text(t)|..]);
      assert s == s[..|Text(t)|] + s[|Text(t)|..];
    }
  }

  /** Number of tokens before the first fraction specifier. */
  function LeadCount(ts: seq<Token>): (k: nat)
    ensures k <= |ts|
    ensures forall i :: 0 <= i < k ==> !ts[i].Fraction?
    ensures k < |ts| ==> ts[k].Fraction?
  {
    if ts == [] || ts[0].Fraction? then 0 else 1 + LeadCount(ts[1..])
  }

  lemma {:induction false} FractionFits(s: string, k: nat)
    requires k < |Tokens(s)|
    ensures |Flatten(Tokens(s)[..k])| + |Text(Tokens(s)[k])| <= |s| && 0 < |Text(Tokens(s)[k])|
    ensures Tokens(s)[k].Fraction? ==> Tokens(s)[k].precision <= 9
    decreases k
  {
    hide First;
    var ts, n := Tokens(s), |Text(First(s))|;
    assert ts[1..] == Tokens(s[n..]);
    if k > 0 {
      FractionFits(s[n..], k - 1);
      assert ts[..k][1..] == Tokens(s[n..])[..k - 1];
    }
  }

  /** Where the scanner should stop: start, length and precision of the first fraction specifier. */
  function FirstFraction(s: string): (r: Option<(nat, nat, nat)>)
    ensures r.Some? ==> 0 < r.value.1 && r.value.0 + r.value.1 <= |s| && r.value.2 <= 9
  {
    var ts := Tokens(s);
    var k := LeadCount(ts);
    if k == |ts| then None else FractionFits(s, k); Some((|Flatten(ts[..k])|, |ts[k].text|, ts[k].precision))
  }

  /** Without the leading token the first fraction specifier is as far as before, less that token. */
  lemma FirstFractionStep(s: string)
    requires s != ""
    ensures var n, t := |Text(First(s))|, First(s);
            if t.Fraction? then FirstFraction(s) == Some((0, n, t.precision))
            else match FirstFraction(s[n..])
                 case None => FirstFraction(s) == None
                 case Some((pos, len, precision)) => FirstFraction(s) == Some((n + pos, len, precision))
  {
    hide First;
    var ts, rest := Tokens(s), Tokens(s[|Text(First(s))|..]);
    assert ts == [First(s)] + rest && ts[1..] == rest;
    if First(s).Fraction? {
      assert LeadCount(ts) == 0 && ts[..0] == [];
    } else {
      var k := LeadCount(rest);
      assert LeadCount(ts) == 1 + k && ts[..1 + k][1..] == rest[..k];
    }
  }

  /** A place found behind the first n characters. */
  function Moved(r: Option<(nat, nat, nat)>, n: nat): Option<(nat, nat, nat)>
  {
    match r case None => None case Some((pos, len, precision)) => Some((n + pos, len, precision))
  }

  /** The first fraction specifier, character by character: %f or a %, a digit and an f are one; any other
      character behind a %, or behind a % and a digit, is skipped with them. */
  lemma FirstByCharacters(s: string)
    ensures s == "" ==> FirstFraction(s) == None
    ensures s != "" && s[0] != '%' ==> FirstFraction(s) == Moved(FirstFraction(s[1..]), 1)
    ensures s == "%" ==> FirstFraction(s) == None
    ensures |s| >= 2 && s[0] == '%' && s[1] == 'f' ==> FirstFraction(s) == Some((0, 2, 0))
    ensures |s| >= 2 && s[0] == '%' && s[1] != 'f' && !IsDigit(s[1]) ==>
      FirstFraction(s) == Moved(FirstFraction(s[2..]), 2)
    ensures |s| == 2 && s[0] == '%' && IsDigit(s[1]) ==> FirstFraction(s) == None
    ensures |s| >= 3 && s[0] == '%' && IsDigit(s[1]) && s[2] == 'f' ==>
      FirstFraction(s) == Some((0, 3, DigitValue(s[1])))
    ensures |s| >= 3 && s[0] == '%' && IsDigit(s[1]) && s[2] != 'f' ==>
      FirstFraction(s) == Moved(FirstFraction(s[3..]), 3)
  {
    hide FirstFraction;
    NothingLeft();
    if s != "" {
      FirstFractionStep(s);
      assert |Text(First(s))| == |s| ==> s[|Text(First(s))|..] == "";
    }
  }

  /** What is found is a specifier: its characters, and the precision that they stand for. */
  lemma {:induction false} FirstIsSpecifier(s: string)
    ensures match FirstFraction(s)
            case None => true
            case Some((pos, len, precision)) =>
              && 2 <= len <= 3 && pos + len <= |s| && s[pos] == '%' && s[pos + len - 1] == 'f'
              && (len == 2 ==> precision == 0)
              && (len == 3 ==> IsDigit(s[pos + 1]) && precision == DigitValue(s[pos + 1]))
    decreases |s|
  {
    hide FirstFraction;
    FirstByCharacters(s);
    if s != "" {
      if s[0] != '%' { FirstIsSpecifier(s[1..]); }
      else if |s| >= 2 && s[1] != 'f' && !IsDigit(s[1]) { FirstIsSpecifier(s[2..]); }
      else if |s| >= 3 && s[1] != 'f' && s[2] != 'f' { FirstIsSpecifier(s[3..]); }
    }
  }

  /** Behind plain characters a specifier is found at once. */
  lemma {:induction false} FoundBehindPlain(plain: string, spec: string, rest: string)
    requires '%' !in plain
    requires spec == "%f" || (|spec| == 3 && spec[0] == '%' && IsDigit(spec[1]) && spec[2] == 'f')
    ensures FirstFraction(plain + (spec + rest))
         == Some((|plain|, |spec|, if |spec| == 2 then 0 else DigitValue(spec[1])))
  {
    hide FirstFraction;
    var s := plain + (spec + rest);
    FirstByCharacters(s);
    if plain == "" {
      assert s == spec + rest;
    } else {
      assert s[0] == plain[0] && s[1..] == plain[1..] + (spec + rest);
      FoundBehindPlain(plain[1..], spec, rest);
    }
  }

  /** An escaped % starts no specifier. */
  lemma EscapedPercent()
    ensures FirstFraction("%%f") == None && FirstFraction("%%%f") == Some((2, 2, 0))
    ensures FirstFraction("%3f") == Some((0, 3, 3))
  {
    hide FirstFraction;
    FirstByCharacters("%%f");
    FirstByCharacters("%%%f");
    FirstByCharacters("%3f");
    FirstByCharacters("%f");
    FirstByCharacters("f");
    FirstByCharacters("");
    assert "%%f"[2..] == "f" && "f"[1..] == "" && "%%%f"[2..] == "%f";
  }

  datatype ScanState = Initial | PercentFound | DigitFound

  /** dt_parse_fractional_seconds_format: the scanner returns the first %f or %<digit>f token. */
  method Scan(str: string) returns (r: Option<(nat, nat, nat)>)
    ensures r == FirstFraction(str)
    ensures match r
            case None => true
            case Some((pos, len, precision)) =>
              && 2 <= len <= 3 && pos + len <= |str| && str[pos] == '%' && str[pos + len - 1] == 'f'
              && (len == 2 ==> precision == 0)
              && (len == 3 ==> IsDigit(str[pos + 1]) && precision == DigitValue(str[pos + 1]))
  {
    hide FirstFraction;
    FirstIsSpecifier(str);
    var state, pos, start, parsed := Initial, 0, 0, 0;
    while pos < |str|
      invariant 0 <= start <= pos <= |str|
      invariant match state
                case Initial => Resumes(str, pos)
                case PercentFound => start == pos - 1 && parsed == 0 && str[start] == '%' && Resumes(str, start)
                case DigitFound => start == pos - 2 && str[start] == '%' && IsDigit(str[start + 1])
                                   && parsed == DigitValue(str[start + 1]) && Resumes(str, start)
    {
      match state {
        case Initial =>
          if str[pos] == '%' {
            start, parsed, state := pos, 0, PercentFound;
          } else {
            ResumesAfter(str, pos, 1);
          }
        case PercentFound =>
          if str[pos] == 'f' {
            FoundAt(str, start, 2, parsed);
            return Some((start, 2, 0));
          } else if IsDigit(str[pos]) {
            parsed, state := DigitValue(str[pos]), DigitFound;
          } else {
            ResumesAfter(str, start, 2);
            state := Initial;
          }
        case DigitFound =>
          if str[pos] == 'f' {
            FoundAt(str, start, 3, parsed);
            return Some((start, 3, parsed));
          } else {
            ResumesAfter(str, start, 3);
            state := Initial;
          }
      }
      pos := pos + 1;
    }
    if state != Initial { ResumesAfter(str, start, pos - start); }
    NothingLeft();
    assert str[|str|..] == "";
    return None;
  }

  /** Scanning may go on at position i as if the format began there. */
  predicate Resumes(str: string, i: nat)
  {
    i <= |str| &&
    match FirstFraction(str[i..])
    case None => FirstFraction(str) == None
    case Some((pos, len, precision)) => FirstFraction(str) == Some((i + pos, len, precision))
  }

  lemma NothingLeft()
    ensures FirstFraction("") == None
  {
    assert Tokens("") == [];
  }

  lemma ResumesAfter(str: string, i: nat, n: nat)
    requires i < |str| && Resumes(str, i) && !First(str[i..]).Fraction? && n == |Text(First(str[i..]))|
    ensures Resumes(str, i + n)
  {
    hide FirstFraction, First;
    FirstFractionStep(str[i..]);
    assert str[i..][n..] == str[i + n..];
  }

  lemma FoundAt(str: string, i: nat, len: nat, precision: nat)
    requires i < |str| && Resumes(str, i)
    requires var t := First(str[i..]); t.Fraction? && |t.text| == len && t.precision == precision
    ensures FirstFraction(str) == Some((i, len, precision))
  {
    hide FirstFraction;
    FirstFractionStep(str[i..]);
  }

  // ---- digits

  function Pow10(n: nat): (r: nat)
    ensures r > 0
  {
    if n == 0 then 1 else 10 * Pow10(n - 1)
  }

  /** The first n decimal places of nano billionths. */
  function Places(nano: nat, n: nat): (s: string)
    requires n <= 9
    ensures |s| == n && forall i :: 0 <= i < n ==> IsDigit(s[i])
  {
    if n == 0 then "" else Places(nano, n - 1) + [DigitChar(nano / Pow10(9 - n) % 10)]
  }

  /** Digits in effect: none, or 0, stands for all nine. */
  function Width(precision: nat): nat { if precision == 0 then 9 else precision }

  lemma DropDigit(nano: nat, n: nat)
    requires 1 <= n <= 9
    ensures nano / Pow10(10 - n) == nano / Pow10(9 - n) / 10
  {
    var p := Pow10(9 - n);
    assert Pow10(10 - n) == 10 * p;
    NestedQuotient(nano, p);
  }

  lemma NestedQuotient(a: nat, p: nat)
    requires p > 0
    ensures a / (10 * p) == a / p / 10
  {
    var q, r := a / p, a % p;
    var q', r' := q / 10, q % 10;
    assert p * q == 10 * p * q' + p * r' by { assert q == 10 * q' + r'; Distribute(p, q', r'); }
    MulGrows(p, r', 9);
    MulGrows(p, 0, r');
    DivMod(a, 10 * p, q', p * r' + r);
  }

  lemma Distribute(p: int, a: int, b: int)
    ensures p * (10 * a + b) == 10 * p * a + p * b
  {
  }

  /** Read as a number, the first n places are nano without its last 9 - n digits. */
  lemma {:induction false} PlacesValue(nano: nat, n: nat)
    requires n <= 9 && nano < NANOS
    ensures NumberOf(Places(nano, n)) == nano / Pow10(9 - n)
  {
    if n == 0 {
      assert Pow10(9) == NANOS by { assert Pow10(3) == 1000 && Pow10(6) == 1000000; }
    } else {
      PlacesValue(nano, n - 1);
      DropDigit(nano, n);
      var s := Places(nano, n);
      assert s[..|s| - 1] == Places(nano, n - 1);
    }
  }

  /** The printer's digit loop, with room for so many more characters before the terminator. The digits
      pass through an int. */
  method PrintFraction(nano: nat, precision: nat, room: nat) returns (r: Option<string>)
    requires precision <= 9 && nano <= INT_MAX
    ensures r == if Width(precision) <= room then Some(Places(nano, Width(precision))) else None
  {
    var width := if precision == 0 then 9 else precision;
    var s := "";
    for i := 0 to width
      invariant s == Places(nano, i) && i <= room
    {
      if i >= room {
        return None;
      }
      QuotientAtMost(nano, Pow10(8 - i));
      var shifted: Int := nano / Pow10(8 - i);
      s := s + [DigitChar(shifted % 10)];
    }
    return Some(s);
  }

  lemma QuotientAtMost(a: nat, p: nat)
    requires p > 0
    ensures 0 <= a / p <= a
  {
    var q := a / p;
    MulGrows(q, 1, p);
  }

  /** Length of the run of digits at the start of s, at most n. */
  function DigitRun(s: string, n: nat): (k: nat)
    ensures k <= n && k <= |s|
    ensures forall i :: 0 <= i < k ==> IsDigit(s[i])
    ensures k < n && k < |s| ==> !IsDigit(s[k])
  {
    if n == 0 || s == "" || !IsDigit(s[0]) then 0 else 1 + DigitRun(s[1..], n - 1)
  }

  /** The parser's digit loop: the value in billionths and the digits consumed. */
  method ParseFraction(str: string, precision: nat) returns (r: Option<(nat, nat)>)
    requires precision <= 9
    ensures var k := DigitRun(str, Width(precision));
            r == if k == 0 then None else Some((NumberOf(str[..k]) * Pow10(9 - k), k))
  {
    var width := if precision == 0 then 9 else precision;
    var nano, parsed := 0, 0;
    while parsed < width
      invariant parsed <= width && parsed <= |str|
      invariant forall i :: 0 <= i < parsed ==> IsDigit(str[i])
      invariant nano == NumberOf(str[..parsed])
    {
      if parsed >= |str| || !IsDigit(str[parsed]) {
        RunIs(str, width, parsed);
        if parsed == 0 {
          return None;
        }
        break;
      }
      nano := nano * 10;
      nano := nano + DigitValue(str[parsed]);
      assert str[..parsed + 1][..parsed] == str[..parsed];
      parsed := parsed + 1;
    }
    RunIs(str, width, parsed);
    nano := nano * Pow10(9 - parsed);
    return Some((nano, parsed));
  }

  lemma {:induction false} RunIs(s: string, n: nat, k: nat)
    requires k <= n && k <= |s| && forall i :: 0 <= i < k ==> IsDigit(s[i])
    requires k < n && k < |s| ==> !IsDigit(s[k])
    ensures DigitRun(s, n) == k
    decreases k
  {
    if k > 0 { RunIs(s[1..], n - 1, k - 1); }
  }

  /** Printing N digits and parsing them back, whatever follows, loses the last 9 - N digits only. */
  lemma DigitsRoundTrip(nano: nat, precision: nat, rest: string)
    requires nano < NANOS && precision <= 9
    ensures var n := Width(precision); var text := Places(nano, n) + rest; var k := DigitRun(text, n);
            k == n && NumberOf(text[..k]) * Pow10(9 - k) == nano - nano % Pow10(9 - n)
    ensures Width(precision) == 9 ==> nano % Pow10(9 - Width(precision)) == 0
  {
    var n := Width(precision);
    var text := Places(nano, n) + rest;
    RunIs(text, n, n);
    assert text[..n] == Places(nano, n);
    PlacesValue(nano, n);
    QuotientTimes(nano, Pow10(9 - n));
  }

  lemma QuotientTimes(a: nat, p: nat)
    requires p > 0
    ensures a / p * p == a - a % p
  {
  }

  // ---- whole formats

  /** What strftime appends: the text of a stretch of format, or nothing where it does not fit into
      the room, in which the terminator needs a place too. */
  function Formatted(emit: string -> string, stretch: string, room: nat): (s: string)
    ensures s == "" || |s| < room
  {
    if |emit(stretch)| < room then emit(stretch) else ""
  }

  function Prefixed(s: string, r: Option<string>): Option<string>
  {
    match r case None => None case Some(t) => Some(s + t)
  }

  /** The stretch of format before the first fraction specifier, serialised. */
  function Lead(fmt: string, pos: nat, emit: string -> string, room: nat): (s: string)
    requires pos <= |fmt|
    ensures s == "" || |s| < room
  {
    if pos > 0 then Formatted(emit, fmt[..pos], room) else ""
  }

  /** What one turn of the printer appends and how much of the format that takes, or an overflow. A
      stretch that gives nothing is an overflow too, unless it is the last one and would itself fit:
      then its first character is copied and the rest taken for a format of its own. */
  function Turn(fmt: string, nano: nat, emit: string -> string, room: nat): (r: Option<(string, nat)>)
    requires fmt != ""
    ensures r.Some? ==> |r.value.0| < room && 0 < r.value.1 <= |fmt|
  {
    match FirstFraction(fmt)
    case None =>
      var s := Formatted(emit, fmt, room);
      if s != "" then Some((s, |fmt|))
      else if |fmt| < room then Some((fmt[..1], 1))
      else None
    case Some((pos, len, precision)) =>
      var s := Lead(fmt, pos, emit, room);
      if (pos > 0 && s == "") || room <= |s| + Width(precision) then None
      else Some((s + Places(nano, Width(precision)), pos + len))
  }

  /** The text for a format, or an overflow: emit serialises the stretches between fraction specifiers. */
  function Printed(fmt: string, nano: nat, emit: string -> string, room: nat): (r: Option<string>)
    ensures r.Some? && room > 0 ==> |r.value| < room
    decreases |fmt|
  {
    if fmt == "" then Some("") else
    match Turn(fmt, nano, emit, room)
    case None => None
    case Some((s, n)) => Prefixed(s, Printed(fmt[n..], nano, emit, room - |s|))
  }

  /** The nanoseconds read from a text; eat consumes what matches a stretch of format and gives the rest. */
  function Parsed(fmt: string, text: string, nano: nat, eat: (string, string) -> Option<string>): Option<nat>
    decreases |fmt|
  {
    if fmt == "" then (if text == "" then Some(nano) else None)
    else if text == "" then None else
    match FirstFraction(fmt)
    case None => if eat(text, fmt) == Some("") then Some(nano) else None
    case Some((pos, len, precision)) =>
      var rest := if pos > 0 then eat(text, fmt[..pos]) else Some(text);
      if rest.None? then None else
      var k := DigitRun(rest.value, Width(precision));
      if k == 0 then None
      else Parsed(fmt[pos + len..], rest.value[k..], NumberOf(rest.value[..k]) * Pow10(9 - k), eat)
  }

  /** One turn of the loop of dt_to_string. */
  method PrintTurn(tail: string, nano: nat, emit: string -> string, room: nat) returns (r: Option<(string, nat)>)
    requires tail != "" && room > 0 && nano <= INT_MAX
    ensures r == Turn(tail, nano, emit, room)
  {
    hide FirstFraction, Places;
    var found := Scan(tail);
    if found.None? {
      var s := Formatted(emit, tail, room);
      if s == "" && |tail| < room {
        return Some((tail[..1], 1));
      }
      if s == "" {
        return None;
      }
      return Some((s, |tail|));
    }
    var pos, len, precision := found.value.0, found.value.1, found.value.2;
    var s := "";
    if pos > 0 {
      s := Formatted(emit, tail[..pos], room);
      if s == "" {
        return None;
      }
    }
    var digits := PrintFraction(nano, precision, room - |s| - 1);
    if digits.None? {
      return None;
    }
    return Some((s + digits.value, pos + len));
  }

  lemma Slice(s: string, i: nat, n: nat)
    requires i + n <= |s|
    ensures s[i..][n..] == s[i + n..]
  {
  }

  lemma AppendEmpty(s: string)
    ensures s + "" == s && "" + s == s
  {
  }

  lemma Regroup(a: string, b: string, r: Option<string>)
    ensures Prefixed(a, Prefixed(b, r)) == Prefixed(a + b, r)
  {
    if r.Some? { assert a + (b + r.value) == (a + b) + r.value; }
  }

  lemma Unprefixed(r: Option<string>)
    ensures Prefixed("", r) == r
  {
    if r.Some? { AppendEmpty(r.value); }
  }

  /** The loop of dt_to_string. */
  method PrintFormat(fmt: string, nano: nat, emit: string -> string, size: nat) returns (r: Option<string>)
    requires size > 0 && nano <= INT_MAX
    ensures r == Printed(fmt, nano, emit, size)
  {
    hide Turn;
    var start, out := 0, "";
    assert fmt[0..] == fmt;
    Unprefixed(Printed(fmt, nano, emit, size));
    while start < |fmt|
      invariant start <= |fmt| && |out| < size
      invariant Printed(fmt, nano, emit, size) == Prefixed(out, Printed(fmt[start..], nano, emit, size - |out|))
    {
      var turn := PrintTurn(fmt[start..], nano, emit, size - |out|);
      if turn.None? {
        return None;
      }
      var s, n := turn.value.0, turn.value.1;
      Slice(fmt, start, n);
      Regroup(out, s, Printed(fmt[start + n..], nano, emit, size - |out| - |s|));
      out := out + s;
      start := start + n;
    }
    assert fmt[start..] == "";
    AppendEmpty(out);
    return Some(out);
  }

  /** dt_to_string into a buffer of the given size, for formats that fit its own buffer. An empty format
      leaves the buffer as it was. */
  method ToString(fmt: string, nano: nat, emit: string -> string, size: nat, buffer: string)
    returns (status: Status, out: string)
    requires nano <= INT_MAX
    ensures status == if size == 0 then DtInvalidArgument
                      else if |fmt| < 255 && Printed(fmt, nano, emit, size).Some? then DtOk else DtOverflow
    ensures status == DtOk && fmt != "" ==> Printed(fmt, nano, emit, size) == Some(out) && |out| < size
    ensures status == DtOk && fmt == "" ==> out == buffer
  {
    hide Turn;
    if size == 0 {
      return DtInvalidArgument, buffer;
    }
    if |fmt| >= 255 {
      return DtOverflow, buffer;
    }
    var r := PrintFormat(fmt, nano, emit, size);
    if r.None? {
      return DtOverflow, buffer;
    }
    return DtOk, if fmt == "" then buffer else r.value;
  }

  /** One turn of the parser: the stretch of format before the next fraction specifier, then its digits. */
  lemma ParsedStep(fmt: string, text: string, nano: nat, eat: (string, string) -> Option<string>)
    ensures fmt == "" ==> Parsed(fmt, text, nano, eat) == if text == "" then Some(nano) else None
    ensures fmt != "" && text == "" ==> Parsed(fmt, text, nano, eat) == None
    ensures fmt != "" && text != "" && FirstFraction(fmt).None? ==>
      Parsed(fmt, text, nano, eat) == if eat(text, fmt) == Some("") then Some(nano) else None
    ensures fmt != "" && text != "" && FirstFraction(fmt).Some? ==>
      var f := FirstFraction(fmt).value;
      var rest := if f.0 > 0 then eat(text, fmt[..f.0]) else Some(text);
      if rest.None? then Parsed(fmt, text, nano, eat) == None else
      var k := DigitRun(rest.value, Width(f.2));
      Parsed(fmt, text, nano, eat)
        == if k == 0 then None
           else Parsed(fmt[f.0 + f.1..], rest.value[k..], NumberOf(rest.value[..k]) * Pow10(9 - k), eat)
  {
  }

  datatype ParseStep = Done(result: Option<nat>) | More(n: nat, rest: string, nano: nat)

  method ParseTurn(tail: string, text: string, nano: nat, eat: (string, string) -> Option<string>)
    returns (r: ParseStep)
    requires tail != "" && text != ""
    ensures r.Done? ==> Parsed(tail, text, nano, eat) == r.result
    ensures r.More? ==> 0 < r.n <= |tail| && Parsed(tail, text, nano, eat) == Parsed(tail[r.n..], r.rest, r.nano, eat)
  {
    hide FirstFraction, DigitRun, NumberOf, Pow10, Parsed;
    ParsedStep(tail, text, nano, eat);
    var found := Scan(tail);
    var rest := text;
    if found.None? {
      var left := eat(rest, tail);
      return Done(if left.None? || left.value != "" then None else Some(nano));
    }
    var pos, len, precision := found.value.0, found.value.1, found.value.2;
    if pos > 0 {
      var left := eat(rest, tail[..pos]);
      if left.None? {
        return Done(None);
      }
      rest := left.value;
    }
    var digits := ParseFraction(rest, precision);
    if digits.None? {
      return Done(None);
    }
    return More(pos + len, rest[digits.value.1..], digits.value.0);
  }

  /** dt_from_string, for formats that fit its buffer: the nanoseconds, or that the text does not match. */
  method FromString(text: string, fmt: string, eat: (string, string) -> Option<string>)
    returns (status: Status, nano: nat)
    ensures status == if |fmt| >= 255 then DtOverflow
                      else if Parsed(fmt, text, 0, eat).Some? then DtOk else DtInvalidArgument
    ensures status == DtOk ==> Parsed(fmt, text, 0, eat) == Some(nano)
  {
    if |fmt| >= 255 {
      return DtOverflow, 0;
    }
    var r := ParseFormat(text, fmt, eat);
    if r.None? {
      return DtInvalidArgument, 0;
    }
    return DtOk, r.value;
  }

  /** The loop of dt_from_string. */
  method ParseFormat(text: string, fmt: string, eat: (string, string) -> Option<string>) returns (r: Option<nat>)
    ensures r == Parsed(fmt, text, 0, eat)
  {
    hide Parsed;
    assert fmt[0..] == fmt;
    var start, rest, nano := 0, text, 0;
    while true
      invariant start <= |fmt| && Parsed(fmt, text, 0, eat) == Parsed(fmt[start..], rest, nano, eat)
      decreases |fmt| - start
    {
      ghost var tail := fmt[start..];
      ParsedStep(tail, rest, nano, eat);
      if start < |fmt| {
        if rest == "" {
          return None;
        }
      } else {
        return if rest != "" then None else Some(nano);
      }
      var turn := ParseTurn(fmt[start..], rest, nano, eat);
      if turn.Done? {
        return turn.result;
      }
      Slice(fmt, start, turn.n);
      start, rest, nano := start + turn.n, turn.rest, turn.nano;
    }
  }

  // ---- what is printed, whatever the room

  /** The text that a format stands for. */
  function FullText(fmt: string, nano: nat, emit: string -> string): string
    decreases |fmt|
  {
    if fmt == "" then "" else
    match FirstFraction(fmt)
    case None => emit(fmt)
    case Some((pos, len, precision)) =>
      (if pos > 0 then emit(fmt[..pos]) else "")
      + (Places(nano, Width(precision)) + FullText(fmt[pos + len..], nano, emit))
  }

  /** Every stretch of the format between fraction specifiers gives some text. */
  predicate GivesText(fmt: string, emit: string -> string)
    decreases |fmt|
  {
    fmt == "" ||
    match FirstFraction(fmt)
    case None => emit(fmt) != ""
    case Some((pos, len, precision)) => (pos > 0 ==> emit(fmt[..pos]) != "") && GivesText(fmt[pos + len..], emit)
  }

  lemma FullParts(fmt: string, nano: nat, emit: string -> string, pos: nat, len: nat, precision: nat)
    requires FirstFraction(fmt) == Some((pos, len, precision)) && fmt != "" && GivesText(fmt, emit)
    requires 0 < len && pos + len <= |fmt| && precision <= 9
    ensures GivesText(fmt[pos + len..], emit) && (pos > 0 ==> emit(fmt[..pos]) != "")
    ensures FullText(fmt, nano, emit)
         == (if pos > 0 then emit(fmt[..pos]) else "")
            + (Places(nano, Width(precision)) + FullText(fmt[pos + len..], nano, emit))
  {
    hide FirstFraction, Places;
  }

  lemma FullStep(fmt: string, nano: nat, emit: string -> string, room: nat, pos: nat, len: nat, precision: nat)
    requires FirstFraction(fmt) == Some((pos, len, precision)) && fmt != "" && GivesText(fmt, emit)
    requires 0 < len && pos + len <= |fmt| && precision <= 9
    requires |FullText(fmt, nano, emit)| < room
    ensures GivesText(fmt[pos + len..], emit)
    ensures var piece := Lead(fmt, pos, emit, room) + Places(nano, Width(precision));
            && |piece| < room && Turn(fmt, nano, emit, room) == Some((piece, pos + len))
            && FullText(fmt, nano, emit) == piece + FullText(fmt[pos + len..], nano, emit)
  {
    hide FirstFraction, Places, FullText, GivesText;
    FullParts(fmt, nano, emit, pos, len, precision);
    var lead := if pos > 0 then emit(fmt[..pos]) else "";
    Associate(lead, Places(nano, Width(precision)), FullText(fmt[pos + len..], nano, emit));
    assert Lead(fmt, pos, emit, room) == lead;
  }

  lemma Associate(a: string, b: string, c: string)
    ensures a + (b + c) == (a + b) + c
  {
  }

  lemma {:induction false} FullFits(fmt: string, nano: nat, emit: string -> string, room: nat)
    requires GivesText(fmt, emit) && |FullText(fmt, nano, emit)| < room
    ensures Printed(fmt, nano, emit, room) == Some(FullText(fmt, nano, emit))
    decreases |fmt|
  {
    hide FirstFraction, Places, Lead, Turn, FullText, GivesText;
    if fmt == "" {
      EmptyText(nano, emit);
    } else {
      match FirstFraction(fmt) {
        case None =>
          WholeStretch(fmt, nano, emit);
          LastStretch(fmt, nano, emit, room);
        case Some((pos, len, precision)) =>
          FullStep(fmt, nano, emit, room, pos, len, precision);
          var rest := fmt[pos + len..];
          FullFits(rest, nano, emit, room - |Turn(fmt, nano, emit, room).value.0|);
      }
    }
  }

  lemma EmptyText(nano: nat, emit: string -> string)
    ensures FullText("", nano, emit) == ""
  {
  }

  lemma WholeStretch(fmt: string, nano: nat, emit: string -> string)
    requires fmt != "" && FirstFraction(fmt).None? && GivesText(fmt, emit)
    ensures FullText(fmt, nano, emit) == emit(fmt) != ""
  {
    hide FirstFraction;
  }

  /** Where every stretch gives some text, the text of the format is printed if and only if it fits. */
  lemma PrintsFullText(fmt: string, nano: nat, emit: string -> string, room: nat)
    requires room > 0 && GivesText(fmt, emit)
    ensures Printed(fmt, nano, emit, room) == Some(FullText(fmt, nano, emit)) <==> |FullText(fmt, nano, emit)| < room
  {
    hide Printed, FullText, GivesText;
    if |FullText(fmt, nano, emit)| < room { FullFits(fmt, nano, emit, room); }
  }

  function YearOnly(stretch: string): string { if stretch == "%Y" then "2024" else stretch }

  /** Where it does not fit, what is printed can be the format itself, and no overflow. */
  lemma PrintsRawFormat()
    ensures FullText("%Y", 0, YearOnly) == "2024" && Printed("%Y", 0, YearOnly, 4) == Some("%Y")
  {
    var fmt, tail := "%Y", "Y";
    FirstByCharacters(fmt);
    FirstByCharacters(tail);
    NothingLeft();
    assert fmt[2..] == "" && tail[1..] == "" && fmt[1..] == tail && fmt[..1] == "%" && "%" + tail == fmt;
    hide FirstFraction;
    LastStretch(tail, 0, YearOnly, 3);
    assert Turn(fmt, 0, YearOnly, 4) == Some((fmt[..1], 1));
    assert Printed(fmt, 0, YearOnly, 4) == Prefixed(fmt[..1], Printed(fmt[1..], 0, YearOnly, 3));
    assert FullText(fmt, 0, YearOnly) == YearOnly(fmt);
  }

  // ---- printer and parser

  /** Every stretch of the format gives some text, and eat takes back exactly that text, at each
      stretch as it comes up. */
  predicate ReadsBack(fmt: string, nano: nat, emit: string -> string, eat: (string, string) -> Option<string>,
                      room: nat)
    requires Printed(fmt, nano, emit, room).Some?
    decreases |fmt|
  {
    hide FirstFraction, Places;
    fmt == "" ||
    match FirstFraction(fmt)
    case None => Formatted(emit, fmt, room) != "" && eat(emit(fmt), fmt) == Some("")
    case Some((pos, len, precision)) =>
      var s, text := Lead(fmt, pos, emit, room), Printed(fmt, nano, emit, room).value;
      && (pos > 0 ==> eat(text, fmt[..pos]) == Some(text[|s|..]))
      && ReadsBack(fmt[pos + len..], nano, emit, eat, room - (|s| + Width(precision)))
  }

  lemma ModBound(a: nat, p: nat)
    requires p > 0
    ensures 0 <= a % p <= a
  {
    if a < p { DivMod(a, p, 0, a); }
  }

  /** nano without its last 9 - n digits. */
  function Truncated(nano: nat, n: nat): nat
    requires n <= 9
  {
    ModBound(nano, Pow10(9 - n));
    nano - nano % Pow10(9 - n)
  }

  /** The nanoseconds a format keeps: those of its last fraction specifier. */
  function Kept(fmt: string, nano: nat, default: nat): nat
    decreases |fmt|
  {
    match FirstFraction(fmt)
    case None => default
    case Some((pos, len, precision)) =>
      Kept(fmt[pos + len..], nano, Truncated(nano, Width(precision)))
  }

  lemma TurnStep(fmt: string, nano: nat, emit: string -> string, room: nat, pos: nat, len: nat, precision: nat)
    requires FirstFraction(fmt) == Some((pos, len, precision)) && fmt != "" && Turn(fmt, nano, emit, room).Some?
    ensures 0 < pos + len <= |fmt| && precision <= 9
    ensures var s := Lead(fmt, pos, emit, room);
            |s| + Width(precision) < room
            && Turn(fmt, nano, emit, room) == Some((s + Places(nano, Width(precision)), pos + len))
  {
    hide FirstFraction, Places, Lead;
  }

  /** What is printed behind the first fraction specifier. */
  lemma PrintedStep(fmt: string, nano: nat, emit: string -> string, room: nat, pos: nat, len: nat, precision: nat)
    requires FirstFraction(fmt) == Some((pos, len, precision)) && fmt != "" && Printed(fmt, nano, emit, room).Some?
    ensures 0 < pos + len <= |fmt| && precision <= 9
    ensures var s := Lead(fmt, pos, emit, room);
            |s| + Width(precision) < room &&
            var tail := Printed(fmt[pos + len..], nano, emit, room - (|s| + Width(precision)));
            tail.Some? && Printed(fmt, nano, emit, room).value == s + (Places(nano, Width(precision)) + tail.value)
  {
    hide FirstFraction, Places, Lead, Turn;
    TurnStep(fmt, nano, emit, room, pos, len, precision);
    var s := Lead(fmt, pos, emit, room);
    var tail := Printed(fmt[pos + len..], nano, emit, room - (|s| + Width(precision)));
    Regroup(s, Places(nano, Width(precision)), tail);
  }

  lemma LastStretch(fmt: string, nano: nat, emit: string -> string, room: nat)
    requires fmt != "" && FirstFraction(fmt).None? && Formatted(emit, fmt, room) != ""
    ensures Printed(fmt, nano, emit, room) == Some(emit(fmt))
  {
    hide FirstFraction;
    assert fmt[|fmt|..] == "";
    AppendEmpty(emit(fmt));
  }

  /** The parser's turn on what the printer's turn has written. */
  lemma FractionRoundTrip(fmt: string, nano: nat, n0: nat, eat: (string, string) -> Option<string>,
                          pos: nat, len: nat, precision: nat, s: string, tail: string)
    requires fmt != "" && FirstFraction(fmt) == Some((pos, len, precision)) && nano < NANOS
    requires precision <= 9 && pos + len <= |fmt|
    requires var rest := Places(nano, Width(precision)) + tail;
             if pos > 0 then eat(s + rest, fmt[..pos]) == Some(rest) else s == ""
    ensures Parsed(fmt, s + (Places(nano, Width(precision)) + tail), n0, eat)
         == Parsed(fmt[pos + len..], tail, Truncated(nano, Width(precision)), eat)
  {
    hide FirstFraction, DigitRun, NumberOf, Pow10, Parsed, Places;
    var n := Width(precision);
    var rest := Places(nano, n) + tail;
    ParsedStep(fmt, s + rest, n0, eat);
    DigitsRoundTrip(nano, precision, tail);
    assert rest[n..] == tail;
    AppendEmpty(rest);
  }

  lemma ReadsBackStep(fmt: string, nano: nat, emit: string -> string, eat: (string, string) -> Option<string>,
                      room: nat, pos: nat, len: nat, precision: nat)
    returns (room': nat)
    requires fmt != "" && FirstFraction(fmt) == Some((pos, len, precision))
    requires Printed(fmt, nano, emit, room).Some? && ReadsBack(fmt, nano, emit, eat, room)
    ensures precision <= 9 && 0 < len && pos + len <= |fmt|
    ensures var tail := Printed(fmt[pos + len..], nano, emit, room');
            && tail.Some? && ReadsBack(fmt[pos + len..], nano, emit, eat, room')
            && var s, rest := Lead(fmt, pos, emit, room), Places(nano, Width(precision)) + tail.value;
               && Printed(fmt, nano, emit, room).value == s + rest
               && (if pos > 0 then eat(s + rest, fmt[..pos]) == Some(rest) else s == "")
  {
    hide FirstFraction, Places, Printed;
    PrintedStep(fmt, nano, emit, room, pos, len, precision);
    room' := room - (|Lead(fmt, pos, emit, room)| + Width(precision));
    var s, rest := Lead(fmt, pos, emit, room),
                   Places(nano, Width(precision)) + Printed(fmt[pos + len..], nano, emit, room').value;
    assert (s + rest)[|s|..] == rest;
  }

  /** Printer and parser cut the format the same way, so the nanoseconds come back, cut to the
      digits of the last fraction specifier. */
  lemma {:induction false} FormatRoundTrip(fmt: string, nano: nat, n0: nat, room: nat,
                                           emit: string -> string, eat: (string, string) -> Option<string>)
    requires nano < NANOS && Printed(fmt, nano, emit, room).Some? && ReadsBack(fmt, nano, emit, eat, room)
    ensures Parsed(fmt, Printed(fmt, nano, emit, room).value, n0, eat) == Some(Kept(fmt, nano, n0))
    decreases |fmt|
  {
    hide FirstFraction, DigitRun, NumberOf, Pow10, Parsed, Places, Truncated, Lead, Turn;
    NothingLeft();
    match FirstFraction(fmt) {
      case None =>
        if fmt != "" { LastStretch(fmt, nano, emit, room); }
        ParsedStep(fmt, Printed(fmt, nano, emit, room).value, n0, eat);
      case Some((pos, len, precision)) =>
        hide ReadsBack;
        var room' := ReadsBackStep(fmt, nano, emit, eat, room, pos, len, precision);
        var tail := Printed(fmt[pos + len..], nano, emit, room').value;
        FractionRoundTrip(fmt, nano, n0, eat, pos, len, precision, Lead(fmt, pos, emit, room), tail);
        FormatRoundTrip(fmt[pos + len..], nano, Truncated(nano, Width(precision)), room', emit, eat);
    }
  }

  /** From one to nine digits are read as that many decimal places. */
  lemma DigitsParsed(d: string, eat: (string, string) -> Option<string>)
    requires 1 <= |d| <= 9 && forall i :: 0 <= i < |d| ==> IsDigit(d[i])
    ensures Parsed("%f", d, 0, eat) == Some(NumberOf(d) * Pow10(9 - |d|))
  {
    hide FirstFraction, Parsed, NumberOf, Pow10, DigitRun;
    var fmt, k := "%f", DigitRun(d, Width(0));
    FirstByCharacters(fmt);
    ParsedStep(fmt, d, 0, eat);
    RunIs(d, 9, |d|);
    assert d[..k] == d && d[k..] == "" && fmt[2..] == "";
    assert FirstFraction(fmt).value == (0, 2, 0);
    var v: nat := NumberOf(d[..k]) * Pow10(9 - k);
    assert Parsed(fmt, d, 0, eat) == Parsed(fmt[2..], d[k..], v, eat);
    ParsedStep(fmt[2..], d[k..], v, eat);
    assert k == |d| && v == NumberOf(d) * Pow10(9 - |d|);
  }

  /** The digit 0 is taken for a number of places too, and stands for nine. */
  lemma ZeroMeansNine()
    ensures FirstFraction("%0f") == Some((0, 3, 0)) && Width(0) == 9
  {
    assert First("%0f") == Fraction(0, "%0f");
    FirstFractionStep("%0f");
  }
}
