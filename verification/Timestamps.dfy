// Timestamp, interval and offset arithmetic of dt.c, in 64-bit signed and unsigned arithmetic.
module Timestamps {
  import opened Machine
  import opened DtTypes

  datatype Result<+T> = Ok(value: T) | Err(error: Status)

  datatype Order = Lesser | Equals | Greater

  // ---- meanings, as whole nanoseconds

  predicate ValidTimestamp(t: Timestamp) { t.nano < NANOS }
  predicate ValidInterval(d: Interval) { d.nanos < NANOS }

  function Instant(t: Timestamp): int { t.second * NANOS + t.nano }
  function Length(d: Interval): int { d.seconds * NANOS + d.nanos }
  function Shift(o: Offset): int { if o.isForward then Length(o.duration) else -Length(o.duration) }

  predicate InstantFits(n: int) { LONG_MIN * NANOS <= n < (LONG_MAX + 1) * NANOS }
  predicate LengthFits(n: int) { 0 <= n < (ULONG_MAX + 1) * NANOS }

  function OrderOf(a: int, b: int): Order
  {
    if a < b then Lesser else if a == b then Equals else Greater
  }

  lemma InstantDetermines(a: Timestamp, b: Timestamp)
    requires ValidTimestamp(a) && ValidTimestamp(b) && Instant(a) == Instant(b)
    ensures a == b
  {
  }

  lemma LengthDetermines(a: Interval, b: Interval)
    requires ValidInterval(a) && ValidInterval(b) && Length(a) == Length(b)
    ensures a == b
  {
  }

  // ---- timestamps

  /** dt_compare_timestamps */
  function CompareTimestamps(l: Timestamp, r: Timestamp): (c: Result<Order>)
    ensures if ValidTimestamp(l) && ValidTimestamp(r) then c == Ok(OrderOf(Instant(l), Instant(r)))
            else c == Err(DtInvalidArgument)
  {
    if !ValidTimestamp(l) || !ValidTimestamp(r) then Err(DtInvalidArgument)
    else if l.second > r.second then Ok(Greater)
    else if l.second < r.second then Ok(Lesser)
    else if l.nano > r.nano then Ok(Greater)
    else if l.nano < r.nano then Ok(Lesser)
    else Ok(Equals)
  }

  /** dt_offset_between: the signed difference of the seconds wraps, and is exact once unsigned. */
  function OffsetBetween(l: Timestamp, r: Timestamp): (o: Result<Offset>)
    ensures if ValidTimestamp(l) && ValidTimestamp(r)
            then && o.Ok? && ValidInterval(o.value.duration) && Shift(o.value) == Instant(r) - Instant(l)
                 && (o.value.isForward <==> Instant(l) <= Instant(r))
            else o == Err(DtInvalidArgument)
  {
    var cr := CompareTimestamps(l, r);
    if cr.Err? then Err(cr.error)
    else
      var lower, higher := if cr.value.Lesser? then l else r, if cr.value.Lesser? then r else l;
      var seconds := WrapULong(WrapLong(higher.second as int - lower.second));
      var nanos := higher.nano as int - lower.nano;
      assert seconds == higher.second as int - lower.second;
      if cr.value.Equals? then Ok(Offset(Interval(0, 0), true))
      else if nanos < 0 then Ok(Offset(Interval(WrapULong(seconds as int - 1), nanos + NANOS), cr.value.Lesser?))
      else Ok(Offset(Interval(seconds, nanos), cr.value.Lesser?))
  }

  /** dt_apply_interval_forward */
  function ApplyForward(t: Timestamp, d: Interval): (r: Result<Timestamp>)
    requires ValidTimestamp(t) && ValidInterval(d)
    ensures if InstantFits(Instant(t) + Length(d))
            then r.Ok? && ValidTimestamp(r.value) && Instant(r.value) == Instant(t) + Length(d)
            else r == Err(DtOverflow)
  {
    var nanos := WrapULong(t.nano as int + d.nanos);
    var carry := nanos / NANOS;
    var full := WrapULong(d.seconds as int + carry);
    if SumOverflows(d.seconds, carry) || full > WrapULong(LONG_MAX - t.second) then Err(DtOverflow)
    else
      var sum := WrapULong(full as int + t.second);
      assert WrapLong(sum) == full as int + t.second;
      Ok(Timestamp(WrapLong(sum), nanos % NANOS))
  }

  /** is_unsigned_long_sum_overflows */
  predicate SumOverflows(l: ULong, r: ULong)
    ensures SumOverflows(l, r) <==> l as int + r > ULONG_MAX
  {
    r > ULONG_MAX - l
  }

  /** dt_apply_interval_backward; -LONG_MIN wraps to itself and reads 2^63 once unsigned. */
  function ApplyBackward(t: Timestamp, d: Interval): (r: Result<Timestamp>)
    requires ValidTimestamp(t) && ValidInterval(d)
    ensures if InstantFits(Instant(t) - Length(d))
            then r.Ok? && ValidTimestamp(r.value) && Instant(r.value) == Instant(t) - Length(d)
            else r == Err(DtOverflow)
  {
    var minus := WrapULong(WrapLong(-LONG_MIN));
    assert minus == 0x8000_0000_0000_0000;
    if t.nano >= d.nanos then
      if d.seconds > WrapULong(minus as int + t.second) then Err(DtOverflow)
      else
        assert WrapLong(WrapULong(t.second as int - d.seconds)) == t.second as int - d.seconds;
        Ok(Timestamp(WrapLong(WrapULong(t.second as int - d.seconds)), t.nano - d.nanos))
    else
      if t.second == LONG_MIN || d.seconds > WrapULong(minus as int + t.second - 1) then Err(DtOverflow)
      else
        assert WrapLong(WrapULong(t.second as int - d.seconds - 1)) == t.second as int - d.seconds - 1;
        Ok(Timestamp(WrapLong(WrapULong(t.second as int - d.seconds - 1)), NANOS - (d.nanos - t.nano)))
  }

  /** dt_apply_offset: exact, and an overflow is reported exactly when there is one. */
  function ApplyOffset(t: Timestamp, o: Offset): (r: Result<Timestamp>)
    ensures if !ValidTimestamp(t) || !ValidInterval(o.duration) then r == Err(DtInvalidArgument)
            else if InstantFits(Instant(t) + Shift(o))
            then r.Ok? && ValidTimestamp(r.value) && Instant(r.value) == Instant(t) + Shift(o)
            else r == Err(DtOverflow)
  {
    if !ValidTimestamp(t) || !ValidInterval(o.duration) then Err(DtInvalidArgument)
    else if o.isForward then ApplyForward(t, o.duration)
    else ApplyBackward(t, o.duration)
  }

  /** Applying the offset between two timestamps to the first gives the second, at both ends of the range too. */
  lemma ApplyUndoesBetween(a: Timestamp, b: Timestamp)
    requires ValidTimestamp(a) && ValidTimestamp(b)
    ensures var o := OffsetBetween(a, b); o.Ok? && ApplyOffset(a, o.value) == Ok(b)
  {
    hide OffsetBetween, ApplyOffset;
    InstantDetermines(ApplyOffset(a, OffsetBetween(a, b).value).value, b);
  }

  /** And the offset between a timestamp and its shifted self has the shift applied. */
  lemma BetweenUndoesApply(a: Timestamp, o: Offset)
    requires ApplyOffset(a, o).Ok?
    ensures var back := OffsetBetween(a, ApplyOffset(a, o).value);
            back.Ok? && back.value.duration == o.duration && Shift(back.value) == Shift(o)
  {
    hide OffsetBetween, ApplyOffset;
    LengthDetermines(OffsetBetween(a, ApplyOffset(a, o).value).value.duration, o.duration);
  }

  // ---- intervals

  /** dt_init_interval */
  function InitInterval(seconds: ULong, nanos: ULong): (r: Result<Interval>)
    ensures var n := seconds * NANOS + nanos;
            if LengthFits(n) then r.Ok? && ValidInterval(r.value) && Length(r.value) == n else r == Err(DtOverflow)
  {
    var delta := nanos / NANOS;
    if SumOverflows(seconds, delta) then Err(DtOverflow)
    else Ok(Interval(seconds + delta, nanos % NANOS))
  }

  /** dt_compare_intervals */
  function CompareIntervals(l: Interval, r: Interval): (c: Result<Order>)
    ensures if ValidInterval(l) && ValidInterval(r) then c == Ok(OrderOf(Length(l), Length(r)))
            else c == Err(DtInvalidArgument)
  {
    if !ValidInterval(l) || !ValidInterval(r) then Err(DtInvalidArgument)
    else if l.seconds > r.seconds then Ok(Greater)
    else if l.seconds < r.seconds then Ok(Lesser)
    else if l.nanos > r.nanos then Ok(Greater)
    else if l.nanos < r.nanos then Ok(Lesser)
    else Ok(Equals)
  }

  /** dt_sum_intervals */
  function SumIntervals(l: Interval, r: Interval): (s: Result<Interval>)
    ensures if !ValidInterval(l) || !ValidInterval(r) then s == Err(DtInvalidArgument)
            else if LengthFits(Length(l) + Length(r))
            then s.Ok? && ValidInterval(s.value) && Length(s.value) == Length(l) + Length(r)
            else s == Err(DtOverflow)
  {
    if !ValidInterval(l) || !ValidInterval(r) then Err(DtInvalidArgument)
    else
      var carry := WrapULong(l.nanos as int + r.nanos) / NANOS;
      var full := WrapULong(r.seconds as int + carry);
      if SumOverflows(r.seconds, carry) || SumOverflows(l.seconds, full) then Err(DtOverflow)
      else Ok(Interval(l.seconds + full, WrapULong(l.nanos as int + r.nanos) % NANOS))
  }

  /** dt_sub_intervals: it fails exactly when the comparison says lesser. */
  function SubIntervals(l: Interval, r: Interval): (d: Result<Interval>)
    ensures if !ValidInterval(l) || !ValidInterval(r) then d == Err(DtInvalidArgument)
            else if Length(l) < Length(r) then d == Err(DtOverflow) && CompareIntervals(l, r) == Ok(Lesser)
            else d.Ok? && ValidInterval(d.value) && Length(d.value) == Length(l) - Length(r)
  {
    var cr := CompareIntervals(l, r);
    if cr.Err? then Err(cr.error)
    else if cr.value.Lesser? then Err(DtOverflow)
    else
      var borrow := if l.nanos < r.nanos then 1 else 0;
      var seconds := WrapULong(WrapULong(l.seconds as int - r.seconds) as int - borrow);
      var nanos := if l.nanos < r.nanos then WrapULong(NANOS + l.nanos - r.nanos) else l.nanos - r.nanos;
      Ok(Interval(seconds, nanos))
  }

  /** Subtracting what was added gives the other summand back. */
  lemma SubUndoesSum(a: Interval, b: Interval)
    requires SumIntervals(a, b).Ok?
    ensures SubIntervals(SumIntervals(a, b).value, b) == Ok(a)
    ensures SumIntervals(a, b) == SumIntervals(b, a)
  {
    hide SumIntervals, SubIntervals;
    LengthDetermines(SubIntervals(SumIntervals(a, b).value, b).value, a);
    LengthDetermines(SumIntervals(a, b).value, SumIntervals(b, a).value);
  }

  /** Adding what was subtracted gives the minuend back. */
  lemma SumUndoesSub(a: Interval, b: Interval)
    requires SubIntervals(a, b).Ok?
    ensures SumIntervals(SubIntervals(a, b).value, b) == Ok(a)
  {
    hide SumIntervals, SubIntervals;
    LengthDetermines(SumIntervals(SubIntervals(a, b).value, b).value, a);
  }

  /** Where an interval is longer than another, the difference the other way round is an overflow,
      and no interval of length zero. */
  lemma SubOfLonger()
    ensures SubIntervals(Interval(0, 0), Interval(1, 0)) == Err(DtOverflow)
  {
  }

  /** Offsets compose: after a first shift, the second one does what one shift by their sum does,
      overflow included. Where the first overflows, so does a longer shift in the same direction. */
  lemma ApplyTwice(t: Timestamp, first: Offset, second: Offset, whole: Offset)
    requires ValidTimestamp(t)
    requires ValidInterval(first.duration) && ValidInterval(second.duration) && ValidInterval(whole.duration)
    requires Shift(whole) == Shift(first) + Shift(second)
    ensures match ApplyOffset(t, first)
            case Ok(u) => ApplyOffset(u, second) == ApplyOffset(t, whole)
            case Err(_) => first.isForward == second.isForward ==> ApplyOffset(t, whole) == Err(DtOverflow)
  {
    hide ApplyOffset;
    var r := ApplyOffset(t, first);
    if r.Ok? && ApplyOffset(t, whole).Ok? {
      InstantDetermines(ApplyOffset(r.value, second).value, ApplyOffset(t, whole).value);
    }
  }

  /** Two shifts in the same direction are one by the sum of the intervals; where the sum is too long
      for an interval, the shifts overflow as well. */
  lemma ApplySum(t: Timestamp, d: Interval, e: Interval, isForward: bool)
    requires ValidTimestamp(t) && ValidInterval(d) && ValidInterval(e)
    ensures var first, sum := ApplyOffset(t, Offset(d, isForward)), SumIntervals(d, e);
            (if first.Err? then first else ApplyOffset(first.value, Offset(e, isForward)))
            == if sum.Err? then Err(DtOverflow) else ApplyOffset(t, Offset(sum.value, isForward))
  {
    hide ApplyOffset, SumIntervals;
    var first, sum := ApplyOffset(t, Offset(d, isForward)), SumIntervals(d, e);
    if sum.Ok? { ApplyTwice(t, Offset(d, isForward), Offset(e, isForward), Offset(sum.value, isForward)); }
  }
}
