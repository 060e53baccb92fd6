# A Dafny model of libdt's time-zone core

libdt turns timestamps into wall-clock readings of a time zone and back. This project models the
parts of it where that is hard, in 24 modules:

- `Machine`, `DtTypes`, `Sequences`, `Digits`: C integers and division, the public types, small shared definitions.
- `Calendar`: the proleptic Gregorian calendar over all integers. A year starts where the lengths of
  the years since 1970 add up to; a *reading* is year, month, day, hour, minute, second in
  lexicographic order; `Civil(s)` is the one valid reading that denotes `s` seconds.
- `CivilTime`: `timesub`, from an instant and an offset to a broken-down time, leap seconds included.
- `LeapSeconds`: what the clock shows around inserted leap seconds.
- `LocalTime`: the zone table (`struct state`, a class over fixed-size arrays), transition lookup,
  and the fold that serves all time from 400 years of table.
- `Normalise`, `FindTime`, `MakeTime`: `time2sub`, `time2` and `time1`, from a broken-down time back to
  an instant: normalisation, the binary search over all of `time_t`, the hunt for the requested kind of time.
- `PublicTime`, `LeapRoundTrip`: `dt_timestamp_to_representation` and `dt_representation_to_timestamp`
  with a zone, there and back: at a fixed offset, and at UTC with leap seconds.
- `ZoneChanges`, `ZoneRoundTrip`, `DstExample`: the same in zones whose transitions keep their distance,
  and which instants do not come back where the clock is set back.
- `TzString`, `TzSyntax`: the parser of POSIX TZ strings, and the grammar that it accepts.
- `PosixRules`, `RuleOrder`, `TzLoad`: the transition times that rules prescribe, the generated
  table, and how `tzload` splices it onto a file's table and sets `goback` and `goahead`.
- `Timestamps`: timestamp, offset and interval arithmetic in wrapping 64-bit integers.
- `Fraction`: the `%f` scanner, printer and parser.
- `Aliases`: the linked list of zone names that grows while it is walked.

Methods that loop or change state are proved against specification functions (`TimeSubSpec`,
`LocalSpec`, `Time1Spec`, `RuleAt`, `Spliced`, `Added`, ...); the lemmas say what those functions mean.
`int` is 32 bits, `long` and `time_t` 64 bits; conversions that can lose bits are written out
(`WrapInt`, `WrapLong`, `WrapULong`). A NULL result keeps what the code has already written to the
caller's buffer (`Outcome`), because `time2` reuses that buffer.

## Where the code and the obvious claim differ

- `timesub` takes `y - EPOCH_YEAR` in an `int` (src/unix/libtz/libtz.c:1541). For the 70 lowest years
  that `tm_year` can hold this overflows; with two's-complement wrap-around the weekday that `timesub`
  stores comes out wrong there and only there (`TimeSubMeaning`, `WeekdayWraps`). In `localsub` it is
  the year of the folded instant that counts, so a table in those years makes other years wrong too
  (`LocalMeaning`).
- The rule extension holds for all later time if and only if the table does not end between two rule
  transitions that coincide (`LoadedFollowsRules`, `CutShortExample`).
- A zone made from a TZ string alone is never tested for a repeat: it follows its rules for 600 years
  and keeps its last type ever after (`StringZoneSpan`), so it follows them for all time if and only if
  they never ask for DST in any later year (`StringZoneFollows`).
- A conversion back to a timestamp cannot return second -1, the error value (`FixedRoundTrip`).
- There and back is not the identity where the clock is set back: the instants that read alike then have
  one representation, of which one instant comes back. Exactly the instants within as many seconds of the
  change as the clock is set back are concerned (`RoundTripExactly`); at all others there and back is the
  identity, but for second -1 (`IdentityOffSetBacks`). In New York in 2024 that is the hour that comes
  twice on November 3 and nothing else (`OnlyTheRepeatedHour`, `HalfPastOne`).
- `dt_sub_intervals` reports an overflow where include/libdt/dt.h promises a zero interval (`SubOfLonger`).
- `dt_to_string` reports no overflow where a stretch of the format does not fit: it then prints the format's
  own characters (src/dt.c:704-718; `PrintsFullText`, `PrintsRawFormat`).
- The scanner also accepts `%0f`, which then stands for nine digits; its comment says 1 to 9 (`ZeroMeansNine`).
- A plain DST name takes a semicolon along, so rules may follow one only behind an offset or a name in
  angle brackets (`NameEnds` in `WellSpelled`, `SemicolonTaken`).

## Model

| member | source | states |
|---|---|---|
| Calendar.YearStartClosed | src/unix/libtz/libtz.c:1494-1497 | the year and leap-day counts that the code subtracts are exactly the lengths of the years in between, for all integer years |
| Calendar.ReadingOrder | src/unix/libtz/libtz.c:1664-1679 | comparing valid readings field by field compares the seconds they denote, and equal seconds mean equal fields |
| Calendar.CivilUnique | src/unix/libtz/libtz.c:1532-1562 | day count and calendar date determine each other: every valid reading is the civil reading of its own seconds |
| Calendar.CivilRepeats | src/unix/libtz/libtz.c:1252-1274 | moving by k times 400 years of seconds changes only the year, by 400 k, and keeps the weekday |
| CivilTime.LeapsThruEndOf | src/unix/libtz/libtz.c:1420-1426 | the recursion for negative years agrees with floor division |
| CivilTime.StepStaysShort | src/unix/libtz/libtz.c:1476-1499 | a pass of the year-guessing loop never passes the year sought and lowers a measure, also when the remaining days change sign |
| CivilTime.FindYear | src/unix/libtz/libtz.c:1473-1499 | the loop ends in the year of the day and its day of year, and gives up exactly when that year is no int |
| CivilTime.SettleDay | src/unix/libtz/libtz.c:1507-1531 | after the carries the day and second of day are those of the local second count; overflow exactly when its year is no int |
| CivilTime.StoreWeekday | src/unix/libtz/libtz.c:1537-1549 | the weekday formula gives (days + 4) mod 7, or three less where y - 1970 wraps |
| CivilTime.FindCorrection | src/unix/libtz/libtz.c:1445-1472 | correction of the last leap entry not after t, and how many seconds past 59 the instant is |
| CivilTime.CorrectionAt | src/unix/libtz/libtz.c:1445-1472 | the correction is that of the last entry not after t |
| CivilTime.LeapHitAt | src/unix/libtz/libtz.c:1451-1471 | an instant is hit exactly if its entry raises the correction, once for every entry of the unbroken run up to it |
| CivilTime.TimeSub | src/unix/libtz/libtz.c:1428-1568 | for every instant and offset the result, or the NULL and what it leaves in the buffer, is that of the civil specification |
| CivilTime.TimeSubMeaning | src/unix/libtz/libtz.c:1473-1563 | without leap seconds: when exactly it succeeds, that the fields are the date and time of t + offset, the day of year agrees with month and day, and the weekday is right if and only if year - 1970 fits an int |
| CivilTime.TimeSubShows | src/unix/libtz/libtz.c:1428-1568 | with any leap table and any offset: when exactly it succeeds, that it shows the local seconds less the correction plus the leap seconds hit, and what a failure leaves in the buffer |
| CivilTime.WeekdayWraps | src/unix/libtz/libtz.c:1540-1549 | a concrete instant with a right date and a wrong weekday |
| LeapSeconds.TimeSubShowsUtc | src/unix/libtz/libtz.c:1511-1557 | with a table of inserted seconds timesub shows the corrected civil reading plus the leap-second count |
| LeapSeconds.SixtyExactly | src/unix/libtz/libtz.c:1455-1471 | the second shown is 60 exactly at the listed instants |
| LeapSeconds.UtcIncreases | src/unix/libtz/libtz.c:1445-1472 | the UTC reading strictly increases with t, through every leap second |
| LocalTime.State.constructor | src/unix/libtz/libtz.c:1182-1191 | the state of an empty zone name, without a single type, serves UTC |
| LocalTime.FirstStandard | src/unix/libtz/libtz.c:1281-1287 | before the table: the first type that is not DST, or type 0 when all are |
| LocalTime.RepeatsCarryOver | src/unix/libtz/libtz.c:510-525 | whether an end of the table repeats depends on its entries and their types only |
| LocalTime.FindTransition | src/unix/libtz/libtz.c:1289-1301 | the binary search finds the last transition not after t, as a linear scan from the end does |
| LocalTime.FoldLands | src/unix/libtz/libtz.c:1233-1264 | the folded instant lies inside the table and needs no further fold, so the "cannot happen" return is unreachable and the recursion one deep |
| LocalTime.FoldExactly | src/unix/libtz/libtz.c:1233-1264 | the folded instant is whole 400-year cycles away, in the 400 years next to that end of the table; and it is t itself inside the table or where that end does not repeat |
| LocalTime.Fold | src/unix/libtz/libtz.c:1240-1259 | the nested divisions count 400-year cycles |
| LocalTime.LocalSub | src/unix/libtz/libtz.c:1216-1316 | localsub computes the specified reading for every instant, fold and year adjustment included |
| LocalTime.LocalMeaning | src/unix/libtz/libtz.c:1233-1310 | without leap seconds the reading is t plus the offset of the type in effect, with its tm_isdst, folded or not; day of year and weekday are right if and only if the year of the folded instant less 1970 fits an int |
| LocalTime.LocalShows | src/unix/libtz/libtz.c:1216-1316 | the same with leap seconds, the correction and hits being those of the folded instant |
| LocalTime.LocalSucceeds | src/unix/libtz/libtz.c:1216-1316 | localsub succeeds exactly where the years that it goes through fit |
| LocalTime.BeforeFirst | src/unix/libtz/libtz.c:1281-1287 | before the first transition of a table that does not repeat backward it shows the first type that is not DST, or type 0 when all are |
| LocalTime.FromTransition | src/unix/libtz/libtz.c:1289-1310 | from each transition to the next, and behind the last of a table that does not repeat forward, it shows the type of that transition |
| LocalTime.FoldOverflowIsNull | src/unix/libtz/libtz.c:1240-1277 | where the fold's 64-bit intermediates would overflow the year does not fit tm_year and the answer is NULL |
| Normalise.NormalizeOverflow | src/unix/libtz/libtz.c:1634-1647 | the carry brings the units into range, conserves the total, and reports overflow exactly when the tens leave the int range |
| Normalise.LongNormalizeOverflow | src/unix/libtz/libtz.c:1649-1662 | the same for the year as a long |
| Normalise.YearCarry | src/unix/libtz/libtz.c:1726-1739 | a step of one year at a fixed month is as long as the year whose February it contains |
| Normalise.NormalizeDate | src/unix/libtz/libtz.c:1726-1752 | the three loops keep the day number constant and end in a valid date, for any day of month |
| Normalise.NormalizeFields | src/unix/libtz/libtz.c:1701-1759 | arbitrary fields become a valid date and time of the same total; failure exactly when a carry or the year does not fit |
| Normalise.ModerateNormalises | src/unix/libtz/libtz.c:1701-1759 | every request with its year within a billion years and its other fields within 16 bits normalises, whatever is in range, with its seconds or without |
| Normalise.NormalFormIsCivil | src/unix/libtz/libtz.c:1701-1759 | the normalised fields are the civil reading of the total of the given ones |
| FindTime.TmComp | src/unix/libtz/libtz.c:1664-1679 | the sign of tmcomp is the lexicographic order |
| FindTime.ReadableRange | src/unix/libtz/libtz.c:1807-1813 | only instants within 2^60 seconds of the epoch have a reading, in any zone |
| FindTime.MiddleHalves | src/unix/libtz/libtz.c:1801-1806 | while the interval is wider than 2 the probe is strictly inside and the excess over 2 at least halves |
| FindTime.BudgetIsLogarithmic | src/unix/libtz/libtz.c:1800-1840 | the number of probes is at most n + 3 for widths below 2^n + 2 |
| FindTime.Search | src/unix/libtz/libtz.c:1786-1840 | in at most 67 probes the loop finds what the specified search finds |
| FindTime.FoundOrSkipped | src/unix/libtz/libtz.c:1800-1840 | what the search does not find the clock jumps over between two neighbouring seconds; no monotonicity is assumed |
| FindTime.NarrowedBudget | src/unix/libtz/libtz.c:1800-1840 | the probe budget falls in every pass |
| FindTime.Narrow | src/unix/libtz/libtz.c:1820-1838 | how the ends move after a miss |
| FindTime.HuntType | src/unix/libtz/libtz.c:1855-1881 | the double loop finds what the specified hunt finds: an instant that reads the request with its tm_isdst |
| FindTime.HuntMisses | src/unix/libtz/libtz.c:1855-1881 | where it finds nothing, no pair of types leads to such an instant |
| FindTime.HuntHits | src/unix/libtz/libtz.c:1855-1881 | what it finds comes by the pair of types met first, from the last types down |
| FindTime.HuntFinds | src/unix/libtz/libtz.c:1855-1881 | without leap seconds: from an instant that reads the request in the wrong kind of time it finds one in the right kind whenever there is any |
| FindTime.FindsKind | src/unix/libtz/libtz.c:1841-1881 | so search and hunt find an instant of reading and tm_isdst if there is one and the search does not miss the reading |
| FindTime.FindInstant | src/unix/libtz/libtz.c:1800-1883 | search and hunt together find an instant of the reading and tm_isdst asked for |
| FindTime.FoundOrUnfound | src/unix/libtz/libtz.c:1800-1883 | or there is none: the reading is jumped over, or read in the wrong kind of time only |
| MakeTime.Time2Sub | src/unix/libtz/libtz.c:1681-1893 | for every request the result, whether it is okay, and what is left in the buffer are the specified ones |
| MakeTime.AttemptMeaning | src/unix/libtz/libtz.c:1681-1893 | success: the instant's reading is stored and answers the request, tm_isdst included; failure: the request does not normalise, or the seconds drift, or no instant is found for what is searched for; with normalised seconds the buffer is as before |
| MakeTime.SavedMeaning | src/unix/libtz/libtz.c:1759-1784 | seconds beyond 59 are set aside in full: the search goes for second 0 of the minute, or 59 before 1970 |
| MakeTime.Time2 | src/unix/libtz/libtz.c:1895-1912 | the two attempts, the second one on the buffer that the first one leaves |
| MakeTime.Time2Meaning | src/unix/libtz/libtz.c:1895-1912 | together, for any tm_sec: the first attempt's answer or, where that fails, the second's; else WRONG with the buffer unchanged and no instant of the reading |
| MakeTime.Time2InRange | src/unix/libtz/libtz.c:1895-1912 | with tm_sec in 0..59 both attempts give the instant found for the normalised reading, or nothing |
| MakeTime.ResolvedMeaning | src/unix/libtz/libtz.c:1841-1892 | that instant reads exactly the normalised request with its tm_isdst; without it there is no such instant |
| MakeTime.TypesSeen | src/unix/libtz/libtz.c:1965-1973 | the buffer holds the types that transitions use, latest first |
| MakeTime.TypesUsed | src/unix/libtz/libtz.c:1965-1973 | they are exactly the used types, each once, and never overrun the buffer |
| MakeTime.LatestFirst | src/unix/libtz/libtz.c:1965-1973 | of two types in the list, the earlier one has the later last use |
| MakeTime.TryRetyped | src/unix/libtz/libtz.c:1984-1993 | a pass tries the request moved by the difference of the two offsets, and moves back what is left |
| MakeTime.RetypedSeconds | src/unix/libtz/libtz.c:1984-1987 | the moved request asks, in the other type, for the instant that the request itself asks for in its own |
| MakeTime.MoveUndone | src/unix/libtz/libtz.c:1984-1993 | moving back undoes the move, wrapped seconds included |
| MakeTime.Retry | src/unix/libtz/libtz.c:1974-1996 | the double loop over the used types, pass by pass |
| MakeTime.RetriesMeaning | src/unix/libtz/libtz.c:1974-1996 | it answers the first move between two used types to be met, all moves before it being unmet, or gives WRONG with the request restored and every move unmet, unless a move drifts |
| MakeTime.Time1 | src/unix/libtz/libtz.c:1914-1997 | for every request the result and what is left in the buffer are the specified ones |
| MakeTime.Time1Stores | src/unix/libtz/libtz.c:1914-1997 | any result but WRONG is an instant whose reading is stored |
| MakeTime.Time1Meaning | src/unix/libtz/libtz.c:1914-1997 | the request is answered, or its first move to the other kind of time that is met, or unmet in every way tried, unless seconds drift |
| MakeTime.Time1InRange | src/unix/libtz/libtz.c:1914-1950 | with tm_sec in 0..59 and tm_isdst unknown the result is what the search finds |
| PublicTime.RepresentationInverse | src/dt.c:463-510 | the conversions between struct tm and representation are inverse on valid readings, wrapped years included |
| PublicTime.RepresentationSpells | src/dt.c:496-510 | a broken-down time is spelled field by field where its year does not wrap |
| PublicTime.RepresentationTotal | src/dt.c:463-494 | a representation asks for the seconds its own fields add up to, for all their values, with tm_isdst unknown |
| PublicTime.TimestampToRepresentation | src/unix/dt_unix.c:71-96 | the representation of the instant's reading, or an error without zone or reading |
| PublicTime.RepresentsCivil | src/unix/dt_unix.c:71-96 | without leap seconds the fields are the civil reading of the instant plus the offset in effect |
| PublicTime.RepresentationToTimestamp | src/unix/dt_unix.c:98-138 | the instant that time1 finds, for any seconds, with the nanoseconds kept; an error exactly when that is -1 |
| PublicTime.DenotedFound | src/unix/dt_unix.c:98-138 | with seconds in 0..59 the conversion finds what the search finds, and fails exactly where that is nothing or -1 |
| PublicTime.DenotedReads | src/unix/dt_unix.c:98-138 | the timestamp reads the normalised representation, unless the clock jumps over that reading or the instant found is -1 |
| PublicTime.RoundTripReads | src/unix/dt_unix.c:71-138 | in any zone without leap seconds the way back ends on an instant of the same reading, unless the clock jumps over that reading or the instant found is -1 |
| PublicTime.JumpIsGap | src/unix/libtz/libtz.c:1817-1838 | a reading jumped over between two representable seconds lies in the gap of a change to a greater offset |
| PublicTime.FixedIncreases | src/unix/libtz/libtz.c:1281-1310 | at a fixed offset the reading is strictly increasing |
| PublicTime.RisingFinds | src/unix/libtz/libtz.c:1800-1840 | where the clock only moves forward the search finds the one instant of every reading that is shown |
| PublicTime.FixedSkipsNothing | src/unix/libtz/libtz.c:1800-1840 | at a fixed offset no representable reading is jumped over |
| PublicTime.FixedRoundTrip | src/unix/dt_unix.c:71-138 | at a fixed offset there and back is the identity, if and only if the second is not -1 |
| PublicTime.FixedThereAndBack | src/unix/dt_unix.c:71-138 | the two conversions, called in turn, do that |
| LeapRoundTrip.UtcRising | src/unix/libtz/libtz.c:1445-1472 | at UTC with inserted seconds the clock only moves forward |
| LeapRoundTrip.BaseReadable | src/unix/libtz/libtz.c:1759-1784 | a second 60 is reached from the readable instant that is searched for by the seconds set aside |
| LeapRoundTrip.LeapIdentity | src/unix/libtz/libtz.c:1895-1912 | there and back is the identity at UTC with inserted seconds, second 60 included, if and only if the second is not -1 |
| LeapRoundTrip.LeapThereAndBack | src/unix/dt_unix.c:71-138 | the two conversions, called in turn, do that |
| ZoneChanges.ChangeIsEntry | src/unix/libtz/libtz.c:1233-1301 | the offset changes only where the folded instant is a table entry, across the seams between 400-year cycles too |
| ZoneChanges.ChangesApart | src/unix/libtz/libtz.c:1233-1301 | changes of offset keep the distance of the table's entries for all time |
| ZoneChanges.NearReadable | src/unix/libtz/libtz.c:1473-1563 | every instant within a billion years of the epoch has a reading |
| ZoneChanges.ShownNotSkipped | src/unix/libtz/libtz.c:1800-1840 | where transitions are further apart than offsets, no reading that the clock shows is jumped over anywhere, so the search finds it |
| ZoneChanges.NearRequest | src/unix/libtz/libtz.c:1885-1891 | for no request near the epoch do the seconds set aside leave representable time |
| ZoneChanges.NearTime1 | src/unix/libtz/libtz.c:1914-1997 | so what time1 does with such a request is fully known |
| ZoneRoundTrip.SameReadingBack | src/unix/dt_unix.c:71-138 | there and back ends on an instant of the same reading, also in zones with DST |
| ZoneRoundTrip.ReturnsExactly | src/unix/dt_unix.c:71-138 | the conversions return the instant if and only if it is the one that the search finds for its reading, and not -1 |
| ZoneRoundTrip.ShownTwice | src/unix/libtz/libtz.c:1800-1840 | two instants show the same seconds only around a change that sets the clock back |
| ZoneRoundTrip.PartnerAcross | src/unix/libtz/libtz.c:1800-1840 | and every instant around such a change has a partner that does |
| ZoneRoundTrip.RoundTripExactly | src/unix/dt_unix.c:71-138 | all instants of one reading come back if and only if they do not lie around a set-back and are not -1 |
| ZoneRoundTrip.IdentityOffSetBacks | src/unix/dt_unix.c:71-138 | everywhere but around set-backs there and back is the identity, if and only if the second is not -1 |
| ZoneRoundTrip.ConvertsWhenShown | src/unix/dt_unix.c:98-138 | every representation whose year is within a billion and whose reading some near instant shows is converted to an instant of that reading, unless the one found is -1; fields out of range are carried |
| ZoneRoundTrip.ConvertsBeyondSixty | src/unix/dt_unix.c:98-138 | the same for any seconds: those set aside come on top |
| ZoneRoundTrip.LoadedZonesOrdinary | src/unix/libtz/libtz.c:474-525 | a zone loaded from a file, with its footer's rules, meets the conditions if file and rules keep their distance |
| ZoneRoundTrip.RuleZonesOrdinary | src/unix/libtz/libtz.c:1005-1033 | the zone of a TZ string with rules two months apart meets the conditions, with the difference of its offsets as the distance |
| ZoneRoundTrip.ThereAndBack | src/unix/dt_unix.c:71-138 | the two conversions, called in turn, do that |
| DstExample.OnlyTheRepeatedHour | src/unix/libtz/libtz.c:1005-1033 | with the usual rules only the hour that comes twice is around the set-back of 2024 |
| DstExample.HalfPastOne | src/unix/dt_unix.c:71-138 | two concrete instants read alike, and one of them does not come back |
| DstExample.HalfPastOneByKind | src/unix/libtz/libtz.c:1855-1881 | but each of the two is found when the kind of time is given |
| TzString.GetNum | src/unix/libtz/libtz.c:617-643 | the number spelled by the whole run of digits, if it is in range; giving up early at max is right |
| TzString.GetRule | src/unix/libtz/libtz.c:728-783 | what getrule accepts is in the ranges the table generator relies on |
| TzSyntax.ClockRead | src/unix/libtz/libtz.c:653-689 | every spelling of a time up to 167:59:60, minutes and seconds optional, is read with its value, if the rest does not continue it |
| TzSyntax.ClockWritten | src/unix/libtz/libtz.c:653-689 | whatever is read as a time is such a spelling |
| TzSyntax.SignedRead | src/unix/libtz/libtz.c:698-719 | so is every offset, signed or not |
| TzSyntax.SignedWritten | src/unix/libtz/libtz.c:698-719 | whatever is read as an offset is such a spelling |
| TzSyntax.RuleRead | src/unix/libtz/libtz.c:728-783 | every rule of the three kinds, with a time or at 2:00 by default |
| TzSyntax.RuleWritten | src/unix/libtz/libtz.c:728-783 | whatever is read as a rule is such a spelling |
| TzSyntax.NameRead | src/unix/libtz/libtz.c:577-610 | names in angle brackets, and plain ones up to a digit, comma or sign |
| TzSyntax.DefaultRules | src/unix/libtz/libtz.c:966-968 | the default rules are first Sunday in April to last Sunday in October |
| TzSyntax.TzRead | src/unix/libtz/libtz.c:919-989 | every well-spelled TZ string is read as it is meant, optional parts left out or not |
| TzSyntax.TzWritten | src/unix/libtz/libtz.c:919-989 | every accepted string is well spelled |
| TzSyntax.TzGrammar | src/unix/libtz/libtz.c:919-989 | the parser accepts exactly the well-spelled strings, each with its meaning |
| TzSyntax.TzRoundTrip | src/unix/libtz/libtz.c:919-989 | every pair of offsets with every pair of rules has a spelling and is read back from it |
| TzSyntax.UsualForm | src/unix/libtz/libtz.c:919-989 | a concrete string in the usual short form |
| TzSyntax.JulianForm | src/unix/libtz/libtz.c:919-989 | a concrete string with Jn rules, times and a zone ahead of UTC |
| TzSyntax.IndiaIsAhead | src/unix/libtz/libtz.c:698-719 | a concrete string without DST: a minus sign means ahead of UTC |
| TzSyntax.SemicolonTaken | src/unix/libtz/libtz.c:577-588 | a concrete string with a semicolon behind a plain DST name is turned away |
| PosixRules.ZellerIsRight | src/unix/libtz/libtz.c:839-851 | Zeller's formula is the weekday of the first of the month by day count, for every year from 1 on |
| PosixRules.NthDayIsRight | src/unix/libtz/libtz.c:853-873 | Mm.n.d names a day of the month with weekday d: the n-th, or the last when there is no n-th |
| PosixRules.JulianDayIsRight | src/unix/libtz/libtz.c:807-819 | Jn names the same month and day every year, never February 29 |
| PosixRules.FindNthDay | src/unix/libtz/libtz.c:843-868 | the loop over weeks finds that day |
| PosixRules.TransTime | src/unix/libtz/libtz.c:791-884 | transtime is the named day's midnight plus time of day plus offset, for all three kinds of rule |
| PosixRules.TakesEffect | src/unix/libtz/libtz.c:791-884 | a rule of any kind takes effect its time of day after midnight of the date it names, on a clock with the given offset |
| PosixRules.FillTable | src/unix/libtz/libtz.c:990-1033 | the table holds the prescribed transitions of 600 years in order, with their types |
| RuleOrder.InsideYear | src/unix/libtz/libtz.c:1010-1024 | rules that keep from the ends of the year put both transitions inside their own year |
| RuleOrder.MidDay | src/unix/libtz/libtz.c:807-874 | such rules, Mm.n.d from the third week of January to the second week of December among them, name days 8 to 350 of every year |
| RuleOrder.RulesSorted | src/unix/libtz/libtz.c:1005-1033 | the prescribed transitions are in time order over all years |
| RuleOrder.RulesRepeat | src/unix/libtz/libtz.c:791-884 | 800 entries on, the transitions recur 400 years later with equal types |
| RuleOrder.RuleIndexIsLast | src/unix/libtz/libtz.c:1005-1033 | the entry found from t's own year is the last transition of all years not after t |
| RuleOrder.RulesApart | src/unix/libtz/libtz.c:1005-1033 | rules two months apart within the year keep all transitions of all years at least 23 days apart, less the difference of the offsets |
| RuleOrder.PrescribedByYear | src/unix/libtz/libtz.c:1005-1033 | for rules of any kind: DST from start to end, standard time from end to start, after both what the later one brings, before both what the year before leaves |
| RuleOrder.PrescribedNorth | src/unix/libtz/libtz.c:1014-1024 | with DST starting two months before it ends, it is in effect from its start to its end in t's own year |
| RuleOrder.PrescribedSouth | src/unix/libtz/libtz.c:1014-1024 | and the other way round for standard time |
| TzLoad.SkipCovered | src/unix/libtz/libtz.c:490-495 | skips exactly the rule entries not after the file's last transition |
| TzLoad.AppendRules | src/unix/libtz/libtz.c:496-505 | appends the rest, types renumbered, as far as 1200 entries allow |
| TzLoad.Splice | src/unix/libtz/libtz.c:490-507 | the whole new table |
| TzLoad.SplicedWellTyped | src/unix/libtz/libtz.c:490-507 | splicing keeps the table sorted, within 1200 entries, every type below typecnt |
| TzLoad.FindRepeatBack | src/unix/libtz/libtz.c:511-516 | finds whether the first entry recurs 400 years later |
| TzLoad.FindRepeatAhead | src/unix/libtz/libtz.c:517-524 | finds whether the last entry occurred 400 years before |
| TzLoad.SetRepeats | src/unix/libtz/libtz.c:510-525 | the flags say exactly that and nothing else changes |
| TzLoad.Load | src/unix/libtz/libtz.c:490-525 | splice and flags together leave a valid table, the one the theorems below are about |
| TzLoad.RulesGoAhead | src/unix/libtz/libtz.c:517-524 | 801 rule entries at the end of a table make it repeat |
| TzLoad.RulesForever | src/unix/libtz/libtz.c:1233-1301 | from the first rule entry on, localsub picks the type the rules prescribe for t, however far beyond the table |
| TzLoad.RulesCutShort | src/unix/libtz/libtz.c:496-505 | a table that ends between two coinciding transitions has the wrong type at that instant |
| TzLoad.RoomForRules | src/unix/libtz/libtz.c:490-507 | behind a file with at most 399 transitions, all before the last rule transition of 2169, at least 801 rule entries find room |
| TzLoad.LoadedKeepsFile | src/unix/libtz/libtz.c:490-507 | up to the first appended entry the loaded zone keeps to the file's table |
| TzLoad.LoadedFollowsRules | src/unix/libtz/libtz.c:474-525 | a file behind which 801 rule entries find room, loaded with its footer's rules, follows them for all later time if and only if the table does not end between coinciding transitions |
| TzLoad.CutShortExample | src/unix/libtz/libtz.c:496-505 | concrete rules with which a file of one transition, once loaded, departs from them in 2569 |
| TzLoad.LoadedReading | src/unix/libtz/libtz.c:474-525 | its clock then shows UTC less the prescribed offset, with the prescribed tm_isdst |
| TzLoad.StringZoneSpan | src/unix/libtz/libtz.c:1192-1195 | the zone of a TZ string alone has the prescribed type for 600 years, standard time before and its last type after |
| TzLoad.StringZoneYears | src/unix/libtz/libtz.c:1192-1195 | so it follows its rules from their first transition on to the end of 2569 |
| TzLoad.StringZoneStops | src/unix/libtz/libtz.c:1192-1195 | so in every later year with two distinct transitions it departs from its rules |
| TzLoad.StringZoneFollows | src/unix/libtz/libtz.c:1192-1195 | it follows them for all time if and only if there is no such year |
| Timestamps.CompareTimestamps | src/dt.c:115-139 | the order of the instants in nanoseconds; invalid arguments are told apart |
| Timestamps.OffsetBetween | src/dt.c:141-183 | the offset is exactly the difference, although the seconds are subtracted in wrapping arithmetic; it is forward if and only if the second timestamp is not before the first |
| Timestamps.ApplyForward | src/dt.c:193-212 | exact sum; overflow if and only if it is no timestamp |
| Timestamps.ApplyBackward | src/dt.c:214-233 | exact difference; overflow if and only if it is no timestamp |
| Timestamps.ApplyOffset | src/dt.c:235-249 | exact shift in the given direction, overflow and invalid arguments exactly told apart |
| Timestamps.ApplyUndoesBetween | src/dt.c:141-249 | applying the offset between a and b to a gives b, at both ends of the range too |
| Timestamps.BetweenUndoesApply | src/dt.c:141-249 | the offset between a and a shifted has the shift applied |
| Timestamps.ApplyTwice | src/dt.c:193-249 | a second shift does what one shift by the sum of both does, overflow included, in either direction |
| Timestamps.ApplySum | src/dt.c:193-319 | two shifts in one direction are one by the sum of the intervals, overflows included |
| Timestamps.InitInterval | src/dt.c:251-268 | exact carry; overflow if and only if the total is too long |
| Timestamps.SumIntervals | src/dt.c:296-319 | exact sum; overflow if and only if it is too long |
| Timestamps.SubIntervals | src/dt.c:321-352 | exact difference; overflow if and only if the comparison says lesser |
| Timestamps.SubOfLonger | src/dt.c:321-352 | a longer interval subtracted from a shorter one is an overflow, not a zero interval |
| Timestamps.SubUndoesSum | src/dt.c:296-352 | subtracting an added interval gives the other one back, and sums commute |
| Timestamps.SumUndoesSub | src/dt.c:296-352 | adding a subtracted interval gives the minuend back |
| Fraction.Scan | src/dt.c:617-667 | the state machine returns the first %f or %digit f of the left-to-right tokenisation, by its characters: where it starts and ends, and the precision its digit stands for |
| Fraction.FirstByCharacters | src/dt.c:617-667 | that tokenisation, character by character, for every string |
| Fraction.FirstIsSpecifier | src/dt.c:639-660 | what is found is a specifier with the precision that its digit spells |
| Fraction.FoundBehindPlain | src/dt.c:617-667 | behind plain characters a specifier is found at once |
| Fraction.EscapedPercent | src/dt.c:639-660 | %%f holds no specifier, %%%f does, and %3f has three digits |
| Fraction.TokensCoverFormat | src/dt.c:617-667 | the tokens make up the whole format |
| Fraction.ZeroMeansNine | src/dt.c:636-654 | %0f is taken for a specifier of nine digits |
| Fraction.PrintFraction | src/dt.c:735-750 | the first N decimal places, or an overflow exactly when they do not fit |
| Fraction.ParseFraction | src/dt.c:828-847 | the value of the digits present, in billionths; failure exactly when there is none |
| Fraction.DigitsParsed | src/dt.c:828-847 | one to nine digits behind %f are that many decimal places |
| Fraction.DigitsRoundTrip | src/dt.c:735-750 | N digits printed and parsed give the nanoseconds without their last 9 - N digits, all of them for N = 9 |
| Fraction.PrintTurn | src/dt.c:699-751 | one turn of the printer, with its overflows and the one-character fallback |
| Fraction.ToString | src/dt.c:669-753 | the text of a whole format in a buffer of any size: stretches and fractions alternate as the repeated scan cuts them; each error exactly told apart, what is written fits, an empty format writes nothing |
| Fraction.PrintsFullText | src/dt.c:699-751 | where every stretch gives some text, the whole text, stretches and digits in order, is printed if and only if it fits |
| Fraction.PrintsRawFormat | src/dt.c:704-718 | a concrete format that does not fit comes out as itself, without an error |
| Fraction.FromString | src/dt.c:755-857 | the nanoseconds a text gives under a format, that it does not match, or that the format is too long |
| Fraction.FormatRoundTrip | src/dt.c:699-849 | printer and parser cut every format alike: what fits the buffer is read back, the nanoseconds cut to the last specifier's digits |
| Aliases.AliasList.Iterate | src/tzmapping.c:163-184 | at the i-th place the iterator yields the i-th node and moves to what is the next place at that moment |
| Aliases.AliasList.InsertAlias | src/tzmapping.c:44-66 | appends the alias unless it is there, and returns the new end |
| Aliases.AliasList.InsertMapping | src/tzmapping.c:69-90 | the three aliases of a row |
| Aliases.AliasList.AddMapping | src/tzmapping.c:92-108 | the aliases of all rows a name names |
| Aliases.AddedHolds | src/tzmapping.c:92-108 | adding appends without duplicates exactly the aliases of the named rows |
| Aliases.FirstRowFirst | src/tzmapping.c:92-108 | the list starts with the aliases of the first named row, so that row's Olson name is the first listed |
| Aliases.KeepsGrowing | src/tzmapping.c:141-149 | following an alias of the zone adds nothing foreign, and following the Windows name adds the whole zone |
| Aliases.Start | src/tzmapping.c:124-140 | the list starts with the rows that the name itself names, and is empty exactly for unknown names |
| Aliases.Follow | src/tzmapping.c:141-149 | a step of the walk keeps to the zone, and completes it once the Windows name is followed |
| Aliases.Pass | src/tzmapping.c:141-149 | the walk ends although the list grows, and has then added everything, although it stops at the node that was last when it was reached |
| Aliases.TzmapMap | src/tzmapping.c:124-161 | fails exactly on unknown names; otherwise yields without duplicates exactly the aliases of all rows of the name's Windows zone, those of the first row that holds the name in front |
| Aliases.SameAliases | src/tzmapping.c:124-161 | a Windows name and each of its Olson names get the same aliases |

## Left out

- File reading and decoding (`tzload` up to its sorting check), paths, clocks, memory allocation failure: I/O; tables start as arrays in memory, and the load of default rules inside `tzparse` fails.
- The sorting check of `tzload` (src/unix/libtz/libtz.c:435): it stops one pair short, so that a file's transitions are sorted is assumed.
- Splicing onto a file without transitions: the code then reads before its array (src/unix/libtz/libtz.c:493), so at least one is required.
- Leap tables whose first correction is not positive: the code then reads before its array (src/unix/libtz/libtz.c:1458).
- The part of `tzparse` that adjusts loaded default rules (src/unix/libtz/libtz.c:1034-1121): only reached with a file of default rules.
- Abbreviation storage and its length limits; a type carries its abbreviation as a string.
- Signed overflow outside the cases named above: the year-guessing loop evaluates `newy - 1` at INT_MIN, where the model takes the exact value and the result is NULL either way; intermediates of the fold are exact (see `FoldOverflowIsNull`).
- The start of the search interval (src/unix/libtz/libtz.c:1794-1798) is LONG_MIN, which the code reaches by an overflowing loop; `tmcomp` is exact.
- The `+ 0.5` of src/unix/libtz/libtz.c:1503, which is exact there.
- tm_gmtoff and tm_zone, the zone-less variants (`gmtsub`, `localtime`, `mktime` with a NULL zone), `asctime`, the STD_INSPIRED functions.
- Null pointer arguments, other than a missing zone state.
- `dt_representation_day_of_week`: its formula departs from Zeller's; the weekday and day of year it sets are not read on the way to a timestamp.
- `dt_is_leap_year`, `dt_validate_representation`, `dt_init_representation`: a calendar that is Julian before 1582, by design different from the one above; flat case distinctions.
- `dt_mul_interval`: floating point. The digit loops' `floor` and `pow` are exact on their range and modelled in integers.
- `strftime` and `strptime`: opaque functions on the stretches between fraction specifiers, where a text that is empty or does not fit its room makes `strftime` return 0; what a failed `dt_to_string` leaves in the buffer.
- scripts/transform.py, which writes the number of mapZone elements as the table size although an element can give several rows: the model's table is the rows the code looks at.
- LocalTime.State.constructor: does not leave `goback` and `goahead` open, which `tz_alloc` leaves unset for an empty zone name (src/unix/libtz/libtz.c:1182-1191), because their values are then those of uninitialised memory; they are taken as false.
- Nanoseconds beyond INT_MAX in `dt_to_string`: the code converts quotients of them to an int (src/dt.c:745), which is undefined.
- `dt_timezone_lookup`, `localtime_tz`, `mktime_tz`: short compositions of the parts above with I/O.
- src/win32: registry and WinAPI calls, and a strptime of flat branching.
