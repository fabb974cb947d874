# lua-tz in Dafny

A model of the C core of lua-tz, a Lua module that converts between instants (seconds since 1970, leap seconds ignored) and civil date and time fields in any zone of the system's TZif database. It covers both revisions of the C source: `src/tz.c` (current) and `tz.c` (older). The model covers:

- **`TZif`** (`tzif.dfy`): the TZif reader (`tz_readheader`, `tz_read`).
  - The bytes of a zone file are decoded by a pure function, `Decode`.
  - `Read`, a method with the same loops as the C code, is proved equal to it.
  - Every zone it returns is proved well formed.
  - A version 2+ file skips the 32-bit block and is read from its second header.
- **`Lookup`** (`lookup.dfy`): `tz_find` of both revisions, as methods with the C loops.
  - They are specified by a recursive model of the bisection.
  - That model is proved to find the last transition at or before the instant when the transitions ascend. It finds a boundary even when they do not, because the loader never checks the order.
  - The current revision steps back one transition inside a repeated hour. The lemmas state when that happens.
  - The older revision walks back to the nearest transition with the preferred daylight saving flag, in either direction of the lookup.
- **`Calendar`** (`calendar.dfy`, with `carith.dfy` for C's truncating `/` and `%`): the Fliegel–van Flandern arithmetic of `tz_date` and `tz_time`, and `days()`.
  - Decomposing an instant from Julian Day 0 on yields a valid date.
  - Composition and decomposition invert each other, at the day level and at the second level.
  - Out-of-range fields carry into the next unit.
  - The landmarks hold: the epoch is a Thursday (`wday` 5, counting Sunday as 1), and November 24, -4713 is Julian Day 0.
- **`Tz`** (`tz.dfy`):
  - zone names and file names (`tz_data`);
  - the cache of loaded zones, a `Registry` class whose `cache` map only grows;
  - `tz.info`, `tz.date` and `tz.time`, as methods against pure specifications;
  - the round trips between dates and instants, and where the two revisions agree.

The file system is a parameter: a map from the path of each regular file to its bytes. So is the clock: the instant of `tz.info` and `tz.date`, and the `time(NULL)` value of `tz.time()`. Lua arguments are taken as already converted.

The model follows the code where it differs from the documented behaviour:
- An explicit `off` field wins over the zone in both revisions: `src/tz.c:594-602` never reads the zone when `off` is present.
- The reader does not check that transitions ascend or that `types` is non-empty.

One reading departs from the code: the decoder reads 32-bit instants sign-extended, as the format intends. As written, `src/tz.c:250` zero-extends them. That reading is `TZif.TimeValue32AsWritten`, and `TZif.ZeroExtension` shows the difference; see the `src/tz.c:250` row under "## Findings".

## Model

| member | source | states |
|---|---|---|
| CArith.CDivModSpec | src/tz.c:452-459 | C's `/` and `%` reassemble the dividend; the remainder is smaller than the divisor and never has the sign opposite to the dividend |
| CArith.CDivNegative | src/tz.c:463-466 | for a non-positive dividend, the C quotient is the floored quotient rounded up when inexact |
| Calendar.Days | src/tz.c:112-114 | a month has 28 to 31 days, and February has 29 exactly in leap years |
| Calendar.DaysRule | src/tz.c:77-80 | the month-length table equals the 30/31/February rule |
| Calendar.LeapEuclid | src/tz.c:112-114 | the leap test with C remainders is the Gregorian rule (divisible by 4, and not by 100 unless by 400) |
| Calendar.NormalizeMonth | src/tz.c:566-573 | the month lands in 1..12 and the count of months since year 0 is unchanged |
| Calendar.NormalizeMonthUnique | src/tz.c:566-573 | two year/month pairs naming the same month count normalise alike |
| Calendar.YearDay | src/tz.c:478-482 | the loop sums the lengths of the earlier months and adds the day |
| Calendar.DaysBeforeRule | src/tz.c:478-482 | the days before each month are the cumulative table plus one after February in leap years |
| Calendar.YearDayRange | src/tz.c:478-482 | the day of the year of a valid date is between 1 and 365, or 366 in a leap year |
| Calendar.Decompose | src/tz.c:451-476 | from Julian Day 0 on: a valid date from year -4713, a time of day in range whose seconds are the floored remainder, and the floored Julian Day |
| Calendar.SecondOfDayFloor | src/tz.c:452-455 | C's remainder made non-negative is the floored remainder |
| Calendar.JulianDayFloor | src/tz.c:463-466 | shifting negative instants by 86399 before dividing floors the day count; instants from `J0_TIME` on have non-negative day numbers |
| Calendar.CivilFromDayValid | src/tz.c:466-476 | every Julian Day from 0 on gives a valid date no earlier than year -4713 |
| Calendar.DayFromCivilFromDay | src/tz.c:578-582 | composing the date a Julian Day decomposes into gives back the day |
| Calendar.CivilFromDayFromCivil | src/tz.c:466-476 | decomposing the Julian Day of a valid date gives back the date |
| Calendar.DayFromCivilInjective | src/tz.c:578-582 | distinct valid dates have distinct Julian Days |
| Calendar.WithinYear | src/tz.c:578-582 | a valid date lies between New Year of its year and New Year of the next |
| Calendar.MonthRollover | src/tz.c:578-582 | the day after a month's last day is the first of the next month, or January 1 of the next year |
| Calendar.ComposeInvertsDecompose | src/tz.c:577-587 | composing the fields of a decomposed instant gives back the instant, for every instant from `J0_TIME` on |
| Calendar.DecomposeInvertsCompose | src/tz.c:451-476 | an instant composed from a valid date and time of day decomposes into the same fields |
| Calendar.WeekdaySuccessor | src/tz.c:477 | `wday` is in 1..7 and advances by one a day, wrapping after 7 |
| Calendar.MonthCarry | src/tz.c:566-573 | month m+12 of a year is month m of the next |
| Calendar.DayCarry | src/tz.c:577-587 | days past the end of a month carry into the next month |
| Calendar.YearCarry | src/tz.c:577-591 | days past December 31 carry into January of the next year, from year -4713 on |
| Calendar.FieldOverflow | src/tz.c:566-587 | 2014-01-32 is 2014-02-01, 2014-01-60 is 2014-03-01, and 2014-02-(-61) is 2013-12-01 |
| Calendar.EpochLandmark | src/tz.h:21 | 1970-01-01 00:00:00 composes to 0, and Julian Day `EPOCH` is a Thursday (`wday` 5) |
| Calendar.JulianDayZero | src/tz.h:22-23 | November 24, -4713 is Julian Day 0, both ways |
| Calendar.DomainFloor | src/tz.h:22-23 | November 24, -4713 at h:m:s composes to `J0_TIME` + h·3600 + m·60 + s |
| Calendar.FirstDay | src/tz.c:451-476 | every instant of the first day of the domain decomposes as November 24, -4713, at the seconds elapsed since `J0_TIME` |
| Calendar.BeforeDomain | src/tz.c:577-591 | year -4714 composes to nothing, for any month from 1 to 12 and any day and time of day (`Tz.YearBeforeDomain` covers months that carry into an earlier year) |
| TZif.Be32 | src/tz.c:161-166 | a big-endian field read as a signed 32-bit integer, congruent to its unsigned reading |
| TZif.Be32RoundTrip | src/tz.c:161-166 | decoding the big-endian bytes of any 32-bit integer gives it back |
| TZif.Be64RoundTrip | src/tz.c:242-245 | decoding the big-endian bytes of any 64-bit integer gives it back |
| TZif.HeaderAt | src/tz.c:160-166 | every count of the header is a 32-bit signed integer |
| TZif.ParseHeader | src/tz.c:145-175 | a header is accepted exactly when its 44 bytes are present, it has the magic "TZif" and version 0, '2' or '3', and its counts fit the file; it then yields the fields read at that position |
| TZif.HeaderRejection | src/tz.c:147-174 | each failed header check raises its own error, in the order of the code |
| TZif.TypeAt | src/tz.c:258-263 | a type has a 32-bit offset, a daylight saving flag made 0 or 1, and a byte index |
| TZif.DefaultType | src/tz.c:264-274 | the default type is the first standard-time type, else the first type, and none only without types |
| TZif.FirstStandardFromSpec | src/tz.c:258-269 | the backward scan settles on the first standard-time type at or after its start |
| TZif.SecondHeaderRead | src/tz.c:199-213 | a version 2+ file is read from the header past the skipped block, with 64-bit instants |
| TZif.FirstHeaderRead | src/tz.c:199-200 | a version 1 file is read from its first header, with 32-bit instants |
| TZif.DecodeDataWellFormed | src/tz.c:225-275 | a decoded data block has arrays of the header's lengths, in-range type indices, 0/1 flags and the default type |
| TZif.DecodeWellFormed | src/tz.c:177-275 | every zone the reader returns is well formed |
| TZif.Read | src/tz.c:177-275 | the reader returns exactly the decoding of the file, and its zones are well formed |
| TZif.ReadData | src/tz.c:225-275 | short reads fail first, then a bad type index; otherwise the block decodes as specified |
| TZif.ConvertTimes | src/tz.c:241-252 | the forward 64-bit loop and the backward 32-bit loop leave exactly the instants of the block |
| TZif.CheckIndices | src/tz.c:253-257 | the check passes exactly when every transition names one of the types |
| TZif.UnpackTypes | src/tz.c:258-274 | the backward loop leaves exactly the decoded types and the default type |
| TZif.TimeValue32AsWritten | src/tz.c:246-251 | the 32-bit conversion as written gives a value in 0..2^32-1, congruent to the signed reading |
| TZif.ZeroExtension | src/tz.c:250 | as written, a negative 32-bit instant comes out 2^32 seconds later; the signed reading gives it back |
| Lookup.TypeResult | src/tz.c:371 | a found index gives its transition's type; no index gives the default type, and nothing for a zone without types |
| Lookup.Search | src/tz.c:344-360 | the bisection ends inside its window, or just before it |
| Lookup.SearchBoundary | src/tz.c:344-360 | on any keys, the bisection ends on a boundary: its key is at or before `t`, and the next is after |
| Lookup.SearchFindsLast | src/tz.c:344-351 | on ascending keys, the bisection finds the last key at or before `t`, or -1 |
| Lookup.FindIndex | src/tz.c:338-372 | the index settled on is a transition or -1 |
| Lookup.BisectUtc | src/tz.c:344-351 | the forward loop computes the bisection on UTC instants |
| Lookup.BisectLocal | src/tz.c:353-360 | the reverse loop computes the bisection on local times |
| Lookup.Find | src/tz.c:338-372 | `tz_find` returns the type of the index the bisection and the back-off settle on |
| Lookup.ForwardLookup | src/tz.c:344-351 | forward lookup lands on a boundary, and on the last transition at or before `t` when they ascend |
| Lookup.ReverseLookup | src/tz.c:353-360 | reverse lookup without a preference lands on the last transition whose local time is at or before `t` when those ascend |
| Lookup.BackOffOnlyInRepeatedHour | src/tz.c:361-368 | with a preference, reverse lookup steps back at most one transition, exactly when `t` lies in the hour the transition repeats and the flags are as preferred |
| Lookup.NoPreferenceNoBackOff | src/tz.c:361 | without a preference the back-off never applies |
| Lookup.BackOffReadsBeforeFirst | src/tz.c:361 | with a preference and a local time before every transition, that read is at index -1 |
| Lookup.BackOffReadsInRange | src/tz.c:361-366 | with `upper > 0` tested first, the indices `upper` and `upper - 1` the condition reads are in range; `Lookup.Find` evaluates the condition in that order |
| Lookup.SearchLandsOn | src/tz.c:353-360 | on ascending keys, the bisection lands on any boundary it is given |
| Lookup.ForwardKeyBelow | src/tz.c:344-351 | the transition forward lookup finds for `t` is at or before `t`'s local reading on its own clock, and the next is after `t` |
| Lookup.UnrepeatedSearch | src/tz.c:353-360 | when `t`'s local reading is not repeated by a falling offset, the reverse bisection from it finds the transition forward lookup finds for `t` |
| Lookup.RepeatedSearch | src/tz.c:353-360 | when it is repeated, the reverse bisection lands past that transition |
| Lookup.FlagSearch | src/tz.c:353-360 | when only the next transition repeats it, the reverse bisection lands on that next transition |
| Lookup.ReverseInvertsForward | src/tz.c:344-360 | reverse lookup without a preference finds the forward transition again from `t`'s local reading exactly when the reading is not repeated |
| Lookup.BackOffInRepeat | src/tz.c:361-368 | from the second reading of a repeated hour, with the earlier flag preferred and the next transition changing the flag, the back-off applies |
| Lookup.PreferenceResolvesRepeat | src/tz.c:353-371 | with the flag in force at `t` preferred, reverse lookup from `t`'s local reading finds the transition in force at `t`, in both readings of a repeated hour |
| Lookup.MatchBack | tz.c:334-340 | the walk-back ends at or before its start, or at -1 |
| Lookup.MatchBackSpec | tz.c:334-340 | the walk-back stops at the nearest transition with the preferred flag, skipping only mismatches |
| Lookup.FindIndexLegacy | tz.c:307-348 | the older index is a transition or -1 |
| Lookup.FindLegacy | tz.c:307-348 | the older `tz_find` returns the type of the index the bisection and the walk-back settle on, else the default type |
| Lookup.LegacyPreference | tz.c:334-347 | with a preference, in either direction, the older revision yields the nearest matching transition at or before the one found, else the default type whatever its flag |
| Lookup.RevisionsAgreeWithoutPreference | tz.c:334-340 | without a preference, both revisions settle on the same index |
| Tz.CString | src/tz.c:290 | the cache key is the prefix of the name up to its first NUL |
| Tz.ZonePath | src/tz.c:299-319 | a name is accepted exactly when it is "localtime" or short enough and made of letters, digits and punctuation other than '.'; "localtime" is read from `/etc/localtime`, any other accepted name from the zone directory plus the name, which fits the buffer; a long name is refused as too long before its characters are checked |
| Tz.ZonePathOf | src/tz.c:299-319 | the character loop accepts exactly the names the path rule accepts |
| Tz.Load | src/tz.c:321-327 | a load succeeds exactly when the path is accepted, is a regular file and decodes; the zone is that decoding, well formed |
| Tz.EmbeddedNul | src/tz.c:309-313 | a name with a NUL is never loaded: it is malformed, or too long |
| Tz.Resolve | src/tz.c:290-296 | a name whose C string is cached is served the cached zone, whatever the files hold; `tz_data` fails only for names not cached; its zones are well formed |
| Tz.Remember | src/tz.c:329-331 | the cache only grows, by at most the name's C string, and only on a successful load |
| Tz.LoadedOnce | src/tz.c:290-331 | once `tz_data` has returned a zone for a name, later calls return the same zone whatever the files then hold, and leave the cache as it is |
| Tz.CacheKeyIsCString | src/tz.c:290-296 | "UTC\0x" is served the zone cached as "UTC", though it would not load |
| Tz.ZoneType | src/tz.c:338-372 | the lookup yields a type of the zone, and none only for a zone without types |
| Tz.UtcOffset | src/tz.c:445-448 | the offset applied is a 32-bit value, 0 for a zone without types |
| Tz.FindType | src/tz.c:338-372 | each revision's method returns that revision's type |
| Tz.Abbreviation | src/tz.c:410 | the abbreviation is the characters from the index up to the next NUL, present exactly when that NUL lies inside the character block |
| Tz.InfoOf | src/tz.c:379-412 | `tz.info` gives nothing only for a zone without types; with ascending transitions it gives the offset, flag and abbreviation of the type of the last transition at or before `t` (the linear-scan reference), or of the default type before the first |
| Tz.InfoBeforeFirst | src/tz.c:371 | before the first transition, or without transitions, `tz.info` describes the default type |
| Tz.CivilFields | src/tz.c:451-482 | a local time gives a valid date, a time of day in range, `wday` in 1..7 and `yday` within the year |
| Tz.ZoneFields | src/tz.c:493-499 | the date table has zone fields exactly when the zone has types |
| Tz.DateOf | src/tz.c:443-531 | `tz.date` gives fields exactly when the local time is from `J0_TIME` on |
| Tz.DateAgreesWithInfo | src/tz.c:493-499 | the zone fields of a date are the offset, flag and abbreviation `tz.info` gives for the same instant |
| Tz.Decomposition | src/tz.c:451-482 | the decomposition code computes the specified fields |
| Tz.DateIn | src/tz.c:443-531 | after the zone is loaded, `tz_date` computes the specified date |
| Tz.Preference | src/tz.c:561-562 | a missing `isdst` is no preference (-1); `true` asks for daylight saving time (1), `false` for standard time (0) |
| Tz.TimeOf | src/tz.c:566-606 | no instant for a year before -4713; with `off` the civil seconds less `off`; no result before `J0_TIME` |
| Tz.TimeIn | src/tz.c:596-606 | the zone adjustment subtracts the offset the reverse lookup finds |
| Tz.TimeResult | src/tz.c:534-614 | `tz.time()` returns the clock, nil when it is -1; a zone error is raised only when the zone is consulted |
| Tz.OffsetWins | src/tz.c:594-595 | with `off`, neither the name, the cache nor the files matter, and no error is raised |
| Tz.YearBeforeDomain | src/tz.c:577-591 | a normalised year before -4713 gives nil before any zone is looked up |
| Tz.DateTimeRoundTrip | src/tz.c:566-606 | `tz.time` of the fields `tz.date` gives, with the offset it reports, is the instant |
| Tz.DateComposes | src/tz.c:577-587 | the fields of a date compose back into the local time they were decomposed from |
| Tz.ZoneAdjusted | src/tz.c:596-606 | without `off`, `tz_time` subtracts from the civil seconds the offset reverse lookup finds for them |
| Tz.UnrepeatedOffset | src/tz.c:596-601 | outside a repeated span, reverse lookup without a preference finds from `t`'s local time the offset in force at `t` |
| Tz.FlagOffset | src/tz.c:596-601 | with the flag in force at `t` preferred, the current revision finds that offset in a repeated hour too |
| Tz.LocalFieldsGiveBack | src/tz.c:596-606 | fields showing the local time of `t`, without `off`, give back `t` whenever reverse lookup finds the offset in force at `t` |
| Tz.ReportedFlag | src/tz.c:493-499 | the `isdst` a date reports, read back as a preference, is the flag of the type in force at `t` |
| Tz.ZoneRoundTrip | src/tz.c:534-614 | `tz.time` of the fields `tz.date` gives for `t`, without `off` or `isdst`, is `t` whenever the local time is not repeated, in both revisions |
| Tz.FlagRoundTrip | src/tz.c:534-614 | in the current revision, adding the `isdst` the date reports gives back `t` in a repeated hour too, when one transition repeats it and changes the flag |
| Tz.TimeDomainFloor | src/tz.c:603-606 | -4713-11-24 00:00:00 at offset 0 is `J0_TIME`, and one second earlier is nil |
| Tz.DateDomainFloor | src/tz.c:451 | in a zone of zero offsets, no instant before `J0_TIME` has a date, and the first day is -4713-11-24 |
| Tz.FixedZoneRoundTrip | src/tz.c:443-482 | in a zone without transitions, `tz.date` of the instant `tz.time` makes from canonical fields gives back those fields |
| Tz.FixedOffset | src/tz.c:371 | a zone without transitions always yields its default type |
| Tz.RevisionsAgree | tz.c:334-340 | without a preference, both revisions find the same type |
| Tz.InfoDateRevisionsAgree | tz.c:437 | both revisions agree on `tz.info` and `tz.date` |
| Tz.TimeRevisionsAgree | tz.c:612-619 | without `isdst`, both revisions agree on `tz.time` |
| Tz.Registry.constructor | src/tz.c:283-289 | the registry starts with an empty cache |
| Tz.Registry.Data | src/tz.c:277-336 | `tz_data` returns the cached zone or loads one, and caches exactly what it loaded |
| Tz.Registry.Info | src/tz.c:379-412 | `tz.info` loads the zone and returns the specified information |
| Tz.Registry.Date | src/tz.c:414-532 | `tz.date` loads the zone named by the format's '!' rule and returns the specified fields |
| Tz.Registry.Time | src/tz.c:534-614 | `tz.time` returns the specified instant, and touches the cache only when it consults the zone |

## Left out

- Lua glue is left out:
  - argument checks, `getfield` defaults (`sec` 0, `min` 0, `hour` 12) and the "field missing" or "wrong type" errors;
  - float-to-integer conversion of arguments in the older revision;
  - pushing results.
- `strftime` formatting, the "format too long" error, and the `tm` structure are left out. The model returns the fields that go into the `*t` table, which are also what `strftime` formats.
- Reading the clock with `time(NULL)` is a parameter.
- Files are a map from path to bytes:
  - `stat`, `S_ISREG`, `fopen`, `fread`, `fseek` and `fclose` are abstracted by it;
  - a file that `stat` accepts but `fopen` cannot open ("cannot open TZ file") is not modelled;
  - neither are concurrent file changes.
- Allocation failure ("cannot allocate TZ data memory") is left out. `calloc` of zero elements is taken to succeed.
- The leap second, standard/wall and UT/local blocks are skipped and never interpreted, as in the source. The footer of version 2+ files is never read.
- Entries of the registry table put there by other code are left out. The cache holds only zones this module stored, so the current revision's `luaL_testudata` check and the older revision's nil check behave alike.
- `tz_tostring`, `tz_gc`/`tz_free` and `luaopen_tz` are left out. They concern Lua object lifetime and registration.
- Tz.LoadError: the older revision's "timezone too large" message is modelled as the same `TooLong` error. Messages are not modelled.
- Tz.Abbreviation: when the abbreviation index points outside the character block, or no NUL follows it inside the block, the C code reads past the block. The model gives no abbreviation in that case rather than the bytes beyond.
- Integer widths are not modelled as wrap-around, though offsets and instants are proved to fit their C types where they are read. `tzcomponent` and `int64_t` arithmetic in `tz_date`/`tz_time` is not checked for overflow, and neither is `t ± gmtoff` near the ends of the 64-bit range.
- Lookup.Find and Lookup.FindLegacy: `int` indices are unbounded in the model. With counts bounded by the file size, `lower + upper` cannot overflow for files below 1 GiB.

## Findings

| source | as written | input that shows it | evidently intended | confidence | as-written member | corrected member |
|---|---|---|---|---|---|---|
| src/tz.c:361 | the back-off condition reads `data->types[data->timetypes[upper]]` before it tests `upper > 0` | `tz.time{year=1900, month=1, day=1, isdst=false}` in a zone whose first transition is later, or any zone without transitions: the search leaves `upper == -1`, and `timetypes[-1]` is read | test `upper > 0` before reading `timetypes[upper]`; the result is otherwise unchanged | high (not executed) | Lookup.BackOffFirstReadAsWritten, Lookup.BackOffReadsBeforeFirst | Lookup.BackOff, Lookup.BackOffReadsInRange |
| src/tz.c:250, tz.c:212 | `be32toh` returns an unsigned 32-bit value, so a version 1 instant widens to 64 bits without its sign | the 32-bit instant -1 (bytes FF FF FF FF) loads as 4294967295, that is from 1969 to 2106 | sign-extend: convert through `int32_t` before widening | medium (not executed; holds where `be32toh` yields `uint32_t`, as with glibc and `OSSwapBigToHostInt32`) | TZif.TimeValue32AsWritten, TZif.ZeroExtension | TZif.TimeValueAt, TZif.Be32RoundTrip |
