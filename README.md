# Time-zone meeting planner: scheduler and fixed-offset time utilities

This project is a Dafny model of the logic behind a small meeting planner. It
covers two parts.

The scheduler (`findOptimalTime`) tries each whole hour of the next 48. A
candidate is kept only when every contact is awake at their local hour. It is
scored by two preference windows, and the kept candidates are ranked by
score. The best candidate and up to three alternatives are returned.

The fixed-offset time utilities handle time-zone identifiers such as
`UTC+05:30`:

- parsing an identifier;
- shifting an instant between zones (`convertTime`);
- the rounded hour difference (`getHourDifference`);
- the identifier built from the host's offset (`detectTimeZone`);
- 12-hour clock text (`formatHour`, `formatInTimeZone`);
- the 38-entry zone catalog (`getTimeZones`) and the location search over it (`findTimeZoneByLocation`).

Modules:

- `Types` (types.dfy): the contact and preference records.
- `Text` (text.dfy): the JavaScript string built-ins the utilities use.
  These are decimal `toString`, `padStart(2, "0")`, ASCII `toLowerCase` and `includes`.
- `TimeUtils` (time_utils.dfy): identifier pattern, offsets, conversion, formatting.
- `TimeZoneCatalog` (catalog.dfy): the catalog and the location search.
- `TimeCalculator` (time_calculator.dfy): the range test, the scoring, the ranking and the `FindOptimalTime` method.

Instants are integer milliseconds.

- In the scheduler they are read on the host's wall clock, so `getHours()` is `HourOfDay`.
- In `FormatInTimeZone` the instant is the UTC clock.
- The current time is a parameter (`now`, `utcNow`), as is the host's `getTimezoneOffset()` reading.

The regular expression `/UTC([+-])(\d{2}):(\d{2})/` is modelled as a leftmost search for a nine-character window (`MatchesAt`, `FirstMatch`). The match is unanchored and the fields are not range-checked.

JavaScript's `%` keeps the sign of the dividend. Dafny's does not, so it is modelled explicitly as `JsRem`.

`Math.round(d / 60)` on a whole number of minutes is modelled as `(d + 30) / 60` (floor division).

The sort in `findOptimalTime` is the engine's stable `Array.prototype.sort`. It is modelled as a stable insertion sort on values (`SortByScore`).

Some properties one might expect of these utilities do not hold of the code, and the model states what the code does instead:

- The hour difference is not antisymmetric. `Math.round` rounds half-hours up, so `UTC+00:00`→`UTC+02:30` is 3 but the reverse is -2 (`HourDifferenceReversed`).
- Conversions need not compose when an identifier fails to parse. For example, through a malformed middle identifier both steps are no-ops while the direct conversion is not (`ConvertComposeNeedsMiddle`). When all three parse they compose (`ConvertCompose`).
- Formatting a parsed identifier gives it back only for minutes below 60 and except for `UTC-00:00` (`ParseFormatRoundTrip`, `NegativeZeroNormalised`).

## Model

| member | source | states |
|---|---|---|
| TimeUtils.HourOfDay | lib/time-calculator.ts:35 | `getHours()` of an instant on a fixed-offset clock is in 0..23 |
| TimeUtils.MinuteOfHour | lib/time-utils.ts:80 | `getUTCMinutes()` of an instant is in 0..59 |
| TimeUtils.JsRem | lib/time-utils.ts:101 | JavaScript `%`: the result lies strictly between -b and b, equals the floor remainder for a non-negative dividend, is never positive for a negative one, and differs from the dividend by a multiple of b (so it is the truncated remainder) |
| TimeUtils.FirstMatch | lib/time-utils.ts:74 | the pattern's leftmost occurrence at or after a position: it matches there, nowhere before, and None means no occurrence at all |
| TimeUtils.Captures | lib/time-utils.ts:83-85 | the two-digit hour and minute groups read with `parseInt` are below 100 |
| TimeUtils.MatchOffset | lib/time-utils.ts:74-75 | `id.match(...)` fails exactly when the pattern occurs nowhere; otherwise it yields the groups of the leftmost occurrence |
| TimeUtils.OffsetMinutes | lib/time-utils.ts:156-164 | the sign applies to the whole offset: it is non-negative exactly for a `+` sign or zero fields, and with minutes below 60 its magnitude splits back into the hour and minute fields |
| TimeUtils.ParseOffset | lib/time-utils.ts:151-164 | a parsed offset is at most 99 hours 99 minutes either way; `ParseFails` and `ParseLeftmost` say when it fails and which occurrence it reads |
| TimeUtils.ParseFails | lib/time-utils.ts:151-154 | parsing fails exactly when the pattern occurs nowhere in the identifier |
| TimeUtils.ParseLeftmost | lib/time-utils.ts:151-164 | the offset is sign * (HH*60 + MM) taken from the leftmost occurrence of the pattern |
| TimeUtils.ParseUnbounded | lib/time-utils.ts:151-164 | `UTC+99:99` is accepted as 6039 minutes: neither field is range-checked |
| TimeUtils.ParseNegative | lib/time-utils.ts:156-159 | `UTC-09:30` is -570 minutes: the sign applies to hours and minutes together |
| TimeUtils.ParseInsideText | lib/time-utils.ts:151 | `(UTC+05:30) New Delhi` parses to 330: text around the identifier is ignored |
| TimeUtils.ConvertTime | lib/time-utils.ts:148-174 | the instant moves by a whole number of minutes, and moves at all exactly when both identifiers parse to different offsets |
| TimeUtils.ConvertToSelf | lib/time-utils.ts:148-174 | converting into the zone one came from returns the instant unchanged |
| TimeUtils.ConvertRoundTrip | lib/time-utils.ts:148-174 | converting from a to b and back to a returns the instant, whatever the identifiers |
| TimeUtils.ConvertCompose | lib/time-utils.ts:148-174 | when all three identifiers parse, converting a→b then b→c equals converting a→c |
| TimeUtils.NoMatchInCet | lib/time-utils.ts:151-154 | an identifier without the pattern, such as `CET`, does not parse |
| TimeUtils.ConvertComposeNeedsMiddle | lib/time-utils.ts:154 | with an unparsable middle identifier both steps return the input, so composition fails |
| TimeUtils.RoundToHours | lib/time-utils.ts:134 | `Math.round` of a minute difference in hours is the nearest whole hour, ties upward |
| TimeUtils.HourDifference | lib/time-utils.ts:114-138 | 0 when either identifier fails to parse; otherwise within half an hour of the exact difference, ties upward, which determines it |
| TimeUtils.HourDifferenceReversed | lib/time-utils.ts:133-134 | the two directions sum to 1 when the offsets differ by a whole number of hours plus thirty minutes, and to 0 otherwise |
| TimeUtils.HourDifferenceHalfHourExample | lib/time-utils.ts:133-134 | `UTC+00:00` to `UTC+02:30` is 3 hours, the reverse is -2 |
| TimeUtils.FormatFields | lib/time-utils.ts:60-64 | `UTC`, then the sign, then the padded fields: nine characters exactly when both fields are below 100 |
| TimeUtils.FormatOffset | lib/time-utils.ts:56-64 | starts with `UTC`, has a `+` exactly for non-negative offsets, and is nine characters long exactly below 100 hours |
| TimeUtils.DetectTimeZone | lib/time-utils.ts:51-68 | starts with `UTC`, with a `+` exactly when the host is not west of UTC or the environment query failed |
| TimeUtils.FieldsChars | lib/time-utils.ts:61-64 | hour and minute fields below 100 come out as exactly two zero-padded digits each, after `UTC` and the sign |
| TimeUtils.FormatOffsetRoundTrip | lib/time-utils.ts:56-64 | for offsets of less than 100 hours the built identifier is canonical and parses back to the offset |
| TimeUtils.FormatOffsetTooLarge | lib/time-utils.ts:57-64 | from 100 hours on the identifier has three hour digits and no longer parses |
| TimeUtils.ParseFormatRoundTrip | lib/time-utils.ts:56-64 | a canonical identifier with minutes below 60 parses and formats back to itself, except `UTC-00:00` |
| TimeUtils.NegativeZeroNormalised | lib/time-utils.ts:60 | `UTC-00:00` parses to 0, which formats with a `+` sign |
| TimeUtils.DetectTimeZoneParses | lib/time-utils.ts:51-68 | the detected identifier is canonical and parses to the host's offset east of UTC; the failure default `UTC+00:00` parses to 0 |
| TimeUtils.DisplayHour | lib/time-utils.ts:143 | `hour % 12`, or 12 where that is 0: never 0, equal to the hour modulo 12, and 1..12 for non-negative hours |
| TimeUtils.Period | lib/time-utils.ts:142 | two letters ending in `M`, `PM` exactly from hour 12 on |
| TimeUtils.FormatHour | lib/time-utils.ts:141-145 | the text ends in `:00 ` and the period, shows `PM` exactly from 12 on, and has at most 8 characters for hours of the day |
| TimeUtils.TwelveHourClock | lib/time-utils.ts:141-145 | for hours 0..23 the displayed hour is 1..12, "PM" is shown exactly from 12 on, and the display determines the hour |
| TimeUtils.FormatHourExamples | lib/time-utils.ts:141-145 | 0 shows as "12:00 AM", 12 as "12:00 PM", 13 as "1:00 PM" |
| TimeUtils.FormatHourInjective | lib/time-utils.ts:141-145 | distinct hours of the day give distinct texts |
| TimeUtils.TwelveHourText | lib/time-utils.ts:104-107 | the text ends with a space and the period, showing `PM` exactly from hour 12 on |
| TimeUtils.WallClockText | lib/time-utils.ts:104-107 | on a wall-clock hour and minute the text is the display hour 1..12, a colon, two minute digits, a space and the period |
| TimeUtils.HourIsSixtyMinutes | lib/time-utils.ts:79-80 | the UTC hour and minute of an instant together give its minute of the day |
| TimeUtils.LocalClock | lib/time-utils.ts:88-101 | the hour is within -23..23, and in 0..23 when the hour field is at most 23; the minute is in 0..59 when the minute field is at most 59 |
| TimeUtils.FoldClock | lib/time-utils.ts:88-101 | one minute carry and one fold put a clock shifted by less than a day back on the wall clock |
| TimeUtils.LocalClockIsWallClock | lib/time-utils.ts:88-101 | for offsets up to 23 hours and 59 minutes the computed hour and minute are the true wall clock of that offset |
| TimeUtils.FormatInTimeZone | lib/time-utils.ts:71-111 | without a match the date library's text is returned; with a match the text depends only on the current UTC clock and the groups, and is the zone's wall-clock time for in-range offsets |
| TimeUtils.LocalClockOutOfRange | lib/time-utils.ts:92-101 | the single carry leaves `UTC+00:99` at 00:59 UTC showing "1:98 AM", and `UTC-99:00` yields hour -3 |
| Text.DigitChar | lib/time-utils.ts:61-62 | a digit below ten is written as the decimal character of that value |
| Text.NatToString | lib/time-utils.ts:61-62 | `toString` of a non-negative number is a non-empty string of decimal digits with no leading zero |
| Text.NatToStringValue | lib/time-utils.ts:61-62 | reading back the digits of `toString` gives the number |
| Text.IntToStringInjective | lib/time-utils.ts:143-144 | distinct integers have distinct decimal texts |
| Text.IntToString | lib/time-utils.ts:143-144 | `toString` of an integer is non-empty and starts with a minus sign exactly for negative numbers |
| Text.NatToStringLength | lib/time-utils.ts:57-62 | `toString` has one digit below 10 and at most two below 100 |
| Text.PadStart2 | lib/time-utils.ts:61-62 | `padStart(2, "0")` is at least two long, ends with its input, and every character added in front is `0` |
| Text.TwoDigits | lib/time-utils.ts:61-62 | a number below 100, padded, is exactly its tens digit then its units digit |
| Text.Lower | lib/time-utils.ts:179-181 | `toLowerCase` keeps the length, leaves no capital letter, turns each capital into its small letter and keeps every other character |
| Text.LowerIdempotent | lib/time-utils.ts:179-181 | lower-casing twice is lower-casing once |
| Text.Contains | lib/time-utils.ts:181 | `includes`: the empty string is always found, and nothing longer than the text is |
| TimeZoneCatalog.TimeZones | lib/time-utils.ts:4-47 | the 38 catalog entries in source order; `CatalogWellFormed` and `CatalogIdsDistinct` state what holds of them |
| TimeZoneCatalog.CatalogWellFormed | lib/time-utils.ts:4-47 | the catalog has 38 entries and every identifier matches the pattern, with at most 14 hours and 59 minutes |
| TimeZoneCatalog.CatalogIdsDistinct | lib/time-utils.ts:4-47 | no identifier occurs twice in the catalog |
| TimeZoneCatalog.LocationMatches | lib/time-utils.ts:181 | the empty query matches every entry, and a query longer than the location matches none |
| TimeZoneCatalog.FindByLocation | lib/time-utils.ts:181 | `.find` yields the first index at or after the start whose lower-cased location contains the lower-cased query, and None when there is none |
| TimeZoneCatalog.FindTimeZoneByLocation | lib/time-utils.ts:177-184 | undefined exactly when no location contains the query; otherwise the identifier of the first entry, in catalog order, that does |
| TimeZoneCatalog.EmptyQueryFindsFirstEntry | lib/time-utils.ts:177-184 | the empty query returns `UTC+12:00`, the first entry |
| TimeZoneCatalog.FindIgnoresCase | lib/time-utils.ts:179-181 | the letter case of the query does not change the result |
| TimeCalculator.IsHourInRange | lib/time-calculator.ts:75-82 | on hours of the day, an hour is in the range exactly when the clock reaches it from `start` sooner than it reaches `end` |
| TimeCalculator.OvernightExamples | lib/time-calculator.ts:75-82 | in the overnight range 22..6, 23 and 5 are inside and 12 is outside |
| TimeCalculator.EmptyRange | lib/time-calculator.ts:76-77 | a range whose ends coincide holds no hour |
| TimeCalculator.RangeComplement | lib/time-calculator.ts:75-82 | for start ≠ end, the range (end, start) holds exactly the hours (start, end) does not |
| TimeCalculator.CountInRange | lib/time-calculator.ts:75-82 | at most n of the hours 0..n-1 lie in a range |
| TimeCalculator.CountStraight | lib/time-calculator.ts:76-77 | a range that does not wrap holds the hours from start up to end |
| TimeCalculator.RangeLength | lib/time-calculator.ts:75-82 | over hours 0..23 a range holds (end - start) mod 24 hours, wrapping or not |
| TimeCalculator.HourScore | lib/time-calculator.ts:39-50 | an awake contact scores 1, 3, 4 or 6 points: the morning bonus shows exactly as 3 or 6, and the evening bonus exactly as at least 4 |
| TimeCalculator.ContactHour | lib/time-calculator.ts:33-35 | a contact's local hour is in 0..23 |
| TimeCalculator.ReferenceHour | lib/time-calculator.ts:20-35 | the first contact is converted against itself, so their hour is the host's hour whatever zone they declare |
| TimeCalculator.TotalScore | lib/time-calculator.ts:31-56 | N contacts score between N and 6N points in total |
| TimeCalculator.Candidate | lib/time-calculator.ts:24-25 | a candidate is a whole hour: the start of the hour that contains `now` plus `hour` hours |
| TimeCalculator.HourOfDayShift | lib/time-calculator.ts:25 | moving an instant by k hours moves its hour of day by k, modulo 24 |
| TimeCalculator.CandidateFacts | lib/time-calculator.ts:23-25 | candidates lie on whole hours; the first starts the current hour; each is one hour after the previous; the host's hour advances with them |
| TimeCalculator.CandidateMonotone | lib/time-calculator.ts:23-25 | later hour offsets give strictly later candidates |
| TimeCalculator.Kept | lib/time-calculator.ts:23-62 | at most n candidates are kept from the first n hours |
| TimeCalculator.Entry | lib/time-calculator.ts:58-61 | one hour adds at most one entry, at that hour's candidate time |
| TimeCalculator.KeptSound | lib/time-calculator.ts:31-61 | every kept entry is a scanned candidate at which every contact is awake, with that candidate's score |
| TimeCalculator.KeptComplete | lib/time-calculator.ts:31-61 | every scanned candidate at which every contact is awake is kept with its score |
| TimeCalculator.KeptIncreasing | lib/time-calculator.ts:23-60 | kept entries are in strictly increasing time order, all before the next candidate |
| TimeCalculator.NothingKeptWhenNeverAwake | lib/time-calculator.ts:38-54 | with awakeStart = awakeEnd nothing is ever kept |
| TimeCalculator.Insert | lib/time-calculator.ts:65 | inserting adds exactly the new entry to the entries |
| TimeCalculator.SortByScore | lib/time-calculator.ts:65 | the sort returns a permutation of its input |
| TimeCalculator.InsertRanks | lib/time-calculator.ts:65 | inserting a later entry into a ranked list keeps it ranked |
| TimeCalculator.ConsRanks | lib/time-calculator.ts:65 | an entry ranked before every entry of a ranked list can lead it |
| TimeCalculator.SortByScoreRanks | lib/time-calculator.ts:65 | entries given in increasing time order come out by score, highest first, equal scores earliest first |
| TimeCalculator.InsertAmongTies | lib/time-calculator.ts:65 | an entry inserted among equal scores goes last |
| TimeCalculator.AllTiesKeepOrder | lib/time-calculator.ts:65 | when every score ties the sort leaves the order unchanged (stability) |
| TimeCalculator.Ranked | lib/time-calculator.ts:23-65 | at most 48 candidates are ranked |
| TimeCalculator.RankedFacts | lib/time-calculator.ts:23-65 | the ranking is ordered and holds exactly the candidates of the next 48 hours at which everyone is awake, each with its score |
| TimeCalculator.BestIsOptimal | lib/time-calculator.ts:65-69 | no workable candidate scores more than the best, and one scoring the same is not earlier |
| TimeCalculator.BestOutranksRest | lib/time-calculator.ts:65-70 | every later entry, the alternatives included, scores at most the best, and a tie is later |
| TimeCalculator.RankedEmptyIffNoWorkableHour | lib/time-calculator.ts:58-69 | there is a best time exactly when some hour of the next 48 suits every contact |
| TimeCalculator.Slice | lib/time-calculator.ts:70 | `slice(from, to)` is the entries from `from`, at most to - from of them, stopping at `to` or at the end |
| TimeCalculator.PrefixStep | lib/time-calculator.ts:31-56 | one more contact adds their score and their awake test to a prefix |
| TimeCalculator.ScoreCandidate | lib/time-calculator.ts:27-56 | the inner loop reports all awake exactly when every contact is awake, and then the total score |
| TimeCalculator.FindOptimalTime | lib/time-calculator.ts:4-72 | fewer than two contacts give null and []; otherwise the best-ranked candidate, or null when none is kept, and as alternatives the times of ranked entries 1, 2 and 3 in order, min(3, k-1) of them for k kept |
| TimeCalculator.OppositeZones | lib/time-calculator.ts:31-61 | two contacts twelve hours apart, both awake 8 to 22, are both awake exactly when the host hour is 8, 9, 20 or 21 |
| TimeCalculator.TwelveHoursApart | lib/time-utils.ts:151-164 | `UTC+00:00` and `UTC+12:00` parse to offsets twelve hours apart |

## Left out

- The React components, the page and the canvas timeline are not part of this model.
- Calendar links, sharing and the clipboard are not part of this model.
- The host clock is a parameter: `new Date()` becomes `now` or `utcNow`.
- The host's offset is fixed. `setHours` rollover and `getHours` are integer arithmetic; daylight-saving changes are not modelled.
- The `Intl` query in `detectTimeZone` is a parameter. It is `Option<int>`, where None stands for the environment throwing.
- The `try`/`catch` wrappers are not modelled, because nothing in the modelled code throws. The `detectTimeZone` default is kept.
- FormatInTimeZone: the `date-fns` call `format(date, "h:mm a")` is a foreign library. Its text is the parameter `fallback`, and `date` enters only through it.
- HourDifference: works on exact integer minutes. For minute fields that are not multiples of 15, the source's floating-point division can round a tie the other way, and this is not modelled.
- Lower: ASCII only. Unicode case mapping is not modelled.
- The unused `tomorrow` date in `findOptimalTime` is left out.
- SortByScoreRanks: states stability for inputs in increasing time order, the only order `findOptimalTime` produces. AllTiesKeepOrder states it for any input whose scores all tie.
- FormatHour: takes an integer hour. Non-integer numbers are not modelled.
- Catalog entries: the `name`, `offset` and `location` strings are reproduced, but only `id` and `location` are reasoned about.
