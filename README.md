# Call analyzer: a verified model of the work-time analysis

The call analyzer reads one sheet of spreadsheet call-detail rows and estimates an agent's working time. Each row has a call start time, a call length, a direction and a result. The analysis runs in these steps:

- It turns each row into a call record and drops the rows whose start time, length or direction is missing.
- It sorts the calls by start time and takes the outbound calls in that order.
- It measures each gap between the end of one outbound call and the start of the next.
- From each gap it subtracts the lengths of the connected inbound calls that start strictly inside it.
- A gap whose net length exceeds eight minutes (480 s) counts as idle.
- The work time is the span from the first outbound call to the end of the last one, less the idle time beyond a 45-minute (2700 s) break allowance.

The model is in Dafny. It has these modules:

| file | module | what it holds |
|---|---|---|
| `wrappers.dfy` | `Wrappers` | `Option` and `Result` |
| `seqs.dfy` | `Seqs` | order-preserving `Filter` (JavaScript's `Array.prototype.filter`) and its lemmas |
| `js_builtins.dfy` | `JsBuiltins` | the JavaScript built-ins the analyzer uses, as pure functions (see below) |
| `cells.dfy` | `Cells` | spreadsheet cells and rows |
| `temporal_parser.dfy` | `TemporalParser` | `parseTime`, `formatDuration` and `parseDateTime` |
| `call_records.dfy` | `CallRecords` | normalisation of rows into call records |
| `stable_sort.dfy` | `StableSort` | the stable sort by start time, as a specification function and as an in-place array sort |
| `work_analysis.dfy` | `WorkAnalysis` | `analyzeCallData`: the gap loop, the totals, the failures |

The built-ins in `JsBuiltins` are `trim`, `split`, `toLowerCase`, `parseInt`, `parseFloat`, `padStart`, `Math.round`, `%` and number-to-text.

Units:

- Instants and spans are integer milliseconds. A number of seconds in the source is exactly the model's value divided by 1000.
- Call lengths are integer seconds, as `parseTime` produces them.
- A `Cell` is `Blank` (absent), `Text(string)` or `Number(real)`. Numbers are exact reals.

`parseTime` returns `null`, a number of seconds, or NaN. NaN comes from a colon-separated part that `parseInt` cannot read. The model keeps these three outcomes apart (`TimeValue = Null | Seconds | NotANumber`).

The sort is specified by `StableSort.SortByStart`, a functional insertion sort. `StableSort.SortCalls` sorts an array in place and is proved to produce exactly that sequence. `AnalyzeCallData` copies the valid calls into an array and sorts it with `SortCalls`. It then walks the outbound pairs with the loop method `IdleScan`. It is proved equal to the specification function `Analyze`, and the lemmas about `Analyze` state what the analysis promises.

Three facts about the code bound what the model covers:

- It aggregates nothing across days. The upload handler reads only the first selected file.
- It counts no connected calls.
- It accepts negative call lengths, such as `-5:00`.

## Model

| member | source | states |
|---|---|---|
| JsBuiltins.TrimStartSpec | src/App.jsx:37 | dropping leading white space keeps a suffix of the text, drops white space only, and stops at a visible character |
| JsBuiltins.TrimEndSpec | src/App.jsx:37 | dropping trailing white space keeps a prefix of the text, drops white space only, and stops after a visible character |
| JsBuiltins.TrimSpec | src/App.jsx:37 | `trim` (`Trim`): the trimmed text is a contiguous part of the input with only white space dropped on either side, and it neither starts nor ends with white space |
| JsBuiltins.TrimVisible | src/App.jsx:37 | a text that starts and ends with a visible character is unchanged by trimming |
| JsBuiltins.SplitSpec | src/App.jsx:50 | `split` (`Split`): splitting on a colon yields one more part than there are colons, and no part holds a colon |
| JsBuiltins.SplitJoin | src/App.jsx:50 | splitting the colon-join of colon-free parts gives the parts back |
| JsBuiltins.JoinSplit | src/App.jsx:50 | joining the parts of a split with the separator gives the text back |
| JsBuiltins.Lower | src/App.jsx:105-106 | the lower-cased text holds no ASCII capital and is the input with only the case of letters changed |
| JsBuiltins.LowerMatches | src/App.jsx:105-106 | a text lower-cases to a capital-free text w exactly when it is w up to ASCII case ("Outbound" and "OUTBOUND" both match "outbound", nothing else does), and a capital-free text lower-cases to itself |
| JsBuiltins.NatTextSpec | src/App.jsx:89 | the decimal text of n is a non-empty digit string whose value is n, one character exactly when n < 10 |
| JsBuiltins.PadStart2Spec | src/App.jsx:89 | padding gives max(2, length) characters: the input at the end and zeros in front |
| JsBuiltins.PadStart2Value | src/App.jsx:89 | padding a numeral with zeros keeps it a numeral of the same value |
| JsBuiltins.ParseIntDigits | src/App.jsx:52 | `parseInt` (`ParseInt`) reads a non-empty string of decimal digits as its decimal value |
| JsBuiltins.RangeValuePrefix | src/App.jsx:52 | reading digits in place from the start of a text gives the value of the numeral they form |
| JsBuiltins.Round | src/App.jsx:43 | `Math.round` gives the integer within half a unit of x, halves rounded up |
| JsBuiltins.Trunc | src/App.jsx:73 | the conversion of a time value to an integer truncates toward zero: it lies within one unit of x on the side of zero |
| JsBuiltins.Rem | src/App.jsx:87-88 | JavaScript's `%` with a positive divisor: the remainder has the dividend's sign and is smaller than the divisor in magnitude |
| JsBuiltins.RemValue | src/App.jsx:87-88 | the dividend is a whole multiple of the divisor plus the remainder |
| JsBuiltins.ParseFloatNoDigits | src/App.jsx:40 | `parseFloat` (`ParseFloat`) of a text without a decimal digit is NaN |
| JsBuiltins.RoundScaledValue | src/App.jsx:41-43 | the integer rounding of a decimal times a factor (`RoundScaled`) is `Math.round` of the exact product of the decimal's value and the factor |
| Cells.LowerText | src/App.jsx:105-106 | the optional-chained lower-cased text is undefined exactly for an absent cell; a number always gives a non-empty text |
| TemporalParser.ColonTime | src/App.jsx:49-57 | colon parts give `null` exactly when there are neither two nor three of them |
| TemporalParser.ParseTime | src/App.jsx:34-61 | a falsy cell gives `null`; NaN arises only from a text that holds a colon |
| TemporalParser.ParseTimeColonShape | src/App.jsx:49-60 | a text with a colon but neither one nor two colons gives `null` |
| TemporalParser.ParseTimeColonNotNull | src/App.jsx:49-56 | a text with one or two colons never gives `null` |
| TemporalParser.HmsParts | src/App.jsx:37-53 | a text `h:m:s` of three numerals is unchanged by trimming, holds a colon and splits into exactly those three parts |
| TemporalParser.MsParts | src/App.jsx:37-56 | a text `m:s` of two numerals is unchanged by trimming, holds a colon and splits into exactly those two parts |
| TemporalParser.ColonTimeDigits3 | src/App.jsx:51-53 | three numeral parts give h·3600 + m·60 + s seconds, from their decimal values |
| TemporalParser.ColonTimeDigits2 | src/App.jsx:54-56 | two numeral parts give m·60 + s seconds, from their decimal values |
| TemporalParser.ParseTimeHms | src/App.jsx:51-53 | `"h:m:s"` with digit-only fields gives h·3600 + m·60 + s seconds |
| TemporalParser.ParseTimeMs | src/App.jsx:54-56 | `"m:s"` with digit-only fields gives m·60 + s seconds |
| TemporalParser.ParseTimeDayFraction | src/App.jsx:40-45 | a number cell holding k/86400 of a day gives k seconds |
| TemporalParser.ParseTimeDecimalExample | src/App.jsx:39-45 | the day fraction 0.0028472222222222223 gives 246 seconds |
| TemporalParser.ParseTimeDecimalText | src/App.jsx:37-45 | a non-empty text without a colon that `parseFloat` reads as d gives `Math.round` of d · 86 400 seconds, d taken exactly |
| TemporalParser.ParseTimeNoDigits | src/App.jsx:37-60 | a malformed non-empty text with no digit and no colon, such as "abc", gives `null` |
| TemporalParser.FormatDurationFields | src/App.jsx:85-90 | `formatDuration` (`FormatDuration`): for s ≥ 0 the text has three digit fields of at least two characters; minutes and seconds are two characters and below 60; h·3600 + m·60 + s = s |
| TemporalParser.FormatSplit | src/App.jsx:50 | three numerals joined by colons split back into the same three numerals |
| TemporalParser.FormatParseRoundTrip | src/App.jsx:85-90 | for every s ≥ 0, `parseTime(formatDuration(s))` is s |
| TemporalParser.TimeClip | src/App.jsx:73 | a time value is valid exactly within ±8.64·10^15 ms; a valid one is the value truncated toward zero and stays in that range |
| TemporalParser.ParseDateTime | src/App.jsx:63-83 | a falsy cell gives `null`; a number cell's time is within the valid range |
| TemporalParser.SerialWholeDays | src/App.jsx:71-73 | a whole serial n gives (n − 25569)·86 400 000 ms, so serial 25569 is the epoch |
| TemporalParser.SerialMonotone | src/App.jsx:71-73 | a later serial never gives an earlier start time |
| CallRecords.ToRecord | src/App.jsx:126-128 | a record that passed the filter has a non-empty direction |
| CallRecords.ValidCallsSound | src/App.jsx:126-128 | the filter (`ValidCalls`): every kept record is the conversion of a valid processed row among those read so far |
| CallRecords.ValidCallsOrdered | src/App.jsx:126-128 | the kept records follow row order strictly |
| CallRecords.ValidCallsComplete | src/App.jsx:126-128 | every valid processed row among those read so far has a kept record |
| CallRecords.NormalizeSpec | src/App.jsx:102-128 | normalisation (`Normalize`): every valid call's start, length, direction and result are parsed from its own row; calls follow row order; the result is empty exactly when no row is valid |
| StableSort.InsertPermutation | src/App.jsx:137 | insertion adds the new call and loses none |
| StableSort.InsertSorted | src/App.jsx:137 | insertion into a sorted sequence keeps it sorted |
| StableSort.SortByStartSpec | src/App.jsx:137 | the stable sort (`SortByStart`): the sorted calls are in non-decreasing start order and are a permutation of the input |
| StableSort.SortStable | src/App.jsx:137 | for every start time, the calls with that start time keep their relative order |
| StableSort.SortTiesByIndex | src/App.jsx:137 | for calls in row order, equal start times stay in row order after sorting |
| StableSort.SortSortedIdentity | src/App.jsx:137 | calls already in start order are unchanged |
| StableSort.SortIdempotent | src/App.jsx:137 | sorting twice is sorting once |
| StableSort.SortCalls | src/App.jsx:137 | the in-place sort leaves exactly the stable sort of the array's old contents |
| StableSort.InsertAt | src/App.jsx:137 | one insertion step puts the new call into the sorted prefix and leaves the rest of the array alone |
| StableSort.InsertPosition | src/App.jsx:137 | a call goes right after the calls that start no later than it |
| WorkAnalysis.IdleScan | src/App.jsx:155-195 | the loop's breakdown is exactly the idle gaps in outbound order, and its running total is their summed idle time |
| WorkAnalysis.IdlePrefixFilter | src/App.jsx:159-194 | after i steps of the loop, the recorded gaps are the idle ones among the first i gaps, in order |
| WorkAnalysis.SummarizeCalls | src/App.jsx:148-218 | the computed result equals the totals of `Summarize` (through `AnalyzeCalls`), whose properties the `Analysis*` lemmas state |
| WorkAnalysis.AnalyzeCallData | src/App.jsx:92-221 | the analysis of the rows equals the specification function `Analyze`, whose properties the `Analyze*` and `Analysis*` lemmas state |
| WorkAnalysis.GapCallsSpec | src/App.jsx:171-176 | `GapCalls`: a gap's calls are exactly the connected inbound calls that start strictly inside it |
| WorkAnalysis.SumDurationsConcat | src/App.jsx:178 | the inbound sum (`SumDurations`) of a concatenation is the sum of the two sums |
| WorkAnalysis.BreakdownSpec | src/App.jsx:159-195 | the gaps (`Gap`) and the breakdown: every entry exceeds 480 s; its idle time is the raw gap less the inbound seconds; its raw gap is to − from; its inbound seconds sum its gap calls; it is the gap after some outbound call; a gap is an entry exactly when it exceeds 480 s; there are at most outbound − 1 entries |
| WorkAnalysis.BreakdownOrdered | src/App.jsx:159-193 | for outbound calls in start order, the entries are in outbound order |
| WorkAnalysis.TotalIdleBound | src/App.jsx:184-186 | the total idle time is at least 480.001 s per entry, so it is never negative |
| WorkAnalysis.OutboundAfterSort | src/App.jsx:140-146 | the sorted calls have an outbound call exactly when the valid calls do |
| WorkAnalysis.AnalyzeFailures | src/App.jsx:95-146 | no rows gives no data; rows with no valid call give `NoValidCalls`; valid calls with no outbound call give `NoOutboundCalls`; in each case also the converse |
| WorkAnalysis.AnalyzeRows | src/App.jsx:102-137 | a successful analysis of rows is the analysis of their normalised calls, which follow row order |
| WorkAnalysis.CallsSortedCalls | src/App.jsx:137 | for calls in row order, the reported sorted calls are a permutation of them, in non-decreasing start order, ties in row order, stable per start time; the total count is their number |
| WorkAnalysis.AnalysisSortedCalls | src/App.jsx:137 | the same for the normalised calls of a sheet's rows |
| WorkAnalysis.AnalysisBreakdown | src/App.jsx:155-195 | for the analysis of any valid calls, the breakdown over the sorted calls: its entries' relations, its completeness, at most outbound − 1 entries in outbound order, and a total idle time equal to their sum, at least 480.001 s per entry |
| WorkAnalysis.AnalysisSpan | src/App.jsx:148-153 | the first outbound call starts earliest and the last latest; the reported first time is the first outbound start, the last time the end of the last outbound call, and the span their difference |
| WorkAnalysis.AnalysisTotals | src/App.jsx:197-207 | the allowance is 2700 s; excess = max(0, idle − 2700 s), between 0 and the idle time; work = span − excess, the whole span when idle time is within the allowance; outbound + inbound ≤ total |
| WorkAnalysis.OutboundInOrder | src/App.jsx:140-149 | among calls in start order, the first outbound call starts earliest and the last latest |
| WorkAnalysis.IdleNonNegative | src/App.jsx:155-186 | the total idle time of a breakdown is never negative |
| WorkAnalysis.WorkedDay | src/App.jsx:92-221 | outbound 60 s at t, connected inbound 50 s at t+500 s, outbound 30 s at t+1000 s: one idle gap of 940 − 50 = 890 s, excess 0, span and work 1030 s |
| WorkAnalysis.TwoOutboundCalls | src/App.jsx:159-202 | with two outbound calls only, the gap is recorded exactly when it exceeds 480 s, and work = span − max(0, idle − 2700 s) |
| WorkAnalysis.EightMinuteBoundary | src/App.jsx:184 | a net gap of exactly 480 s is not recorded; 480.001 s is |

## Left out

- CallRecords.IsValid: drops a call whose length `parseTime` reads as NaN. The source keeps it, because its filter only tests the length against `null`. NaN arithmetic in later gaps and spans is not modelled.
- JsBuiltins.ParseFloat: reads decimal numerals exactly, and `RoundScaled` rounds their exact product with 86 400. It does not read `Infinity`, and it ignores binary floating-point rounding in `parseFloat`, in the multiplication by 86 400 and in `Math.round`.
- JsBuiltins.Lower: lower-cases ASCII letters only. Full Unicode case mapping is left out. Only the exact texts "outbound", "inbound" and "connected" matter downstream.
- JsBuiltins.NumberText: exact for integers below 10^21. Fractions are written with at most 17 digits after the point, not in JavaScript's shortest round-trip form. A number cell's text matters only for the direction and result comparisons.
- Strings are sequences of Unicode scalar values, not UTF-16 code units.
- TemporalParser.ParseDateTime: text cells go to a host date parser, passed in as the parameter `hostDate` (the engine's `Date` parsing). Cells of other types (dates, booleans) are not modelled, and neither is the surrounding exception handler.
- Validity range of call-end times: the sum of a start and a length can leave the valid time range in JavaScript, which gives an invalid date. The model assumes every call end is within range.
- Floating point in the totals: the source totals fractional seconds in floating point. The model totals exact milliseconds.
- The `!callData` test for a missing input: a sequence of rows cannot be missing. An empty one gives `NoData`.
- Library loading, file upload and sheet decoding: this is DOM, network and file I/O through an external spreadsheet library. The rows are taken as given.
- Rendering, React state, `toLocaleString`/`toLocaleTimeString`, logging and the text of the error messages are not modelled. The failures are the constructors `NoData`, `NoValidCalls` and `NoOutboundCalls`.
- Multi-day aggregation and the count of connected calls: the code does neither.
- TemporalParser.FormatDuration: its properties are proved for non-negative whole seconds only. `formatDuration` on negative or fractional inputs is not characterised.
