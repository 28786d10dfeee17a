# Experience calendar: verified model of the widget's logic

This project models the non-DOM logic of `app.js`, a single-page calendar
widget that records the player's cumulative experience (exp) per day. It
shows each day's gain and the rank that a cumulative value reaches, looked
up in a rank table loaded from `rank_table.csv`. It also shows progress
toward a target rank. The modelled parts are:

- **Numbers** (`numbers.dfy`). `parseNum` keeps only the decimal digits of a
  string and reads them as an integer, or gives null. `fmt` writes the decimal
  form with thousands separators. `clamp` bounds a value.
- **Rank table** (`rank_table.dfy`). The CSV text is trimmed and split into
  lines. The header is skipped and every well-formed `rank,exp` row is stored
  in a sparse array: a hole is `None`, and the length is the largest rank plus
  one. `rankFromCum` is the binary search and `expForRank` the direct lookup.
- **Entry history** (`history.dfy`). Entries map `YYYY-MM-DD` keys to decimal
  strings. The model gives the JavaScript string order on keys, which is
  chronological on date keys, and the sorted list of date keys.
  `previousEntryKey`, `entryCum` and the specification of `sumMonthDeltas` are
  also here.
- **Progress** (`progress.dfy`). The exp still needed for the target, and the
  ring's progress in basis points.
- **State** (`app.dfy`). The `state` object is a class with the fields
  `viewYear`, `viewMonth`, `entries`, `targetRank` and `expByRank`. Its methods
  are month navigation, the cumulative-input handler, the target-rank prompt
  handler and the rank-table load. They also include the loops of
  `latestEntryInMonth` and `sumMonthDeltas` and the integer figures of
  `renderHeader`.

Each handler's method is specified by a function of the old state (`SetCum`,
`TargetFromPrompt`, `NextView`, `PrevView`). The lemmas and contracts are
stated about those functions.

Three behaviours of `app.js` that the model keeps as written:
- The table is exactly what the CSV holds: nothing is extrapolated beyond its
  last row, and there is no upper limit on the rank other than JavaScript's
  array-index bound (see `RankTable.ParseRank` under "Left out").
- `rankFromCum` returns 1, not "the lowest populated rank", when no slot is at
  most `cum`.
- A null `cum` or a missing table gives null. Nothing is clamped.

## Model

| member | source | states |
|---|---|---|
| `Numbers.Clamp` | app.js:24 | for `lo <= hi` the result lies in `[lo, hi]`, equals `v` exactly when `v` is in range, and is the nearer bound otherwise; for `hi < lo` it is `lo` (`Math.max` wins) |
| `Numbers.Digits` | app.js:28 | the kept characters are all digits, and nothing is kept exactly when the string has no digit |
| `Numbers.Fmt` | app.js:33-37 | `fmt` is empty exactly for null; otherwise it holds only digits and commas, its digits are the decimal form of `n`, it is longer by one comma per full group of three after the first, and a comma stands exactly where the distance to the end is a multiple of four |
| `Numbers.ParseNum` | app.js:26-31 | null exactly when the string has no decimal digit; otherwise the value of its digit subsequence (a `nat`, never negative) |
| `Numbers.DecimalString` | app.js:35 | `toString` of a non-negative integer is a non-empty digit string with no leading zero (except `"0"`) whose value is the integer |
| `Numbers.GroupLength` | app.js:36 | grouping a non-empty digit string adds one comma per full group of three after the first |
| `Numbers.GroupCommas` | app.js:36 | in a grouped digit string, a comma stands exactly where the distance to the end is a multiple of four |
| `Numbers.GroupDigits` | app.js:36 | grouping only inserts commas: deleting the non-digits returns the original digits |
| `Numbers.DecimalRoundTrip` | app.js:26-31 | `parseNum(n.toString()) == n` for every `n >= 0` |
| `Numbers.FmtRoundTrip` | app.js:26-37 | `parseNum(fmt(n)) == n` for every `n >= 0`, and `parseNum(fmt(null)) == null` |
| `RankTable.TrimStart` | app.js:83 | `trim` removes a prefix made only of JavaScript white space and line terminators, after which the first character is neither |
| `RankTable.TrimEnd` | app.js:83 | `trim` removes a suffix made only of JavaScript white space and line terminators, after which the last character is neither |
| `RankTable.Trim` | app.js:83 | `text.trim()` is a slice of the text; everything before and after it is white space, and the slice neither starts nor ends with white space |
| `RankTable.SplitOn` | app.js:86 | splitting gives at least one piece, and no piece contains the separator |
| `RankTable.SplitJoin` | app.js:86 | joining the pieces back with the separator gives the original line |
| `RankTable.ParseRank` | app.js:87-89 | a rank is kept only when it is a non-empty digit string, and it is then an array index below 2^32 - 1 with the value of its digits |
| `RankTable.ParseRow` | app.js:86-89 | a line is kept exactly when it has a second field, its first field reads as a rank and its second has a digit; the kept row's rank is the value of the first field and its exp is `parseNum` of the second; a line without a comma is skipped |
| `RankTable.RowRoundTrip` | app.js:86-90 | the line `rank,exp` in canonical decimal reads back as exactly that row, for every rank that is an array index |
| `RankTable.SplitLines` | app.js:83 | `split(/\r?\n/)` gives at least one line, so the header slot exists, and no line contains a line feed |
| `RankTable.SplitLinesUnsplit` | app.js:83 | the lines, each but the last followed by the `\r\n` or `\n` that ended it, give back the text: splitting loses only the separators |
| `RankTable.Lines` | app.js:83 | the trimmed text splits into at least one line, none containing a line feed |
| `RankTable.Store` | app.js:90 | `arr[rank] = exp` sets that slot, grows the array with holes when the rank is past the end, and leaves every other slot as it was |
| `RankTable.ParseRows` | app.js:85-91 | the array built from the rows is empty or has a populated last slot, so its length is one more than the largest stored rank, and it never exceeds the 2^32 - 1 slots of a JavaScript array |
| `RankTable.BuildTable` | app.js:83-92 | the loop skips the header line and builds the table from the remaining lines; every slot holds the exp of the last well-formed row for that rank |
| `RankTable.TableAgreesWithRows` | app.js:85-91 | slot `r` of the built array is the exp of the LAST well-formed row whose rank is `r`, and a hole if there is none (a later row overwrites an earlier one) |
| `RankTable.MalformedRowIgnored` | app.js:89 | a line whose rank is not a number, or whose exp field is missing or has no digit, changes nothing wherever it appears |
| `RankTable.LaterRowWins` | app.js:90 | appending a well-formed row sets its rank's exp and leaves the other ranks unchanged |
| `RankTable.ExpForRank` | app.js:109-113 | a value exactly when the table is loaded and the slot for that rank exists and is populated; that slot's exp, never a substituted 0 |
| `RankTable.ExpForLoadedRank` | app.js:109-113 | on a table loaded from rows, `expForRank(r)` is the exp of the last row for `r`, and null for a negative rank |
| `RankTable.RankScan` | app.js:99-106 | reference search: scanning down, the first slot whose exp is at most `cum`, or 1; no slot above it up to the start is at most `cum` |
| `RankTable.ShiftRight1` | app.js:101 | `x >> 1` halves a value below 2^31 and is negative for a value from 2^31 up to 2^32, since the operand wraps to a signed 32-bit integer |
| `RankTable.RankFromCum` | app.js:95-107 | null exactly when the table is missing or `cum` is null; otherwise in `[1, max(1, len-1)]`, and any result other than 1 is a slot whose exp is at most `cum`; on a complete non-decreasing table of at most 2^30 slots it is the largest such rank; on a table of 2^31 slots or more the first midpoint wraps negative and the result is 1; slot 0 is never read |
| `RankTable.InverseLookup` | app.js:99-106 | on a complete strictly increasing table, the exact exp of rank `r` maps back to `r` |
| `RankTable.RankExpAtMostCum` | app.js:99-113 | on a complete table, once `cum` reaches rank 1's exp, `expForRank(rankFromCum(cum))` exists and is at most `cum` |
| `History.FixedWidthOrder` | app.js:137-138 | on digit strings of equal width, string order is numeric order and equality is equality of values |
| `History.KeyOrderIsChronological` | app.js:152 | on `YYYY-MM-DD` keys, string order is the (year, month, day) order that the sorting relies on |
| `History.LexLessIsStringOrder` | app.js:140 | `LexLess` is JavaScript's `<` on strings as ECMA-262 section 7.2.13 defines it: a proper prefix comes first, otherwise the first differing character decides |
| `History.Pad2` | app.js:20 | `pad2` of a number below 100 is two digits that read back as the number |
| `History.YmdIsDateKey` | app.js:21 | the `ymd` key of a day of a four-digit year matches `/^\d{4}-\d{2}-\d{2}$/`, reads back as that year, month and day, and lies in that month for `latestEntryInMonth` and `sumMonthDeltas` |
| `History.MinKey` | app.js:152 | the chosen key is in the set and below every other key |
| `History.SortedKeysSorted` | app.js:152 | `.sort()` of the date keys holds each key once and is strictly increasing |
| `History.SortedKeys` | app.js:152 | the sorted list has as many keys as the set |
| `History.IndexOf` | app.js:153 | `indexOf` is -1 exactly when the key is absent, and otherwise the first position holding the key |
| `History.EntryCum` | app.js:145-149 | null exactly when the key is missing or its value has no digit; otherwise the value of the value's digits |
| `History.PreviousEntryKey` | app.js:151-156 | a value exactly when `key` is a stored date key with a smaller one; then the greatest stored date key strictly below `key` |
| `History.PredecessorInSorted` | app.js:151-156 | in the sorted date keys, the keys below `key` are exactly those before its position |
| `History.UnparsableSkipped` | app.js:202-203 | an entry whose value has no digit may sit anywhere in key order without changing the readings, so it does not reset the predecessor |
| `History.MonthGainOutsideMonth` | app.js:205-208 | when no later reading lies in the month, the month gain is 0; the first reading never contributes |
| `History.MonthGainTelescopes` | app.js:199-212 | for non-decreasing readings whose later keys all lie in the month, the month gain is the last cum minus the first |
| `History.MonthGainOf` | app.js:191-214 | the month gain of the parsable date entries in key order is 0 for a month without any key |
| `Progress.Need` | app.js:184-186 | null exactly when the target rank has no exp; otherwise the least amount that brings the selected cum to the target exp (0 once reached) |
| `Progress.ProgressBasisPoints` | app.js:226-229 | at most 10000; 0 when the target exp is null or 0; 10000 exactly when the cum reaches the target exp; below that, the floor of `cum * 10000 / target` |
| `Progress.ReachesFull` | app.js:227-229 | the quotient reaches a full ring exactly when the cum reaches the target exp |
| `App.NextView` | app.js:382-384 | from a month in `0..11`, the next view keeps the month in `0..11` and adds exactly 1 to `year*12 + month` |
| `App.PrevView` | app.js:389-391 | from a month in `0..11`, the previous view keeps the month in `0..11` and subtracts exactly 1 from `year*12 + month` |
| `App.PrevAfterNext` | app.js:382-395 | `prevMonth` after `nextMonth` restores `(viewYear, viewMonth)` |
| `App.NextAfterPrev` | app.js:382-395 | `nextMonth` after `prevMonth` restores `(viewYear, viewMonth)` |
| `App.SetCum` | app.js:327-337 | the selected key is deleted exactly when the input has no digit; otherwise it holds the canonical decimal string, which `entryCum` reads back as `parseNum(input)`; every other key is unchanged |
| `App.TargetFromPrompt` | app.js:352-357 | the target rank is unchanged or lands in `[1, 2500]`; it stays unchanged on cancel, on a digit-free answer, and when the digits read as less than 1 or as Infinity; otherwise it is the value clamped to 2500 |
| `App.State.constructor` | app.js:40-47 | the initial state has no entries, target rank 2500 and no rank table |
| `App.State.NextMonth` | app.js:382-388 | the view becomes `NextView` of the old view; nothing else changes |
| `App.State.PrevMonth` | app.js:389-395 | the view becomes `PrevView` of the old view; nothing else changes |
| `App.State.OnCumInput` | app.js:327-337 | during composition nothing changes; otherwise only `entries` changes, to `SetCum` of the old entries |
| `App.State.OnTargetPrompt` | app.js:352-357 | only `targetRank` changes, to `TargetFromPrompt` of the old value |
| `App.State.LoadRankTable` | app.js:79-93 | `expByRank` becomes the table built from the text's data lines |
| `App.State.LatestEntryInMonth` | app.js:130-143 | null exactly when no date key lies in the month; otherwise the greatest such key |
| `App.State.SumMonthDeltas` | app.js:191-214 | the loop's total equals the month gain of the parsable date entries in key order, so it is never negative |
| `App.State.MonthSummary` | app.js:159-178 | the header's gain is the month gain even when the month has no key (then 0); its total is 0 for an empty month, otherwise the cum of the month's greatest key |
| `App.State.TargetStatus` | app.js:180-188 | the need is null exactly when the target rank has no exp; need and progress are those of the selected day's cum, 0 when the day has none |

## Left out

- DOM and UI are not modelled: `els`, the `fillGrid` cells, `setSelectedDateUI`, the click, blur and composition listeners, the touch-swipe gesture and the `prompt` dialog. The composition flag and the prompt's answer enter as parameters.
- The `localStorage` `load`/`save` and JSON serialisation are browser I/O. The model therefore does not capture entries or a `targetRank` restored from storage with non-string values or out-of-range numbers.
- `fetch` and the async `boot` are network and async orchestration. Only the step from text to array is modelled.
- The `Date` helpers `firstCellDate`, `isSameDay` and `jpMD` depend on the host calendar and time zone. `ymd` is modelled from the date's year, month and day, which enter as numbers; the selected day enters as its `YYYY-MM-DD` key, and the initial view year and month are constructor parameters.
- YmdIsDateKey: stated only for four-digit years, because `getFullYear` is not padded and other years never give a date key.
- The float parts of `renderRing` are not modelled: `Math.PI`, the circumference, the stroke offset, `toFixed` and the final `/100`. Progress is kept in integer basis points.
- `renderHeader` computes `prevKey` and `prevCum` but never uses them, so they are not modelled.
- RankTable.ParseRank: `Number()` on the rank field is modelled as a non-empty digit string whose value is below 2^32 - 1. JavaScript quirks are left out: surrounding white space is accepted, an empty field reads as 0, and any other form `Number()` accepts is not modelled (fractions, signs including a leading `+`, exponents, and hexadecimal `0x`, binary `0b` and octal `0o` literals such as `"0x10"` for 16). A rank of 2^32 - 1 or more becomes a plain property that does not change the array's length. The model skips such rows, so `expForRank` cannot read them back. The prompt caps `targetRank` at 2500, so the prompt never asks for such a rank.
- History.LexLess compares Unicode code points, while JavaScript compares UTF-16 code units. The two orders differ only for characters outside the Basic Multilingual Plane, and date-shaped keys never contain those.
- `Object.keys` insertion order is not modelled. `latestEntryInMonth` iterates the key set in an arbitrary order, and its result does not depend on that order.
- RankTable.RankFromCum: the "largest rank whose exp is at most cum" property is proved only for complete, non-decreasing tables of at most 2^30 slots. On a table with holes or decreasing values, the contract only bounds the result. It also says that the slot found, if not 1, has exp at most `cum`. Between 2^30 + 1 and 2^31 - 1 slots, a later midpoint can wrap negative and end the search early; there too only the bounds are stated.
