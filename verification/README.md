# human-readable-duration, modelled in Dafny

`TimeFormatter.formatDuration(int seconds)` turns a count of seconds into an English phrase:
`0` is `"now"`, `62` is `"1 minute and 2 seconds"`, `3662` is `"1 hour, 1 minute and 2 seconds"`.
A negative count raises `IllegalArgumentException("Duration cannot be negative: " + seconds)`.
The work has three stages:

- `extractTimeParts` walks the unit table once (years of 365 days, days, hours, minutes,
  seconds). It divides the remainder by each unit's size and keeps a fragment for every positive
  count, such as `"44 minutes"`.
- `TimeUnit.format` writes one fragment, with the plural `s` unless the count is 1.
- `joinWithCommasAndAnd` returns a single fragment unchanged. Otherwise it joins all but the
  last with `", "` and puts `" and "` before the last.

The Dafny project models all of this.

| file | module | contents |
|---|---|---|
| `wrappers.dfy` | `Wrappers` | `Option` and `Result` |
| `decimal.dfy` | `Decimal` | decimal writing of an `int`, as Java's string concatenation does, and its inverse |
| `time_formatter.dfy` | `TimeFormatter` | the constants, the unit table, `Format`, the greedy decomposition as a function (`DecomposeFrom`), the imperative `ExtractTimeParts` proved against it, `Join`, `JoinWithCommasAndAnd`, `FormatDuration` returning a `Result` |
| `decomposition.dfy` | `Decomposition` | an independent closed form of each unit's count, the conservation law, count bounds, unit order, omission of zero counts |
| `duration_phrase.dfy` | `DurationPhrase` | a parser for the phrases; the round trip "format, then parse, gives the input back" for every non-negative `int` |
| `phrase_shape.dfy` | `PhraseShape` | the textual shape of a phrase: `" and "` at most once, exactly once with two or more parts, never after a comma |
| `examples.dfy` | `Examples` | every input of the unit tests, with its expected output or failure |

A Java `int` is the subset type `Int32`. After the negativity check every quantity is a
non-negative value below 2^31. On such values Dafny's `/` and `%` agree with Java's, and no
intermediate result overflows, so the model uses unbounded `nat` from there on.

## Model

| member | source | states |
|---|---|---|
| TimeFormatter.TimeUnit.Seconds | src/main/java/com/example/duration/TimeFormatter.java:15-25 | every unit size is at least 1, and only the second has size 1 |
| TimeFormatter.TimeUnit.Singular | src/main/java/com/example/duration/TimeFormatter.java:20-25 | every unit name is a lower-case word of at least three letters that does not already end in `s` |
| TimeFormatter.TimeUnit.Format | src/main/java/com/example/duration/TimeFormatter.java:35-39 | a fragment starts with the decimal count, a space and the singular name; it ends in `s` exactly when the count is not 1; its length is the stem's plus one for the plural |
| Decimal.NatToString | src/main/java/com/example/duration/TimeFormatter.java:37-38 | the decimal writing of a count is a non-empty digit string, with no leading zero except for 0 itself, one digit long exactly below 10 |
| Decimal.IntToString | src/main/java/com/example/duration/TimeFormatter.java:62 | the decimal writing of an `int` is non-empty and starts with `-` exactly for a negative value; a non-negative value is all digits, with a leading `0` only for 0 itself; a negative value is `-` followed by at least one digit, the first of which is not `0` |
| Decimal.NatToStringRoundTrip | src/main/java/com/example/duration/TimeFormatter.java:37-38 | reading the digits of a written count gives the count back |
| Decimal.NatToStringInjective | src/main/java/com/example/duration/TimeFormatter.java:37-38 | different counts are written differently |
| Decimal.IntToStringRoundTrip | src/main/java/com/example/duration/TimeFormatter.java:62 | parsing the written form of any `int`, negative ones included, gives it back |
| Decimal.CanonicalNumeral | src/main/java/com/example/duration/TimeFormatter.java:37-38 | a digit string without a leading zero (other than `"0"` itself) is exactly the decimal writing of its own value |
| Decimal.CanonicalNumeralUnique | src/main/java/com/example/duration/TimeFormatter.java:37-38 | two such digit strings with the same value are the same string |
| Decimal.NegativeNumeralUnique | src/main/java/com/example/duration/TimeFormatter.java:62 | the only `-`-signed numeral without a leading zero that reads back as a negative value is that value's written form |
| TimeFormatter.DecomposeFrom | src/main/java/com/example/duration/TimeFormatter.java:77-83 | the greedy walk from unit `i` on yields at most one part per remaining unit, and at least one part when something is left |
| TimeFormatter.Decompose | src/main/java/com/example/duration/TimeFormatter.java:73-86 | the decomposition of an input is empty exactly when the input is 0, and has at most one part per unit |
| TimeFormatter.Render | src/main/java/com/example/duration/TimeFormatter.java:80 | one fragment per part |
| TimeFormatter.RenderAt | src/main/java/com/example/duration/TimeFormatter.java:80 | the fragment at each position is the formatted part at that position |
| TimeFormatter.Remainder | src/main/java/com/example/duration/TimeFormatter.java:75-83 | before unit `i` (other than the first) is processed, the remainder is below the previous unit's size |
| TimeFormatter.RemainderOfPrevious | src/main/java/com/example/duration/TimeFormatter.java:15-18 | each unit size divides the next larger one, so the remainder modulo the larger unit, taken modulo the smaller, is the input modulo the smaller |
| TimeFormatter.ExtractTimeParts | src/main/java/com/example/duration/TimeFormatter.java:73-86 | the loop returns exactly the rendering of the greedy decomposition; its invariants state that `remaining` is the input modulo the previous unit's size |
| TimeFormatter.Join | src/main/java/com/example/duration/TimeFormatter.java:95 | joining no strings gives `""`, one string gives that string, and a non-empty join starts with the first string |
| TimeFormatter.JoinSnoc | src/main/java/com/example/duration/TimeFormatter.java:95 | a join of two or more strings is the join of all but the last, the separator, and the last |
| TimeFormatter.JoinEndsWithLast | src/main/java/com/example/duration/TimeFormatter.java:95 | a non-empty join ends with the last string |
| TimeFormatter.JoinWithCommasAndAnd | src/main/java/com/example/duration/TimeFormatter.java:88-99 | a single fragment is returned unchanged; with two or more fragments the result ends with `" and "` followed by the last fragment |
| TimeFormatter.FormatDuration | src/main/java/com/example/duration/TimeFormatter.java:60-71 | the call fails exactly when the input is negative, and 0 gives `"now"` |
| Decomposition.Rank | src/main/java/com/example/duration/TimeFormatter.java:20-25 | the rank is the unit's position in the declaration order |
| Decomposition.DecomposeFromIsReference | src/main/java/com/example/duration/TimeFormatter.java:77-83 | from any unit on, the greedy walk yields exactly the units whose closed-form count is positive, with those counts |
| Decomposition.DecomposeIsReference | src/main/java/com/example/duration/TimeFormatter.java:73-86 | the greedy decomposition equals the closed-form reference: whole years, then for each smaller unit the whole units in the remainder modulo the next larger unit, zeros dropped |
| Decomposition.TotalOfDecomposeFrom | src/main/java/com/example/duration/TimeFormatter.java:77-83 | from any unit on, the parts' counts times their sizes add up to the remainder they started from |
| Decomposition.Conservation | src/main/java/com/example/duration/TimeFormatter.java:73-86 | the counts times the unit sizes add back up to the input, so nothing is lost or counted twice |
| Decomposition.PartCount | src/main/java/com/example/duration/TimeFormatter.java:65-70 | a positive input gives at least one fragment, so the join never sees an empty list; 0 gives none; there are never more than five |
| Decomposition.CountAtBounds | src/main/java/com/example/duration/TimeFormatter.java:15-18 | below years, each count is less than the number of such units in the next larger one (365 days, 24 hours, 60 minutes, 60 seconds) |
| Decomposition.CountsInRange | src/main/java/com/example/duration/TimeFormatter.java:78-81 | every emitted count is at least 1, equals its unit's closed-form count, and respects the bounds above |
| Decomposition.YearsInInt32 | src/main/java/com/example/duration/TimeFormatter.java:60 | for an `int` input the year count is at most 68 |
| Decomposition.ReferenceFromOrdered | src/main/java/com/example/duration/TimeFormatter.java:77 | the reference list keeps the table order |
| Decomposition.DescendingUnits | src/main/java/com/example/duration/TimeFormatter.java:20-25 | the parts come in strictly decreasing unit size |
| Decomposition.OmitsExactlyZeroCounts | src/main/java/com/example/duration/TimeFormatter.java:79-82 | a unit appears in the output exactly when its count is positive |
| DurationPhrase.UnitOfWordRoundTrip | src/main/java/com/example/duration/TimeFormatter.java:36-38 | the singular or plural word identifies the unit again, given the count |
| DurationPhrase.FragmentRoundTrip | src/main/java/com/example/duration/TimeFormatter.java:35-39 | a fragment, followed by anything that does not continue its word, parses back to its unit and count |
| DurationPhrase.JoinStep | src/main/java/com/example/duration/TimeFormatter.java:95-98 | with three or more fragments, the phrase is the first fragment, `", "`, and the phrase of the rest |
| DurationPhrase.PhraseRoundTrip | src/main/java/com/example/duration/TimeFormatter.java:88-99 | parsing the joined fragments of any non-empty list of parts gives that list back |
| DurationPhrase.FormatDurationRoundTrip | src/main/java/com/example/duration/TimeFormatter.java:60-71 | every non-negative `int` is formatted without failure, and reading the phrase back gives the input |
| DurationPhrase.FormatDurationInjective | src/main/java/com/example/duration/TimeFormatter.java:60-71 | different non-negative inputs give different phrases |
| DurationPhrase.NegativeRejected | src/main/java/com/example/duration/TimeFormatter.java:61-63 | a negative input fails with exactly the message "Duration cannot be negative: " followed by `Integer.toString` of the input: a `-`, then digits without a leading zero, which read back as the input |
| PhraseShape.FragmentIsChunk | src/main/java/com/example/duration/TimeFormatter.java:35-39 | a fragment starts with a digit, ends with a letter, and has no space followed by `a` |
| PhraseShape.RenderedAreChunks | src/main/java/com/example/duration/TimeFormatter.java:80 | every rendered fragment has that shape |
| PhraseShape.JoinIsChunk | src/main/java/com/example/duration/TimeFormatter.java:95 | fragments joined with `", "` keep that shape |
| PhraseShape.JoinShape | src/main/java/com/example/duration/TimeFormatter.java:88-99 | the joined phrase starts with a digit and ends with a letter; `" and "` can only occur right after the comma-joined prefix, only with two or more fragments, and never after a comma; with two or more fragments it does occur there |
| PhraseShape.FormatDurationShape | src/main/java/com/example/duration/TimeFormatter.java:60-71 | for a positive input, `" and "` occurs at most once and never right after a comma, and it occurs exactly when there are two or more parts |
| Examples.Zero | src/test/java/com/example/duration/TimeFormatterTest.java:21 | 0 gives `"now"` |
| Examples.OneSecond | src/test/java/com/example/duration/TimeFormatterTest.java:22 | 1 gives `"1 second"` |
| Examples.OneMinuteAndTwoSeconds | src/test/java/com/example/duration/TimeFormatterTest.java:23 | 62 gives `"1 minute and 2 seconds"` |
| Examples.TwoMinutes | src/test/java/com/example/duration/TimeFormatterTest.java:24 | 120 gives `"2 minutes"` |
| Examples.OneHourOneMinuteTwoSeconds | src/test/java/com/example/duration/TimeFormatterTest.java:25 | 3662 gives `"1 hour, 1 minute and 2 seconds"` |
| Examples.DaysHoursMinutesSeconds | src/test/java/com/example/duration/TimeFormatterTest.java:26 | 15731080 gives `"182 days, 1 hour, 44 minutes and 40 seconds"` |
| Examples.YearsDaysHoursMinutes | src/test/java/com/example/duration/TimeFormatterTest.java:27 | 132030240 gives `"4 years, 68 days, 3 hours and 4 minutes"` |
| Examples.OneMinute | src/test/java/com/example/duration/TimeFormatterTest.java:41 | 60 gives `"1 minute"` |
| Examples.OneHour | src/test/java/com/example/duration/TimeFormatterTest.java:42 | 3600 gives `"1 hour"` |
| Examples.OneDay | src/test/java/com/example/duration/TimeFormatterTest.java:43 | 86400 gives `"1 day"` |
| Examples.OneYear | src/test/java/com/example/duration/TimeFormatterTest.java:44 | 31536000 gives `"1 year"` |
| Examples.TwoSeconds | src/test/java/com/example/duration/TimeFormatterTest.java:57 | 2 gives `"2 seconds"` |
| Examples.TwoHours | src/test/java/com/example/duration/TimeFormatterTest.java:59 | 7200 gives `"2 hours"` |
| Examples.TwoDays | src/test/java/com/example/duration/TimeFormatterTest.java:60 | 172800 gives `"2 days"` |
| Examples.TwoYears | src/test/java/com/example/duration/TimeFormatterTest.java:61 | 63072000 gives `"2 years"` |
| Examples.FiftyNineSeconds | src/test/java/com/example/duration/TimeFormatterTest.java:75 | 59 gives `"59 seconds"` |
| Examples.SixtyOneSeconds | src/test/java/com/example/duration/TimeFormatterTest.java:87 | 61 gives `"1 minute and 1 second"` |
| Examples.JustUnderOneHour | src/test/java/com/example/duration/TimeFormatterTest.java:93 | 3599 gives `"59 minutes and 59 seconds"` |
| Examples.OneHourAndOneSecond | src/test/java/com/example/duration/TimeFormatterTest.java:99 | 3601 gives `"1 hour and 1 second"` |
| Examples.AllUnitsSingular | src/test/java/com/example/duration/TimeFormatterTest.java:110-112 | one of each unit gives `"1 year, 1 day, 1 hour, 1 minute and 1 second"` |
| Examples.AllUnitsPlural | src/test/java/com/example/duration/TimeFormatterTest.java:118-120 | two of each unit gives `"2 years, 2 days, 2 hours, 2 minutes and 2 seconds"` |
| Examples.MinusOne | src/test/java/com/example/duration/TimeFormatterTest.java:130-135 | -1 fails with the message `"Duration cannot be negative: -1"` |
| Examples.MinimumInt | src/test/java/com/example/duration/TimeFormatterTest.java:140-142 | the smallest `int` fails |

## Left out

- The private constructor (TimeFormatter.java:42-44): it only prevents instantiation and has no behaviour.
- The exception is a `Failure` value carrying the message. Throwing and the stack trace are not modelled.
- Java's `List`, `ArrayList.add`, `subList`, `getFirst`, `getLast` and `String.join` are Dafny sequences and the recursive `Join`. Mutation of the list object and aliasing are not modelled.
- TimeFormatter.ExtractTimeParts: takes a `nat` instead of an `int`. Its only caller reaches it after rejecting negative input.
- TimeFormatter.FormatDuration: a function cannot call a method, so it uses `Render(Decompose(seconds))`. `ExtractTimeParts` is proved to return exactly that list.
- TimeFormatter.JoinWithCommasAndAnd: requires at least one fragment. In Java an empty list would throw from `subList(0, -1)`, and `formatDuration` never passes one (`Decomposition.PartCount`).
- `Int32` bounds only the public entry point. Beyond it, arithmetic is unbounded, which is exact because no quantity of the source reaches 2^31.
- The JUnit harness (nested classes, parameterised sources, `assertThrows`): each test input is a lemma in `Examples`.
