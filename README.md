# grinworkers: per-worker share statistics from a Grin server log

`grinworkers` reads a Grin mining server's log line by line and counts, per
worker, the shares reported as "submitted by <worker>" in messages of the
`mining` subsystem. It can restrict the count to a trailing window of `--time`
minutes. After the stream it checks that the log spans more than the window.
If it does, it reports the shares and the averaging span; if not, it prints a
"not enough data" message.

This project models the core of `src/main.rs` in Dafny and proves properties of it:

- `wrappers.dfy`: `Option`.
- `text.dfy` (module `Text`): the standard-library string operations the core
  relies on. `split_ascii_whitespace` is `Words`, joining each token followed by
  one space is `Spaced`, `trim_end` is `TrimEnd`, `trim` is `Trim`, and
  `find`/`rfind` are `Contains`/`LastIndexOf`.
- `timestamp.dfy` (module `LogTimestamp`): `parse_log_timestamp`. The
  `%Y%m%d %H:%M:%S%.f` pattern is modelled as fixed-width digit fields with
  calendar checks. A `NaiveDateTime` is an integer `Instant`: nanoseconds
  since 0000-01-01 in the proleptic Gregorian calendar. `InstantOrder` proves
  that ordering instants is ordering date-times, so `min` and `>=` carry over.
- `aggregator.dfy` (module `ShareStats`): the streaming pass of `main`.
  - Reference functions (`Entries`, `Times`, `Keys`, `FirstSeen`, `LastSeen`,
    `Tally`, `Summarize`) say what the pass computes.
  - The class `Aggregator` is the pass itself, with fields `first`, `last` and
    `counts`. Its methods `Observe`, `Record`, `Feed`, `Consume` and `Finish`
    are proved against those functions.
  - `Run` puts them together. Lemmas state the properties: span, counting,
    insufficient data, report.

The three `Local::now()` readings become parameters: `now` for the cutoff, and
`clockFirst`/`clockLast` for the initial `ts_first_log`/`ts_last_log`. The log
file becomes a sequence of lines. The `--time` value is an optional number of
minutes.

In two places the behaviour one would expect and the code differ. The pass (`Finish`, `Summarize`, `Run`) follows the code in both. The corrected conclusion `Conclude` appears only beside it, in "Findings":

- The message that `parse_log_timestamp` returns is every token from the third
  on, each followed by one space (`src/main.rs:25`, `:28`). It is not trimmed, so a
  non-empty message ends with a space. `ParseRemainder` states this.
- The insufficient-data message is meant to report the available and the
  required minutes, but it prints the requested window twice. See "Findings".

## Model

| member | source | states |
|---|---|---|
| Text.Words | src/main.rs:25 | `split_ascii_whitespace` yields only non-empty tokens free of ASCII whitespace |
| Text.NoWords | src/main.rs:25 | a line has no tokens exactly when it is all ASCII whitespace |
| Text.Spaced | src/main.rs:28 | joining tokens, each followed by one space, is empty exactly for no tokens, and otherwise ends with a space |
| Text.WordsSeparated | src/main.rs:25 | splitting treats any ASCII whitespace character as a separator: the tokens of `a + [c] + b` are those of `a` followed by those of `b` |
| Text.WordsCollapseRun | src/main.rs:25 | a run of ASCII whitespace between two pieces yields no empty tokens: the tokens are those of the two pieces |
| Text.WordsOfSpaced | src/main.rs:25-28 | re-splitting tokens that were each followed by one space gives back exactly those tokens |
| Text.TrimEnd | src/main.rs:27 | `trim_end` keeps a prefix, drops only Unicode whitespace, and what is left does not end with whitespace |
| Text.TrimEndSpace | src/main.rs:25-27 | the space appended to the second token never reaches the pattern |
| Text.Trim | src/main.rs:89 | `trim` keeps an infix with only whitespace on either side, and the infix neither starts nor ends with whitespace |
| Text.TrimIdempotent | src/main.rs:89 | trimming a trimmed worker name changes nothing |
| Text.Contains | src/main.rs:84 | `find(..).is_some()`: an occurrence needs a text at least as long as the needle, and the empty needle is always found |
| Text.LastIndexOf | src/main.rs:88 | `rfind` returns an occurrence that no later occurrence follows, and nothing exactly when the marker does not occur |
| LogTimestamp.NumberOfDigits | src/main.rs:27 | reading back a number written in `width` zero-padded digits gives the number |
| LogTimestamp.ToInstant | src/main.rs:27-29 | a `NaiveDateTime` becomes nanoseconds since 0000-01-01 that fall within its own day, day `DayNumber`; with `InstantOrder`, `NextDayInstant` and `SameDayDifference` this makes `min`, `>=` and `-` on instants those of chrono |
| LogTimestamp.InstantOrder | src/main.rs:80 | for valid date-times, instants compare exactly as the date-times do, field by field, and are equal only for equal date-times |
| LogTimestamp.DigitsOfNumber | src/main.rs:27 | writing the value of a digit field back in as many digits gives the field's text |
| LogTimestamp.ParseFields | src/main.rs:27 | a matched timestamp text is a date-time that exists in the calendar, and it has a date token, a space and a time token |
| LogTimestamp.ParseFieldsReadsText | src/main.rs:27 | a matched timestamp's first 17 characters are exactly the pattern's rendering of the parsed date and time, and its fraction text gives the parsed nanoseconds |
| LogTimestamp.Fraction | src/main.rs:27 | `%.f` yields a nanosecond count below one second |
| LogTimestamp.FractionOfShortDigits | src/main.rs:27 | a dot and `k` digits (1 to 9) give that number scaled to nanoseconds |
| LogTimestamp.FractionOfLongDigits | src/main.rs:27 | digits after the ninth are skipped |
| LogTimestamp.FractionOfMilliseconds | src/main.rs:27 | the three digits of `.927` give 927 000 000 nanoseconds |
| LogTimestamp.FractionAbsent | src/main.rs:27 | without a fraction the nanoseconds are 0 |
| LogTimestamp.NextDayInstant | src/main.rs:98-110 | the next calendar day, across month and year ends, is exactly one day of nanoseconds later, so differences of instants are chrono's durations |
| LogTimestamp.YearEndInstant | src/main.rs:98-110 | from noon on 2019-12-31 to noon on 2020-01-01 is one day |
| LogTimestamp.SameDayDifference | src/main.rs:98-110 | on one date, instants differ by the difference of their times of day |
| LogTimestamp.ParseFormat | src/main.rs:27 | formatting a valid date-time in the pattern and parsing it gives the date-time back |
| LogTimestamp.ParseAnyFraction | src/main.rs:27 | a formatted date and time followed by any fraction text that reads as its nanoseconds (three-digit milliseconds as much as nine digits) parses back to that date-time |
| LogTimestamp.ParseFieldsSameHead | src/main.rs:27 | the match depends only on the first 17 characters and on what the fraction reads as |
| LogTimestamp.HeadText | src/main.rs:26-27 | with two tokens or more, the text matched against the pattern is the first two tokens joined by one space, trimmed at the end |
| LogTimestamp.TailText | src/main.rs:28 | the rest of the line is empty exactly when there are at most two tokens, and re-splitting it gives exactly the tokens from the third on |
| LogTimestamp.ParseLogTimestamp | src/main.rs:23-33 | a parsed line has at least two tokens, and its message is the tokens from the third on, each followed by one space |
| LogTimestamp.ShortHeadFails | src/main.rs:25-27 | the pattern text built from fewer than two tokens never matches |
| LogTimestamp.ParseNeedsTwoWords | src/main.rs:25-27 | a line with fewer than two tokens has no timestamp |
| LogTimestamp.ParseIff | src/main.rs:23-33 | a line parses exactly when it has two tokens that, joined by one space and trimmed at the end, match the pattern; the entry's instant is that date-time's |
| LogTimestamp.ParseRemainder | src/main.rs:28-29 | the message of a parsed line is its tokens from the third on, each followed by one space, and splitting it again gives exactly those tokens |
| LogTimestamp.ParseFormattedLine | src/main.rs:23-33 | a formatted timestamp followed by any tokens parses to that instant and those tokens |
| ShareStats.Cutoff | src/main.rs:65-68 | a cutoff exists exactly when a window is asked for, and it lies the window's minutes before `now` |
| ShareStats.InWindow | src/main.rs:83 | without a cutoff every entry passes; with one, exactly the entries not older than the cutoff pass |
| ShareStats.WindowAge | src/main.rs:65-83 | an entry passes the window filter exactly when there is no window or it is at most the window's length older than `now` |
| ShareStats.WorkerKey | src/main.rs:84-89 | a message names a worker exactly when it contains both the `mining` tag and the `submitted by ` marker |
| ShareStats.WorkerAfterLastMarker | src/main.rs:87-89 | the worker is the trimmed text after the last marker occurrence |
| ShareStats.LastMarkerWins | src/main.rs:88-89 | of two markers in one message, the second names the worker |
| ShareStats.Contribution | src/main.rs:83-89 | an entry counts a share exactly when it is inside the window and its message has the tag and the marker, and the share goes to its worker |
| ShareStats.Increment | src/main.rs:90-91 | `or_insert(0)` then `+= 1`: the named worker's count goes up by one and every other count stays |
| ShareStats.Aggregator.constructor | src/main.rs:64-73 | the cutoff is `now` minus the window; the span starts at the two clock readings; no counts yet |
| ShareStats.Aggregator.Observe | src/main.rs:78-82 | `first` becomes the minimum of itself and the timestamp, `last` becomes the timestamp, and the counts are unchanged |
| ShareStats.Aggregator.Record | src/main.rs:90-91 | the counts are incremented for the worker and the span is unchanged |
| ShareStats.Aggregator.Feed | src/main.rs:76-94 | a line that does not parse changes nothing; a parsed one updates the span and counts a share only for its contribution |
| ShareStats.Aggregator.Consume | src/main.rs:74-95 | after the pass, `first`, `last` and `counts` are the minimum, the latest observation and the tally over the parsed lines |
| ShareStats.ConcludeAsWritten | src/main.rs:97-110 | as the code reads: not enough data exactly when a window is asked for and the span is at most that long, and then the window's minutes fill both slots; otherwise the report carries the counts and the span from the cutoff (or the first observation) to the last |
| ShareStats.Conclude | src/main.rs:97-110 | corrected: the same branches, but the first slot holds the whole minutes of the span, never more than the window |
| ShareStats.Aggregator.Finish | src/main.rs:97-110 | the outcome is the conclusion as written from the window, the cutoff, the span and the counts |
| ShareStats.Summarize | src/main.rs:64-110 | a run ends with not enough data exactly when a window was asked for and the span is at most the window; the span runs from the minimum of the first clock reading and the parsed timestamps to the last parsed timestamp (the second clock reading if none parsed); then the message repeats the window in both slots |
| ShareStats.Run | src/main.rs:64-110 | a whole run yields the outcome the reference functions give for the lines |
| ShareStats.FirstSeenIsMinimum | src/main.rs:69-80 | `ts_first_log` ends at most its initial value and every observed timestamp, and equals one of them |
| ShareStats.SpanOrdered | src/main.rs:80-81 | once anything has been observed, the span's start is not after its end |
| ShareStats.OutOfOrderSpan | src/main.rs:81 | `ts_last_log` is the latest observation, not the greatest: 10:00, 09:00, 09:30 give a span from 09:00 to 09:30 |
| ShareStats.SpanSeesAllParsed | src/main.rs:77-83 | every parsed entry bounds the span's start, and the span ends at the last parsed entry, whatever the filters do |
| ShareStats.FilteredLineOnlySpans | src/main.rs:77-84 | an unparsed line adds no entry; a parsed but filtered line extends the span and adds no key |
| ShareStats.KeysWithoutTag | src/main.rs:84 | entries whose messages lack the tag contribute no shares |
| ShareStats.TallyCounts | src/main.rs:90-91 | each count is the initial count plus the number of times that worker was recorded, and the workers are those recorded |
| ShareStats.TotalIncrement | src/main.rs:91 | recording a share raises the sum of all counts by one |
| ShareStats.TallyTotal | src/main.rs:90-91 | the counts grow by exactly the number of recorded shares |
| ShareStats.TallyExample | src/main.rs:90-91 | alice, alice, bob, alice give alice 3 and bob 1 |
| ShareStats.WholeMinutes | src/main.rs:103-104 | `Duration::num_minutes` truncates toward zero: a non-negative span holds that many whole minutes and less than one more; a negative one mirrors this |
| ShareStats.WholeMinutesExact | src/main.rs:103-104 | `num_minutes` of a whole number of minutes is that number |
| ShareStats.WholeMinutesBound | src/main.rs:98-104 | a span of at most `m` minutes is at most `m` whole minutes |
| ShareStats.ConcludeMisreportsAvailable | src/main.rs:98-105 | a 60-minute window over a 10-minute log: as written the message says 60 of 60, and corrected it says 10 of 60 |
| ShareStats.ConcludeReportsAvailable | src/main.rs:98-110 | corrected, the message reports the whole minutes of the span, and otherwise agrees with the code as written |
| ShareStats.SummaryReport | src/main.rs:83-110 | otherwise each worker's count is the number of its contributing entries, the workers are exactly those, the counts sum to the number of contributions, and the span runs from the cutoff (or the first observation) to the last observation |
| ShareStats.NoTaggedLines | src/main.rs:84-110 | without a window and without tagged messages the report lists no worker |
| ShareStats.EmptyLogSpan | src/main.rs:69-70 | a log with no parsed line is measured between the two clock readings, so a window at least that long reports not enough data |

## Left out

- Command-line parsing with clap and the `--time` parse, including the message for a non-integer (`src/main.rs:37-38`, `:54-63`). The window arrives as an optional integer number of minutes.
- Path expansion, canonicalisation and the existence check (`abspath`, `src/main.rs:17-21`, `:41-51`). This is file-system I/O.
- Opening and reading the file, and the panic on an unreadable line (`src/main.rs:74-76`). The log arrives as a sequence of lines.
- `Local::now()`: the three readings are parameters, so nothing is said about how far apart they are.
- LogTimestamp.ParseFields: chrono's leniency is not modelled. The model does not accept shorter numeric fields, signs, whitespace inside the pattern or a leap second (second 60). The model accepts exactly the fixed-width form `YYYYMMDD HH:MM:SS` plus an optional dot and digits. The first nine digits give the nanoseconds and further digits are skipped.
- Range limits: the ranges of `NaiveDateTime` and `i64`, and the overflow panics of `ts_now - d` and of `Duration::minutes`. The per-worker counter starts from the literal `0` (`src/main.rs:90`), so its type defaults to `i32`, and `+= 1` past `i32::MAX` overflows. The model's integers are unbounded.
- The rate `42.0 * shares / seconds` and its floating point, including a division by zero when the span is under one second (`src/main.rs:112`). The report carries the count and the span in nanoseconds instead.
- The printed text (`println!`) and the `HashMap` iteration order of the report lines. The report is a map.
- Laziness of the iterator chain: the pass is modelled as one loop over the lines, in order, which is what `.count()` drives.

## Findings

| source | as written | input that shows it | evidently intended | confidence | as-written member | corrected member |
|---|---|---|---|---|---|---|
| src/main.rs:101-105 | the "Only have {} minutes of data" slot prints `d.num_minutes()`, the requested window | `--time 60` over a log whose entries span 10 minutes prints "Only have 60 minutes of data. Need 60 minutes." | the first slot prints `log_duration.num_minutes()`, the minutes actually available, here 10 | high, not executed | ShareStats.ConcludeMisreportsAvailable | ShareStats.ConcludeReportsAvailable |
