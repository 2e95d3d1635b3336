# Response cache headers, modelled in Dafny

`HeaderUtility` in the DP-3T shared backend builds two cache headers for HTTP
responses:

- `Cache-Control: max-age=<maxAgeSeconds>`;
- `X-Next-Refresh: <HTTP date of now + nextRefreshSeconds>`.

The date is printed by a `SimpleDateFormat` with the pattern
`EEE, dd MMM yyyy HH:mm:ss z`, the US locale and the GMT zone. Each thread
creates that formatter lazily and keeps it in a thread-local slot.

This project models that logic as pure functions. Each module follows one
concern of the source:

| file | module | what it holds |
|---|---|---|
| `wrappers.dfy` | `Wrappers` | `Option`: the formatter cell and the parsers' results |
| `java_ints.dfy` | `JavaInts` | Java `int` and `long` ranges, and `long` wrap-around (`WrapLong`) |
| `decimal.dfy` | `Decimal` | `String.valueOf(int)`, zero padding, and the digit parser that reads both back |
| `calendar.dfy` | `Calendar` | Proleptic Gregorian calendar in GMT: epoch days to dates and back, weekday, time of day |
| `http_date.dfy` | `HttpDate` | The pattern language for the letters the header pattern uses: compile and render |
| `header_utility.dfy` | `HeaderUtility` | The constants, `createMaxAgeHeaderValue`, the refresh instant (`getDate`), the per-worker formatter cell (`formatHeaderDate`), `createHeaders`, and one worker serving a sequence of calls |
| `scenarios.dfy` | `Scenarios` | Concrete calls worked through the model |

`http_date.dfy` also holds the IMF-fixdate form of section 7.1.1.1 of RFC 7231
and a parser for it. The parser is the inverse used to state what the
formatter's output means.

The wall clock is the parameter `now`, in epoch milliseconds. The thread-local
slot is an explicit `Option<Formatter>` cell. Each call takes the cell and
returns it.

## Behaviour at the edges

- Both arguments of `createHeaders` are plain `int`s, and negative values
  pass through. A negative `maxAgeSeconds` is printed with a minus sign
  (`max-age=-5`). A negative `nextRefreshSeconds` puts the refresh date
  before the clock reading.
- `nextRefreshSeconds * 1000L` widens to `long` first, so the offset never
  overflows (`RefreshOffsetMillis`). The sum with the clock reading is a
  `long` addition and wraps modulo 2^64 (`GetDate`, `RefreshInstant`,
  `RefreshInstantWrapsAtLongMax`). It is exact for every clock reading in
  `SafeNow` (`RefreshInstantExact`).

## Model

| member | source | states |
|---|---|---|
| `HeaderUtility.CreateMaxAgeHeaderValue` | dpppt-backend-shared/src/main/java/org/dpppt/backend/shared/util/HeaderUtility.java:21-25 | The value is `max-age=` followed by canonical decimal text (no leading zeros) that parses back to the argument; a minus sign follows the `=` exactly when the argument is negative |
| `Decimal.IntToDecimal` | dpppt-backend-shared/src/main/java/org/dpppt/backend/shared/util/HeaderUtility.java:24 | `String.valueOf(int)`: the first character is `-` exactly for negative numbers; the rest is canonical digits whose value is the magnitude, never `-0` |
| `Decimal.NatToDecimal` | dpppt-backend-shared/src/main/java/org/dpppt/backend/shared/util/HeaderUtility.java:24 | The digits of a natural number are canonical and denote that number |
| `Decimal.NatToDecimalOfValue` | dpppt-backend-shared/src/main/java/org/dpppt/backend/shared/util/HeaderUtility.java:24 | Printing the value of any canonical digit string gives the string back, so canonical texts and numbers correspond one to one |
| `Decimal.DecimalOfParseInt` | dpppt-backend-shared/src/main/java/org/dpppt/backend/shared/util/HeaderUtility.java:24 | Every canonical signed text is what `String.valueOf` prints for the number it denotes |
| `Decimal.ZeroPad` | dpppt-backend-shared/src/main/java/org/dpppt/backend/shared/util/HeaderUtility.java:56-60 | A field printed with a repeated pattern letter has only digits, is as wide as the repetition or the number (whichever is wider), and denotes the number |
| `Decimal.ZeroPadOfValue` | dpppt-backend-shared/src/main/java/org/dpppt/backend/shared/util/HeaderUtility.java:56-60 | Zero padding loses nothing: padding the value of a fixed-width digit field to its width gives the field back |
| `Decimal.ZeroPadLength` | dpppt-backend-shared/src/main/java/org/dpppt/backend/shared/util/HeaderUtility.java:56-60 | A number below 10^width is printed in exactly width digits |
| `Calendar.YearStep` | dpppt-backend-shared/src/main/java/org/dpppt/backend/shared/util/HeaderUtility.java:60 | The closed-form day count of January 1 grows by exactly the Gregorian year length (366 in leap years) |
| `Calendar.DaysBeforeYearMonotone` | dpppt-backend-shared/src/main/java/org/dpppt/backend/shared/util/HeaderUtility.java:60 | Later years start at least 365 days per year later |
| `Calendar.YearAndDayOfYear` | dpppt-backend-shared/src/main/java/org/dpppt/backend/shared/util/HeaderUtility.java:60 | Walking forward from a year start gives a year and a day inside it that add up to the same day number |
| `Calendar.MonthAndDay` | dpppt-backend-shared/src/main/java/org/dpppt/backend/shared/util/HeaderUtility.java:60 | A day within a year splits into a month and a day inside that month that add up to the same day count |
| `Calendar.CivilFromDays` | dpppt-backend-shared/src/main/java/org/dpppt/backend/shared/util/HeaderUtility.java:60 | Every day from 1583-01-01 to 9999-12-31 has a valid calendar date, and that date counts back to the same day |
| `Calendar.CivilFromDaysOfCivil` | dpppt-backend-shared/src/main/java/org/dpppt/backend/shared/util/HeaderUtility.java:60 | Every valid date survives the trip to a day number and back |
| `Calendar.DaysFromCivilInjective` | dpppt-backend-shared/src/main/java/org/dpppt/backend/shared/util/HeaderUtility.java:60 | Distinct valid dates have distinct day numbers |
| `Calendar.EpochIsThursday` | dpppt-backend-shared/src/main/java/org/dpppt/backend/shared/util/HeaderUtility.java:60 | 1970-01-01 is day 0 and a Thursday |
| `Calendar.DayOfWeekStep` | dpppt-backend-shared/src/main/java/org/dpppt/backend/shared/util/HeaderUtility.java:60 | The weekday advances by one each day and wraps from Saturday to Sunday, before the epoch as after it |
| `Calendar.DayOfWeek` | dpppt-backend-shared/src/main/java/org/dpppt/backend/shared/util/HeaderUtility.java:60 | The weekday is a number from 0 (Sunday) to 6 (Saturday). With `EpochIsThursday` and `DayOfWeekStep`, this fixes the weekday of every day, before the epoch as after it |
| `Calendar.TimeOfDayOf` | dpppt-backend-shared/src/main/java/org/dpppt/backend/shared/util/HeaderUtility.java:60 | The GMT hour is 0–23 and the minute and second are 0–59. With the floor-divided day, they rebuild the instant truncated to whole seconds, also before the epoch |
| `Calendar.InstantFields` | dpppt-backend-shared/src/main/java/org/dpppt/backend/shared/util/HeaderUtility.java:60 | An instant assembled from a day and a time of day splits back into the same day and time |
| `HttpDate.Decompose` | dpppt-backend-shared/src/main/java/org/dpppt/backend/shared/util/HeaderUtility.java:57-60 | The GMT fields of an instant are valid, their weekday agrees with their date, and they denote the instant truncated to seconds |
| `HttpDate.DecomposeOfInstant` | dpppt-backend-shared/src/main/java/org/dpppt/backend/shared/util/HeaderUtility.java:57-60 | Fields whose weekday agrees with their date are exactly the decomposition of the instant they denote |
| `HttpDate.Compile` | dpppt-backend-shared/src/main/java/org/dpppt/backend/shared/util/HeaderUtility.java:56 | A compiled pattern prints back as its text. Compilation fails exactly when the text holds a character this model does not cover. Its runs are maximal, as `CompileWellFormed` states |
| `HttpDate.CompileWellFormed` | dpppt-backend-shared/src/main/java/org/dpppt/backend/shared/util/HeaderUtility.java:56 | Every compiled pattern is well formed: each maximal block of one letter becomes a single run whose width is the letter count, and literals are neither letters nor quotes. With `CompileOfPatternText`, the compiled form of a text is unique |
| `HttpDate.CompileOfPatternText` | dpppt-backend-shared/src/main/java/org/dpppt/backend/shared/util/HeaderUtility.java:56 | Compiling the text of a well-formed compiled pattern gives that pattern back |
| `HttpDate.CompileHeaderPattern` | dpppt-backend-shared/src/main/java/org/dpppt/backend/shared/util/HeaderUtility.java:56 | `EEE, dd MMM yyyy HH:mm:ss z` compiles to short weekday, 2-digit day, short month, 4-digit year, 2-digit hour, minute and second, and zone name, separated by the literal punctuation |
| `HttpDate.RenderFieldReadsBack` | dpppt-backend-shared/src/main/java/org/dpppt/backend/shared/util/HeaderUtility.java:60 | What a run of one letter prints can be read back. A numeric field is its number in at least as many digits as letters; `yy` is exactly two digits, the year modulo 100. A weekday or month name finds its field back in the table it came from. The long-name (four or more letters), numeric-month and `yy` rules are the JDK's per-letter rules; the header pattern never reaches them, and this lemma is all the model says of them. The `zzzz` rule (the long zone name `Greenwich Mean Time`) is likewise unreached, and nothing is stated about it |
| `HttpDate.HeaderPatternIsImfFixdate` | dpppt-backend-shared/src/main/java/org/dpppt/backend/shared/util/HeaderUtility.java:57-60 | The header pattern, in the US locale and GMT, prints exactly the IMF-fixdate form of RFC 7231 |
| `HttpDate.FormatHttpDate` | dpppt-backend-shared/src/main/java/org/dpppt/backend/shared/util/HeaderUtility.java:60 | What `sdf.format(date)` prints with the header formatter is the IMF-fixdate of the instant's GMT fields |
| `HttpDate.HttpDateShape` | dpppt-backend-shared/src/main/java/org/dpppt/backend/shared/util/HeaderUtility.java:57-60 | Every printed date has 29 characters. Weekday and month come from the English tables, each number is zero-padded to its width, and the text ends in ` GMT` |
| `HttpDate.ParseFormatHttpDate` | dpppt-backend-shared/src/main/java/org/dpppt/backend/shared/util/HeaderUtility.java:56-60 | Parsing what the formatter prints gives back the instant, truncated to whole seconds |
| `HttpDate.FormatParseImfFixdate` | dpppt-backend-shared/src/main/java/org/dpppt/backend/shared/util/HeaderUtility.java:56-60 | Every text the parser accepts is exactly what the formatter prints for the parsed instant |
| `HeaderUtility.RefreshOffsetMillis` | dpppt-backend-shared/src/main/java/org/dpppt/backend/shared/util/HeaderUtility.java:43 | The int is widened before multiplying, so the long offset is exactly 1000 times the seconds for every int |
| `HeaderUtility.GetDate` | dpppt-backend-shared/src/main/java/org/dpppt/backend/shared/util/HeaderUtility.java:69-71 | The clock reading plus the offset in Java's long addition: congruent to the exact sum modulo 2^64, and equal to it whenever the sum fits in a long |
| `HeaderUtility.RefreshInstant` | dpppt-backend-shared/src/main/java/org/dpppt/backend/shared/util/HeaderUtility.java:43 | `now + nextRefreshSeconds * 1000L` as Java computes it: congruent to the exact sum modulo 2^64, and equal to it whenever the sum fits in a long |
| `HeaderUtility.RefreshInstantExact` | dpppt-backend-shared/src/main/java/org/dpppt/backend/shared/util/HeaderUtility.java:43 | Within the safe band of clock readings, the refresh instant is now + 1000 × seconds for every int |
| `HeaderUtility.RefreshInstantWraps` | dpppt-backend-shared/src/main/java/org/dpppt/backend/shared/util/HeaderUtility.java:69-71 | Outside the safe band, an extreme int offset makes the long sum wrap, so the band is exact |
| `HeaderUtility.RealisticNowIsSafe` | dpppt-backend-shared/src/main/java/org/dpppt/backend/shared/util/HeaderUtility.java:69-71 | Every clock reading from the epoch to the end of year 9999 is in the safe band |
| `HeaderUtility.RefreshInstantMonotone` | dpppt-backend-shared/src/main/java/org/dpppt/backend/shared/util/HeaderUtility.java:43 | With a safe clock reading, more refresh seconds give a later instant, exactly 1000 ms later per second |
| `HeaderUtility.RealisticCallFormattable` | dpppt-backend-shared/src/main/java/org/dpppt/backend/shared/util/HeaderUtility.java:38-43 | Every call made with a clock reading from the epoch to the start of year 9931 has a refresh instant in years 1583 to 9999, for every int count of seconds, so `createHeaders` can format it |
| `HeaderUtility.NewHeaderFormatter` | dpppt-backend-shared/src/main/java/org/dpppt/backend/shared/util/HeaderUtility.java:56-57 | The formatter built on first use holds the compiled header date pattern |
| `HeaderUtility.FormatHeaderDate` | dpppt-backend-shared/src/main/java/org/dpppt/backend/shared/util/HeaderUtility.java:53-61 | After the call the cell holds the header formatter, a filled cell is never replaced, and the text is the header formatter's output for the instant |
| `HeaderUtility.FormatHeaderDateCacheTransparent` | dpppt-backend-shared/src/main/java/org/dpppt/backend/shared/util/HeaderUtility.java:53-60 | The text is the same whether the cell was empty or filled, and a second call leaves the cell as the first one left it |
| `HeaderUtility.CreateHeaders` | dpppt-backend-shared/src/main/java/org/dpppt/backend/shared/util/HeaderUtility.java:38-45 | Exactly two entries, `Cache-Control` first with the max-age value, then `X-Next-Refresh`. The second entry's date parses back to the refresh instant truncated to seconds, and the cell ends filled |
| `HeaderUtility.CreateHeadersIndependence` | dpppt-backend-shared/src/main/java/org/dpppt/backend/shared/util/HeaderUtility.java:41-43 | `Cache-Control` depends on max-age alone and `X-Next-Refresh` on the clock and refresh seconds alone, whatever the cell holds |
| `HeaderUtility.CreateHeadersIgnoresCell` | dpppt-backend-shared/src/main/java/org/dpppt/backend/shared/util/HeaderUtility.java:53-60 | The headers are the same for an empty and a filled cell |
| `HeaderUtility.Serve` | dpppt-backend-shared/src/main/java/org/dpppt/backend/shared/util/HeaderUtility.java:53-60 | A worker serving calls in order returns one header set per call. Its cell ends filled after any call, and untouched after none |
| `HeaderUtility.ServeIsPerCall` | dpppt-backend-shared/src/main/java/org/dpppt/backend/shared/util/HeaderUtility.java:53-60 | The header sets a worker returns are, call by call, those a fresh worker (empty cell) would return for each call alone, so the cache carries nothing between calls |
| `Scenarios.CreateHeadersAtNewYear2024` | dpppt-backend-shared/src/main/java/org/dpppt/backend/shared/util/HeaderUtility.java:38-45 | `createHeaders(3600, 60)` at 2024-01-01T00:00:00Z gives `max-age=3600` and `Mon, 01 Jan 2024 00:01:00 GMT` |
| `Scenarios.NegativeMaxAge` | dpppt-backend-shared/src/main/java/org/dpppt/backend/shared/util/HeaderUtility.java:23-25 | A negative max-age is printed with its sign: `max-age=-5` |
| `Scenarios.RefreshInstantWrapsAtLongMax` | dpppt-backend-shared/src/main/java/org/dpppt/backend/shared/util/HeaderUtility.java:69-71 | At `Long.MAX_VALUE` one more second wraps to `Long.MIN_VALUE + 999`, as Java's long addition does |

## Left out

- The wall clock (`System.currentTimeMillis()`) is not read. The reading is the parameter `now`.
- Spring's `HttpHeaders` is modelled as a sequence of name/value entries in insertion order. Its multi-value map semantics belong to a library outside this model. The two names differ, so nothing merges.
- `ThreadLocal` and isolation between threads are concurrency concerns. The model keeps one worker's cell, used sequentially (`Serve`).
- `HeaderUtility.FormatHeaderDate`: requires an instant whose GMT date falls in years 1583 to 9999. Before 15 October 1582 the JDK switches to the Julian calendar, and after 9999 the year field widens; neither is modelled. The date is also truncated to whole seconds, since the pattern has no millisecond field.
- `HeaderUtility.CreateHeaders`: requires the refresh instant to be in that same range of years, for the same reason. `RealisticCallFormattable` shows that every call made with a clock reading from the epoch to the start of year 9931 meets this requirement, whatever its int count of seconds.
- `HttpDate.Compile`: covers only the pattern letters `E d M y H m s z`. It fails on every other letter and on quoted text. The JDK accepts more letters and treats a quote as the start of literal text.
- Locales other than US and zones other than GMT: the US English name tables and a zero GMT offset are fixed.
- Leap seconds: `java.util.Date` has none, and the parser rejects a second of 60.
