# crypto-analyzer core in Dafny

This project models the two computational parts of the crypto-analyzer service.

- **The statistics engine (`CryptoService`).**
  - Minimum and maximum price of a list of price observations, ignoring null prices.
  - Oldest and newest observation.
  - The normalized range `(max - min) / min`, rounded half-up to three places.
  - The global ranking: one entry per symbol with its min, max and ten-place ratio, sorted by descending ratio.
  - The "highest normalized range for a day" query.
  - The conversions between ISO local date-times in UTC and epoch milliseconds.
- **The CSV loader (`FileReaderToDatabase`).**
  - Header and blank rows are skipped; every other row becomes a price record.
  - Those records are then upserted into the price table, keyed by (symbol, timestamp).

The modules:

| module | file | what it holds |
|---|---|---|
| `Wrappers` | wrappers.dfy | `Option` and `Result` |
| `Decimals` | decimals.dfy | `BigDecimal.divide(.., scale, HALF_UP)` as `HalfUpUnits` / `RoundHalfUp` on exact reals |
| `Records` | records.dfy | the `Crypto` observation (symbol, epoch millis, nullable price) and the `NormalizedCrypto` result value with its `"N/A"` sentinel |
| `Repository` | repository.dfy | the repository queries as filters over the table's rows, and the `CryptoRepository` table class with its two writes |
| `Calendar` | calendar.dfy | proleptic Gregorian dates, epoch days (`toEpochDay`/`ofEpochDay`) and `toEpochMilli` with long-overflow detection |
| `IsoFormat` | iso_format.dfy | strict `ISO_LOCAL_DATE` / `ISO_LOCAL_DATE_TIME` parsing and printing, with round trips |
| `CryptoService` | crypto_service.dfy | the service's operations as functions, with lemmas |
| `Scenarios` | scenarios.dfy | the unit tests' concrete data, stated as lemmas |
| `Loader` | file_reader.dfy | row filtering, record building, the upsert, and the `FileReaderToDatabase` class |

How values are represented:

- **Prices** are exact rationals (`real`), and a nullable price is `Option<real>`. Only numeric value matters; BigDecimal scale is not represented.
- **Timestamps** are unbounded integers. Java's `long` range is checked where the source's conversion would throw `ArithmeticException`.
- **Parsing errors** are explicit results. A malformed date-time string in `convertGMTToMillis` and a malformed day in the day query are `Failure` values, not exceptions.

**Parse format: the code, not the Javadoc.** The Javadoc of the day query (services/CryptoService.java:207) describes the input as `dd-MM-yyyy`. The code parses with `ISO_LOCAL_DATE`, i.e. `yyyy-MM-dd` with strict month and day validity. The model follows the code. As a result, the unit test's input `"01-01-2022"` (CryptoAnalyzerApplicationTests.java:109) reaches the invalid-format error: `Scenarios.DayMonthYearTextRejected` states exactly that.

**The empty-day sentinel** is the symbol `"N/A"` with value 0 (`Records.NotFound`).

**Stream and grouping order:**
- `Stream.min`/`max` keep the first extreme element, and the model does the same.
- `Collectors.groupingBy` builds a `HashMap` whose iteration order Java leaves unspecified. The model uses the symbols' first-appearance order. The ranking's properties are stated independently of that order (one entry per symbol, each entry equal to its group's statistics, sorted descending). The model's sort is stable; Java's order among equal values is unspecified, since the entries stream comes from an unordered `HashMap` entry set.

**The loader:**
- Files arrive as data: a sequence of files, each a sequence of rows, each a sequence of fields.
- `Long.parseLong` and `new BigDecimal(String)` are parameters, modelled as partial functions that return `None` where Java would throw.
- An uncaught parse or index exception in the source aborts `readCryptoData` before the save. The model returns a `LoadError` and leaves the table untouched.

## Model

| member | source | states |
|---|---|---|
| `Decimals.HalfUpUnits` | src/main/java/com/service/crypto_analyzer/services/CryptoService.java:158 | the scaled integer is within one half-unit of `x·10^s`, with ties going away from zero, as `RoundingMode.HALF_UP` rounds |
| `Decimals.RoundHalfUp` | src/main/java/com/service/crypto_analyzer/services/CryptoService.java:158 | the rounded value is the half-up unit count divided by `10^s` |
| `Decimals.HalfUpUnitsUnique` | src/main/java/com/service/crypto_analyzer/services/CryptoService.java:158 | any integer within the half-up bounds is the rounding result, so the rounding is determined uniquely |
| `Decimals.RoundHalfUpError` | src/main/java/com/service/crypto_analyzer/services/CryptoService.java:158 | rounding moves the value by at most half a unit in the last place |
| `Decimals.RoundHalfUpNonNegative` | src/main/java/com/service/crypto_analyzer/services/CryptoService.java:158 | rounding a non-negative quotient gives a non-negative result |
| `Decimals.RoundHalfUpMonotonic` | src/main/java/com/service/crypto_analyzer/services/CryptoService.java:158 | rounding preserves order |
| `Repository.FindBySymbol` | src/main/java/com/service/crypto_analyzer/repos/CryptoRepository.java:24 | exactly the rows with that symbol, each with its multiplicity in the table |
| `Repository.FindByTimestampBetween` | src/main/java/com/service/crypto_analyzer/repos/CryptoRepository.java:36-42 | exactly the rows whose timestamp lies in the inclusive range, each with its multiplicity |
| `Repository.FindBySymbolAndTimestamp` | src/main/java/com/service/crypto_analyzer/repos/CryptoRepository.java:33 | the positions of all rows with that (symbol, timestamp) key, ascending, so `get(0)` is the first such row |
| `Repository.CryptoRepository.constructor` | src/main/java/com/service/crypto_analyzer/repos/CryptoRepository.java:15-16 | the table starts with the given rows |
| `Repository.CryptoRepository.UpdatePrice` | src/main/java/com/service/crypto_analyzer/dto/FileReaderToDatabase.java:80-81 | `setPrice` and `save` on a managed entity change that row's price and nothing else |
| `Repository.CryptoRepository.Save` | src/main/java/com/service/crypto_analyzer/dto/FileReaderToDatabase.java:84 | saving a new entity appends it to the table |
| `Calendar.DaysBeforeMonth` | src/main/java/com/service/crypto_analyzer/services/CryptoService.java:220-224 | the days before month 13 make up the whole year |
| `Calendar.YearStep` | src/main/java/com/service/crypto_analyzer/services/CryptoService.java:220-224 | consecutive years' start days differ by the year's length (365, or 366 in a Gregorian leap year) |
| `Calendar.CycleShift` | src/main/java/com/service/crypto_analyzer/services/CryptoService.java:220-224 | the calendar repeats every 400 years of 146097 days |
| `Calendar.DaysBeforeYearMonotonic` | src/main/java/com/service/crypto_analyzer/services/CryptoService.java:220-224 | a later year starts no earlier |
| `Calendar.YearAndDay` | src/main/java/com/service/crypto_analyzer/services/CryptoService.java:63 | any day count splits into a year and a day-of-year inside that year |
| `Calendar.OfEpochDay` | src/main/java/com/service/crypto_analyzer/services/CryptoService.java:63 | `ofEpochDay` yields a month in 1..12 |
| `Calendar.EpochDayOfEpochDay` | src/main/java/com/service/crypto_analyzer/services/CryptoService.java:63 | `toEpochDay(ofEpochDay(n)) == n`, and the day lies inside its month |
| `Calendar.OfEpochDayOfDate` | src/main/java/com/service/crypto_analyzer/services/CryptoService.java:220-224 | `ofEpochDay(toEpochDay(d)) == d` for every valid date |
| `Calendar.YearOfDayUnique` | src/main/java/com/service/crypto_analyzer/services/CryptoService.java:220-224 | a day count has only one (year, day-of-year) decomposition |
| `Calendar.OfEpochDayYearRange` | src/main/java/com/service/crypto_analyzer/services/CryptoService.java:63 | every epoch day reachable from a `long` of milliseconds is a valid date within the supported year range |
| `Calendar.ToEpochMilli` | src/main/java/com/service/crypto_analyzer/services/CryptoService.java:49 | `toEpochMilli` succeeds exactly when `seconds·1000 + nanos/10^6` fits in a `long`, and then returns it |
| `IsoFormat.DigitsValue` | src/main/java/com/service/crypto_analyzer/services/CryptoService.java:46 | a run of n decimal digits denotes a value below 10^n |
| `IsoFormat.PadDigits` | src/main/java/com/service/crypto_analyzer/services/CryptoService.java:64 | zero-padded printing gives digits of at least the width that read back as the number |
| `IsoFormat.StripTrailingZeros` | src/main/java/com/service/crypto_analyzer/services/CryptoService.java:64 | dropping trailing zeros from a fraction keeps a prefix that ends in a non-zero digit and scales back to the same value |
| `IsoFormat.DigitPrefix` | src/main/java/com/service/crypto_analyzer/services/CryptoService.java:46 | the parser takes the longest run of digits up to the field's maximum width |
| `IsoFormat.TwoDigits` | src/main/java/com/service/crypto_analyzer/services/CryptoService.java:46 | a two-digit field consumes exactly two characters and gives 0..99 |
| `IsoFormat.Literal` | src/main/java/com/service/crypto_analyzer/services/CryptoService.java:46 | a literal succeeds exactly when the next character is that literal, and consumes just it |
| `IsoFormat.ParseIsoLocalDate` | src/main/java/com/service/crypto_analyzer/services/CryptoService.java:215 | strict `ISO_LOCAL_DATE` accepts only valid proleptic Gregorian dates (no February 30) |
| `IsoFormat.ParseFraction` | src/main/java/com/service/crypto_analyzer/services/CryptoService.java:46 | a decimal point followed by zero to nine digits is a nano-of-second below 10^9 |
| `IsoFormat.ParseIsoLocalDateTime` | src/main/java/com/service/crypto_analyzer/services/CryptoService.java:46 | strict `ISO_LOCAL_DATE_TIME` accepts only valid dates with hour < 24, minute and second < 60 |
| `IsoFormat.YearRoundTrip` | src/main/java/com/service/crypto_analyzer/services/CryptoService.java:64 | a printed year (four digits, `+` and more digits beyond 9999, or `-` for negative years) parses back to itself |
| `IsoFormat.DateRoundTrip` | src/main/java/com/service/crypto_analyzer/services/CryptoService.java:215 | parsing a printed ISO date returns the date |
| `IsoFormat.FractionRoundTrip` | src/main/java/com/service/crypto_analyzer/services/CryptoService.java:64 | the printed nano fraction parses back to the same nanos |
| `IsoFormat.TimeRoundTrip` | src/main/java/com/service/crypto_analyzer/services/CryptoService.java:64 | a printed time parses back to its hour, minute, second and nanos |
| `IsoFormat.DateTimeRoundTrip` | src/main/java/com/service/crypto_analyzer/services/CryptoService.java:46-64 | parsing a printed `ISO_LOCAL_DATE_TIME` returns the same date-time |
| `CryptoService.Prices` | src/main/java/com/service/crypto_analyzer/services/CryptoService.java:99-101 | the non-null prices are exactly the present price options |
| `CryptoService.PriceOptions` | src/main/java/com/service/crypto_analyzer/services/CryptoService.java:99-100 | the `map(getPrice)` stream keeps the list's order and length |
| `CryptoService.MinOf` | src/main/java/com/service/crypto_analyzer/services/CryptoService.java:102 | the minimum is one of the prices and below or equal to all of them |
| `CryptoService.MaxOf` | src/main/java/com/service/crypto_analyzer/services/CryptoService.java:119 | the maximum is one of the prices and above or equal to all of them |
| `CryptoService.CalculateMinPrice` | src/main/java/com/service/crypto_analyzer/services/CryptoService.java:97-106 | 0 when no record has a price; otherwise one of the records' prices, at most every non-null price |
| `CryptoService.CalculateMaxPrice` | src/main/java/com/service/crypto_analyzer/services/CryptoService.java:114-123 | 0 when no record has a price; otherwise one of the records' prices, at least every non-null price |
| `CryptoService.PricesCoverRecords` | src/main/java/com/service/crypto_analyzer/services/CryptoService.java:99-104 | every non-null price is considered, and the fallback 0 applies exactly when no price is present |
| `CryptoService.MinPriceAtMostMaxPrice` | src/main/java/com/service/crypto_analyzer/services/CryptoService.java:97-123 | the minimum never exceeds the maximum, including in the fallback case |
| `CryptoService.GetOldestCrypto` | src/main/java/com/service/crypto_analyzer/services/CryptoService.java:131-134 | none exactly for an empty list; otherwise a list element whose timestamp is at most every timestamp |
| `CryptoService.GetNewestCrypto` | src/main/java/com/service/crypto_analyzer/services/CryptoService.java:142-145 | none exactly for an empty list; otherwise a list element whose timestamp is at least every timestamp |
| `CryptoService.OldestIsFirstMinimal` | src/main/java/com/service/crypto_analyzer/services/CryptoService.java:133 | among equal oldest timestamps, `Stream.min` returns the first one |
| `CryptoService.NewestIsFirstMaximal` | src/main/java/com/service/crypto_analyzer/services/CryptoService.java:144 | among equal newest timestamps, `Stream.max` returns the first one |
| `CryptoService.NormalizedValue` | src/main/java/com/service/crypto_analyzer/services/CryptoService.java:185-190 | 0 unless the minimum is positive, otherwise `(max-min)/min` rounded half-up at the given scale; never negative when min ≤ max |
| `CryptoService.CalculateNormalizedRange` | src/main/java/com/service/crypto_analyzer/services/CryptoService.java:153-165 | never negative, and exactly 0 unless the minimum price is positive (the division guard) |
| `CryptoService.NormalizedRangeRounds` | src/main/java/com/service/crypto_analyzer/services/CryptoService.java:155-160 | with a positive minimum price, the range is `(max-min)/min` rounded half-up to three places |
| `CryptoService.RangeOfBounds` | src/main/java/com/service/crypto_analyzer/services/CryptoService.java:153-165 | the range is computed from the records' own min and max prices, and those are ordered |
| `CryptoService.ThreePlaces` | src/main/java/com/service/crypto_analyzer/services/CryptoService.java:155-163 | the three-place ratio of an ordered min/max pair is non-negative and half-up rounded |
| `CryptoService.Symbols` | src/main/java/com/service/crypto_analyzer/services/CryptoService.java:175-176 | the grouping keys are exactly the symbols present, each once |
| `CryptoService.GroupRatio` | src/main/java/com/service/crypto_analyzer/services/CryptoService.java:181-190 | a group's ten-place ratio is non-negative |
| `CryptoService.NormalizeGroup` | src/main/java/com/service/crypto_analyzer/services/CryptoService.java:179-198 | the entry carries the group's symbol and a non-negative normalized value |
| `CryptoService.NormalizeAll` | src/main/java/com/service/crypto_analyzer/services/CryptoService.java:178-199 | one entry per grouping key, each the normalization of its group |
| `CryptoService.InsertDescending` | src/main/java/com/service/crypto_analyzer/services/CryptoService.java:200 | inserting into a descending list keeps it descending and adds exactly that element |
| `CryptoService.SortDescending` | src/main/java/com/service/crypto_analyzer/services/CryptoService.java:200 | the sort result is a permutation of its input, in non-increasing normalized value |
| `CryptoService.MaxByValue` | src/main/java/com/service/crypto_analyzer/services/CryptoService.java:250 | `Stream.max` by normalized value returns an element at least as large as every element |
| `CryptoService.GetSortedCryptosByNormalizedValue` | src/main/java/com/service/crypto_analyzer/services/CryptoService.java:173-201 | descending by normalized value; exactly one entry per distinct symbol in the table; each entry equal to its symbol group's min, max and ten-place ratio |
| `CryptoService.RankingFacts` | src/main/java/com/service/crypto_analyzer/services/CryptoService.java:175-200 | any permutation of the group entries has one entry per symbol, covering all symbols, each equal to its group's statistics |
| `CryptoService.EntriesCoverSymbols` | src/main/java/com/service/crypto_analyzer/services/CryptoService.java:175-199 | the entries' symbols are exactly the table's symbols |
| `CryptoService.DistinctEntries` | src/main/java/com/service/crypto_analyzer/services/CryptoService.java:175-199 | no two group entries are equal |
| `CryptoService.SortHeadIsMax` | src/main/java/com/service/crypto_analyzer/services/CryptoService.java:200-250 | the head of the descending sort is the element `Stream.max` picks |
| `CryptoService.ConvertGMTToMillis` | src/main/java/com/service/crypto_analyzer/services/CryptoService.java:43-52 | a parse failure exactly when the text is not a strict ISO local date-time; otherwise the UTC epoch milliseconds (truncating sub-millisecond nanos), or an overflow failure exactly when they do not fit in a `long` |
| `CryptoService.MillisToDateTime` | src/main/java/com/service/crypto_analyzer/services/CryptoService.java:63 | `LocalDateTime.ofInstant(.., UTC)` gives a valid date-time that denotes exactly the given milliseconds |
| `CryptoService.ConvertMillisToGMT` | src/main/java/com/service/crypto_analyzer/services/CryptoService.java:60-68 | the printed text parses back as the date-time of those milliseconds |
| `CryptoService.MillisRoundTrip` | src/main/java/com/service/crypto_analyzer/services/CryptoService.java:43-68 | `convertGMTToMillis(convertMillisToGMT(m)) == m` for every `long` m |
| `CryptoService.ConvertParsed` | src/main/java/com/service/crypto_analyzer/services/CryptoService.java:43-52 | a parsed date-time whose milliseconds fit in a `long` converts to exactly those milliseconds |
| `CryptoService.GMTRoundTrip` | src/main/java/com/service/crypto_analyzer/services/CryptoService.java:43-68 | a date-time text at millisecond precision converts and prints back to its canonical ISO form |
| `CryptoService.SameInstant` | src/main/java/com/service/crypto_analyzer/services/CryptoService.java:43-68 | two valid millisecond-precision date-times that denote the same instant are equal |
| `CryptoService.WindowMeaning` | src/main/java/com/service/crypto_analyzer/services/CryptoService.java:220-224 | the window from midnight UTC to 23:59:59 is exactly the timestamps of that day up to the last whole second |
| `CryptoService.DayWindow` | src/main/java/com/service/crypto_analyzer/services/CryptoService.java:220-224 | an overflow failure exactly when the window's ends do not fit in a `long`; otherwise an inclusive range containing exactly the day's timestamps |
| `CryptoService.DayRecords` | src/main/java/com/service/crypto_analyzer/services/CryptoService.java:226 | the day's records are records of the table |
| `CryptoService.WindowIsDay` | src/main/java/com/service/crypto_analyzer/services/CryptoService.java:226 | `findByTimestampBetween` over the day window returns exactly the day's records, in table order |
| `CryptoService.WithoutPrices` | src/main/java/com/service/crypto_analyzer/services/CryptoService.java:248 | the two-argument constructor keeps symbol and value and leaves min and max null |
| `CryptoService.HighestInWindow` | src/main/java/com/service/crypto_analyzer/services/CryptoService.java:227-251 | `("N/A", 0)` for an empty window; otherwise a symbol present in the window, with its ten-place ratio, which is at least every other symbol's ratio |
| `CryptoService.WinnerFacts` | src/main/java/com/service/crypto_analyzer/services/CryptoService.java:232-250 | the maximal stripped entry is a present symbol with its own group ratio, at least every symbol's ratio |
| `CryptoService.DayEntryAt` | src/main/java/com/service/crypto_analyzer/services/CryptoService.java:233-248 | the j-th day entry is the j-th symbol with null prices and its group ratio |
| `CryptoService.MaxWithoutPrices` | src/main/java/com/service/crypto_analyzer/services/CryptoService.java:248-250 | dropping the prices does not change which entry is the maximum |
| `CryptoService.DayWinnerHeadsRanking` | src/main/java/com/service/crypto_analyzer/services/CryptoService.java:173-251 | over the same records, the day winner is the head of the global ranking with its prices dropped |
| `CryptoService.GetCryptoWithHighestNormalizedRangeForDay` | src/main/java/com/service/crypto_analyzer/services/CryptoService.java:210-252 | invalid-format error exactly when the text is not a strict ISO date; overflow error exactly when the day window leaves the `long` range; otherwise the winner over the day's records, or the sentinel when there are none |
| `Scenarios.OldestQuote` | src/test/java/com/service/crypto_analyzer/CryptoAnalyzerApplicationTests.java:26-37 | the oldest of the test's three BTC quotes is priced 46813.21 |
| `Scenarios.NewestQuote` | src/test/java/com/service/crypto_analyzer/CryptoAnalyzerApplicationTests.java:39-49 | the newest of the test's three BTC quotes is priced 38416.79 |
| `Scenarios.MinAndMaxOfBtc` | src/test/java/com/service/crypto_analyzer/CryptoAnalyzerApplicationTests.java:51-73 | the BTC quotes' minimum is 34875.00 and their maximum 47222.66 |
| `Scenarios.NormalizedRangeOfBtc` | src/test/java/com/service/crypto_analyzer/CryptoAnalyzerApplicationTests.java:75-85 | the BTC normalized range is 0.354 |
| `Scenarios.MinAndMaxOfEth` | src/test/java/com/service/crypto_analyzer/CryptoAnalyzerApplicationTests.java:87-99 | the ETH quotes' minimum is 2336.52 and their maximum 3823.82 |
| `Scenarios.NormalizedRangeOfEth` | src/test/java/com/service/crypto_analyzer/CryptoAnalyzerApplicationTests.java:87-101 | the ETH normalized range is 0.637 |
| `Scenarios.EthRangeExceedsBtc` | src/test/java/com/service/crypto_analyzer/CryptoAnalyzerApplicationTests.java:87-104 | the ETH normalized range exceeds the BTC one |
| `Scenarios.DayMonthYearTextRejected` | src/test/java/com/service/crypto_analyzer/CryptoAnalyzerApplicationTests.java:107-112 | `"01-01-2022"` is not an ISO date, so the day query reports an invalid format whatever the table holds |
| `Scenarios.IsoDateOfTestDay` | src/main/java/com/service/crypto_analyzer/services/CryptoService.java:215 | the ISO text of 1 January 2022 is `"2022-01-01"`, and it parses back |
| `Scenarios.WindowOfTestDay` | src/main/java/com/service/crypto_analyzer/services/CryptoService.java:220-224 | the window of 1 January 2022 is [1640995200000, 1641081599000] |
| `Loader.TrimStart` | src/main/java/com/service/crypto_analyzer/dto/FileReaderToDatabase.java:49 | `String.trim` drops exactly the leading characters at or below U+0020 |
| `Loader.TrimEnd` | src/main/java/com/service/crypto_analyzer/dto/FileReaderToDatabase.java:49 | `String.trim` drops exactly the trailing characters at or below U+0020 |
| `Loader.Trim` | src/main/java/com/service/crypto_analyzer/dto/FileReaderToDatabase.java:49 | the trimmed text is no longer than the original and neither starts nor ends with such a character |
| `Loader.TrimEmptyIffBlank` | src/main/java/com/service/crypto_analyzer/dto/FileReaderToDatabase.java:49 | a field trims to empty exactly when all its characters are at or below U+0020 |
| `Loader.BlankTest` | src/main/java/com/service/crypto_analyzer/dto/FileReaderToDatabase.java:49-51 | the source's skip test (no fields, or a first field empty after trimming) is exactly the blank-row predicate |
| `Loader.FileRowsOrdered` | src/main/java/com/service/crypto_analyzer/dto/FileReaderToDatabase.java:43-59 | a file's data rows come out in line order |
| `Loader.FileRowsMembers` | src/main/java/com/service/crypto_analyzer/dto/FileReaderToDatabase.java:40-51 | a file's data rows are exactly its non-blank lines after the first |
| `Loader.HeaderIgnored` | src/main/java/com/service/crypto_analyzer/dto/FileReaderToDatabase.java:40-47 | the first line is discarded whatever it contains |
| `Loader.DataRowsMembers` | src/main/java/com/service/crypto_analyzer/dto/FileReaderToDatabase.java:35-64 | the data rows of all files are exactly each file's data rows |
| `Loader.BuildRecord` | src/main/java/com/service/crypto_analyzer/dto/FileReaderToDatabase.java:54-58 | a record exactly when the row has three fields and both numbers parse; it is (symbol = field 1, timestamp = field 0, price = field 2); a failure names the row and says which parse failed |
| `Loader.BuildAllEach` | src/main/java/com/service/crypto_analyzer/dto/FileReaderToDatabase.java:52-58 | on success there is exactly one record per data row, in row order |
| `Loader.FailureIsFinal` | src/main/java/com/service/crypto_analyzer/dto/FileReaderToDatabase.java:32-67 | once a row fails, later rows do not change the outcome: the exception aborts the load |
| `Loader.FirstFailingRow` | src/main/java/com/service/crypto_analyzer/dto/FileReaderToDatabase.java:32-67 | a failed load reports the first failing row, and every row before it succeeded |
| `Loader.DataLine` | src/main/java/com/service/crypto_analyzer/dto/FileReaderToDatabase.java:54-58 | processing a data line either appends its record or decides the whole load's failure |
| `Loader.Upsert` | src/main/java/com/service/crypto_analyzer/dto/FileReaderToDatabase.java:77-85 | an existing key has its first matching row's price replaced and nothing added; a new key is appended; no other row changes |
| `Loader.UpsertAll` | src/main/java/com/service/crypto_analyzer/dto/FileReaderToDatabase.java:76-87 | the table never shrinks and existing rows keep their keys |
| `Loader.LastPrice` | src/main/java/com/service/crypto_analyzer/dto/FileReaderToDatabase.java:76-87 | no price exactly when no input record has the key |
| `Loader.LookupFirst` | src/main/java/com/service/crypto_analyzer/dto/FileReaderToDatabase.java:78 | looking a key up returns the first matching row's price, or nothing when the key is absent |
| `Loader.FirstId` | src/main/java/com/service/crypto_analyzer/dto/FileReaderToDatabase.java:78-79 | the query result is non-empty exactly when the key exists, and its first element is the first matching row |
| `Loader.UpsertLookup` | src/main/java/com/service/crypto_analyzer/dto/FileReaderToDatabase.java:78-85 | after one upsert the record's key maps to its price and every other key is unchanged |
| `Loader.UpsertAllLookup` | src/main/java/com/service/crypto_analyzer/dto/FileReaderToDatabase.java:76-87 | after the upsert a key maps to the price of its last input record, and keys absent from the input are unchanged |
| `Loader.UpsertAllUntouched` | src/main/java/com/service/crypto_analyzer/dto/FileReaderToDatabase.java:76-87 | a row whose key no input record carries is left exactly as it was |
| `Loader.UpsertKeepsKeysUnique` | src/main/java/com/service/crypto_analyzer/dto/FileReaderToDatabase.java:78-85 | one upsert preserves key uniqueness |
| `Loader.UpsertAllKeepsKeysUnique` | src/main/java/com/service/crypto_analyzer/dto/FileReaderToDatabase.java:76-87 | upserting a list preserves key uniqueness |
| `Loader.RewriteExisting` | src/main/java/com/service/crypto_analyzer/dto/FileReaderToDatabase.java:79-82 | when every input key already exists, the table keeps its length and each row carries the price of the last input record with its key |
| `Loader.UpsertAllIdempotent` | src/main/java/com/service/crypto_analyzer/dto/FileReaderToDatabase.java:76-87 | upserting the same list twice leaves the same table as upserting it once |
| `Loader.FileReaderToDatabase.constructor` | src/main/java/com/service/crypto_analyzer/dto/FileReaderToDatabase.java:23-24 | the loader works on the repository it is given |
| `Loader.FileReaderToDatabase.BuildRecords` | src/main/java/com/service/crypto_analyzer/dto/FileReaderToDatabase.java:32-64 | the loop over files and lines, with its header flag and blank-row skip, computes exactly the records of the data rows, or the first row's failure |
| `Loader.FileReaderToDatabase.BuildRow` | src/main/java/com/service/crypto_analyzer/dto/FileReaderToDatabase.java:49-58 | the row's blank check and field parsing, in the source's order, agree with `BuildRecord` |
| `Loader.FileReaderToDatabase.SaveOrUpdateCryptoData` | src/main/java/com/service/crypto_analyzer/dto/FileReaderToDatabase.java:76-87 | the in-place loop of find, update or save leaves the table equal to the upsert of the records in order |
| `Loader.FileReaderToDatabase.ReadCryptoData` | src/main/java/com/service/crypto_analyzer/dto/FileReaderToDatabase.java:32-67 | returns the records of the data rows; on success the table is the upsert of exactly that list; on a failing row the table is untouched |

## Left out

- **The HTTP controller** (`CryptoController`): routing, response codes and the French-locale number formatting. Its `getSymbol().isEmpty()` checks (controllers/CryptoController.java:106 and 163) never match the day query's `"N/A"` sentinel, so an empty day comes back as an ordinary result.
- **The rate-limiting filter**: a concurrent per-IP token bucket from a library that is not part of this model.
- **Spring bootstrap** (`CryptoAnalyzerApplication`), the `CryptoStats` holder and slf4j logging.
- **File I/O in `readCryptoData`**: the class-path resource lookup, `FileReader`, opencsv's `CSVReader` and the `catch` of `IOException`/`CsvValidationException` that prints and continues. Rows are given as data. A missing or unreadable file has no counterpart in the model.
- **The JPA repository** itself: it is replaced by in-memory filters over the table's rows. Entity identity is row position.
- `getCryptoDataBySymbol` and `getCryptoFindAll` are one-line delegations. They are `Repository.FindBySymbol` and the table's row sequence itself.
- **BigDecimal representation**: scale, `stripTrailingZeros` and `equals` versus `compareTo`. Only the numeric value is modelled.
  - The global ranking and the day query compute their ratio at scale 10 (`NormalizedValue(min, max, 10)`), and the normalized range at scale 3.
- **The order of symbol groups**: Java's `HashMap` order is unspecified. The model fixes first-appearance order, so which of several equally ranked symbols the day query returns is the model's choice, not Java's.
- **The ranking order test** (CryptoAnalyzerApplicationTests.java:114-122) depends on the CSV data files shipped with the application, which are not part of this model.
- **The day test's expectation**: the model shows that its input is rejected as an invalid format (`Scenarios.DayMonthYearTextRejected`). The test's expected XRP value, which would also need the data files, is not modelled.
- `Loader.FileReaderToDatabase.BuildRecords`: the per-row parsing is a separate method, `BuildRow`, called from the loop. The source writes it inline.
- `Loader.BuildRecord`: a row with no fields is rejected as a missing field, where Java would throw `ArrayIndexOutOfBoundsException`. The loop never reaches this case, because such a row is blank and skipped.
- `CryptoService.ConvertGMTToMillis`: `ZoneId.of("UTC")` is fixed. Time zones and offsets other than UTC are not modelled.
