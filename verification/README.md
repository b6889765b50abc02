# Verified model of the csvsuite kernels

csvsuite reads CSV files, infers a type for every column, and then prints statistics, sorts, joins,
stacks, or writes SQL. This project models the computations that those tools rest on and proves what
they promise: the timedelta scanner and printer, civil calendar arithmetic and the date-time text form,
column statistics, typed comparison with the hash index and the joins built on it, the number
recogniser, column typing, the CREATE TABLE printer with the scanner that reads it back, and the merging
of headers.

`dafny verify dfyconfig.toml` checks everything.

## How to read it

Each component has a specification as functions, methods in the form of the program (loops over local
state, arrays and objects changed in place) proved equal to those functions or to stated properties, and
lemmas about the functions. Where a function is a definition that other results rest on, a lemma also says what it is
in terms of texts, characters and literal numbers alone (`TimeValues`, `DateCells`, `TextOrder`, `TypifyTexts`,
`JoinListing`, the last parts of `NumeralTexts`, `Precision`, `Moments`, `Mcv`, `SqlInsert` and `StackOutput`).

| files | component |
|---|---|
| `Text`, `Decimal` | characters, decimal numerals, decimal fractions |
| `TimeScan`, `TimeMeaning`, `TimePhrase`, `TimeGrammar`, `TimeParser`, `TimeStorage`, `TimeValues` | timedelta scanner (state machine, meaning, grammar and its exactness, loops) and printer, and what texts are worth in seconds |
| `Calendar`, `CalendarFields` | proleptic Gregorian calendar (section 3.2.1 of ISO 8601:2004), weekdays, months |
| `DateText`, `DateParse`, `DateCells` | date-time text (section 4.3.2 of ISO 8601:2004), printing and parsing, and what cells are read as |
| `Contents`, `Sorting`, `Median`, `Moments`, `Mcv`, `Statistics` | column statistics |
| `Comparators`, `TextOrder`, `JoinIndex`, `Joins`, `JoinListing` | typed comparison, the order of texts, hash index, joins of two tables row by row |
| `Numeral`, `NumeralMeaning`, `NumeralTexts`, `Precision` | number recogniser, the texts it accepts, number of decimals |
| `Typify`, `TypifyRuns`, `TypifyTasks`, `TypifyOrder`, `TypifyTexts` | column typing, and what columns of texts are |
| `SqlInsert`, `SqlRoundTrip`, `SqlTabs` | CREATE TABLE printer, INSERT extraction |
| `Stack`, `StackMeaning`, `StackOutput` | stacking files with different headers |

Integers are unbounded except where a width matters and is written out (32-bit day numbers, the
`unsigned` days of a timedelta, the `unsigned char` comma counter, the 64-bit exponent limit).
`long double` is an exact real number. A character is a code unit of the "C" locale.

## Where the code does less than its promise

Each of these is stated as an exact condition, and where it can surprise, at an input.

- A printed timedelta of whole seconds comes back exactly when its days fit an `unsigned`
  (`TimeStorage.RoundTrip`). With microseconds there must also be none or six digits of them, since they are
  printed without leading zeros (`TimeStorage.MicroRoundTrip`).
- A sum of seconds has a value exactly when its whole seconds fit 63 bits (`TimeStorage.AsSecondsNearest`).
- A printed instant comes back exactly when its year is in 0..9999 (`DateParse.RoundTrip`). A `year` keeps 16
  bits, so a later or earlier year is printed and read as another one when those bits are a four-digit year
  with that date, and fits no default format otherwise (`DateParse.ReadBack`, at year 67556
  `DateParse.YearCut`).
- A column of nulls alone shows None even when no entry is asked for; every other listing keeps to the
  bound (`Mcv.MostCommonValues`).
- The comment on `data_type` says that white space around a number is ignored. That holds exactly for blanks
  in front and for blanks and tabs behind; any other white space makes a string
  (`NumeralMeaning.WhiteSpaceExact`, at "\t5" `NumeralMeaning.TabInFront`).
- The comment also says that a text of only white space is null. Null are exactly the texts of blanks, and
  those of signs and dots alone (`NumeralTexts.NullExactly`; "-" is null and a tab is not,
  `NumeralTexts.LoneMarks`).
- A minus sign may stand anywhere in a number: the texts that get a value are exactly the numerals with their
  minus signs set in anywhere (`NumeralTexts.ValueExactly`; "5-3" is read as -53, `NumeralTexts.SignInside`).
- `get_precision` counts k decimals exactly when there are none or M + k is at most 14
  (`Precision.PrecisionExact`).
- Cells that compare equal may be hashed apart: exactly when they are compared as text, equal once stripped
  and folded, and different unstripped (`JoinIndex.HashCongruence`, `JoinIndex.TabsAreHashed`). A lookup is
  the linear scan whatever the hash functions are exactly when no such row is in the file
  (`JoinIndex.LookupForEveryHash`), and an inner join is the nested loop by comparison exactly when the two
  tables hold no such pair (`Joins.InnerExactly`); typed columns never do (`Joins.TypedAgree`).
- The type of a column is the same for every order of its rows unless it mixes boolean words and numbers
  that are no flags, holds nothing else, and is not all timedeltas, datetimes or dates
  (`TypifyOrder.OrderFreeExactly`): "T" above "5" is a number column, below it a text column
  (`TypifyOrder.OrderMatters`).
- The columns printed by CREATE TABLE are found again for INSERT exactly when no '(' is in the table's name
  and every tab in a name, a type or the constraint stands before "UNIQUE " (`SqlTabs.InsertExactly`).
- The stacked header is wider than the rows by the repeated names of the first header, less the group's
  name when only later files have it, and less the spellings of a name beyond the first, since rows are
  counted by raw header cells and headers merged by composed names (`StackMeaning.WidthDifference`,
  `StackMeaning.WidthsAgree`; a name quoted in one file and bare in another, `StackMeaning.MixedQuotes`).
- Where the header is wider, a column of a later file may lie beyond the row and is written out of range:
  with rows in every later file, exactly when the repeated names are more than the spare columns, and a later
  file has a new name or one beyond the row (`StackOutput.WritableExactly`; headers a,a and b,
  `StackOutput.RepeatedFirst`). With different names in the first header it never happens
  (`StackOutput.DistinctWritable`).

## Model

| member | source | states |
|---|---|---|
| `TimeScan.StepProgress` | suite/include/reader-bridge-impl.hpp:783-910 | every turn of the scanner keeps its bounds and either moves the cursor on or goes from the digit to a lower phase without moving it back: the scanner terminates on every text |
| `TimeParser.ParseTimedelta` | suite/include/reader-bridge-impl.hpp:713-915 | the loop over the three phases, for every cell text, ends and accepts what the state machine accepts with its sum; no character outside the text is read and no empty queue popped |
| `TimeParser.SpaceFun` | suite/include/reader-bridge-impl.hpp:784-793 | the loop over blanks and commas stops where the specification says, with the wrapping comma counter |
| `TimeParser.ComposeNum` | suite/include/reader-bridge-impl.hpp:795-805 | the text collected and the place where it ends, at the second dot at the latest |
| `TimeParser.DigitFun` | suite/include/reader-bridge-impl.hpp:818-836 | one digit turn: new state and running total as specified |
| `TimeParser.WordFun` | suite/include/reader-bridge-impl.hpp:865-903 | one word turn: the unit searched among those not yet used up |
| `TimeParser.CompleteTimeFun` | suite/include/reader-bridge-impl.hpp:838-863 | one time-field turn: two digits unless the last field has a fraction |
| `TimeMeaning.AcceptedMeans` | suite/include/reader-bridge-impl.hpp:807-903 | whatever is accepted: units strictly descend, every number of the text has a unit or a time field (none is bare), and the value is the weighted sum of all numbers, all three found by scans that know nothing of the phases |
| `TimePhrase.PhraseAccepted` | suite/include/reader-bridge-impl.hpp:713-915 | every text of the grammar (descending units, spaced and punctuated in any way the scanner lets pass, and a clock) is accepted with the sum of its parts, except exactly those with an 'h' beside a clock or a 'w' or 'd' beside four fields |
| `TimeGrammar.AcceptedSpelled` | suite/include/reader-bridge-impl.hpp:713-915 | every accepted text is a text of the grammar, found by following the run |
| `TimeGrammar.AcceptedExactly` | suite/include/reader-bridge-impl.hpp:713-915 | a text is accepted with value v if and only if it is a text of the grammar without a clash whose parts add up to v |
| `TimeStorage.Storage.FillParts` | suite/include/reader-bridge-impl.hpp:679-689 | an exact mixed-radix split: hours below 24, minutes and seconds below 60, the fraction kept, the days reduced to an `unsigned` |
| `TimeStorage.Storage.Str` | suite/include/reader-bridge-impl.hpp:648-668 | the printed text of the parts at either resolution, microseconds rounded or floored and nanoseconds rounded |
| `TimeStorage.TextSpelled` | suite/include/reader-bridge-impl.hpp:657-667 | the printed text spelled out: no day, "1 day, " and "n days, ", the clock, and the microseconds behind a dot |
| `TimeStorage.FractionShown` | suite/include/reader-bridge-impl.hpp:657-665 | what is shown of the fraction is the fraction, to half of a microsecond or nanosecond |
| `Text.HalfToEven` | suite/include/reader-bridge-impl.hpp:650-655 | a fraction halfway between two microseconds or nanoseconds is rounded to the even one |
| `TimeStorage.AsSecondsNearest` | suite/include/reader-bridge-impl.hpp:704-708 | the value handed out is the sum read, to half a nanosecond, for every sum whose seconds fit 63 bits; there is none for others |
| `TimeStorage.PrintedValue` | suite/include/reader-bridge-impl.hpp:648-668 | the text printed for any whole number of seconds is accepted and means that number with its days modulo 2^32 |
| `TimeStorage.RoundTrip` | suite/include/reader-bridge-impl.hpp:679-915 | print, parse and convert give the number back if and only if its days are below 2^32 |
| `TimeStorage.MicroRoundTrip` | suite/include/reader-bridge-impl.hpp:648-915 | with microseconds, the number comes back if and only if its days are below 2^32 and there are none or six digits of microseconds |
| `TimeValues.TwoFields` | suite/include/reader-bridge-impl.hpp:755-758 | "m:ss", with a fraction or without, is worth 60 m + s seconds |
| `TimeValues.ThreeFields` | suite/include/reader-bridge-impl.hpp:755-761 | "h:mm:ss" is worth 3600 h + 60 m + s |
| `TimeValues.FourFields` | suite/include/reader-bridge-impl.hpp:755-764 | "d:hh:mm:ss" is worth 86400 d + 3600 h + 60 m + s |
| `TimeValues.OneUnit` | suite/include/reader-bridge-impl.hpp:737-751 | a number and one word is accepted if and only if the word is one of the 22 for units, and is worth that many times 604800, 86400, 3600, 60 or 1 |
| `TimeValues.WholeUnits` | suite/include/reader-bridge-impl.hpp:737-751 | a printed whole number with any white space and a unit word behind it is that many units |
| `TimeValues.Refused` | suite/include/reader-bridge-impl.hpp:716-735 | one character, an 'h' beside a colon, four colons, and three with a 'w' or 'd' are refused, whatever else is there |
| `TimeValues.CommasInside` | suite/include/reader-bridge-impl.hpp:865-880 | commas inside of a word are dropped from it and counted modulo 256 |
| `TimeValues.TrimIs` | suite/include/reader-bridge-impl.hpp:714-724 | blanks, tabs and line ends around a text are taken off |
| `TimeValues.NumeralShape` | suite/include/reader-bridge-impl.hpp:795-805 | a numeral is digits, or digits, a dot and perhaps more digits; it starts with a digit and has no second dot |
| `Text.CharCodes` | suite/include/reader-bridge-impl.hpp:790-799 | digits, letters and white space are those of the "C" locale, by their codes |
| `Calendar.DaysRoundTrip` | suite/external/date/date.h:2973-2987 | every day number is a valid date with that day number |
| `Calendar.DateRoundTrip` | suite/external/date/date.h:3088-3103 | every valid date is found again from its day number |
| `Calendar.NextDayNumber` | suite/external/date/date.h:3006-3011 | the day number counts days: the next day by the calendar's rules has the next number, and 1970-01-01 has 0 |
| `Calendar.LaterNumber` | suite/external/date/date.h:2973-2987 | n days later is n more |
| `Calendar.OrderAgrees` | suite/external/date/date.h:3032-3039 | dates are ordered as their day numbers |
| `CalendarFields.WeekdayIs` | suite/external/date/date.h:1823-1827 | the weekday is (z + 4) mod 7 for every 32-bit z, unsigned wrap-around included |
| `CalendarFields.WeekdayDiffIs` | suite/external/date/date.h:1905-1910 | the difference of weekdays leads from the one to the other within a week |
| `CalendarFields.NthDaysRoundTrip` | suite/external/date/date.h:3273-3281 | a day number is found again from its month, weekday and index |
| `CalendarFields.NthRoundTrip` | suite/external/date/date.h:3283-3292 | month, weekday and index are found again if and only if the month has such a day |
| `CalendarFields.AddMonthsSerial` | suite/external/date/date.h:2278-2284 | adding months adds to the number of months since year 0 and gives a month in 1..12 |
| `CalendarFields.MonthAction` | suite/external/date/date.h:2278-2311 | adding months is an action of the integers and subtraction its inverse |
| `DateText.ToStream` | suite/external/date/date.h:5043-5100 | the format loop prints what the format specifies, command by command |
| `DateText.ReadUnsignedLoop` | suite/external/date/date.h:6320-6341 | the value of between m and M digits, or failure |
| `DateText.ReadDecimal` | suite/external/date/date.h:6374-6416 | the digits before and after the dot, collected apart, within M characters |
| `DateText.ReadSecondsLoop` | suite/external/date/date.h:6374-6422 | the decimal number read, rounded to whole seconds |
| `DateText.DecimalValue` | suite/external/date/date.h:6417-6422 | whole part plus fraction over a power of ten is the value of the numeral |
| `DateParse.ReadNumberLoop` | suite/external/date/date.h:6318-6422 | each command reads its number with the limits of its field |
| `DateParse.ReadSignedLoop` | suite/external/date/date.h:6343-6370 | a number with an optional sign, which counts as a character |
| `DateParse.FromStream` | suite/external/date/date.h:6574-6660 | the loop over a format gives the instant of the fields read, or fails where the specification fails |
| `DateParse.ParseCell` | suite/include/reader-bridge-impl.hpp:533-546 | leading blanks dropped, the first format that fits decides |
| `DateParse.PartsOfIs` | suite/external/date/date.h:6228-6243 | every instant, also before 1970, is split into the date of its day, the year cut to 16 bits, and a time of day; they are a valid date and add up to the instant if and only if the year fits |
| `DateParse.InstantPrinted` | suite/include/cli.h:1156-1166 | both printers print year, month, day, hour, minute and second with their separator; nothing when the 16 bits are no year |
| `DateParse.ParseSame` | suite/external/date/date.h:8025-8041 | a text with a four-digit year is read back by the format that printed it, if the date exists |
| `DateParse.RoundTrip` | suite/include/reader-bridge-impl.hpp:533-589 | printed either way and parsed as a cell with the default formats, an instant comes back if and only if its year is in 0..9999 |
| `DateParse.ReadBack` | suite/include/reader-bridge-impl.hpp:533-589 | what is read instead, for every instant: the one of the date with the year cut to 16 bits, if that is a date of a four-digit year, and nothing otherwise |
| `DateParse.YearCut` | suite/external/date/date.h:1681-1681 | the first instant of year 67556 is printed and read as that of 2020 |
| `DateCells.DateRead` | suite/external/date/date.h:7860-7881 | year, month and day in digits, in either order, are the first instant of the date if and only if the date exists; what stands behind is not looked at |
| `DateCells.DatetimeRead` | suite/external/date/date.h:8025-8041 | six numbers are the instant if and only if the date exists and the hour is at most 23, the minute and second at most 59 |
| `DateCells.DateCell` | suite/include/reader-bridge-impl.hpp:533-546 | a date cell in either default format, with blanks in front, is the first instant of its date, or fits neither format |
| `DateCells.EveryDate` | suite/include/reader-bridge-impl.hpp:596-611 | every date of a year in 0..9999 is found again from its text, with leading zeros or without |
| `DateCells.SignRead` | suite/external/date/date.h:6343-6370 | a sign in front of a number counts as one of its characters |
| `DateCells.NegativeYear` | suite/external/date/date.h:6343-6370 | a date before year 0 is read with its sign, up to three digits behind it |
| `DateCells.DayTwice` | suite/external/date/date.h:8025-8041 | a field read twice must be read the same; a day of 0 counts as none |
| `DateCells.NoYear` | suite/external/date/date.h:8025-8041 | without a year there is no instant |
| `Sorting.PartialSort` | suite/csvStat.cpp:761-761 | a permutation whose first m elements are in order and not above the rest |
| `Sorting.NthElement` | suite/csvStat.cpp:903-908 | a permutation partitioned around position n |
| `Sorting.Sort` | suite/csvStat.cpp:921-925 | a sorted permutation |
| `Sorting.MaxElement` | suite/csvStat.cpp:913-916 | the position of a greatest element of the prefix |
| `Median.SortedIs` | suite/csvStat.cpp:902-928 | the reference order of the values is ascending and a permutation |
| `Median.SelectMedian` | suite/csvStat.cpp:902-917 | selection at n / 2 and the maximum before it give the median of the sorted values; the column is only permuted |
| `Median.SortMedian` | suite/csvStat.cpp:918-928 | sorting with nulls as infinity gives the median of the sorted non-null values |
| `Median.MedianOf` | suite/csvStat.cpp:1055-1094 | by either route, for odd and even counts, the median of the values in ascending order |
| `Median.SelectionMedian` | suite/csvStat.cpp:902-917 | a sequence partitioned at n / 2 has its median there and at the greatest element before |
| `Median.HalvesApart` | suite/csvStat.cpp:902-928 | at most half of the values lie below the median and at most half above |
| `Median.MiddleOf` | suite/csvStat.cpp:902-928 | the medians of one to four values in order |
| `Median.ValuesAre` | suite/csvStat.cpp:881-886 | the values are the cells that are no nulls, each as often |
| `Moments.RollingNext` | suite/csvStat.cpp:854-860 | one more value keeps n * mean equal to the sum and the rolling variance equal to the sum of squared deviations from the current mean |
| `Moments.RollingMeans` | suite/csvStat.cpp:936-940 | the accumulators are the textbook mean and sample variance |
| `Moments.Push` | suite/csvStat.cpp:854-868 | the two lambdas, for the first and every other value, keep the rolling invariant |
| `Moments.TallyIs` | suite/csvStat.cpp:890-893 | every value has its number of occurrences, and nothing else has an entry |
| `Moments.Accumulate` | suite/csvStat.cpp:868-898 | one pass finds sum, extremes, mean, variance, value counts, nulls and the greatest number of decimals, each by its own definition |
| `Moments.MostDecimalsIs` | suite/csvStat.cpp:872-879 | the greatest number of decimals is that of some value and not below that of any, and 0 for integers |
| `Moments.MeanAndVariance` | suite/csvStat.cpp:936-940 | the mean times n is the sum; the variance times n - 1 is the sum of squares less n times the square of the mean; there is none below two values |
| `Moments.Extremes` | suite/csvStat.cpp:881-898 | the smallest and largest are values, and no value lies outside of them |
| `Statistics.Prepare` | suite/csvStat.cpp:846-975 | all statistics of the column as it was: the one pass, the median of its sorted values, the number of different values and the listing of the most common; the column is only permuted |
| `Statistics.Complete` | suite/csvStat.cpp:788-793 | the counts are handed over: different values, one more for nulls, and the listing made from exactly these counts |
| `Statistics.ListingTotal` | suite/csvStat.cpp:788-793 | no row is lost on the way to the listing: the counts of its entries and the nulls add up to the rows |
| `Moments.MeanOf` | suite/csvStat.cpp:1025-1051 | the single operation gives the same textbook mean |
| `Moments.VarianceOf` | suite/csvStat.cpp:1097-1135 | the single operation gives the same sample variance, and none for fewer than two values |
| `Mcv.PrepareVec` | suite/csvStat.cpp:755-766 | the slots hold a descending prefix of some listing of all counts, the rest being empty |
| `Mcv.PrintVec` | suite/csvStat.cpp:1738-1789 | the entries printed are the first freq of the listing with None merged in |
| `Mcv.MergedDescending` | suite/csvStat.cpp:1761-1778 | the merged listing is descending, None counting as the number of nulls and standing last of its equals |
| `Mcv.MergedContents` | suite/csvStat.cpp:1752-1788 | the merged listing is every entry once, and None once if there are nulls |
| `Mcv.MostCommonValues` | suite/csvStat.cpp:755-793 | the entries are the first freq of a fully descending listing of all counts with None merged in, except exactly for a column of nulls alone with freq 0 |
| `Mcv.NothingCommoner` | suite/csvStat.cpp:755-793 | as many entries are shown as asked for or as there are, and nothing left out is more common than anything shown |
| `Comparators.StrippedIs` | suite/include/reader-bridge-impl.hpp:265-285 | what text comparison looks at has no quote in front and no quote, tab or carriage return behind |
| `Comparators.StringsOrder` | suite/include/reader-bridge-impl.hpp:286-289 | text is ordered by the first difference, a proper prefix coming first |
| `TextOrder.KeptExactly` | suite/include/reader-bridge-impl.hpp:265-285 | what is compared of a cell is what is left without its longest runs of quotes in front, and of quotes, tabs and carriage returns behind |
| `TextOrder.TextBefore` | suite/include/reader-bridge-impl.hpp:265-289 | of two text cells the one is below the other if and only if at the first difference of what is kept, folded, it has the smaller character or has ended |
| `TextOrder.SortedByText` | suite/include/cli-compare.h:245-282 | where the keys before agree, a key on text puts the row first whose kept text comes earlier |
| `TextOrder.OneTextKey` | suite/include/cli-compare.h:245-282 | with a single key on text that is exactly the order of the sort |
| `Comparators.TypedOrder` | suite/include/cli-compare.h:39-57 | which option settings compare values and which compare text, and what each type is ordered by |
| `Comparators.CompareConverse` | suite/include/cli-compare.h:18-57 | exchanging the cells changes the sign, in every mode |
| `Comparators.CompareTransitive` | suite/include/cli-compare.h:18-57 | every comparator is a total preorder |
| `Comparators.NullsLast` | suite/include/cli-compare.h:21-36 | nulls stand last and equal each other |
| `Comparators.SortsBefore` | suite/include/cli-compare.h:250-263 | the loop over the keys decides by the first key that tells the rows apart, in either direction |
| `Comparators.FirstDifference` | suite/include/cli-compare.h:250-263 | the first key on which the rows differ decides, whatever the keys behind it say; rows equal on all keys are not ordered |
| `Comparators.ChainConverse` | suite/include/cli-compare.h:245-282 | the reversed comparator is the exact converse |
| `Comparators.StrictWeakOrder` | suite/include/cli-compare.h:245-282 | the multi-key comparator is a strict weak order |
| `Comparators.EqualRange` | suite/include/cli-compare.h:348-371 | on a table sorted by one key exactly the rows that compare equal to the key are isolated |
| `JoinIndex.HashCongruence` | suite/include/cli-hash.h:13-56 | cells that compare equal are hashed alike by every hash function if and only if they are not compared as text with different unquoted texts |
| `JoinIndex.TabsAreHashed` | suite/include/cli-hash.h:17-20 | two cells that compare equal and are hashed apart |
| `JoinIndex.CompromiseHash.constructor` | suite/include/cli-hash.h:288-326 | the map filled row by row is the index of the rows |
| `JoinIndex.CompromiseHash.Search` | suite/include/csvjoin/inner_join.h:45-45 | `find` gives the rows of the group with the same key |
| `JoinIndex.LookupIsScan` | suite/include/cli-hash.h:311-325 | a lookup gives the rows whose key the map takes for the same, in file order |
| `JoinIndex.LookupIsLinearScan` | suite/include/cli-hash.h:220-326 | for given hash functions, a lookup is the linear scan by comparison, in file order, if and only if no row compares equal and is hashed differently |
| `JoinIndex.LookupForEveryHash` | suite/include/cli-hash.h:220-326 | for all hash functions, a lookup is the linear scan if and only if every row that compares equal to the key as text has its unquoted text |
| `JoinIndex.GroupsPartition` | suite/include/cli-hash.h:311-325 | the groups partition all rows: none empty, no key twice, each with exactly its rows, all rows counted |
| `Joins.CommonMode` | suite/include/csvjoin/can_compare.h:3-18 | which columns can be joined; the common comparator has blanks if and only if one of the columns has |
| `Joins.JoinTables` | suite/include/csvjoin/outer_join.h:41-170 | for any cells and hash functions, inner, left and outer join through the index are the nested loops over the rows by what the index takes for equal; that is by comparison when cells equal as text are equal unquoted |
| `Joins.JoinLeft` | suite/include/csvjoin/inner_join.h:29-68 | each row of the first table with the rows the index has for it in file order, or alone |
| `Joins.JoinMeans` | suite/include/csvjoin/left_right_join.h:36-75 | the rows joined by comparison are exactly the pairs that compare equal and, by kind of join, the rows of either table that meet nothing, filled up |
| `JoinListing.JoinListed` | suite/include/csvjoin/outer_join.h:41-170 | the joined rows one by one: their sources are exactly the pairs that compare equal and, by kind of join, the rows equal to none, each once, in the order of the tables; which cell of which row stands at each position, and where empty cells do |
| `JoinListing.EqualAt` | suite/include/cli-hash.h:311-325 | the rows that compare equal to a key are found in file order, each once |
| `JoinListing.JoinedAs` | suite/include/csvjoin/can_compare.h:3-18 | columns of one type are joined by it, columns of different types as text |
| `Joins.InnerExactly` | suite/include/csvjoin/inner_join.h:29-68 | for all hash functions, the inner join through the index is that by comparison if and only if cells of the two tables that compare equal as text are equal unquoted |
| `Joins.TypedAgree` | suite/include/cli-hash.h:13-56 | columns compared by value always meet that condition |
| `Numeral.PowerOfTen` | suite/external/vince-csv-parser/data_type.h:38-66 | the multiplication loop gives the power of ten, also for negative exponents |
| `Decimal.TenPowerIs` | suite/external/vince-csv-parser/data_type.h:38-66 | ten to k + 1 is ten times ten to k, for every integer k, and ten to 0 is 1 |
| `Numeral.ReadExponent` | suite/external/vince-csv-parser/data_type.h:345-394 | an exponent is read exactly if it is a 64-bit integer |
| `Numeral.ReadMantissa` | suite/external/vince-csv-parser/data_type.h:277-341 | the one-pass machine computes the specified reading, digits counted into whole part and fraction |
| `Numeral.Recognise` | suite/external/vince-csv-parser/data_type.h:254-342 | type and value of every text are as specified |
| `NumeralMeaning.NumeralExact` | suite/external/vince-csv-parser/data_type.h:192-342 | every decimal numeral, signed, padded, with fraction or exponent, is read as the number m * 10^k it denotes; it is a string only for an exponent beyond 64 bits |
| `NumeralMeaning.WhiteSpaceExact` | suite/external/vince-csv-parser/data_type.h:254-342 | with white space around it, a numeral is read as the number it denotes if and only if it denotes none or there are only blanks in front and blanks and tabs behind; otherwise it is a string |
| `NumeralMeaning.TabInFront` | suite/external/vince-csv-parser/data_type.h:277-286 | a tab in front of 5 makes a string |
| `NumeralMeaning.IntegerExact` | suite/external/vince-csv-parser/data_type.h:226-240 | an integer numeral gets its value and the smallest type that holds the absolute value |
| `NumeralTexts.ValueExactly` | suite/external/vince-csv-parser/data_type.h:254-400 | the texts with a value are exactly the numerals with a minus sign set in anywhere in mantissa and exponent, padded and with plus signs in front, and each is read as its numeral with the signs in front denotes |
| `NumeralTexts.SignInside` | suite/external/vince-csv-parser/data_type.h:279-286 | "5-3" is read as -53 |
| `NumeralTexts.Scientific` | suite/external/vince-csv-parser/data_type.h:38-66 | a numeral times the power of ten of its decimals is the whole number of its digits; with exponent k times 10^k, with exponent -k divided by it |
| `NumeralTexts.TooLarge` | suite/external/vince-csv-parser/data_type.h:192-206 | an exponent above 9223372036854775807 makes a text |
| `NumeralTexts.IntegerTypes` | suite/external/vince-csv-parser/data_type.h:226-240 | digits get the smallest type by the limits 127, 32767, 2147483647 and 9223372036854775807 |
| `NumeralTexts.PadCodes` | suite/external/vince-csv-parser/data_type.h:268-271 | blanks and tabs, and nothing else, are taken off behind a number |
| `NumeralTexts.DigitsInPlace` | suite/external/vince-csv-parser/data_type.h:318-326 | 1234567890 is read with its digits in their places |
| `NumeralTexts.NullExactly` | suite/external/vince-csv-parser/data_type.h:254-342 | the nulls are exactly the texts of blanks, and signs and dots alone, perhaps only plus signs, with padding |
| `NumeralTexts.LoneMarks` | suite/external/vince-csv-parser/data_type.h:254-342 | "-" is null, a tab is a string |
| `Precision.GetPrecision` | suite/include/reader-bridge-impl.hpp:85-105 | the stripping loop ends and computes the specified number |
| `Precision.PrecisionMeans` | suite/include/reader-bridge-impl.hpp:85-105 | for every value: the least number of decimals of the fraction rounded half up to 14 - M places, or 0 when M is 14 or more |
| `Precision.PrecisionExact` | suite/include/reader-bridge-impl.hpp:85-105 | a value with exactly k decimals gets k if and only if k is 0 or M + k is at most 14 |
| `Precision.PrecisionSpelled` | suite/include/reader-bridge-impl.hpp:85-105 | from the digits before the dot and the fraction rounded half up to 14 - M places, by remainders alone: the decimals left when the zeros at the end are dropped, none from 14 digits on |
| `TypifyRuns.VerdictStable` | suite/include/reader-bridge-impl.hpp:352-359 | the null verdict of a cell is the same in every pass, whatever its caches hold |
| `TypifyRuns.CheckBoolean` | suite/include/reader-bridge-impl.hpp:380-396 | the boolean pass accepts flags and boolean words, and re-tags exactly the words it looks at |
| `TypifyRuns.StepKeeps` | suite/include/cli.h:972-1046 | every call of a pass's lambda keeps the invariant that ties caches, position and findings to the contents |
| `TypifyTasks.AllOf` | suite/include/cli.h:981-988 | one pass over the cells in place, stopped by the first that does not fit |
| `TypifyTasks.TypifyColumn` | suite/include/cli.h:980-1046 | the type found is that of the first pass accepting all cells; the blank flag is set if and only if the column has a null, early exits notwithstanding; a number column has its greatest number of decimals |
| `TypifyTexts.FoundFromTexts` | suite/include/cli.h:980-1046 | type, blank flag and decimals told from the texts of the cells: the first of the six types that fits all, a null among them, the most decimals of a cell that is none |
| `TypifyTexts.NullishExactly` | suite/include/reader-bridge-impl.hpp:343-359 | a cell is null if and only if --blanks is off and it is blank, signs and dots alone, or a text that is one of the six words or of the given ones |
| `TypifyTexts.FlagExactly` | suite/include/reader-bridge-impl.hpp:380-396 | a cell is a flag if and only if it is one of the ten words, or the integer 0 with any sign or 1 with none |
| `TypifyTexts.WordValue` | suite/include/reader-bridge-impl.hpp:384-392 | a boolean word becomes the small integer 0 or 1 |
| `TypifyTexts.DetectedAs` | suite/include/reader-bridge-impl.hpp:343-359 | which texts are numbers, which are nulls and which are texts |
| `TypifyTexts.NumberColumn` | suite/include/cli.h:1013-1036 | empty cells and numerals that are no times or dates, not all of them 0 or 1, are a number column; it has blanks if and only if a cell is empty |
| `TypifyTexts.CellDecimals` | suite/include/reader-bridge-impl.hpp:85-105 | the digits behind the dot are counted if and only if there are at most 14 digits in all |
| `TypifyTasks.AnyInterleaving` | suite/include/cli.h:980-1048 | for column tasks that write shared vectors of types, blank flags and precisions, in any interleaving, the entries of a column whose type is written are what that column determines |
| `TypifyTasks.StepColumnIs` | suite/include/cli.h:980-1046 | a step of one column's task writes its own entries of the shared vectors and leaves every other column as it was |
| `TypifyTasks.StepsCommute` | suite/include/cli.h:980-1048 | the steps of two columns commute |
| `TypifyTasks.ColumnAlone` | suite/include/cli.h:980-1048 | what a schedule does to a column is what its own turns do to its task alone |
| `TypifyTasks.CompleteRuns` | suite/include/cli.h:980-1048 | every interleaving with enough turns for each column finds all types, and any two such interleavings end in the same state |
| `TypifyTasks.FoundUnique` | suite/include/cli.h:980-1048 | the findings are determined by the column |
| `TypifyTasks.StepProgress` | suite/include/cli.h:980-1046 | every step brings an unfinished task nearer to its end |
| `TypifyTasks.WithoutInference` | suite/include/cli.h:1050-1055 | without inference only a column of nulls alone is found boolean, and every column is made text |
| `TypifyOrder.OrderMatters` | suite/include/cli.h:1013-1036 | "T" above "5" makes a number column, below it a text column |
| `TypifyOrder.OrderFreeExactly` | suite/include/cli.h:980-1048 | all orders of the rows give one type unless boolean words and numbers that are no flags are mixed, nothing else is there, and no earlier pass takes the column |
| `TypifyOrder.TypeExists` | suite/include/cli.h:980-1048 | every column has a type: the last pass accepts whatever the others refuse |
| `TypifyTasks.NativeNeverNull` | suite/include/csvjoin/compare_composers.h:3-19 | with aligned blanks and --blanks off, the typed comparison never gets a null of either table |
| `SqlInsert.LetterName` | suite/include/cli.h:590-600 | the loop gives the column's letter, once more for every 26 columns before it |
| `SqlInsert.LettersDiffer` | suite/include/cli.h:590-600 | no two columns get the same letters |
| `SqlInsert.PrintTable` | suite/csvSql.cpp:273-328 | the loop over the columns prints the specified text |
| `SqlInsert.Spelled` | suite/csvSql.cpp:273-328 | the whole text for one column and for two, with the constraint and without |
| `SqlInsert.IdentifierMeans` | suite/csvSql.cpp:140-150 | a name of lower-case letters, underscores and digits not in front is printed bare, every other quoted; either stands for the name |
| `SqlInsert.NamesGiven` | suite/csvSql.cpp:278-281 | columns without a name are a_col, z_col and bb_col at 0, 25 and 27 |
| `SqlInsert.InsertExpr` | suite/csvSql.cpp:385-425 | the scanning loop builds the statement of the words found, keywords left out |
| `SqlRoundTrip.IdentifierEnd` | suite/csvSql.cpp:140-150 | every printed identifier, quoted or bare, ends at the blank behind it |
| `SqlRoundTrip.NeverKeyword` | suite/csvSql.cpp:386-386 | no printed identifier is taken for the keyword UNIQUE |
| `SqlTabs.InsertExactly` | suite/csvSql.cpp:385-408 | from the printed text the scanner finds the table and exactly the printed identifiers in order if and only if no '(' is in the table's name and every tab in a name, type or constraint stands before "UNIQUE " |
| `SqlTabs.InsertRecovers` | suite/csvSql.cpp:385-425 | under that condition the statement has the table, the identifiers in order and a placeholder for each |
| `SqlTabs.QuietTexts` | suite/csvSql.cpp:385-408 | names without tabs meet it, and so does a tab before "UNIQUE ", but not a tab before a letter |
| `SqlRoundTrip.StatementText` | suite/csvSql.cpp:388-424 | the statement lists the words and the placeholders :v0 to :v(n-1), as many as words, separated by commas |
| `SqlRoundTrip.IdentifierAt` | suite/csvSql.cpp:273-286 | one identifier for each column, that of its header name |
| `SqlRoundTrip.IdentifierDiffers` | suite/csvSql.cpp:140-150 | different names are printed differently |
| `Stack.FillReplaceVec` | suite/csvStack.cpp:125-142 | the merged header, and the position of every later column's name in it |
| `Stack.ComposeText` | suite/include/cli.h:1282-1299 | the name composed of a header cell: raw with a comma or line break in it, otherwise unquoted; line breaks become newlines |
| `StackOutput.NameOf` | suite/include/cli.h:1282-1299 | a header cell with a comma or newline stays as it is, with another line break every one of them becomes a newline, and any other is unquoted |
| `StackMeaning.ObtainOrigins` | suite/csvStack.cpp:37-55 | the number of different raw texts of header cells, and the composed headers |
| `Stack.PutFile` | suite/csvStack.cpp:87-123 | rows written over the reused buffer are what rows written over an empty one would be; none if and only if there are rows and a column lies beyond them |
| `Stack.PutFirst` | suite/csvStack.cpp:59-85 | the first file's rows, with the group in front and empty fields up to the width |
| `StackMeaning.HeaderCovers` | suite/csvStack.cpp:125-142 | the merged header has the names of all headers and the group's, and no others |
| `StackOutput.FirstAppearance` | suite/csvStack.cpp:131-140 | new names stand behind the first header in the order in which they first appear |
| `StackOutput.GroupInFront` | suite/csvStack.cpp:128-129 | the group column comes first, under the name given or under "group" |
| `StackMeaning.HeaderDistinct` | suite/csvStack.cpp:125-142 | it is free of duplicates if and only if the first header is and the group's name is not in it |
| `StackMeaning.HeaderWidth` | suite/csvStack.cpp:125-142 | the merged header has every name once, the repeated names of the first header again, and the group's name unless a later file alone has it |
| `StackMeaning.WidthDifference` | suite/csvStack.cpp:37-55 | header width minus row width: the repeated names of the first header, less the group's name if only later files have it, less the raw spellings beyond one for each name |
| `StackMeaning.WidthsAgree` | suite/csvStack.cpp:208-208 | with different names in the first header, header and rows are equally wide if and only if the group's name is not a later file's column alone and no name is spelled in two ways |
| `StackMeaning.MixedQuotes` | suite/csvStack.cpp:48-51 | the headers a,b and "a",b: a header of two columns over rows of three |
| `StackMeaning.StackFiles` | suite/csvStack.cpp:191-225 | header, first rows and later rows, for all files, rows as wide as the raw header cells say; no later rows if and only if a field is written out of range |
| `StackMeaning.FitsHeader` | suite/csvStack.cpp:125-142 | every later column has its position inside of the merged header |
| `StackMeaning.RowAligned` | suite/csvStack.cpp:87-123 | every field of a later file stands under its own column's name, the last one if the file repeats it; other fields are empty but for the group |
| `StackMeaning.FirstAligned` | suite/csvStack.cpp:59-85 | whatever the width, the first file's fields stand under their own names, the group in front, empty fields behind |
| `StackOutput.FitsExactly` | suite/csvStack.cpp:109-110 | all later columns lie inside of the rows if and only if the rows are not narrower than the header, or the later names all stand in the first header inside of the rows |
| `StackOutput.WritableExactly` | suite/csvStack.cpp:109-110 | told from the headers alone when all rows can be written: this is enough, and needed when every later file has a row |
| `StackOutput.DistinctWritable` | suite/csvStack.cpp:109-110 | with different names in the first header every row can be written |
| `StackOutput.RepeatedFirst` | suite/csvStack.cpp:109-110 | headers a,a and b: rows of two columns, and b is written at the third |
| `StackOutput.AllAligned` | suite/csvStack.cpp:87-123 | in the output for all files: with different names in the first header and the group's not among them, every file is written, and every field of every later row stands under its own column's name, the last one if the file repeats it; nothing else is in the row but the group |
| `StackOutput.FirstIsAligned` | suite/csvStack.cpp:59-85 | and the first file's rows are as wide as all others, each field under its own name |

## Left out

- Reading files, encodings, memory mapping, quoting and trimming of raw cells: rows are sequences of cells, and a cell's raw, unquoted and upper-case texts are given.
- Floating-point rounding, infinities and NaN: arithmetic is exact. An infinite value would tie with a null in the median route with nulls, so `Median.MedianOf` is about finite values.
- The square root in `stdev`: `Moments.VarianceOf` gives its argument.
- TimeStorage.MicroRoundTrip: is about the default resolution, with microseconds; no round trip is stated for nanoseconds. The conversion of the argument to `double` in `str(long double)` is not modelled.
- TimeParser.DigitFun, TimeParser.WordFun and TimeParser.CompleteTimeFun take the shared locals of the scanner in and out as a state instead of changing captured variables.
- DateText.ToStream: models the commands %Y, %m, %d, %H, %M, %S and literals; every other command is reported as unmodelled.
- DateParse.FromStream: models the same commands and literals; of any other it says only that no name of a month is read from a digit, and otherwise reports it as unmodelled. Locale and money parsing and the `std::get_time` backend are not part of this model.
- DateParse.ReadBack: takes day numbers as unbounded integers; instants whose day number leaves the 32 bits of `days` are not modelled.
- Calendar.DaysRoundTrip and the other calendar lemmas take years as unbounded integers; what the 16 bits of a `year` make of one is part of `DateParse.PartsOf`.
- CalendarFields.NthDaysRoundTrip: asks that the first of the month is a 32-bit day number too, as the code computes it.
- Mcv.PrintVec: lists entries; the separator text between them is not modelled.
- Statistics other than those of number columns, and the text of the reports.
- Numeral.PowerOfTen: counts in unbounded integers; the `int` loop counter of the source does not reach exponents beyond 2^31.
- Comparators.CompareConverse and the other comparator lemmas give signs, as the C++ comparison functions only promise signs; case-insensitive comparison is a parameter that folds characters one by one.
- Joins.JoinTables: joins two tables; the queue of more tables, the renaming of repeated header names and the new typing after an outer join are left out, as is the union join.
- Hash buckets: the map is searched in the order in which groups were made, and the static equality and hash functions are those of the one index at hand.
- Typify.Content: what the timedelta and date parsers say of a cell is given with the cell; the value they cache is not modelled, as no later pass reads it.
- TypifyTasks.AnyInterleaving: a step is one call of a pass's lambda, and steps do not overlap; the vectors' entries are separate memory, so what the hardware may reorder between tasks is not modelled.
- SqlTabs.InsertExactly: leaves out the oracle and mysql name printers; the type texts of the dialects are parameters.
- SqlInsert.InsertExpr: has no result where the source would read on behind the text or has no column to write.
- Stack.PutFile: gives rows by their fields; line numbers and the joining commas are left out, and files are rectangular.
- Stack.ComposeText: how the reader takes quotes off a cell is a parameter.
- Argument parsing, globbing, csvJson, csvLook, csvCut, csvGrep, csvClean, In2csv and Sql2csv: plumbing or easy members.
