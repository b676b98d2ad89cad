# Month grid of calendar-month-page, in Dafny

The program draws one month of a calendar as an HTML table. It has seven
columns, Monday first, headed by the Polish short weekday labels. The
Sunday column is styled red. This project models the arithmetic behind
that table and proves what it promises:

- how many days the month has, and on which weekday its first and last
  days fall;
- how those weekdays become Monday-first column indices;
- how many week rows the table gets;
- which day number each cell shows.

Files and modules:

- `php.dfy`, module `Php`: PHP's `intdiv` and `%`, which truncate toward zero.
- `gregorian.dfy`, module `Gregorian`: the proleptic Gregorian calendar.
  It stands in for the library calls `date('t')` (days in the month) and
  `date('N')` (ISO 8601 weekday, Monday = 1 … Sunday = 7). Days are
  counted from 0001-01-01, a Monday, which is day 0.
- `month_grid.dfy`, module `MonthGrid`: the month grid by position. The
  cell at row r, column c holds day `7 * r + c - firstDay + 1` when that
  is a day of the month, and is blank otherwise. It also defines the
  row-major reading of a table and the theorem about that reading.
- `calendar.dfy`, module `Calendar`: the `Calendar` class itself.
  - `DAY_LABELS` and `SUNDAY`.
  - The red-column test.
  - `makeSundayLast`, `calculateDaysInMonth` and `calculateRowsNumber`.
  - `showDays` in two parts. `LayOutRows` is the row loop exactly as
    written, including the last row's reuse of the loop counter.
    `ShowDays` feeds it the computed row count and columns and proves the
    result is the month grid by position.

Main results:

- **Row count.** The rule "whole weeks rounded up, plus one if
  `lastDay < firstDay`" always equals `ceil((firstDay + days) / 7)`. It
  never produces a blank trailing row and never drops a row
  (`Calendar.WeeksNumberIsCeiling`).
- **Rows per month.** Every real month gets 4 to 6 rows. It gets 4 exactly
  when a 28-day February starts on a Monday (`Calendar.RealMonthRows`).
- **Reading order.** Reading the table row by row, the non-blank cells are
  exactly 1, 2, …, days (`MonthGrid.RowMajorReadsOneToDays`,
  `Calendar.ShowDays`).

Facts about the code worth knowing before reading the model:

- **Remap formula.** The weekday remap is `(day + 6) % 7`
  (Calendar.php:120). On the ISO weekdays 1..7 that `date('N')` returns it
  is simply `day - 1`, because `date('N')` already numbers Sunday last
  (`Calendar.MakeSundayLast`).
- **October 2022.** The month the script draws starts in column 5 and
  ends in column 0, so the extra row fires and the table has 6 rows. Row 0
  is `_ _ _ _ _ 1 2` and row 5 is `31 _ _ _ _ _ _` (`Calendar.October2022`).
- **The extra-row rule is exact.** Adding a row when `lastDay < firstDay`
  (Calendar.php:111-113) gives exactly the rows the month spans
  (`Calendar.WeeksNumberIsCeiling`).
- **Invalid months.** The code does not check the month. The model
  returns `Err(InvalidMonth(month))` for a month outside 1..12 (see Left
  out).

## Model

| member | source | states |
|---|---|---|
| `Php.IntDiv` | Calendar.php:106 | `intdiv` rounds toward zero: for a non-negative dividend the quotient times the divisor is at most the dividend and within one divisor of it, and symmetrically for a negative dividend |
| `Php.Mod` | Calendar.php:120 | PHP `%`: dividend = divisor × `intdiv` + remainder, and the remainder has the dividend's sign and is smaller in size than the divisor |
| `Gregorian.MonthLength` | Calendar.php:98-101 | the Gregorian month table as `date('t')` gives it: February has 29 days exactly in a leap year and 28 otherwise; April, June, September and November have 30; the rest have 31 |
| `Gregorian.DaysBeforeYearStep` | Calendar.php:107-108 | the closed-form count of days before a year starts at 0 for year 1 and grows by that year's length (365 or 366) from each year to the next |
| `Gregorian.DaysBeforeMonth` | Calendar.php:107-108 | the days before month m of a year lie between 28·(m−1) and 31·(m−1) |
| `Gregorian.DaysBeforeMonthTable` | Calendar.php:107-108 | the days before each month are the common-year offsets, plus one after February in a leap year |
| `Gregorian.YearIsTwelveMonths` | Calendar.php:107-108 | the twelve month lengths add up to the year's length |
| `Gregorian.NextDate` | Calendar.php:107-108 | the following calendar date is a valid date, later than the given one in (year, month, day) order |
| `Gregorian.NextDateIsNextDay` | Calendar.php:107-108 | the day numbering has no gaps: the following date's number is one more, across month and year ends |
| `Gregorian.NewYearIsNextDay` | Calendar.php:107-108 | 1 January of the next year is numbered one day after 31 December |
| `Gregorian.IsoWeekday` | Calendar.php:107-108 | the `date('N')` stand-in always yields an ISO weekday 1..7 |
| `Gregorian.WeekdayAdvancesByOne` | Calendar.php:107-108 | weekdays cycle: each day is the weekday after the previous one, and Monday (1) follows Sunday (7) |
| `Gregorian.WeekdayWithinMonth` | Calendar.php:107-110 | the last day's Monday-first column is day 1's column plus days − 1, modulo 7 |
| `Gregorian.EpochIsMonday` | Calendar.php:107 | the day count's origin, 0001-01-01, is weekday 1 (Monday), as in the proleptic Gregorian calendar; this holds by construction and fixes where the weekday cycle starts |
| `Gregorian.October2022Weekdays` | Calendar.php:162 | 1 October 2022 is a Saturday (6) and 31 October 2022 a Monday (1) |
| `Gregorian.February2021Weekday` | Calendar.php:107 | 1 February 2021 is a Monday |
| `Gregorian.FebruaryLengths` | Calendar.php:98-101 | February has 29 days in 2024 and 2000 and 28 days in 2023 and 1900 |
| `Calendar.IsRedColumn` | Calendar.php:73-74 | a cell is styled as Sunday exactly in column 6: no other label equals `SUNDAY` |
| `Calendar.MakeSundayLast` | Calendar.php:118-121 | ISO weekday d in 1..7 goes to Monday-first column d − 1; for any input the PHP remainder stays within −6..6 |
| `Calendar.MakeSundayLastIsBijection` | Calendar.php:118-121 | the remap takes Monday to 0 and Sunday to 6, is one-to-one on 1..7, and its image is exactly the columns 0..6 |
| `Calendar.CalculateDaysInMonth` | Calendar.php:98-101 | a month in 1..12 gets its Gregorian length, between 28 and 31; any other month is an `InvalidMonth` error |
| `Calendar.WeeksNumber` | Calendar.php:106-113 | the `intdiv`/`%` rounding is the fewest weeks that hold the month's days, plus one when `lastDay < firstDay`; when lastDay is the last day's column the result is the number of rows the month spans, ⌈(firstDay + days) / 7⌉ |
| `Calendar.WeeksNumberIsCeiling` | Calendar.php:105-113 | when lastDay is the last day's column, `lastDay < firstDay` holds exactly when firstDay + days − 1 reaches past 7·⌊(days−1)/7⌋ + 7, and the row count equals ⌈(firstDay + days) / 7⌉ |
| `Calendar.RealMonthRows` | Calendar.php:106-113 | a month of 28–31 days needs 4 to 6 rows; exactly 4 only for 28 days starting on Monday; exactly 6 when firstDay + days exceeds 35 |
| `Calendar.ColumnsOfWeekdays` | Calendar.php:105-113 | for ISO weekdays of a 28–31 day month's first and last days, the remapped columns are the weekdays minus one, and the row-count rule gives ⌈(firstDay + days) / 7⌉, between 4 and 6 |
| `Calendar.MonthColumns` | Calendar.php:105-113 | for every valid month, remapping `date('N')` of day 1 and of the last day gives the columns of those days, the last days − 1 columns after the first, and the rule's row count is the number of rows they span |
| `Calendar.CalculateRowsNumber` | Calendar.php:103-116 | for a valid month, firstDay and lastDay are the Monday-first columns of day 1 and of the last day, lastDay = (firstDay + days − 1) mod 7, and the row count is ⌈(firstDay + days) / 7⌉, between 4 and 6; an invalid month is an error |
| `Calendar.FirstRow` | Calendar.php:72-77 | the first row has one cell per label and, with day 1 in column firstDay of 0..6, shows days 1 .. 7 − firstDay in order after the blanks |
| `Calendar.MiddleRow` | Calendar.php:79-86 | a middle row has one cell per label, no blank, and shows seven consecutive days starting at 7·rowNumber − firstDay + 1 |
| `Calendar.LastRow` | Calendar.php:88-93 | the last row has one cell per label and, with lastDay in 0..6, shows lastDay + 1 consecutive days starting at 7·rowNumber − firstDay + 1, then blanks |
| `Calendar.LayOutRows` | Calendar.php:70-93 | the table has rowsNumber rows, or 2 if rowsNumber < 2. It is the first row, then middle row r at each index r in between, then a last row numbered by the leftover loop counter max(1, rowsNumber − 1) |
| `Calendar.RowsMatchGrid` | Calendar.php:73-92 | with at least two rows, the code's first row, middle rows and last row (numbered rows − 1) are the grid by position. Day 1 is in column firstDay, middle rows are full, and the last row ends with the last day in column lastDay |
| `Calendar.LaidOutRowsAreGrid` | Calendar.php:79-92 | rows shaped as the loop builds them, for the computed row count and last-day column, are exactly the grid by position |
| `Calendar.ShowDays` | Calendar.php:64-96 | for a valid month the table is the grid by position: 4–6 rows, one cell per weekday label in each row. Read row by row, its non-blank cells are exactly 1..days. An invalid month is an error |
| `Calendar.October2022` | Calendar.php:162 | October 2022 gets 6 rows with firstDay 5 and lastDay 0; its first row is `_ _ _ _ _ 1 2` and its last row `31 _ _ _ _ _ _` |
| `Calendar.February2021` | Calendar.php:106-113 | February 2021 (28 days, starts Monday) gets exactly 4 rows, firstDay 0, lastDay 6 |
| `MonthGrid.WeeksSpanned` | Calendar.php:106 | the result is the fewest seven-cell rows holding the given number of cells |
| `MonthGrid.ValuesOfWindow` | Calendar.php:73-92 | a row whose columns lo..hi show base + k and whose other columns are blank reads, over its first n cells, as the consecutive values from base + lo, one per column of lo..hi reached |
| `MonthGrid.FlattenGridPrefix` | Calendar.php:73-93 | reading the first k rows of the grid gives the first 7k cells of the row-major run |
| `MonthGrid.ValuesOfRun` | Calendar.php:73-93 | the non-blank values among the first n cells of the run are 1..m, where m is how many days those cells reach |
| `MonthGrid.RowMajorReadsOneToDays` | Calendar.php:73-93 | reading the grid row by row, the non-blank cells are exactly 1, 2, …, days: consecutive, no gaps, no repeats, all within 1..days |
| `MonthGrid.DayPosition` | Calendar.php:75-91 | day d sits at row ⌊(firstDay+d−1)/7⌋, column (firstDay+d−1) mod 7, and in no other cell |
| `MonthGrid.BlankCells` | Calendar.php:73-92 | the blank cells are exactly the first row's columns before firstDay and the last row's columns after lastDay; middle rows have no blanks |
| `MonthGrid.LastRowIndex` | Calendar.php:79-91 | the last day is cell 7·(rows − 1) + lastDay of the row-major reading |
| `MonthGrid.LastRowShape` | Calendar.php:88-92 | the last row holds the last day in column lastDay, so the table never ends with an all-blank row |

## Left out

- HTML assembly is not modelled: `makeTable`, `showTitle`, `showLabels`
  and the `<tr>`/`<td>` strings in `showDays` (Calendar.php:28-62, 66-68).
  This is string templating. Each cell is modelled by its value, and the
  styling by `Calendar.IsRedColumn`.
- `localMonthName` and `localDaysArray` (Calendar.php:123-153) are not
  modelled. They call the ICU date formatter, whose output is
  locale data outside the program.
- The constructor's `setlocale` call and its locale and timezone
  arguments (Calendar.php:19-26) are not modelled. They change
  process-wide state. `Calendar.Calendar` keeps only month and year.
- The script at the end of the file (Calendar.php:158-164) is not
  modelled. It builds an output path from `$_SERVER['HOME']` and writes
  the page through `SplFileObject`, which is file I/O. Its one input,
  October 2022, is covered by `Calendar.October2022`.
- `strtotime` parsing of `"Y-m-d"` strings (Calendar.php:100, 107-108) is
  replaced by integer (year, month, day) arguments to the Gregorian
  functions.
- Calendar.CalculateDaysInMonth: returns an `InvalidMonth` error for a
  month outside 1..12. The code performs no check there. `strtotime` fails
  on such a date, and `date()` then formats its fallback timestamp. That
  fallback is date-library behaviour and is not modelled.
- The timezone is left out. `date()` and `strtotime` use the process's
  default timezone. For whole calendar dates it does not change the
  month length or the weekday, so it is not a parameter.
- PHP's 64-bit integers are modelled as unbounded. Only years far beyond
  any date `strtotime` accepts could overflow.
- Php.IntDiv: only positive divisors are modelled. The calendar always
  divides by 7.
- Php.Mod: only positive divisors are modelled, for the same reason.
- Calendar.LayOutRows: for a row count below 2 it is modelled as
  written. It produces two rows, and the second is numbered 1 by the
  leftover loop counter. That output is not the month grid, so
  `Calendar.RowsMatchGrid` requires at least two rows. Every real month has 28 to 31 days and therefore 4 to 6 rows
  (`Calendar.RealMonthRows`), so this case is never reached.
