/** The month-grid arithmetic of the `Calendar` class: which columns day 1
    and the last day fall in, how many week rows the table gets, and which
    day number each cell of the table shows. The HTML markup around the
    cells is not modelled; a cell is its value, and the Sunday styling is
    the flag `IsRedColumn`. */
module Calendar {
  import Php
  import Gregorian
  import opened MonthGrid

  /** The Polish short weekday labels heading the seven columns, Monday first. */
  const DAY_LABELS: seq<string> := ["Pn", "Wt", "Śr", "Cz", "Pt", "So", "N"]

  /** The label of the column styled as Sunday. */
  const SUNDAY: string := DAY_LABELS[6]

  /** The month a table is drawn for. */
  datatype Calendar = Calendar(month: int, year: int)

  datatype InputError = InvalidMonth(month: int)

  datatype Result<T> = Ok(value: T) | Err(error: InputError)

  /** What the row count computation hands to the table builder:
      the number of rows and the columns of day 1 and of the last day. */
  datatype RowsInfo = RowsInfo(weeksNumber: int, firstDay: int, lastDay: int)

  /** Every cell of column k gets the red Sunday class exactly when its label is SUNDAY. */
  function IsRedColumn(k: int): (red: bool)
    requires 0 <= k < |DAY_LABELS|
    ensures red <==> k == 6
  {
    DAY_LABELS[k] == SUNDAY
  }

  /** Turns an ISO weekday (Monday = 1 ... Sunday = 7) into a Monday-first
      column index (Monday = 0 ... Sunday = 6), with PHP's `%`. */
  function MakeSundayLast(day: int): (col: int)
    ensures 1 <= day <= 7 ==> col == day - 1
    ensures -7 < col < 7
  {
    Php.Mod(day + 6, 7)
  }

  /** The remap is a bijection from the ISO weekdays onto the seven columns,
      taking Monday to the first column and Sunday to the last. */
  lemma MakeSundayLastIsBijection()
    ensures MakeSundayLast(1) == 0 && MakeSundayLast(7) == 6
    ensures forall a, b :: 1 <= a <= 7 && 1 <= b <= 7 && MakeSundayLast(a) == MakeSundayLast(b) ==> a == b
    ensures (set d | 1 <= d <= 7 :: MakeSundayLast(d)) == {0, 1, 2, 3, 4, 5, 6}
  {
    var image := set d | 1 <= d <= 7 :: MakeSundayLast(d);
    assert MakeSundayLast(1) in image && MakeSundayLast(2) in image && MakeSundayLast(3) in image;
    assert MakeSundayLast(4) in image && MakeSundayLast(5) in image && MakeSundayLast(6) in image;
    assert MakeSundayLast(7) in image;
  }

  /** `date('t')` for the first of the month; a month outside 1 .. 12 is refused. */
  function CalculateDaysInMonth(cal: Calendar): (r: Result<int>)
    ensures r.Ok? <==> 1 <= cal.month <= 12
    ensures r.Err? ==> r.error == InvalidMonth(cal.month)
    ensures r.Ok? ==> 28 <= r.value <= 31 && r.value == Gregorian.MonthLength(cal.year, cal.month)
  {
    if 1 <= cal.month <= 12 then Ok(Gregorian.MonthLength(cal.year, cal.month))
    else Err(InvalidMonth(cal.month))
  }

  /** The row-count rule as written: whole weeks rounded up, plus one more
      row when the last day's column is left of day 1's column. The rounded
      part is the fewest weeks holding the month's days; when lastDay is the
      last day's column, the whole count is the rows the month spans. */
  function WeeksNumber(daysNumber: int, firstDay: int, lastDay: int): (r: int)
    ensures daysNumber >= 0 ==> r == WeeksSpanned(daysNumber) + (if lastDay < firstDay then 1 else 0)
    ensures daysNumber >= 1 && 0 <= firstDay <= 6 && lastDay == (firstDay + daysNumber - 1) % 7
            ==> r == WeeksSpanned(firstDay + daysNumber)
  {
    var weeks := (if Php.Mod(daysNumber, 7) == 0 then 0 else 1) + Php.IntDiv(daysNumber, 7);
    if lastDay < firstDay then weeks + 1 else weeks
  }

  /** When lastDay is the column of the last day, the extra row is added
      exactly when the month runs past its rounded-up whole weeks, and the
      rule counts exactly the rows that day 1's offset plus the month's days
      fill: it never adds a blank row and never drops one. */
  lemma WeeksNumberIsCeiling(daysNumber: int, firstDay: int)
    requires daysNumber >= 1
    requires 0 <= firstDay <= 6
    ensures var lastDay := (firstDay + daysNumber - 1) % 7;
            lastDay < firstDay <==> firstDay + daysNumber - 1 >= 7 * ((daysNumber - 1) / 7) + 7
    ensures WeeksNumber(daysNumber, firstDay, (firstDay + daysNumber - 1) % 7)
            == WeeksSpanned(firstDay + daysNumber)
  {
  }

  /** A month of 28 to 31 days takes 4 to 6 rows; it takes 4 only when it
      has 28 days and starts on a Monday, and 6 only when it reaches past the
      35th cell. */
  lemma RealMonthRows(daysNumber: int, firstDay: int)
    requires 28 <= daysNumber <= 31
    requires 0 <= firstDay <= 6
    ensures 4 <= WeeksSpanned(firstDay + daysNumber) <= 6
    ensures WeeksSpanned(firstDay + daysNumber) == 4 <==> daysNumber == 28 && firstDay == 0
    ensures WeeksSpanned(firstDay + daysNumber) == 6 <==> firstDay + daysNumber > 35
  {
  }

  /** The columns of day 1 and of the last day, and the number of rows. */
  function CalculateRowsNumber(cal: Calendar): (r: Result<RowsInfo>)
    ensures r.Ok? <==> 1 <= cal.month <= 12
    ensures r.Err? ==> r.error == InvalidMonth(cal.month)
    ensures r.Ok? ==>
              var days := Gregorian.MonthLength(cal.year, cal.month);
              && r.value.firstDay == Gregorian.IsoWeekday(Gregorian.Date(cal.year, cal.month, 1)) - 1
              && r.value.lastDay == Gregorian.IsoWeekday(Gregorian.Date(cal.year, cal.month, days)) - 1
              && r.value.lastDay == (r.value.firstDay + days - 1) % 7
              && r.value.weeksNumber == WeeksSpanned(r.value.firstDay + days)
              && 4 <= r.value.weeksNumber <= 6
  {
    match CalculateDaysInMonth(cal)
    case Err(e) => Err(e)
    case Ok(daysNumber) =>
      MonthColumns(cal.year, cal.month);
      var first := Gregorian.Date(cal.year, cal.month, 1);
      var last := Gregorian.Date(cal.year, cal.month, daysNumber);
      var firstDay := MakeSundayLast(Gregorian.IsoWeekday(first));
      var lastDay := MakeSundayLast(Gregorian.IsoWeekday(last));
      Ok(RowsInfo(WeeksNumber(daysNumber, firstDay, lastDay), firstDay, lastDay))
  }

  /** The remapped weekdays of a month's first and last days are its
      Monday-first columns, the last `days - 1` columns after the first, and
      the row-count rule applied to them gives the rows they span. */
  lemma MonthColumns(year: int, month: int)
    requires 1 <= month <= 12
    ensures var days := Gregorian.MonthLength(year, month);
            var first := Gregorian.IsoWeekday(Gregorian.Date(year, month, 1));
            var last := Gregorian.IsoWeekday(Gregorian.Date(year, month, days));
            var firstDay := MakeSundayLast(first);
            var lastDay := MakeSundayLast(last);
            && firstDay == first - 1
            && lastDay == last - 1
            && lastDay == (firstDay + days - 1) % 7
            && WeeksNumber(days, firstDay, lastDay) == WeeksSpanned(firstDay + days)
            && 4 <= WeeksSpanned(firstDay + days) <= 6
  {
    var days := Gregorian.MonthLength(year, month);
    var first := Gregorian.IsoWeekday(Gregorian.Date(year, month, 1));
    var last := Gregorian.IsoWeekday(Gregorian.Date(year, month, days));
    Gregorian.WeekdayWithinMonth(year, month, days);
    ColumnsOfWeekdays(days, first, last);
  }

  /** The month-column facts about plain numbers: ISO weekdays `first` and
      `last` of a 28 to 31 day month, the last `days - 1` weekdays after the first. */
  lemma ColumnsOfWeekdays(days: int, first: int, last: int)
    requires 28 <= days <= 31
    requires 1 <= first <= 7 && 1 <= last <= 7
    requires last - 1 == (first - 1 + days - 1) % 7
    ensures var firstDay := MakeSundayLast(first);
            var lastDay := MakeSundayLast(last);
            && firstDay == first - 1
            && lastDay == last - 1
            && lastDay == (firstDay + days - 1) % 7
            && WeeksNumber(days, firstDay, lastDay) == WeeksSpanned(firstDay + days)
            && 4 <= WeeksSpanned(firstDay + days) <= 6
  {
    WeeksNumberIsCeiling(days, first - 1);
    RealMonthRows(days, first - 1);
  }

  /** The first row: blank before day 1's column, then 1, 2, ... With day 1
      in a weekday column, it shows days 1 .. 7 - firstDay in order. */
  function FirstRow(firstDay: int): (row: seq<Cell>)
    ensures |row| == |DAY_LABELS|
    ensures 0 <= firstDay <= 6 ==> Values(row) == Span(1, 7 - firstDay)
  {
    var row := seq(|DAY_LABELS|, k => if k < firstDay then Empty else Day(k - firstDay + 1));
    if 0 <= firstDay <= 6 then
      ValuesOfWindow(row, 1 - firstDay, firstDay, 6, 7);
      assert row[..7] == row;
      row
    else row
  }

  /** A middle row: every column shows `rowNumber * 7 + k - firstDay + 1`,
      so it holds seven consecutive days and no blank. */
  function MiddleRow(rowNumber: int, firstDay: int): (row: seq<Cell>)
    ensures |row| == |DAY_LABELS|
    ensures Values(row) == Span(rowNumber * 7 - firstDay + 1, 7)
  {
    var row := seq(|DAY_LABELS|, k => Day(rowNumber * 7 + k - firstDay + 1));
    ValuesOfWindow(row, rowNumber * 7 - firstDay + 1, 0, 6, 7);
    assert row[..7] == row;
    row
  }

  /** The last row, built from the row index the middle-row loop left
      behind: blank after the last day's column. With the last day in a
      weekday column, it shows lastDay + 1 consecutive days from the row's
      first column on. */
  function LastRow(rowNumber: int, firstDay: int, lastDay: int): (row: seq<Cell>)
    ensures |row| == |DAY_LABELS|
    ensures 0 <= lastDay <= 6 ==> Values(row) == Span(rowNumber * 7 - firstDay + 1, lastDay + 1)
  {
    var row := seq(|DAY_LABELS|, k => if k > lastDay then Empty else Day(k - firstDay + 1 + rowNumber * 7));
    if 0 <= lastDay <= 6 then
      ValuesOfWindow(row, rowNumber * 7 - firstDay + 1, 0, lastDay, 7);
      assert row[..7] == row;
      row
    else row
  }

  /** The table body as the code builds it: the first row, a loop emitting
      middle rows 1 .. rowsNumber - 2, and a last row that reuses the loop's
      counter. The counter ends at the larger of 1 and rowsNumber - 1, so
      the table always has at least two rows, and the last row is row
      rowsNumber - 1 only when rowsNumber is at least 2. */
  method LayOutRows(rowsNumber: int, firstDay: int, lastDay: int) returns (rows: seq<seq<Cell>>)
    ensures |rows| == if rowsNumber >= 2 then rowsNumber else 2
    ensures rows[0] == FirstRow(firstDay)
    ensures forall r :: 1 <= r < |rows| - 1 ==> rows[r] == MiddleRow(r, firstDay)
    ensures rows[|rows| - 1] == LastRow(|rows| - 1, firstDay, lastDay)
  {
    rows := [FirstRow(firstDay)];
    var rowNumber := 1;
    while rowNumber < rowsNumber - 1
      invariant 1 <= rowNumber
      invariant rowNumber == 1 || rowNumber <= rowsNumber - 1
      invariant |rows| == rowNumber
      invariant rows[0] == FirstRow(firstDay)
      invariant forall r :: 1 <= r < rowNumber ==> rows[r] == MiddleRow(r, firstDay)
    {
      rows := rows + [MiddleRow(rowNumber, firstDay)];
      rowNumber := rowNumber + 1;
    }
    rows := rows + [LastRow(rowNumber, firstDay, lastDay)];
  }

  /** With at least two rows, the code's first, middle and last rows are
      the rows of the month grid by position: the first row places day 1 in
      column firstDay, middle rows are full, and the last row, numbered by
      the leftover loop counter, ends with the last day in column lastDay. */
  lemma RowsMatchGrid(firstDay: int, daysNumber: nat)
    requires 0 <= firstDay <= 6
    requires daysNumber >= 1
    requires WeeksSpanned(firstDay + daysNumber) >= 2
    ensures var g := Grid(firstDay, daysNumber);
            var lastDay := (firstDay + daysNumber - 1) % 7;
            && FirstRow(firstDay) == g[0]
            && (forall r :: 1 <= r < |g| - 1 ==> MiddleRow(r, firstDay) == g[r])
            && LastRow(|g| - 1, firstDay, lastDay) == g[|g| - 1]
  {
    var g := Grid(firstDay, daysNumber);
    var lastDay := (firstDay + daysNumber - 1) % 7;
    LastRowIndex(firstDay, daysNumber);
    assert FirstRow(firstDay) == g[0] by {
      forall k | 0 <= k < 7
        ensures FirstRow(firstDay)[k] == g[0][k]
      {
        assert g[0][k] == CellFor(k - firstDay + 1, daysNumber);
      }
    }
    forall r | 1 <= r < |g| - 1
      ensures MiddleRow(r, firstDay) == g[r]
    {
      forall k | 0 <= k < 7
        ensures MiddleRow(r, firstDay)[k] == g[r][k]
      {
        assert g[r][k] == CellFor(7 * r + k - firstDay + 1, daysNumber);
      }
    }
    var n := |g| - 1;
    var last := g[n];
    assert LastRow(n, firstDay, lastDay) == last by {
      forall k | 0 <= k < 7
        ensures LastRow(n, firstDay, lastDay)[k] == last[k]
      {
        assert last[k] == CellFor(7 * n + k - firstDay + 1, daysNumber);
      }
    }
  }

  /** The day cells of the month's table. For every valid month the table is the
      month grid by position: 4 to 6 rows of one cell per weekday label,
      whose non-blank cells read row by row are exactly 1 .. days. */
  method ShowDays(cal: Calendar) returns (r: Result<seq<seq<Cell>>>)
    ensures r.Ok? <==> 1 <= cal.month <= 12
    ensures r.Err? ==> r.error == InvalidMonth(cal.month)
    ensures r.Ok? ==>
              var days := Gregorian.MonthLength(cal.year, cal.month);
              var firstDay := Gregorian.IsoWeekday(Gregorian.Date(cal.year, cal.month, 1)) - 1;
              && r.value == Grid(firstDay, days)
              && 4 <= |r.value| <= 6
              && (forall i :: 0 <= i < |r.value| ==> |r.value[i]| == |DAY_LABELS|)
              && Values(Flatten(r.value)) == OneTo(days)
  {
    var info := CalculateRowsNumber(cal);
    if info.Err? {
      return Err(info.error);
    }
    var RowsInfo(rowsNumber, firstDay, lastDay) := info.value;
    var days := Gregorian.MonthLength(cal.year, cal.month);
    assert 0 <= firstDay <= 6 && 4 <= rowsNumber <= 6;
    assert rowsNumber == WeeksSpanned(firstDay + days) && lastDay == (firstDay + days - 1) % 7;
    var rows := LayOutRows(rowsNumber, firstDay, lastDay);
    LaidOutRowsAreGrid(rows, firstDay, days);
    assert forall i :: 0 <= i < |rows| ==> |rows[i]| == |DAY_LABELS|;
    RowMajorReadsOneToDays(firstDay, days);
    return Ok(rows);
  }

  /** Rows shaped as `LayOutRows` promises, for the row count and last-day
      column that `CalculateRowsNumber` computes, are the month grid. */
  lemma LaidOutRowsAreGrid(rows: seq<seq<Cell>>, firstDay: int, daysNumber: nat)
    requires 0 <= firstDay <= 6
    requires daysNumber >= 1
    requires |rows| == WeeksSpanned(firstDay + daysNumber) >= 2
    requires rows[0] == FirstRow(firstDay)
    requires forall r :: 1 <= r < |rows| - 1 ==> rows[r] == MiddleRow(r, firstDay)
    requires rows[|rows| - 1] == LastRow(|rows| - 1, firstDay, (firstDay + daysNumber - 1) % 7)
    ensures rows == Grid(firstDay, daysNumber)
  {
    var g := Grid(firstDay, daysNumber);
    RowsMatchGrid(firstDay, daysNumber);
    forall i | 0 <= i < |g|
      ensures rows[i] == g[i]
    {
    }
  }

  /** October 2022, the month the program draws: it starts on a Saturday
      (column 5) and ends on a Monday (column 0), so the extra row fires and
      the table has six rows, the first `_ _ _ _ _ 1 2` and the last
      `31 _ _ _ _ _ _`. */
  lemma October2022()
    ensures CalculateRowsNumber(Calendar(10, 2022)) == Ok(RowsInfo(6, 5, 0))
    ensures Grid(5, 31)[0] == [Empty, Empty, Empty, Empty, Empty, Day(1), Day(2)]
    ensures Grid(5, 31)[5] == [Day(31), Empty, Empty, Empty, Empty, Empty, Empty]
  {
    Gregorian.October2022Weekdays();
    var g := Grid(5, 31);
    var first, last := g[0], g[5];
    assert first == [Empty, Empty, Empty, Empty, Empty, Day(1), Day(2)] by {
      forall k | 0 <= k < 7
        ensures first[k] == CellFor(k - 4, 31)
      {
      }
    }
    assert last == [Day(31), Empty, Empty, Empty, Empty, Empty, Empty] by {
      forall k | 0 <= k < 7
        ensures last[k] == CellFor(k + 31, 31)
      {
      }
    }
  }

  /** A 28-day February that starts on a Monday fills exactly four rows. */
  lemma February2021()
    ensures CalculateRowsNumber(Calendar(2, 2021)) == Ok(RowsInfo(4, 0, 6))
  {
    Gregorian.February2021Weekday();
  }
}
