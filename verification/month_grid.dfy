/** The month grid by position: a table of week rows, seven cells each,
    Monday first, in which the cell at row r, column c holds day
    `7 * r + c - firstDay + 1` when that is a day of the month and is blank
    otherwise. This is the layout the calendar's row-by-row rules are meant
    to produce; the lemmas here state what reading it gives. */
module MonthGrid {

  /** A cell of the table: blank, or a day of the month. */
  datatype Cell = Empty | Day(n: int)

  /** The fewest seven-cell rows that hold `cells` cells. */
  function WeeksSpanned(cells: int): (rows: int)
    requires cells >= 0
    ensures rows >= 0
    ensures 7 * (rows - 1) < cells <= 7 * rows
  {
    (cells + 6) / 7
  }

  /** The cell showing value v of a month with `days` days. */
  function CellFor(v: int, days: int): Cell {
    if 1 <= v <= days then Day(v) else Empty
  }

  /** The first n cells of the table read row by row, when day 1 sits at index firstDay. */
  function Run(firstDay: int, days: int, n: nat): seq<Cell> {
    seq(n, i => CellFor(i - firstDay + 1, days))
  }

  /** The table of a month of `days` days whose day 1 falls in column firstDay. */
  function Grid(firstDay: int, days: nat): seq<seq<Cell>>
    requires 0 <= firstDay <= 6
  {
    seq(WeeksSpanned(firstDay + days), r => seq(7, c => CellFor(7 * r + c - firstDay + 1, days)))
  }

  /** The rows of a table joined in order: its row-major reading. */
  function Flatten(rows: seq<seq<Cell>>): seq<Cell> {
    if |rows| == 0 then [] else Flatten(rows[..|rows| - 1]) + rows[|rows| - 1]
  }

  /** The day numbers of the non-blank cells, in order. */
  function Values(cells: seq<Cell>): seq<int> {
    if |cells| == 0 then []
    else
      Values(cells[..|cells| - 1])
      + (match cells[|cells| - 1] case Day(n) => [n] case Empty => [])
  }

  /** 1, 2, ..., n. */
  function OneTo(n: nat): seq<int> {
    seq(n, i => i + 1)
  }

  /** The n consecutive values lo, lo + 1, ..., lo + n - 1. */
  function Span(lo: int, n: nat): seq<int> {
    seq(n, i => lo + i)
  }

  /** A row whose columns lo .. hi show `base + k` and whose other columns
      are blank yields, among its first n cells, the consecutive values
      from `base + lo` for as many columns of lo .. hi as those cells reach. */
  lemma {:induction false} ValuesOfWindow(row: seq<Cell>, base: int, lo: int, hi: int, n: nat)
    requires 0 <= lo <= hi + 1
    requires n <= |row|
    requires forall k :: 0 <= k < |row| ==> row[k] == if lo <= k <= hi then Day(base + k) else Empty
    ensures Values(row[..n]) == Span(base + lo, if n <= lo then 0 else if n <= hi then n - lo else hi + 1 - lo)
  {
    if n > 0 {
      assert row[..n][..n - 1] == row[..n - 1];
      ValuesOfWindow(row, base, lo, hi, n - 1);
      if lo <= n - 1 <= hi {
        assert row[..n][n - 1] == Day(base + n - 1);
        assert Span(base + lo, n - 1 - lo) + [base + n - 1] == Span(base + lo, n - lo);
      } else {
        assert row[..n][n - 1] == Empty;
      }
    }
  }

  /** Reading the first k rows of the grid gives the first 7 * k cells of the run. */
  lemma {:induction false} FlattenGridPrefix(firstDay: int, days: nat, k: nat)
    requires 0 <= firstDay <= 6
    requires k <= |Grid(firstDay, days)|
    ensures Flatten(Grid(firstDay, days)[..k]) == Run(firstDay, days, 7 * k)
  {
    if k > 0 {
      var g := Grid(firstDay, days);
      FlattenGridPrefix(firstDay, days, k - 1);
      assert g[..k][..k - 1] == g[..k - 1];
      var left := Run(firstDay, days, 7 * (k - 1));
      assert Run(firstDay, days, 7 * k) == left + g[k - 1] by {
        forall i | 0 <= i < 7 * k
          ensures Run(firstDay, days, 7 * k)[i] == (left + g[k - 1])[i]
        {
          if i >= 7 * (k - 1) {
            assert g[k - 1][i - 7 * (k - 1)] == CellFor(i - firstDay + 1, days);
          }
        }
      }
    }
  }

  /** The values in the first n cells of the run are 1 .. m, where m is how
      many of the month's days those cells reach. */
  lemma {:induction false} ValuesOfRun(firstDay: int, days: nat, n: nat)
    requires firstDay >= 0
    ensures Values(Run(firstDay, days, n))
            == OneTo(if n <= firstDay then 0 else if n - firstDay <= days then n - firstDay else days)
  {
    if n > 0 {
      var s := Run(firstDay, days, n);
      assert s[..n - 1] == Run(firstDay, days, n - 1);
      ValuesOfRun(firstDay, days, n - 1);
      var v := n - firstDay;
      assert s[n - 1] == CellFor(v, days);
      if 1 <= v <= days {
        assert s[n - 1] == Day(v);
        assert OneTo(v - 1) + [v] == OneTo(v);
      } else {
        assert s[n - 1] == Empty;
      }
    }
  }

  /** Reading the grid row by row, the non-blank cells are exactly 1, 2, ..., days:
      consecutive, without gaps or repeats, every value in 1 .. days. */
  lemma RowMajorReadsOneToDays(firstDay: int, days: nat)
    requires 0 <= firstDay <= 6
    ensures Values(Flatten(Grid(firstDay, days))) == OneTo(days)
    ensures var vs := Values(Flatten(Grid(firstDay, days)));
            |vs| == days && forall i :: 0 <= i < |vs| ==> vs[i] == i + 1 && 1 <= vs[i] <= days
  {
    var g := Grid(firstDay, days);
    FlattenGridPrefix(firstDay, days, |g|);
    assert g[..|g|] == g;
    ValuesOfRun(firstDay, days, 7 * |g|);
  }

  /** Day d sits in row (firstDay + d - 1) / 7, column (firstDay + d - 1) % 7,
      and in no other cell. */
  lemma DayPosition(firstDay: int, days: nat, d: int)
    requires 0 <= firstDay <= 6
    requires 1 <= d <= days
    ensures var g := Grid(firstDay, days);
            var i := firstDay + d - 1;
            i / 7 < |g| && g[i / 7][i % 7] == Day(d)
    ensures var g := Grid(firstDay, days);
            forall r, c :: 0 <= r < |g| && 0 <= c < 7 ==> (g[r][c] == Day(d) <==> 7 * r + c == firstDay + d - 1)
  {
    var g := Grid(firstDay, days);
    var i := firstDay + d - 1;
    assert g[i / 7][i % 7] == CellFor(7 * (i / 7) + i % 7 - firstDay + 1, days);
    forall r, c | 0 <= r < |g| && 0 <= c < 7
      ensures g[r][c] == Day(d) <==> 7 * r + c == firstDay + d - 1
    {
      assert g[r][c] == CellFor(7 * r + c - firstDay + 1, days);
    }
  }

  /** The blank cells are exactly those before day 1 in the first row and
      those after the last day in the last row; every other cell, in
      particular every cell of a middle row, holds a day. */
  lemma BlankCells(firstDay: int, days: nat)
    requires 0 <= firstDay <= 6
    requires days >= 1
    ensures var g := Grid(firstDay, days);
            var lastDay := (firstDay + days - 1) % 7;
            forall r, c :: 0 <= r < |g| && 0 <= c < 7 ==>
              (g[r][c] == Empty <==> (r == 0 && c < firstDay) || (r == |g| - 1 && c > lastDay))
  {
    var g := Grid(firstDay, days);
    var lastDay := (firstDay + days - 1) % 7;
    LastRowIndex(firstDay, days);
    forall r, c | 0 <= r < |g| && 0 <= c < 7
      ensures g[r][c] == Empty <==> (r == 0 && c < firstDay) || (r == |g| - 1 && c > lastDay)
    {
      assert g[r][c] == CellFor(7 * r + c - firstDay + 1, days);
    }
  }

  /** The last day is cell 7 * (rows - 1) + lastDay of the row-major reading. */
  lemma LastRowIndex(firstDay: int, days: nat)
    requires 0 <= firstDay <= 6
    requires days >= 1
    ensures 7 * (|Grid(firstDay, days)| - 1) + (firstDay + days - 1) % 7 == firstDay + days - 1
  {
  }

  /** The last row holds the last day in column lastDay, so it is never all blank. */
  lemma LastRowShape(firstDay: int, days: nat)
    requires 0 <= firstDay <= 6
    requires days >= 1
    ensures var g := Grid(firstDay, days);
            var lastDay := (firstDay + days - 1) % 7;
            |g| >= 1 && g[|g| - 1][lastDay] == Day(days)
  {
    var g := Grid(firstDay, days);
    var lastDay := (firstDay + days - 1) % 7;
    LastRowIndex(firstDay, days);
    assert g[|g| - 1][lastDay] == CellFor(7 * (|g| - 1) + lastDay - firstDay + 1, days);
  }
}
