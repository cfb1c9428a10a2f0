/** The scrolling day grid of the habit tracker: seven rows, one column per
    started week since the fixed start date, one cell per elapsed day, each
    labelled with the row's weekday initial and the day of the month. */
module Tracker {

  import opened Calendar
  import opened Decimal

  /** 1 July 2024, the first day of the grid. */
  const StartDate := Date(2024, 7, 1)

  /** Number of rows of the grid: one per weekday. */
  const Rows: nat := 7

  /** Fixed initial of each row, Monday first, in Spanish
      (lunes, martes, miércoles, jueves, viernes, sábado, domingo). */
  const DayLetters: seq<char> := ['L', 'M', 'M', 'J', 'V', 'S', 'D']

  const MillisPerDay: nat := 1000 * 3600 * 24

  /** Spanish initial of a weekday. */
  function Initial(w: Weekday): char {
    match w
    case Monday => 'L'
    case Tuesday => 'M'
    case Wednesday => 'M'
    case Thursday => 'J'
    case Friday => 'V'
    case Saturday => 'S'
    case Sunday => 'D'
  }

  function Abs(x: int): nat {
    if x < 0 then -x else x
  }

  /** Whole days between the start instant and now, rounded up, whichever
      comes first; instants are integer milliseconds. */
  function TotalDays(startMillis: int, nowMillis: int): (days: nat)
    ensures days * MillisPerDay >= Abs(startMillis - nowMillis)
    ensures days > 0 ==> (days - 1) * MillisPerDay < Abs(startMillis - nowMillis)
  {
    (Abs(startMillis - nowMillis) + MillisPerDay - 1) / MillisPerDay
  }

  /** Columns of the grid: the integer ceiling of `totalDays / 7`. */
  function Columns(totalDays: nat): (columns: nat)
    ensures columns * Rows >= totalDays
    ensures totalDays > 0 ==> (columns - 1) * Rows < totalDays
    ensures columns == 0 <==> totalDays == 0
  {
    (totalDays + Rows - 1) / Rows
  }

  /** Day offset from the start date of the cell in `row`, `col`. */
  function DayOffset(row: nat, col: nat): (offset: nat)
    ensures row < Rows ==> offset % Rows == row && offset / Rows == col
  {
    col * Rows + row
  }

  /** The date shown by the cell in `row`, `col`. */
  function CellDate(row: nat, col: nat): (d: Date)
    requires row < Rows
    ensures Valid(d)
    ensures DayNumber(d) == DayNumber(StartDate) + DayOffset(row, col)
  {
    AddDaysNumber(StartDate, DayOffset(row, col));
    AddDays(StartDate, DayOffset(row, col))
  }

  /** The cell's text: the row's initial followed by the day of the month. */
  function DayLabel(row: nat, col: nat): (shown: string)
    requires row < Rows
    ensures |shown| >= 2 && shown[0] == DayLetters[row]
    ensures AllDigits(shown[1..]) && Parse(shown[1..]) == CellDate(row, col).day
    ensures shown[1] != '0'
  {
    ParseShow(CellDate(row, col).day);
    [DayLetters[row]] + Show(CellDate(row, col).day)
  }

  /** A rendered cell. */
  datatype Cell = Cell(row: nat, col: nat, text: string)

  predicate IsCellOf(c: Cell, totalDays: nat) {
    && c.row < Rows
    && c.col < Columns(totalDays)
    && DayOffset(c.row, c.col) < totalDays
    && c.text == DayLabel(c.row, c.col)
  }

  /** Row-major order: `a` is rendered before `b`. */
  predicate Before(a: Cell, b: Cell) {
    Precedes(a, b.row, b.col)
  }

  /** The cell `c` is rendered before the loop reaches position (`row`, `col`). */
  predicate Precedes(c: Cell, row: nat, col: nat) {
    c.row < row || (c.row == row && c.col < col)
  }

  /** The day offsets of a sequence of cells. */
  function Offsets(cells: seq<Cell>): set<nat> {
    set k | 0 <= k < |cells| :: DayOffset(cells[k].row, cells[k].col)
  }

  /** Offsets that the rendering has produced once rows below `row` and the
      first `col` columns of `row` are done. */
  function Done(totalDays: nat, row: nat, col: nat): set<nat> {
    set d | 0 <= d < totalDays && (d % Rows < row || (d % Rows == row && d / Rows < col))
  }

  // ---------------------------------------------------------------------
  // Grid index arithmetic
  // ---------------------------------------------------------------------

  /** Every day offset is the offset of exactly one cell: `(d % 7, d / 7)`. */
  lemma OffsetBijection(d: nat, row: nat, col: nat)
    requires row < Rows
    ensures DayOffset(d % Rows, d / Rows) == d
    ensures DayOffset(row, col) == d <==> (row == d % Rows && col == d / Rows)
  {
  }

  /** Distinct cells have distinct day offsets. */
  lemma OffsetInjective(r1: nat, c1: nat, r2: nat, c2: nat)
    requires r1 < Rows && r2 < Rows
    requires DayOffset(r1, c1) == DayOffset(r2, c2)
    ensures r1 == r2 && c1 == c2
  {
  }

  /** The elapsed-days count does not depend on which instant comes first. */
  lemma TotalDaysSymmetric(a: int, b: int)
    ensures TotalDays(a, b) == TotalDays(b, a)
  {
  }

  /** A cell offset below `totalDays` lies in one of the `Columns` columns. */
  lemma OffsetWithinColumns(d: nat, totalDays: nat)
    requires d < totalDays
    ensures d / Rows < Columns(totalDays)
  {
  }

  lemma {:induction false} OffsetsAppend(cells: seq<Cell>, c: Cell)
    ensures Offsets(cells + [c]) == Offsets(cells) + {DayOffset(c.row, c.col)}
  {
    var s := cells + [c];
    assert s[|cells|] == c;
    forall d | d in Offsets(s)
      ensures d in Offsets(cells) + {DayOffset(c.row, c.col)}
    {
      var k :| 0 <= k < |s| && d == DayOffset(s[k].row, s[k].col);
      if k < |cells| {
        assert s[k] == cells[k];
      }
    }
    forall d | d in Offsets(cells)
      ensures d in Offsets(s)
    {
      var k :| 0 <= k < |cells| && d == DayOffset(cells[k].row, cells[k].col);
      assert s[k] == cells[k];
    }
  }

  lemma DoneStep(totalDays: nat, row: nat, col: nat)
    requires row < Rows
    ensures Done(totalDays, row, col + 1) ==
      Done(totalDays, row, col) + (if DayOffset(row, col) < totalDays then {DayOffset(row, col)} else {})
  {
    var added := if DayOffset(row, col) < totalDays then {DayOffset(row, col)} else {};
    forall d | d in Done(totalDays, row, col + 1)
      ensures d in Done(totalDays, row, col) + added
    {
      OffsetBijection(d, row, col);
    }
    forall d | d in Done(totalDays, row, col) + added
      ensures d in Done(totalDays, row, col + 1)
    {
      OffsetBijection(d, row, col);
    }
  }

  lemma DoneRow(totalDays: nat, row: nat)
    requires row < Rows
    ensures Done(totalDays, row, Columns(totalDays)) == Done(totalDays, row + 1, 0)
  {
    forall d | d in Done(totalDays, row + 1, 0)
      ensures d in Done(totalDays, row, Columns(totalDays))
    {
      OffsetWithinColumns(d, totalDays);
    }
  }

  /** The offsets `0 .. n-1`. */
  function Range(n: nat): set<nat> {
    if n == 0 then {} else Range(n - 1) + {n - 1}
  }

  lemma {:induction false} RangeMembers(n: nat)
    ensures forall d: nat :: d in Range(n) <==> d < n
  {
    if n > 0 {
      RangeMembers(n - 1);
    }
  }

  lemma {:induction false} RangeSize(n: nat)
    ensures |Range(n)| == n
  {
    if n > 0 {
      RangeMembers(n - 1);
      RangeSize(n - 1);
    }
  }

  /** Cells in strictly increasing row-major order have pairwise distinct
      offsets, so there are as many offsets as cells. */
  lemma {:induction false} SortedCellsCount(cells: seq<Cell>)
    requires forall k :: 0 <= k < |cells| ==> cells[k].row < Rows
    requires forall i, j :: 0 <= i < j < |cells| ==> Before(cells[i], cells[j])
    ensures |Offsets(cells)| == |cells|
  {
    if |cells| > 0 {
      var init := cells[..|cells| - 1];
      var last := cells[|cells| - 1];
      assert cells == init + [last];
      SortedCellsCount(init);
      OffsetsAppend(init, last);
      forall k | 0 <= k < |init|
        ensures DayOffset(init[k].row, init[k].col) != DayOffset(last.row, last.col)
      {
        assert Before(cells[k], cells[|cells| - 1]);
      }
    }
  }

  // ---------------------------------------------------------------------
  // Rendering
  // ---------------------------------------------------------------------

  /** Every element is a cell the grid may render. */
  predicate AllCellsOf(cells: seq<Cell>, totalDays: nat) {
    forall k :: 0 <= k < |cells| ==> IsCellOf(cells[k], totalDays)
  }

  /** Strictly increasing in row-major order. */
  predicate RowMajor(cells: seq<Cell>) {
    forall i, j :: 0 <= i < j < |cells| ==> Before(cells[i], cells[j])
  }

  /** Appending a cell rendered after all others keeps both properties. */
  lemma AppendCell(cells: seq<Cell>, c: Cell, totalDays: nat)
    requires AllCellsOf(cells, totalDays) && RowMajor(cells)
    requires IsCellOf(c, totalDays)
    requires forall k :: 0 <= k < |cells| ==> Before(cells[k], c)
    ensures AllCellsOf(cells + [c], totalDays) && RowMajor(cells + [c])
  {
  }

  lemma DoneAll(totalDays: nat)
    ensures Done(totalDays, Rows, 0) == Range(totalDays)
  {
    RangeMembers(totalDays);
  }

  /** The cells the grid renders, row by row and column by column, skipping
      every cell whose day offset is not below `totalDays`. */
  method RenderGrid(totalDays: nat) returns (cells: seq<Cell>)
    ensures |cells| == totalDays
    ensures Offsets(cells) == Range(totalDays)
    ensures RowMajor(cells)
    ensures AllCellsOf(cells, totalDays)
  {
    var columns := Columns(totalDays);
    cells := [];
    var row := 0;
    while row < Rows
      invariant 0 <= row <= Rows
      invariant AllCellsOf(cells, totalDays) && RowMajor(cells)
      invariant forall k :: 0 <= k < |cells| ==> cells[k].row < row
      invariant Offsets(cells) == Done(totalDays, row, 0)
    {
      var col := 0;
      while col < columns
        invariant 0 <= col <= columns
        invariant AllCellsOf(cells, totalDays) && RowMajor(cells)
        invariant forall k :: 0 <= k < |cells| ==> Precedes(cells[k], row, col)
        invariant Offsets(cells) == Done(totalDays, row, col)
      {
        var dayIndex := DayOffset(row, col);
        DoneStep(totalDays, row, col);
        if dayIndex < totalDays {
          var cell := Cell(row, col, DayLabel(row, col));
          AppendCell(cells, cell, totalDays);
          OffsetsAppend(cells, cell);
          cells := cells + [cell];
        }
        col := col + 1;
      }
      DoneRow(totalDays, row);
      row := row + 1;
    }
    DoneAll(totalDays);
    SortedCellsCount(cells);
    RangeSize(totalDays);
  }

  // ---------------------------------------------------------------------
  // Labels and dates
  // ---------------------------------------------------------------------

  /** The start date is a Monday: it lies 105581 whole weeks after
      1 January of year 1. */
  lemma StartIsMonday()
    ensures Valid(StartDate)
    ensures DayNumber(StartDate) == 7 * 105581
    ensures WeekdayOf(StartDate) == Monday
  {
    YearStartClosedForm(2024);
  }

  /** The cell's row initial is the initial of the real weekday of its date,
      and row `r` holds the weekday `r` days after Monday. */
  lemma RowLetterMatchesWeekday(row: nat, col: nat)
    requires row < Rows
    ensures WeekdayOf(CellDate(row, col)) == WeekdayAt(row)
    ensures DayLabel(row, col)[0] == Initial(WeekdayOf(CellDate(row, col)))
  {
    var date := CellDate(row, col);
    CellDayNumber(row, col);
    assert DayNumber(date) % 7 == row;
    RowInitials(row);
  }

  /** The cell's date lies `DayOffset(row, col)` days after the start date,
      which is a Monday, so its day number is `row` modulo 7. */
  lemma CellDayNumber(row: nat, col: nat)
    requires row < Rows
    ensures DayNumber(CellDate(row, col)) % 7 == row
  {
    AddDaysNumber(StartDate, DayOffset(row, col));
    StartIsMonday();
    WeekRemainder(105581 + col, row);
  }

  /** A day `row` days into a week leaves remainder `row`. */
  lemma WeekRemainder(weeks: nat, row: nat)
    requires row < 7
    ensures (7 * weeks + row) % 7 == row
  {
  }

  /** Row `r`'s fixed initial is the initial of the weekday `r` days after Monday. */
  lemma RowInitials(row: nat)
    requires row < Rows
    ensures DayLetters[row] == Initial(WeekdayAt(row))
  {
  }

  /** The initial depends on the row only, never on the column. */
  lemma LetterIndependentOfColumn(row: nat, c1: nat, c2: nat)
    requires row < Rows
    ensures DayLabel(row, c1)[0] == DayLabel(row, c2)[0]
  {
  }

  /** The digits after the initial read back as the day of the month of
      the start date plus the cell's offset, a day that exists in that month. */
  lemma LabelNumberIsDayOfMonth(row: nat, col: nat)
    requires row < Rows
    ensures var text := DayLabel(row, col);
      var date := CellDate(row, col);
      && AllDigits(text[1..])
      && Parse(text[1..]) == date.day
      && 1 <= Parse(text[1..]) <= DaysInMonth(date.year, date.month)
      && DayNumber(date) == DayNumber(StartDate) + DayOffset(row, col)
  {
    var text := DayLabel(row, col);
    assert text[1..] == Show(CellDate(row, col).day);
    ParseShow(CellDate(row, col).day);
    AddDaysNumber(StartDate, DayOffset(row, col));
  }

  /** The first cell shows the start date itself: Monday the 1st. */
  lemma FirstCellIsStartDate()
    ensures CellDate(0, 0) == StartDate
    ensures DayLabel(0, 0) == "L1"
  {
  }

}
