/**
 * The day table of the overlay, as the sequence of rows of cells that `_renderDaysContent`
 * appends to the table body: a Sunday-first week per row, leading blanks up to the weekday of
 * the first, the days of the month in order, trailing blanks up to a full week.
 *
 * Both variants of the widget lay the table out the same way; they differ in the number a day
 * cell carries (the day of the month in src/js/, a zero-based index in script.js), which is
 * the `first` parameter below.
 */
module Grid {
  import opened Calendar
  import opened Wrappers
  import Decimal

  /** A table cell: padding, or a day link with its two highlight classes. */
  datatype Cell = Blank | Day(day: int, selected: bool, today: bool)

  /** The overlay element's inline `style.display`. */
  datatype Display = Unset | Block | Hidden

  /** The two highlight classes of a day link. */
  datatype Mark = Selected | Today

  /**
   * The cell `_renderDayCell(day)` builds while `year`/`month` are displayed: "selected" when the
   * active field's committed date is that day, "today" when the clock snapshot is.
   */
  function DayCell(year: int, month: int, day: int, committed: Date, today: Date): Cell
  {
    Day(day, committed == Date(year, month, day), today == Date(year, month, day))
  }

  function Blanks(k: nat): (r: seq<Cell>)
    ensures |r| == k
  {
    seq(k, _ => Blank)
  }

  /** The cells of `count` consecutive days numbered from `first`. */
  function DayRun(year: int, month: int, first: int, count: nat, committed: Date, today: Date): (r: seq<Cell>)
    ensures |r| == count
  {
    seq(count, i => DayCell(year, month, first + i, committed, today))
  }

  /** Blanks needed after `filled` cells to complete the last week. */
  function TrailCount(filled: nat): (k: nat)
    ensures k < 7 && (filled + k) % 7 == 0
  {
    (7 - filled % 7) % 7
  }

  /** All cells of the table read row by row. */
  function Cells(lead: nat, days: seq<Cell>): (r: seq<Cell>)
    ensures |r| % 7 == 0
  {
    Blanks(lead) + days + Blanks(TrailCount(lead + |days|))
  }

  /** The cells for displayed month (year, month), day cells numbered from `first`. */
  function MonthCells(year: int, month: int, first: int, committed: Date, today: Date): seq<Cell>
    requires 0 <= month < 12
  {
    Cells(FirstWeekday(year, month), DayRun(year, month, first, MonthLength(year, month), committed, today))
  }

  /** Cut a whole number of weeks into rows of seven. */
  function Chunk(cells: seq<Cell>): seq<seq<Cell>>
    requires |cells| % 7 == 0
    decreases |cells|
  {
    if cells == [] then [] else [cells[..7]] + Chunk(cells[7..])
  }

  /** The table body for displayed month (year, month). */
  function MonthGrid(year: int, month: int, first: int, committed: Date, today: Date): seq<seq<Cell>>
    requires 0 <= month < 12
  {
    Chunk(MonthCells(year, month, first, committed, today))
  }

  function Flatten(rows: seq<seq<Cell>>): seq<Cell>
  {
    if rows == [] then [] else rows[0] + Flatten(rows[1..])
  }

  predicate AllWeeks(rows: seq<seq<Cell>>)
  {
    forall i :: 0 <= i < |rows| ==> |rows[i]| == 7
  }

  lemma {:induction false} FlattenAppend(rows: seq<seq<Cell>>, row: seq<Cell>)
    ensures Flatten(rows + [row]) == Flatten(rows) + row
  {
    if rows != [] {
      assert (rows + [row])[1..] == rows[1..] + [row];
      FlattenAppend(rows[1..], row);
    }
  }

  lemma {:induction false} FlattenLength(rows: seq<seq<Cell>>)
    requires AllWeeks(rows)
    ensures |Flatten(rows)| == 7 * |rows|
  {
    if rows != [] {
      FlattenLength(rows[1..]);
    }
  }

  /** Chunking gives weeks that read back as the cells. */
  lemma {:induction false} ChunkShape(cells: seq<Cell>)
    requires |cells| % 7 == 0
    ensures AllWeeks(Chunk(cells))
    ensures |Chunk(cells)| == |cells| / 7
    ensures Flatten(Chunk(cells)) == cells
    decreases |cells|
  {
    if cells != [] {
      ChunkShape(cells[7..]);
      assert Chunk(cells)[1..] == Chunk(cells[7..]);
    }
  }

  /** Row `i` of the chunked table is the `i`-th slice of seven cells. */
  lemma {:induction false} ChunkRow(cells: seq<Cell>, i: nat)
    requires |cells| % 7 == 0 && i < |cells| / 7
    ensures |Chunk(cells)| == |cells| / 7
    ensures Chunk(cells)[i] == cells[7 * i .. 7 * i + 7]
    decreases i
  {
    ChunkShape(cells);
    if i > 0 {
      ChunkRow(cells[7..], i - 1);
      assert cells[7..][7 * (i - 1) .. 7 * (i - 1) + 7] == cells[7 * i .. 7 * i + 7];
    }
  }

  /** A run of days is extended by the cell of the next day. */
  lemma DayRunSnoc(year: int, month: int, first: int, count: nat, committed: Date, today: Date)
    ensures DayRun(year, month, first, count + 1, committed, today)
         == DayRun(year, month, first, count, committed, today) + [DayCell(year, month, first + count, committed, today)]
  {
  }

  /** Appending a cell to the partial week, and moving a full week to the rows, keep the reading. */
  lemma AppendCell(rows: seq<seq<Cell>>, row: seq<Cell>, c: Cell, prefix: seq<Cell>)
    requires Flatten(rows) + row == prefix
    ensures Flatten(rows) + (row + [c]) == prefix + [c]
    ensures Flatten(rows + [row + [c]]) + [] == prefix + [c]
  {
    FlattenAppend(rows, row + [c]);
  }

  /**
   * Closing the table: with whole weeks in `rows` and a partial week `row` holding everything
   * after them, padding `row` to seven (when it is not empty) gives the rows of `Cells(lead, days)`.
   */
  lemma CloseTable(rows: seq<seq<Cell>>, row: seq<Cell>, lead: nat, days: seq<Cell>)
    requires AllWeeks(rows) && |row| < 7
    requires Flatten(rows) + row == Blanks(lead) + days
    ensures (lead + |days|) % 7 == |row|
    ensures |row| == 0 ==> Flatten(rows) == Cells(lead, days)
    ensures |row| != 0 ==>
      AllWeeks(rows + [row + Blanks(7 - |row|)]) && Flatten(rows + [row + Blanks(7 - |row|)]) == Cells(lead, days)
  {
    FlattenLength(rows);
    assert lead + |days| == 7 * |rows| + |row|;
    FlattenAppend(rows, row + Blanks(7 - |row|));
    assert Blanks(0) == [];
  }

  /** Any rows of seven that read as `cells` are the chunking of `cells`. */
  lemma {:induction false} TilesUnique(rows: seq<seq<Cell>>, cells: seq<Cell>)
    requires AllWeeks(rows) && Flatten(rows) == cells
    ensures |cells| % 7 == 0
    ensures rows == Chunk(cells)
  {
    FlattenLength(rows);
    if rows != [] {
      assert cells[..7] == rows[0];
      assert cells[7..] == Flatten(rows[1..]);
      TilesUnique(rows[1..], cells[7..]);
    }
  }

  /** A row with at least one day link in it. */
  predicate HasDay(row: seq<Cell>)
  {
    exists j :: 0 <= j < |row| && row[j].Day?
  }

  /**
   * Shape of the table: rows of seven, the first row starts with `lead` blanks followed by the
   * first day, and every row holds at least one day, so no row is empty or all padding.
   */
  lemma GridShape(lead: nat, days: seq<Cell>)
    requires lead < 7 && |days| >= 1
    requires forall k :: 0 <= k < |days| ==> days[k].Day?
    ensures AllWeeks(Chunk(Cells(lead, days)))
    ensures Flatten(Chunk(Cells(lead, days))) == Cells(lead, days)
    ensures |Chunk(Cells(lead, days))| == (lead + |days| + 6) / 7
    ensures Chunk(Cells(lead, days))[0][..lead] == Blanks(lead)
    ensures Chunk(Cells(lead, days))[0][lead] == days[0]
    ensures forall i :: 0 <= i < |Chunk(Cells(lead, days))| ==> HasDay(Chunk(Cells(lead, days))[i])
  {
    var cells := Cells(lead, days);
    var g: seq<seq<Cell>> := Chunk(cells);
    var trail := TrailCount(lead + |days|);
    ChunkShape(cells);
    assert |cells| == lead + |days| + trail;
    ChunkRow(cells, 0);
    assert cells[..7][..lead] == cells[..lead] == Blanks(lead);
    forall i | 0 <= i < |g|
      ensures HasDay(g[i])
    {
      ChunkRow(cells, i);
      var p := if 7 * i < lead then lead else 7 * i;
      assert lead <= p < lead + |days|;
      assert cells[p] == days[p - lead];
      assert g[i][p - 7 * i] == cells[p];
      assert 0 <= p - 7 * i < 7 && g[i][p - 7 * i].Day?;
    }
  }

  /** The day numbers of the cells, in reading order. */
  function DayNumbers(cells: seq<Cell>): seq<int>
  {
    if cells == [] then [] else (if cells[0].Day? then [cells[0].day] else []) + DayNumbers(cells[1..])
  }

  function Range(first: int, count: nat): (r: seq<int>)
    ensures |r| == count
  {
    seq(count, i => first + i)
  }

  lemma {:induction false} DayNumbersAppend(a: seq<Cell>, b: seq<Cell>)
    ensures DayNumbers(a + b) == DayNumbers(a) + DayNumbers(b)
  {
    if a != [] {
      var head := if a[0].Day? then [a[0].day] else [];
      assert (a + b)[0] == a[0] && (a + b)[1..] == a[1..] + b;
      DayNumbersAppend(a[1..], b);
      calc {
        DayNumbers(a + b);
        head + DayNumbers(a[1..] + b);
        head + (DayNumbers(a[1..]) + DayNumbers(b));
        (head + DayNumbers(a[1..])) + DayNumbers(b);
      }
    } else {
      assert a + b == b;
    }
  }

  lemma {:induction false} BlanksHaveNoDays(k: nat)
    ensures DayNumbers(Blanks(k)) == []
  {
    if k > 0 {
      assert Blanks(k)[1..] == Blanks(k - 1);
      BlanksHaveNoDays(k - 1);
    }
  }

  lemma {:induction false} DayRunNumbers(year: int, month: int, first: int, count: nat, committed: Date, today: Date)
    ensures DayNumbers(DayRun(year, month, first, count, committed, today)) == Range(first, count)
    decreases count
  {
    if count > 0 {
      var run := DayRun(year, month, first, count, committed, today);
      assert run[0] == DayCell(year, month, first, committed, today);
      assert run[1..] == DayRun(year, month, first + 1, count - 1, committed, today);
      DayRunNumbers(year, month, first + 1, count - 1, committed, today);
      assert Range(first, count) == [first] + Range(first + 1, count - 1);
    }
  }

  /** The numbered cells of a month, read in order, are `first`, `first + 1`, ... with one per day. */
  lemma GridDayNumbers(year: int, month: int, first: int, committed: Date, today: Date)
    requires 0 <= month < 12
    ensures DayNumbers(Flatten(MonthGrid(year, month, first, committed, today)))
         == Range(first, MonthLength(year, month))
  {
    var lead, n := FirstWeekday(year, month), MonthLength(year, month);
    var run := DayRun(year, month, first, n, committed, today);
    ChunkShape(MonthCells(year, month, first, committed, today));
    DayNumbersAppend(Blanks(lead) + run, Blanks(TrailCount(lead + n)));
    DayNumbersAppend(Blanks(lead), run);
    BlanksHaveNoDays(lead);
    BlanksHaveNoDays(TrailCount(lead + n));
    DayRunNumbers(year, month, first, n, committed, today);
  }

  /** Padding around a run of `count` days holds no other day numbers. */
  lemma CellsDayRange(lead: nat, year: int, month: int, first: int, count: nat, committed: Date, today: Date)
    ensures var cells := Cells(lead, DayRun(year, month, first, count, committed, today));
      forall k :: 0 <= k < |cells| && cells[k].Day? ==> first <= cells[k].day < first + count
  {
    var run := DayRun(year, month, first, count, committed, today);
    var cells := Cells(lead, run);
    forall k | 0 <= k < |cells|
      ensures cells[k].Day? ==> first <= cells[k].day < first + count
    {
      if k < lead {
        assert cells[k] == Blanks(lead)[k];
      } else if k < lead + count {
        assert cells[k] == run[k - lead] == DayCell(year, month, first + (k - lead), committed, today);
      } else {
        assert cells[k] == Blanks(TrailCount(lead + count))[k - lead - count];
      }
    }
  }

  /**
   * Every day link of a month's table names a day of that month: the numbers run from `first`
   * to `first + daysInMonth - 1`, so no cell, and no mark on a cell, is outside the month.
   */
  lemma GridDaysInMonth(year: int, month: int, first: int, committed: Date, today: Date)
    requires 0 <= month < 12
    ensures var cells := Flatten(MonthGrid(year, month, first, committed, today));
      forall k :: 0 <= k < |cells| && cells[k].Day? ==>
        first <= cells[k].day < first + MonthLength(year, month)
  {
    ChunkShape(MonthCells(year, month, first, committed, today));
    CellsDayRange(FirstWeekday(year, month), year, month, first, MonthLength(year, month), committed, today);
  }

  /** The table of a month has the shape GridShape describes. */
  lemma MonthGridShape(year: int, month: int, first: int, committed: Date, today: Date)
    requires 0 <= month < 12
    ensures var g := MonthGrid(year, month, first, committed, today);
      AllWeeks(g)
      && |g| == (FirstWeekday(year, month) + MonthLength(year, month) + 6) / 7
      && g[0][..FirstWeekday(year, month)] == Blanks(FirstWeekday(year, month))
      && g[0][FirstWeekday(year, month)] == DayCell(year, month, first, committed, today)
      && forall i :: 0 <= i < |g| ==> HasDay(g[i])
  {
    var run := DayRun(year, month, first, MonthLength(year, month), committed, today);
    assert forall k :: 0 <= k < |run| ==> run[k] == DayCell(year, month, first + k, committed, today);
    GridShape(FirstWeekday(year, month), run);
  }

  predicate Marked(c: Cell, mark: Mark)
  {
    c.Day? && match mark { case Selected => c.selected case Today => c.today }
  }

  /** Number of cells carrying `mark`. */
  function Count(cells: seq<Cell>, mark: Mark): nat
  {
    if cells == [] then 0 else (if Marked(cells[0], mark) then 1 else 0) + Count(cells[1..], mark)
  }

  lemma {:induction false} CountAppend(a: seq<Cell>, b: seq<Cell>, mark: Mark)
    ensures Count(a + b, mark) == Count(a, mark) + Count(b, mark)
  {
    if a != [] {
      assert (a + b)[0] == a[0] && (a + b)[1..] == a[1..] + b;
      CountAppend(a[1..], b, mark);
    } else {
      assert a + b == b;
    }
  }

  lemma {:induction false} BlanksUnmarked(k: nat, mark: Mark)
    ensures Count(Blanks(k), mark) == 0
  {
    if k > 0 {
      assert Blanks(k)[1..] == Blanks(k - 1);
      BlanksUnmarked(k - 1, mark);
    }
  }

  /** The date a mark compares cells against. */
  function MarkDate(mark: Mark, committed: Date, today: Date): Date
  {
    match mark { case Selected => committed case Today => today }
  }

  /** The displayed month, days numbered from `first` for `count` days, contains date `d`. */
  predicate Shows(year: int, month: int, first: int, count: nat, d: Date)
  {
    d.year == year && d.month == month && first <= d.day < first + count
  }

  lemma {:induction false} DayRunCount(year: int, month: int, first: int, count: nat, committed: Date, today: Date, mark: Mark)
    ensures Count(DayRun(year, month, first, count, committed, today), mark)
         == if Shows(year, month, first, count, MarkDate(mark, committed, today)) then 1 else 0
    decreases count
  {
    if count > 0 {
      var run := DayRun(year, month, first, count, committed, today);
      assert run[0] == DayCell(year, month, first, committed, today);
      assert run[1..] == DayRun(year, month, first + 1, count - 1, committed, today);
      DayRunCount(year, month, first + 1, count - 1, committed, today, mark);
    }
  }

  /**
   * Exactly one cell is marked "selected" (resp. "today") when the committed date (resp. the
   * clock snapshot) lies in the displayed month with a day number the table shows, and none
   * otherwise.
   */
  lemma GridMarkCount(year: int, month: int, first: int, committed: Date, today: Date, mark: Mark)
    requires 0 <= month < 12
    ensures Count(Flatten(MonthGrid(year, month, first, committed, today)), mark)
         == if Shows(year, month, first, MonthLength(year, month), MarkDate(mark, committed, today)) then 1 else 0
  {
    var lead, n := FirstWeekday(year, month), MonthLength(year, month);
    var run := DayRun(year, month, first, n, committed, today);
    ChunkShape(MonthCells(year, month, first, committed, today));
    CountAppend(Blanks(lead) + run, Blanks(TrailCount(lead + n)), mark);
    CountAppend(Blanks(lead), run, mark);
    BlanksUnmarked(lead, mark);
    BlanksUnmarked(TrailCount(lead + n), mark);
    DayRunCount(year, month, first, n, committed, today, mark);
  }

  /** Each day cell of the table is "selected" or "today" exactly when its own date matches. */
  lemma GridMarksPerCell(year: int, month: int, first: int, committed: Date, today: Date)
    requires 0 <= month < 12
    ensures var cells := Flatten(MonthGrid(year, month, first, committed, today));
      forall k :: 0 <= k < |cells| && cells[k].Day? ==>
        (cells[k].selected <==> committed == Date(year, month, cells[k].day))
        && (cells[k].today <==> today == Date(year, month, cells[k].day))
  {
    var cells := MonthCells(year, month, first, committed, today);
    var lead := FirstWeekday(year, month);
    var run := DayRun(year, month, first, MonthLength(year, month), committed, today);
    ChunkShape(cells);
    forall k | 0 <= k < |cells| && cells[k].Day?
      ensures (cells[k].selected <==> committed == Date(year, month, cells[k].day))
           && (cells[k].today <==> today == Date(year, month, cells[k].day))
    {
      assert lead <= k < lead + |run|;
      assert cells[k] == run[k - lead] == DayCell(year, month, first + k - lead, committed, today);
    }
  }

  /** The `date-day` attribute a cell's link carries, if any. */
  function DateDayAttr(c: Cell): Option<string>
  {
    match c
    case Blank => None
    case Day(d, _, _) => Some(Decimal.NumberToString(d))
  }

  /** `+element.getAttribute('date-day')`: a missing attribute reads as `+null`, that is 0. */
  function AttrNumber(attr: Option<string>): int
    requires attr.Some? ==> Decimal.IsNumeral(attr.value)
  {
    match attr
    case None => 0
    case Some(s) => Decimal.NumeralValue(s)
  }

  /** Reading a clicked cell's attribute gives its day number, and 0 for a blank. */
  lemma ClickedNumber(c: Cell)
    ensures DateDayAttr(c).Some? ==> Decimal.IsNumeral(DateDayAttr(c).value)
    ensures AttrNumber(DateDayAttr(c)) == if c.Blank? then 0 else c.day
  {
    if c.Day? {
      Decimal.NumberToStringRoundTrip(c.day);
    }
  }

  /** A cell with its number moved up by one. */
  function Bump(c: Cell): Cell
  {
    match c
    case Blank => Blank
    case Day(d, s, t) => Day(d + 1, s, t)
  }

  function BumpAll(cells: seq<Cell>): (r: seq<Cell>)
    ensures |r| == |cells|
  {
    seq(|cells|, k requires 0 <= k < |cells| => Bump(cells[k]))
  }

  /** The same date with a day one higher: a zero-based day index as a day of the month. */
  function NextDayNumber(d: Date): Date
  {
    Date(d.year, d.month, d.day + 1)
  }

  /**
   * A table numbered from 0 against zero-based dates is, cell for cell, the table numbered from
   * 1 against the same dates with one-based days, once each index is read as index + 1.
   */
  lemma ZeroBasedMatchesOneBased(year: int, month: int, committed: Date, today: Date)
    requires 0 <= month < 12
    ensures BumpAll(MonthCells(year, month, 0, committed, today))
         == MonthCells(year, month, 1, NextDayNumber(committed), NextDayNumber(today))
  {
    var lead, n := FirstWeekday(year, month), MonthLength(year, month);
    var zero := DayRun(year, month, 0, n, committed, today);
    var one := DayRun(year, month, 1, n, NextDayNumber(committed), NextDayNumber(today));
    var a, b := MonthCells(year, month, 0, committed, today), MonthCells(year, month, 1, NextDayNumber(committed), NextDayNumber(today));
    assert |a| == |b|;
    forall k | 0 <= k < |a|
      ensures Bump(a[k]) == b[k]
    {
      if lead <= k < lead + n {
        assert a[k] == zero[k - lead] && b[k] == one[k - lead];
      }
    }
  }
}
