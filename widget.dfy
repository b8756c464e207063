/**
 * The modular widget of src/js/: `DatepickerWindow`, the one overlay, and `Datepicker`, a field
 * bound to an input, plus the `createDatepicker` factory that shares one overlay between all
 * fields. The two classes refer to each other (the overlay's active field, the field's overlay),
 * so they live in one module.
 *
 * Months are stored zero-based; a field is built from a one-based month and hands a one-based
 * month to its format callback. The overlay's days are days of the month (1..31).
 */
module Widget {
  import opened Calendar
  import opened Wrappers
  import opened Grid
  import opened Labels
  import Decimal

  /**
   * `_renderDaysContent`: the rows of the day table for displayed month (year, month), built by
   * the source's counter loops, with day cells compared against the active field's committed
   * date and the clock snapshot.
   */
  method RenderDays(year: int, month: int, committed: Date, today: Date) returns (rows: seq<seq<Cell>>)
    requires 0 <= month < 12
    ensures rows == MonthGrid(year, month, 1, committed, today)
  {
    rows := [];
    var row: seq<Cell> := [];
    var dayOfWeek := FirstWeekday(year, month);
    ghost var lead := dayOfWeek;
    for offset := 0 to dayOfWeek
      invariant row == Blanks(offset)
    {
      row := row + [Blank];
    }
    var daysInMonth := MonthLength(year, month);
    for day := 1 to daysInMonth + 1
      invariant 0 <= dayOfWeek < 7 && |row| == dayOfWeek
      invariant AllWeeks(rows)
      invariant Flatten(rows) + row == Blanks(lead) + DayRun(year, month, 1, day - 1, committed, today)
    {
      DayRunSnoc(year, month, 1, day - 1, committed, today);
      AppendCell(rows, row, DayCell(year, month, day, committed, today),
        Blanks(lead) + DayRun(year, month, 1, day - 1, committed, today));
      row := row + [DayCell(year, month, day, committed, today)];
      dayOfWeek := dayOfWeek + 1;
      if dayOfWeek == 7 {
        rows := rows + [row];
        // the source drops the row after the last day; a fresh one is never used again
        row := [];
        dayOfWeek := 0;
      }
    }
    ghost var run := DayRun(year, month, 1, daysInMonth, committed, today);
    CloseTable(rows, row, lead, run);
    if dayOfWeek != 0 {
      ghost var filled := row;
      for offset := dayOfWeek to 7
        invariant row == filled + Blanks(offset - dayOfWeek)
      {
        row := row + [Blank];
      }
      rows := rows + [row];
    }
    TilesUnique(rows, Cells(lead, run));
  }

  /** A datepicker field: the committed date of one input and its format callback. */
  class Datepicker {
    const window: DatepickerWindow
    const format: (int, int, int) -> string
    var year: int
    var month: int
    var day: int
    /** Details of the 'datepicker.change' events dispatched on the input, oldest first. */
    var dispatched: seq<string>

    ghost predicate Valid()
      reads this
    {
      0 <= month < 12
    }

    /** The committed date (zero-based month), as the getters return it. */
    function Committed(): Date
      reads this
    {
      Date(year, month, day)
    }

    /** What the format callback makes of the committed date. */
    function Formatted(): string
      reads this
    {
      format(year, month + 1, day)
    }

    /** `new Datepicker(element, year, month, day, format, window)` with a one-based month. */
    constructor(year: int, month: int, day: int, format: (int, int, int) -> string, window: DatepickerWindow)
      requires 1 <= month <= 12 && 1 <= day <= 31
      ensures Valid()
      ensures this.year == year && this.month == month - 1 && this.day == day
      ensures this.format == format && this.window == window && dispatched == []
      ensures Formatted() == format(year, month, day)
    {
      this.window := window;
      this.year := year;
      this.month := month - 1;
      this.day := day;
      this.format := format;
      dispatched := [];
    }

    /**
     * `changeDate`: take the overlay's transient date as the committed date, dispatch its
     * formatted text with a one-based month, and close the overlay.
     */
    method ChangeDate()
      requires window.Valid()
      modifies this, window`current, window`visible
      ensures Valid() && window.Valid() && window.Rendered()
      ensures Committed() == Date(window.year, window.month, window.day)
      ensures dispatched == old(dispatched) + [format(window.year, window.month + 1, window.day)]
      ensures window.current == null && window.visible == Hidden
    {
      year := window.year;
      month := window.month;
      day := window.day;
      dispatched := dispatched + [format(year, month + 1, day)];
      window.Hide();
    }
  }

  /** The shared overlay: the active field, the transient date and what is on screen. */
  class DatepickerWindow {
    var current: Datepicker?
    var day: int
    var year: int
    var month: int
    /** The clock reading taken when the overlay was built; never refreshed. */
    const currentDay: int
    const currentMonth: int
    const currentYear: int
    var visible: Display
    var caption: string
    var daysContent: seq<seq<Cell>>

    /** Closed (no active field, hidden) or Open (active field of this overlay, shown). */
    ghost predicate Valid()
      reads this
    {
      0 <= month < 12
      && (current == null ==> visible != Block)
      && (current != null ==> visible == Block && current.window == this)
    }

    /** While open, the caption and table are those of the transient month and active field. */
    ghost predicate Rendered()
      reads this, current
    {
      Valid()
      && (current != null ==>
            caption == Caption(year, month)
            && daysContent == MonthGrid(year, month, 1, current.Committed(), Today()))
    }

    function Today(): Date
      reads this
    {
      Date(currentYear, currentMonth, currentDay)
    }

    /** `new DatepickerWindow()` at the moment the clock reads `today` (a one-based day). */
    constructor(today: Date)
      ensures Valid() && current == null && visible == Unset
      ensures day == 0 && month == 0 && year == 0
      ensures Today() == today
    {
      current := null;
      day, year, month := 0, 0, 0;
      currentDay, currentMonth, currentYear := today.day, today.month, today.year;
      visible := Unset;
      caption := "";
      daysContent := [];
    }

    /** `show`: make `datepicker` the active field and seed the transient date from it. */
    method Show(datepicker: Datepicker)
      requires Valid() && datepicker.Valid() && datepicker.window == this
      modifies this
      ensures Valid() && Rendered()
      ensures current == datepicker && visible == Block
      ensures Date(year, month, day) == datepicker.Committed()
    {
      current := datepicker;
      visible := Block;
      day := datepicker.day;
      month := datepicker.month;
      year := datepicker.year;
      RenderMonthCaption();
      RenderDaysContent();
    }

    /** `hide`: no active field, panel hidden; nothing else changes, so hiding twice is hiding once. */
    method Hide()
      requires Valid()
      modifies this`current, this`visible
      ensures Valid() && Rendered()
      ensures current == null && visible == Hidden
    {
      current := null;
      visible := Hidden;
    }

    /** `_prevMonth`: step the transient month back, carrying into the year, and re-render. */
    method PrevMonth()
      requires Valid() && current != null
      modifies this`month, this`year, this`caption, this`daysContent
      ensures Valid() && Rendered()
      ensures YearMonth(year, month) == Calendar.PrevMonth(YearMonth(old(year), old(month)))
    {
      month := month - 1;
      if month < 0 {
        month := 11;
        year := year - 1;
      }
      RenderMonthCaption();
      RenderDaysContent();
    }

    /** `_nextMonth`: step the transient month on, carrying into the year, and re-render. */
    method NextMonth()
      requires Valid() && current != null
      modifies this`month, this`year, this`caption, this`daysContent
      ensures Valid() && Rendered()
      ensures YearMonth(year, month) == Calendar.NextMonth(YearMonth(old(year), old(month)))
    {
      month := month + 1;
      if month >= 12 {
        month := 0;
        year := year + 1;
      }
      RenderMonthCaption();
      RenderDaysContent();
    }

    /** `_renderMonthCaption`. */
    method RenderMonthCaption()
      requires 0 <= month < 12
      modifies this`caption
      ensures caption == Caption(year, month)
    {
      caption := Caption(year, month);
    }

    /** `_renderDaysContent`, reading the active field's date through its getters. */
    method RenderDaysContent()
      requires 0 <= month < 12 && current != null
      modifies this`daysContent
      ensures daysContent == MonthGrid(year, month, 1, current.Committed(), Today())
    {
      daysContent := RenderDays(year, month, Date(current.year, current.month, current.day), Today());
    }

    /**
     * The table body's click handler, given the `date-day` attribute of the clicked element
     * (None for a blank cell). Reading 0 does nothing; any other number becomes the transient
     * day and is committed into the active field, which closes the overlay.
     */
    method ClickDays(attr: Option<string>)
      requires Valid() && current != null
      requires attr.Some? ==> Decimal.IsNumeral(attr.value)
      modifies this`day, this`current, this`visible, current
      ensures AttrNumber(attr) == 0 ==> unchanged(this) && unchanged(old(current))
      ensures AttrNumber(attr) != 0 ==>
        day == AttrNumber(attr) && year == old(year) && month == old(month)
        && old(current).Committed() == Date(old(year), old(month), AttrNumber(attr))
        && old(current).dispatched
             == old(current.dispatched) + [old(current).format(old(year), old(month) + 1, AttrNumber(attr))]
        && current == null && visible == Hidden
      ensures Valid() && (old(Rendered()) ==> Rendered())
    {
      var picked := AttrNumber(attr);
      if picked != 0 {
        day := AttrNumber(attr);
        current.ChangeDate();
      }
    }
  }

  /** A blank cell's click reads 0 and is ignored; a day cell's reads its day, never 0. */
  lemma ClickedCellOfMonth(year: int, month: int, committed: Date, today: Date, k: nat)
    requires 0 <= month < 12
    requires k < |Flatten(MonthGrid(year, month, 1, committed, today))|
    ensures var c := Flatten(MonthGrid(year, month, 1, committed, today))[k];
      AttrNumber(DateDayAttr(c)) == 0 <==> c == Blank
  {
    var cells := MonthCells(year, month, 1, committed, today);
    var lead := FirstWeekday(year, month);
    var run := DayRun(year, month, 1, MonthLength(year, month), committed, today);
    ChunkShape(cells);
    ClickedNumber(cells[k]);
    if lead <= k < lead + |run| {
      assert cells[k] == run[k - lead];
    }
  }

  /** `createDatepicker`: the closure's one overlay, built on the first call only. */
  class DatepickerFactory {
    var window: DatepickerWindow?

    constructor()
      ensures window == null
    {
      window := null;
    }

    /** `today` is what the clock would read if this call has to build the overlay. */
    method CreateDatepicker(year: int, month: int, day: int, format: (int, int, int) -> string, today: Date)
      returns (datepicker: Datepicker)
      requires 1 <= month <= 12 && 1 <= day <= 31
      requires window != null ==> window.Valid()
      modifies this
      ensures window != null && window.Valid()
      ensures old(window) != null ==> window == old(window)
      ensures old(window) == null ==> fresh(window) && window.current == null && window.Today() == today
      ensures fresh(datepicker) && datepicker.window == window && datepicker.Valid()
      ensures datepicker.Committed() == Date(year, month - 1, day) && datepicker.format == format
      ensures datepicker.dispatched == []
    {
      if window == null {
        window := new DatepickerWindow(today);
      }
      datepicker := new Datepicker(year, month, day, format, window);
    }
  }
}
