/**
 * The older single-file widget of script.js. Same overlay and field, but the field starts at
 * the clock's date, the day of a date is stored as a zero-based index (day of the month - 1),
 * the field writes its text into the input itself, and the click handler has no blank-cell guard.
 */
module Legacy {
  import opened Calendar
  import opened Wrappers
  import opened Grid
  import opened Labels
  import Decimal

  /** `year + '.' + (month + 1) + '.' + (day + 1)` for a zero-based month and day index. */
  function DateText(year: int, month: int, day: int): string
  {
    DotJoin(year, month + 1, day + 1)
  }

  /** The number a day link shows: its index plus one. */
  function Label(c: Cell): int
    requires c.Day?
  {
    c.day + 1
  }

  /** `_renderDaysContent` of script.js: day cells carry the indexes 0 .. daysInMonth - 1. */
  method RenderDays(year: int, month: int, committed: Date, today: Date) returns (rows: seq<seq<Cell>>)
    requires 0 <= month < 12
    ensures rows == MonthGrid(year, month, 0, committed, today)
  {
    rows := [];
    var row: seq<Cell> := [];
    var dayOfWeek := FirstWeekday(year, month);
    ghost var lead := dayOfWeek;
    for i := 0 to dayOfWeek
      invariant row == Blanks(i)
    {
      row := row + [Blank];
    }
    var daysInMonth := MonthLength(year, month);
    for day := 0 to daysInMonth
      invariant 0 <= dayOfWeek < 7 && |row| == dayOfWeek
      invariant AllWeeks(rows)
      invariant Flatten(rows) + row == Blanks(lead) + DayRun(year, month, 0, day, committed, today)
    {
      DayRunSnoc(year, month, 0, day, committed, today);
      AppendCell(rows, row, DayCell(year, month, day, committed, today),
        Blanks(lead) + DayRun(year, month, 0, day, committed, today));
      row := row + [DayCell(year, month, day, committed, today)];
      dayOfWeek := dayOfWeek + 1;
      if dayOfWeek == 7 {
        rows := rows + [row];
        // the source drops the row after the last day; a fresh one is never used again
        row := [];
        dayOfWeek := 0;
      }
    }
    ghost var run := DayRun(year, month, 0, daysInMonth, committed, today);
    CloseTable(rows, row, lead, run);
    if dayOfWeek != 0 {
      ghost var filled := row;
      for i := dayOfWeek to 7
        invariant row == filled + Blanks(i - dayOfWeek)
      {
        row := row + [Blank];
      }
      rows := rows + [row];
    }
    TilesUnique(rows, Cells(lead, run));
  }

  /** A field of script.js: its committed date (zero-based day index) and its input's text. */
  class Datepicker {
    const window: DatepickerWindow
    var year: int
    var month: int
    var day: int
    /** The input element's `value`. */
    var value: string

    ghost predicate Valid()
      reads this
    {
      0 <= month < 12
    }

    function Committed(): Date
      reads this
    {
      Date(year, month, day)
    }

    /**
     * `new Datepicker(element, window)` while the clock reads `today` (a one-based day of a real
     * date); `value` is whatever the input held.
     */
    constructor(window: DatepickerWindow, today: Date, value: string)
      requires IsValidDate(today)
      ensures Valid() && this.window == window && this.value == value
      ensures Committed() == Date(today.year, today.month, today.day - 1)
    {
      this.window := window;
      year := today.year;
      month := today.month;
      day := today.day - 1;
      this.value := value;
    }

    /** `changeDate`: commit the overlay's transient date, write it into the input, close. */
    method ChangeDate()
      requires window.Valid()
      modifies this, window`current, window`visible
      ensures Valid() && window.Valid() && window.Rendered()
      ensures Committed() == Date(window.year, window.month, window.day)
      ensures value == DateText(window.year, window.month, window.day)
      ensures window.current == null && window.visible == Hidden
    {
      year := window.year;
      month := window.month;
      day := window.day;
      value := DateText(year, month, day);
      window.Hide();
    }
  }

  /** The overlay of script.js; its day and the clock snapshot's day are zero-based indexes. */
  class DatepickerWindow {
    var current: Datepicker?
    var day: int
    var year: int
    var month: int
    const currentDay: int
    const currentMonth: int
    const currentYear: int
    var visible: Display
    var caption: string
    var daysContent: seq<seq<Cell>>

    ghost predicate Valid()
      reads this
    {
      0 <= month < 12
      && (current == null ==> visible != Block)
      && (current != null ==> visible == Block && current.window == this)
    }

    ghost predicate Rendered()
      reads this, current
    {
      Valid()
      && (current != null ==>
            caption == Caption(year, month)
            && daysContent == MonthGrid(year, month, 0, current.Committed(), Today()))
    }

    function Today(): Date
      reads this
    {
      Date(currentYear, currentMonth, currentDay)
    }

    /** `new DatepickerWindow()` while the clock reads `today` (a one-based day). */
    constructor(today: Date)
      ensures Valid() && current == null && visible == Unset
      ensures day == 0 && month == 0 && year == 0
      ensures Today() == Date(today.year, today.month, today.day - 1)
    {
      current := null;
      day, year, month := 0, 0, 0;
      currentDay, currentMonth, currentYear := today.day - 1, today.month, today.year;
      visible := Unset;
      caption := "";
      daysContent := [];
    }

    method Show(datepicker: Datepicker)
      requires Valid() && datepicker.Valid() && datepicker.window == this
      modifies this
      ensures Valid() && Rendered()
      ensures current == datepicker && visible == Block
      ensures Date(year, month, day) == datepicker.Committed()
    {
      current := datepicker;
      visible := Block;
      day := datepicker.day;
      month := datepicker.month;
      year := datepicker.year;
      RenderMonthCaption();
      RenderDaysContent();
    }

    method Hide()
      requires Valid()
      modifies this`current, this`visible
      ensures Valid() && Rendered()
      ensures current == null && visible == Hidden
    {
      current := null;
      visible := Hidden;
    }

    method PrevMonth()
      requires Valid() && current != null
      modifies this`month, this`year, this`caption, this`daysContent
      ensures Valid() && Rendered()
      ensures YearMonth(year, month) == Calendar.PrevMonth(YearMonth(old(year), old(month)))
    {
      month := month - 1;
      if month < 0 {
        month := 11;
        year := year - 1;
      }
      RenderMonthCaption();
      RenderDaysContent();
    }

    method NextMonth()
      requires Valid() && current != null
      modifies this`month, this`year, this`caption, this`daysContent
      ensures Valid() && Rendered()
      ensures YearMonth(year, month) == Calendar.NextMonth(YearMonth(old(year), old(month)))
    {
      month := month + 1;
      if month >= 12 {
        month := 0;
        year := year + 1;
      }
      RenderMonthCaption();
      RenderDaysContent();
    }

    method RenderMonthCaption()
      requires 0 <= month < 12
      modifies this`caption
      ensures caption == Caption(year, month)
    {
      caption := Caption(year, month);
    }

    method RenderDaysContent()
      requires 0 <= month < 12 && current != null
      modifies this`daysContent
      ensures daysContent == MonthGrid(year, month, 0, current.Committed(), Today())
    {
      daysContent := RenderDays(year, month, Date(current.year, current.month, current.day), Today());
    }

    /**
     * The table body's click handler: whatever number the clicked element's `date-day` reads as
     * (0 when it has none) becomes the transient day and is committed; there is no guard.
     */
    method ClickDays(attr: Option<string>)
      requires Valid() && current != null
      requires attr.Some? ==> Decimal.IsNumeral(attr.value)
      modifies this`day, this`current, this`visible, current
      ensures day == AttrNumber(attr) && year == old(year) && month == old(month)
      ensures old(current).Committed() == Date(old(year), old(month), AttrNumber(attr))
      ensures old(current).value == DateText(old(year), old(month), AttrNumber(attr))
      ensures current == null && visible == Hidden
      ensures Valid() && Rendered()
    {
      day := AttrNumber(attr);
      current.ChangeDate();
    }
  }

  /**
   * The last lines of script.js: one overlay and two fields on it. Each constructor reads the
   * clock itself, so the three readings may differ (a page loaded across midnight); when a
   * field's reading is the overlay's, its committed day is the overlay's today.
   */
  method Setup(windowToday: Date, today1: Date, value1: string, today2: Date, value2: string)
    returns (window: DatepickerWindow, picker1: Datepicker, picker2: Datepicker)
    requires IsValidDate(today1) && IsValidDate(today2)
    ensures fresh(window) && fresh(picker1) && fresh(picker2) && picker1 != picker2
    ensures window.Valid() && window.current == null && window.visible == Unset
    ensures window.Today() == Date(windowToday.year, windowToday.month, windowToday.day - 1)
    ensures picker1.window == window && picker2.window == window
    ensures picker1.Valid() && picker2.Valid()
    ensures picker1.value == value1 && picker2.value == value2
    ensures picker1.Committed() == Date(today1.year, today1.month, today1.day - 1)
    ensures picker2.Committed() == Date(today2.year, today2.month, today2.day - 1)
    ensures today1 == windowToday ==> picker1.Committed() == window.Today()
    ensures today2 == windowToday ==> picker2.Committed() == window.Today()
  {
    window := new DatepickerWindow(windowToday);
    picker1 := new Datepicker(window, today1, value1);
    picker2 := new Datepicker(window, today2, value2);
  }

  /**
   * In script.js a click on a blank cell reads the same number as a click on the first day of
   * the month, so it commits the first day.
   */
  lemma BlankReadsAsFirstDay(year: int, month: int, committed: Date, today: Date)
    requires 0 <= month < 12
    ensures var cells := Flatten(MonthGrid(year, month, 0, committed, today));
      var first := cells[FirstWeekday(year, month)];
      first == DayCell(year, month, 0, committed, today) && Label(first) == 1
      && AttrNumber(DateDayAttr(Blank)) == AttrNumber(DateDayAttr(first)) == 0
  {
    var cells := MonthCells(year, month, 0, committed, today);
    var run := DayRun(year, month, 0, MonthLength(year, month), committed, today);
    ChunkShape(cells);
    assert cells[FirstWeekday(year, month)] == run[0];
    ClickedNumber(run[0]);
  }

  /** Read through their labels, the day links of script.js show 1 .. daysInMonth in order. */
  lemma LabelsAreDaysOfMonth(year: int, month: int, committed: Date, today: Date)
    requires 0 <= month < 12
    ensures DayNumbers(BumpAll(Flatten(MonthGrid(year, month, 0, committed, today))))
         == Range(1, MonthLength(year, month))
  {
    ChunkShape(MonthCells(year, month, 0, committed, today));
    ZeroBasedMatchesOneBased(year, month, committed, today);
    ChunkShape(MonthCells(year, month, 1, NextDayNumber(committed), NextDayNumber(today)));
    GridDayNumbers(year, month, 1, NextDayNumber(committed), NextDayNumber(today));
  }
}
