# Datepicker — a Dafny model

This project models a small browser datepicker. Several text inputs ("fields") share one
floating overlay. Clicking a field opens the overlay on that field's committed date. The overlay
shows the month as a caption ("December 2016") and a Sunday-first table of day links. Two
buttons step the displayed month back and forth. A click on a day commits that day into the
active field and closes the overlay.

The repository has two versions of the widget:

- The modular version in `src/js/`. `DatepickerWindow` is the overlay. `Datepicker` is a field
  holding a one-based input month, a day of the month and a `format` callback. The
  `createDatepicker` factory builds the overlay on its first call and reuses it afterwards. A
  commit dispatches a `datepicker.change` event whose detail is
  `format(year, month + 1, day)`. `src/js/script.js` is the demonstration page.
- The older single-file `script.js`. Fields start at the clock's date. Days are held as
  zero-based indexes. A commit writes `year.month.day` into the input itself. The day-table
  click handler has no guard against blank cells.

Modules:

- `Calendar`: the ECMAScript date arithmetic the widget relies on.
  - `new Date(y, m, 1).getDay()` for the first weekday of a month.
  - `new Date(y, m + 1, 0).getDate()` for its length.
  - The constructor's rule that maps a year 0..99 to 1900..1999.
  - The carry of month navigation.
- `Decimal`: how a number becomes text (`String(n)`) and how text is read back with unary plus
  (`+attr`).
- `Labels`: the month caption and the dotted date text.
- `Grid`: the day table.
  - It specifies the table as leading blanks, the run of day cells and trailing blanks, cut
    into weeks of seven.
  - Each day cell carries its `selected` and `today` flags.
  - The `date-day` attribute of a cell and the number a click reads from it.
- `Widget`: the classes of `src/js/`.
  - Both classes sit in one module because they refer to each other.
  - `DatepickerFactory` is the closure behind `createDatepicker`.
- `Legacy`: the classes of `script.js` and its last lines, which build one overlay and two
  fields.
- `Demo`: the demonstration page of `src/js/script.js` as one scenario.

Each class's `Valid()` is the overlay's two-state machine:

- Closed: no active field, and the panel is not shown.
- Open: an active field that belongs to this overlay, and the panel is shown.

`Rendered()` adds that, while the overlay is open, the caption and the table are those of the
displayed month and of the active field's committed date. Each `_renderDaysContent` is a method
with the source's counter loops. It is proved equal to `Grid.MonthGrid`. The lemmas in `Grid`
then give that table's shape, its day numbers and its highlight marks.

Where the widget's documentation and its code differ, the model follows the code:

- A field's `month` argument is one-based.
  - `createDatepicker(input, 2016, 11, 1, format)` stores month index 10, which is November.
  - Picking 25 hands `format` the month 11, so the page shows "2016.11.25" (see
    `Demo.ShowAndPickFirst`). A reading in which that field holds December and yields
    "2016.12.25" does not match the code.
- The `selected` flag compares the active field's committed date with the displayed year and
  month. It does not compare the overlay's transient date.
- After a navigation, the transient day keeps its number; nothing clamps it. The table and its
  marks never read it, and a pick overwrites it before it is committed.
- In `script.js` a click on a blank cell reads the number 0 and commits the first day of the
  displayed month (`Legacy.BlankReadsAsFirstDay`). Only `src/js/` rejects that click. Both are
  modelled as written.

## Model

| member | source | states |
|---|---|---|
| Calendar.DaysInMonth | src/js/datepicker-window.js:190 | a month has 28 to 31 days; February has 29 exactly in leap years |
| Calendar.YearLength | src/js/datepicker-window.js:183 | consecutive year starts of the day count are 366 days apart in a leap year, 365 otherwise |
| Calendar.MonthLengthIsDayZero | src/js/datepicker-window.js:190 | day 0 of the next month is the last day of this month, and that day is a valid date |
| Calendar.FirstWeekday | src/js/datepicker-window.js:183 | the weekday of the first of the month is an index 0..6 (Sunday first) |
| Calendar.MonthLength | src/js/datepicker-window.js:190 | the length of a month as the constructor reads the year is 28..31 |
| Calendar.NextMonth | src/js/datepicker-window.js:158-163 | next month stays in 0..11 and is exactly one month later in the running month count |
| Calendar.PrevMonth | src/js/datepicker-window.js:144-149 | previous month stays in 0..11 and is exactly one month earlier in the running month count |
| Calendar.MonthIndexInjective | src/js/datepicker-window.js:144-163 | a (year, month) pair is determined by its running month count |
| Calendar.NavigationRoundTrip | src/js/datepicker-window.js:144-167 | back then forward, and forward then back, return to the same year and month |
| Calendar.NextMonthStart | src/js/datepicker-window.js:158-163 | `new Date(y, m + 1, d)` is day d of the month navigation reaches, which starts when this month ends |
| Calendar.MonthStartsIncrease | src/js/datepicker-window.js:158-167 | every later month starts after the whole of an earlier month |
| Calendar.MakeDayInjective | src/js/datepicker-window.js:225 | two valid dates with the same day count are the same date |
| Calendar.NextFirstWeekday | src/js/datepicker-window.js:183 | the next month starts on this month's first weekday plus its length, modulo 7 |
| Calendar.NextLayoutContinues | script.js:240-246 | the next month's table starts on the weekday after this month's last day, except across the year 99 to 100 and -1 to 0 steps, where the year rule differs |
| Calendar.December2016StartsOnThursday | src/js/datepicker-window.js:183 | December 2016 begins on weekday 4 (Thursday) |
| Decimal.NatToStringRoundTrip | src/js/datepicker-window.js:218 | the digits written for a natural number read back as that number |
| Decimal.NumberToStringRoundTrip | src/js/datepicker-window.js:133 | any integer written as text and read back with unary plus is the same integer |
| Decimal.NumberToStringInjective | src/js/datepicker-window.js:173 | different integers are written as different texts |
| Decimal.NumberToStringChars | src/js/datepicker-window.js:173 | an integer's text holds only digits and the minus sign |
| Labels.MonthName | src/js/datepicker-window.js:4 | every month name is one word and names its own month |
| Labels.SplitAtSeparator | src/js/script.js:5 | helper of `Labels.DotJoinInjective`: text joined at a separator absent from the heads has exactly one split |
| Labels.CaptionInjective | src/js/datepicker-window.js:172-174 | different displayed months have different captions |
| Labels.DotJoinInjective | src/js/script.js:4-6 | the dotted text determines year, month and day |
| Grid.TrailCount | src/js/datepicker-window.js:202-205 | trailing padding is under a week and fills the last row to seven |
| Grid.Cells | src/js/datepicker-window.js:179-208 | the flat table always has a whole number of weeks |
| Grid.ChunkShape | src/js/datepicker-window.js:195-199 | rows cut from the cells are weeks of seven that read back as the cells |
| Grid.TilesUnique | src/js/datepicker-window.js:195-206 | weeks of seven that read as the cells are the only such cut |
| Grid.GridShape | src/js/datepicker-window.js:182-207 | rows of seven; (lead + days + 6) / 7 rows; lead blanks then the first day; every row holds a day |
| Grid.GridDaysInMonth | src/js/datepicker-window.js:190-192 | every day link of a month's table numbers a day of that month, so no cell or mark lies outside it |
| Grid.MonthGridShape | src/js/datepicker-window.js:179-208 | the month's table has that shape with its first weekday and day count |
| Grid.GridDayNumbers | src/js/datepicker-window.js:190-200 | the day links, in reading order, are first, first + 1, ... with one per day of the month |
| Grid.GridMarkCount | src/js/datepicker-window.js:221-227 | exactly one cell is selected (today) when the committed date (today's date) is in the displayed month, none otherwise |
| Grid.GridMarksPerCell | src/js/datepicker-window.js:213-227 | a cell is selected exactly when its date is the committed date, and today exactly when it is the clock's date |
| Grid.ClickedNumber | src/js/datepicker-window.js:133 | a blank cell's click reads 0; a day cell's reads its number |
| Grid.ZeroBasedMatchesOneBased | script.js:247-248 | the index-numbered table of script.js, each number plus one, is the src/js table for dates shifted the same way |
| Widget.RenderDays | src/js/datepicker-window.js:179-208 | the counter loops build exactly the specified month table |
| Widget.Datepicker.constructor | src/js/datepicker.js:12-21 | a field keeps year and day, stores the month zero-based, and formats back to its arguments |
| Widget.Datepicker.ChangeDate | src/js/datepicker.js:58-66 | the committed date becomes the transient date, `format` of it with a one-based month is dispatched, the overlay is closed |
| Widget.DatepickerWindow.constructor | src/js/datepicker-window.js:14-26 | closed, no active field and zero transient date; the clock reading is kept with its one-based day |
| Widget.DatepickerWindow.Show | src/js/datepicker-window.js:52-70 | open for this field, seeded from its committed date, and rendered; the field itself is untouched |
| Widget.DatepickerWindow.Hide | src/js/datepicker-window.js:75-78 | closed, with the transient date, caption and table left as they were |
| Widget.DatepickerWindow.PrevMonth | src/js/datepicker-window.js:144-153 | the displayed month is the previous month, the day is unchanged, and it is re-rendered |
| Widget.DatepickerWindow.NextMonth | src/js/datepicker-window.js:158-167 | the displayed month is the next month, the day is unchanged, and it is re-rendered |
| Widget.DatepickerWindow.RenderMonthCaption | src/js/datepicker-window.js:172-174 | the caption is the month's name and the year |
| Widget.DatepickerWindow.RenderDaysContent | src/js/datepicker-window.js:179-208 | the table is the month table for the active field's committed date and the clock reading |
| Widget.DatepickerWindow.ClickDays | src/js/datepicker-window.js:129-138 | a click reading 0 changes nothing; any other number is committed into the active field with the displayed year and month, is dispatched, and closes the overlay |
| Widget.ClickedCellOfMonth | src/js/datepicker-window.js:133-134 | in a rendered table, a click reads 0 exactly on blank cells, so only blanks are ignored |
| Widget.DatepickerFactory.constructor | src/js/datepicker.js:69-70 | no overlay exists before the first call |
| Widget.DatepickerFactory.CreateDatepicker | src/js/datepicker.js:69-77 | the first call builds the overlay and later calls reuse it; each call returns a fresh field on that overlay |
| Legacy.RenderDays | script.js:236-264 | the counter loops build exactly the month table numbered by zero-based index |
| Legacy.Datepicker.constructor | script.js:38-45 | a field starts at the clock's date with a zero-based day index |
| Legacy.Datepicker.ChangeDate | script.js:85-92 | the committed date becomes the transient date, the input reads `year.(month+1).(day+1)`, the overlay is closed |
| Legacy.DatepickerWindow.constructor | script.js:102-116 | closed, no active field; the clock reading is kept with a zero-based day |
| Legacy.DatepickerWindow.Show | script.js:174-188 | open for this field, seeded from its committed date, and rendered |
| Legacy.DatepickerWindow.Hide | script.js:193-196 | closed, with nothing else changed |
| Legacy.DatepickerWindow.PrevMonth | script.js:201-210 | the displayed month is the previous month and it is re-rendered |
| Legacy.DatepickerWindow.NextMonth | script.js:215-224 | the displayed month is the next month and it is re-rendered |
| Legacy.DatepickerWindow.RenderMonthCaption | script.js:229-231 | the caption is the month's name and the year |
| Legacy.DatepickerWindow.RenderDaysContent | script.js:236-264 | the table is the index-numbered month table for the active field and the clock reading |
| Legacy.DatepickerWindow.ClickDays | script.js:160-166 | whatever number the click reads, including 0, is committed and written into the input, and the overlay closes |
| Legacy.Setup | script.js:319-322 | one overlay and two fields on it, each built from its own clock reading (script.js:39, script.js:111); a field whose reading is the overlay's has the overlay's today as its committed date |
| Legacy.BlankReadsAsFirstDay | script.js:160-166 | a blank cell's click reads the same 0 as the first day's link, labelled 1 |
| Legacy.LabelsAreDaysOfMonth | script.js:269-275 | the day links are labelled 1 .. days in month, in order |
| Demo.PickedText | src/js/script.js:4-6 | the link "25" reads as 25, and the page's format writes 2016, 11, 25 as "2016.11.25" |
| Demo.ShowAndPickFirst | src/js/script.js:4-31 | with two fields on one overlay, opening the first and picking 25 puts "2016.11.25" in the first input and leaves the second field's date and events alone |

## Left out

- The DOM is not modelled: element creation, the HTML template, `innerHTML` and the individual
  `td`/`a` elements. A table is modelled as its sequence of rows of cells.
- Panel positioning is not modelled: the `posX`/`posY` arguments of `show`, the offsets and the
  scroll positions.
- Event plumbing is not modelled: `addEventListener`, `stopPropagation`, `preventDefault`, the
  `datepicker.show` event and the outside-click handler. Each handler is the method it calls.
  Dispatching `datepicker.change` is modelled as appending its detail to `dispatched`.
- The clock (`new Date()`) is a parameter, `today`, of the constructors that read it.
- The getters are modelled as field reads.
- `console.log` is not modelled.
- Building the overlay element lazily on the first `show` is not modelled. In src/js the
  overlay's state exists from construction and its panel is `Unset` until then.
- `getElement` of script.js is not modelled. Only the input's `value` is kept.
- Widget.DatepickerWindow.ClickDays: requires an open overlay and a numeric `date-day`
  attribute, or none. Every attribute the table writes is numeric, and the table can only be
  clicked while it is shown.
- Legacy.DatepickerWindow.ClickDays: requires an open overlay and a numeric `date-day`
  attribute, for the same reasons.
- Widget.DatepickerWindow.PrevMonth: requires an open overlay, since the buttons exist only on
  the shown panel. It would throw while rendering a table with no active field.
- Widget.DatepickerWindow.NextMonth: requires an open overlay, for the same reason.
- Legacy.DatepickerWindow.PrevMonth, Legacy.DatepickerWindow.NextMonth: require an open
  overlay, for the same reason.
- Widget.Datepicker.constructor: requires a month in 1..12 and a day in 1..31, as its
  documentation demands of callers.
- Calendar.FirstWeekday: does not model JavaScript's time-value limit. Years beyond about
  ±275760 make `Date` invalid (NaN); the model's integers are unbounded.
- Calendar.MonthLength: does not model that limit either.
- Decimal.NumberToString: does not model exponent notation. That applies to integers of
  magnitude 10^21 and up, which no calendar year or day reaches.
- The unclamped transient day after a navigation is modelled as it is. It is never shown or
  committed, because every pick overwrites it: `Grid.GridDaysInMonth` keeps every day link
  inside the displayed month, and each `ClickDays` commits the clicked number.
