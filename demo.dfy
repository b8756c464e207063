/**
 * The demonstration page of src/js/script.js: two inputs on one shared overlay, both with a
 * dotted `format` callback whose text the page copies into the input.
 */
module Demo {
  import opened Calendar
  import opened Wrappers
  import opened Labels
  import Decimal
  import Grid
  import Widget

  /** The page's `format(year, month, day)`: `year + '.' + month + '.' + day`. */
  function Format(year: int, month: int, day: int): string
  {
    DotJoin(year, month, day)
  }

  /** The link "25" reads as day 25, and the page writes that day of November 2016 as "2016.11.25". */
  lemma PickedText()
    ensures Decimal.IsNumeral("25") && Grid.AttrNumber(Some("25")) == 25
    ensures Format(2016, 11, 25) == "2016.11.25"
  {
    assert "25"[..1] == "2" && "2"[..0] == "";
    assert Decimal.DigitsValue("2") == 2;
    assert Decimal.DigitsValue("25") == 25;
    assert Decimal.NatToString(2) == "2";
    assert Decimal.NatToString(20) == "20";
    assert Decimal.NatToString(201) == "201";
    assert Decimal.NatToString(1) == "1";
  }

  /**
   * The page as set up (`createDatepicker(input1, 2016, 11, 1, format)` and
   * `createDatepicker(input2, 2016, 10, 1, format)`), then: show the first field and click the
   * day link "25". The first input receives "2016.11.25" (month 11 is stored as index 10 and
   * handed back as 11); the second field stays at its initial date and dispatches nothing.
   */
  method ShowAndPickFirst(today: Date) returns (input1: string, other: Date, otherDispatched: seq<string>)
    ensures input1 == "2016.11.25"
    ensures other == Date(2016, 9, 1) && otherDispatched == []
  {
    var factory := new Widget.DatepickerFactory();
    var picker1 := factory.CreateDatepicker(2016, 11, 1, Format, today);
    var picker2 := factory.CreateDatepicker(2016, 10, 1, Format, today);
    var window := factory.window;
    window.Show(picker1);
    PickedText();
    window.ClickDays(Some("25"));
    input1 := picker1.dispatched[0];
    other := picker2.Committed();
    otherDispatched := picker2.dispatched;
  }
}
