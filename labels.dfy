/**
 * The texts the widget writes: the month caption over the day table, and the dotted
 * "year.month.day" text that ends up in an input.
 */
module Labels {
  import Decimal

  const MonthNames: seq<string> := ["January", "February", "March", "April", "May", "June",
    "July", "August", "September", "October", "November", "December"]

  /** `MONTHS_NAMES[month] + ' ' + year`. */
  function Caption(year: int, month: int): string
    requires 0 <= month < 12
  {
    MonthNames[month] + " " + Decimal.NumberToString(year)
  }

  /** `a + '.' + b + '.' + c` for three integers. */
  function DotJoin(a: int, b: int, c: int): string
  {
    Decimal.NumberToString(a) + "." + Decimal.NumberToString(b) + "." + Decimal.NumberToString(c)
  }

  /** Which month a name is: its index in the name table, 12 for any other text. */
  function MonthOf(name: string): (m: nat)
    ensures m <= 12
  {
    if name == "January" then 0
    else if name == "February" then 1
    else if name == "March" then 2
    else if name == "April" then 3
    else if name == "May" then 4
    else if name == "June" then 5
    else if name == "July" then 6
    else if name == "August" then 7
    else if name == "September" then 8
    else if name == "October" then 9
    else if name == "November" then 10
    else if name == "December" then 11
    else 12
  }

  /** Every month name is a single word, and names its own month. */
  lemma MonthName(m: int)
    requires 0 <= m < 12
    ensures ' ' !in MonthNames[m]
    ensures MonthOf(MonthNames[m]) == m
  {
  }

  /** Text cut at the first occurrence of a separator that the head does not contain. */
  lemma SplitAtSeparator(a: string, b: string, a': string, b': string, sep: char)
    requires sep !in a && sep !in a'
    requires a + [sep] + b == a' + [sep] + b'
    ensures a == a' && b == b'
  {
    var s := a + [sep] + b;
    assert s[|a|] == sep;
    assert (a' + [sep] + b')[|a'|] == sep;
    assert a == s[..|a|];
    assert a' == (a' + [sep] + b')[..|a'|];
    assert b == s[|a| + 1..];
    assert b' == (a' + [sep] + b')[|a'| + 1..];
  }

  lemma NoSeparatorInNumber(n: int, sep: char)
    requires sep != '-' && !('0' <= sep <= '9')
    ensures sep !in Decimal.NumberToString(n)
  {
    Decimal.NumberToStringChars(n);
  }

  /** The caption names one month of one year: different months have different captions. */
  lemma CaptionInjective(year: int, month: int, year': int, month': int)
    requires 0 <= month < 12 && 0 <= month' < 12
    requires Caption(year, month) == Caption(year', month')
    ensures year == year' && month == month'
  {
    MonthName(month);
    MonthName(month');
    SplitAtSeparator(MonthNames[month], Decimal.NumberToString(year),
      MonthNames[month'], Decimal.NumberToString(year'), ' ');
    Decimal.NumberToStringInjective(year, year');
  }

  /** The dotted text can be read back: it determines all three numbers. */
  lemma DotJoinInjective(a: int, b: int, c: int, a': int, b': int, c': int)
    requires DotJoin(a, b, c) == DotJoin(a', b', c')
    ensures a == a' && b == b' && c == c'
  {
    var sa, sb, sc := Decimal.NumberToString(a), Decimal.NumberToString(b), Decimal.NumberToString(c);
    var sa', sb', sc' := Decimal.NumberToString(a'), Decimal.NumberToString(b'), Decimal.NumberToString(c');
    NoSeparatorInNumber(a, '.');
    NoSeparatorInNumber(a', '.');
    NoSeparatorInNumber(b, '.');
    NoSeparatorInNumber(b', '.');
    assert DotJoin(a, b, c) == sa + ['.'] + (sb + ['.'] + sc);
    assert DotJoin(a', b', c') == sa' + ['.'] + (sb' + ['.'] + sc');
    SplitAtSeparator(sa, sb + ['.'] + sc, sa', sb' + ['.'] + sc', '.');
    SplitAtSeparator(sb, sc, sb', sc', '.');
    Decimal.NumberToStringInjective(a, a');
    Decimal.NumberToStringInjective(b, b');
    Decimal.NumberToStringInjective(c, c');
  }
}
