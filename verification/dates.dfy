/**
 * Calendar date-times (`DateTimeInterface`) as the catalog stores, compares
 * and prints them: proleptic Gregorian calendar, one-second resolution.
 */
module Dates {
  import opened Nullable
  import opened Text
  import opened Ordering

  datatype CalendarTime = CalendarTime(year: int, month: int, day: int, hour: int, minute: int, second: int)

  predicate IsLeapYear(y: int)
  {
    y % 4 == 0 && (y % 100 != 0 || y % 400 == 0)
  }

  function DaysInMonth(y: int, m: int): int
    requires 1 <= m <= 12
  {
    if m == 2 then (if IsLeapYear(y) then 29 else 28)
    else if m == 4 || m == 6 || m == 9 || m == 11 then 30
    else 31
  }

  /** Every field is in range: a point PHP's `DateTime` can denote. */
  predicate Valid(t: CalendarTime)
  {
    && 1 <= t.month <= 12
    && 1 <= t.day <= DaysInMonth(t.year, t.month)
    && 0 <= t.hour < 24
    && 0 <= t.minute < 60
    && 0 <= t.second < 60
  }

  /** A date-time value. */
  type DateTime = t: CalendarTime | Valid(t) witness CalendarTime(1970, 1, 1, 0, 0, 0)

  /** The sort key of a date-time: its fields, most significant first. */
  function DateKey(d: DateTime): Key
  {
    Lex([d.year, d.month, d.day, d.hour, d.minute, d.second])
  }

  /** A nullable date column as a sort key (NULL first). */
  function NullableDateKey(d: Option<DateTime>): Key
  {
    match d
    case None => Null
    case Some(v) => DateKey(v)
  }

  /** `a <= b` on date-times: `a` is not later than `b`. */
  predicate NotAfter(a: DateTime, b: DateTime)
  {
    KeyLe(DateKey(a), DateKey(b))
  }

  /** Comparing date-times is a total order: reflexive and total. */
  lemma NotAfterReflexiveTotal(a: DateTime, b: DateTime)
    ensures NotAfter(a, a)
    ensures NotAfter(a, b) || NotAfter(b, a)
  {
    LexLeReflexive(DateKey(a).items);
    LexLeTotal(DateKey(a).items, DateKey(b).items);
  }

  /** Two date-times each not after the other are the same instant. */
  lemma NotAfterAntisymmetric(a: DateTime, b: DateTime)
    requires NotAfter(a, b) && NotAfter(b, a)
    ensures a == b
  {
    LexLeAntisymmetric(DateKey(a).items, DateKey(b).items);
    assert DateKey(a).items[0] == a.year && DateKey(b).items[0] == b.year;
    assert DateKey(a).items[1] == a.month && DateKey(b).items[1] == b.month;
    assert DateKey(a).items[2] == a.day && DateKey(b).items[2] == b.day;
    assert DateKey(a).items[3] == a.hour && DateKey(b).items[3] == b.hour;
    assert DateKey(a).items[4] == a.minute && DateKey(b).items[4] == b.minute;
    assert DateKey(a).items[5] == a.second && DateKey(b).items[5] == b.second;
  }

  /** PHP format character `Y`: at least four digits, `-` before years BCE. */
  function YearText(y: int): (r: string)
    ensures |r| >= 4
  {
    if y < 0 then "-" + PadDecimal(-y, 4) else PadDecimal(y, 4)
  }

  /** `$date->format('d/m/Y')`: two-digit day, two-digit month, then the year. */
  function FormatDmy(d: DateTime): (r: string)
    ensures |r| >= 10
    ensures 0 <= d.year <= 9999 ==> |r| == 10
  {
    PadDecimal(d.day, 2) + "/" + PadDecimal(d.month, 2) + "/" + YearText(d.year)
  }

  /** The text of a MySQL `DATETIME` value, `Y-m-d H:i:s`, which `LIKE` matches against. */
  function SqlText(d: DateTime): string
  {
    YearText(d.year) + "-" + PadDecimal(d.month, 2) + "-" + PadDecimal(d.day, 2) + " "
      + PadDecimal(d.hour, 2) + ":" + PadDecimal(d.minute, 2) + ":" + PadDecimal(d.second, 2)
  }

  /** Reads a year back from its `Y` rendering. */
  function ParseYear(y: string): Option<int>
  {
    if |y| > 0 && y[0] == '-' && AllDigits(y[1..]) then Some(0 - DigitsValue(y[1..]))
    else if AllDigits(y) then Some(DigitsValue(y))
    else None
  }

  /** Reads day, month and year back from `d/m/Y` text. */
  function ParseDmy(s: string): Option<(int, int, int)>
  {
    if |s| < 10 || s[2] != '/' || s[5] != '/' || !AllDigits(s[..2]) || !AllDigits(s[3..5]) then None
    else
      match ParseYear(s[6..])
      case None => None
      case Some(year) => Some((DigitsValue(s[..2]) as int, DigitsValue(s[3..5]) as int, year))
  }

  lemma YearRoundTrip(y: int)
    ensures ParseYear(YearText(y)) == Some(y)
  {
    var t := YearText(y);
    if y < 0 {
      assert t[1..] == PadDecimal(-y, 4);
    } else {
      assert IsDigit(t[0]);
    }
  }

  /** Day, month and year can be read back from the `d/m/Y` rendering of any date. */
  lemma FormatDmyRoundTrip(d: DateTime)
    ensures ParseDmy(FormatDmy(d)) == Some((d.day, d.month, d.year))
  {
    var dd := PadDecimal(d.day, 2);
    var mm := PadDecimal(d.month, 2);
    var yy := YearText(d.year);
    var s := FormatDmy(d);
    assert |dd| == 2 && |mm| == 2;
    assert s[..2] == dd;
    assert s[2] == '/' && s[5] == '/';
    assert s[3..5] == mm;
    assert s[6..] == yy;
    YearRoundTrip(d.year);
  }

  /** The decimal renderings the example below needs, digit by digit. */
  lemma ExampleDecimals()
    ensures Decimal(23) == "23" && Decimal(11) == "11" && Decimal(2025) == "2025"
  {
    assert Decimal(2) == "2" && Decimal(1) == "1";
    assert Decimal(23) == Decimal(2) + ['3'];
    assert Decimal(11) == Decimal(1) + ['1'];
    assert Decimal(20) == Decimal(2) + ['0'];
    assert Decimal(202) == Decimal(20) + ['2'];
    assert Decimal(2025) == Decimal(202) + ['5'];
  }

  /** The rendering of 23 November 2025. */
  lemma FormatDmyExample()
    ensures FormatDmy(CalendarTime(2025, 11, 23, 0, 0, 0)) == "23/11/2025"
  {
    ExampleDecimals();
    assert PadDecimal(23, 2) == "23";
    assert PadDecimal(11, 2) == "11";
    assert YearText(2025) == "2025";
  }
}
