/**
 * Calendar arithmetic on (year, month, day) triples: the part of the host
 * `Date` object and of date-fns that the activity pipeline relies on
 * (leap years, the days of a year in order, the weekday of a day, and the
 * `yyyy-MM-dd` day key with its parse).
 */
module Calendar {

  import opened Wrappers
  import opened Text

  /** Years the model covers. Below 100 the source's `new Date(year, 0, 1)`
      reads the year as 1900 + year; above 9999 a day key no longer has a
      four-digit year. */
  const MinYear: int := 100
  const MaxYear: int := 9999

  datatype Date = Date(year: int, month: int, day: int)

  /** Gregorian leap-year rule. */
  predicate IsLeapYear(y: int) {
    y % 4 == 0 && (y % 100 != 0 || y % 400 == 0)
  }

  function DaysInMonth(y: int, m: int): int {
    if m == 2 then (if IsLeapYear(y) then 29 else 28)
    else if m == 4 || m == 6 || m == 9 || m == 11 then 30
    else 31
  }

  function DaysInYear(y: int): int {
    if IsLeapYear(y) then 366 else 365
  }

  predicate ValidDate(d: Date) {
    && MinYear <= d.year <= MaxYear
    && 1 <= d.month <= 12
    && 1 <= d.day <= DaysInMonth(d.year, d.month)
  }

  /** A real calendar day inside the modelled range. */
  type CalDate = d: Date | ValidDate(d) witness Date(1970, 1, 1)

  /** Number of days of year y in the months before month m. */
  function DaysBeforeMonth(y: int, m: int): nat
    requires 1 <= m <= 13
  {
    if m == 1 then 0 else DaysBeforeMonth(y, m - 1) + DaysInMonth(y, m - 1)
  }

  lemma {:induction false} DaysBeforeMonthMonotone(y: int, m: int, m': int)
    requires 1 <= m <= m' <= 13
    ensures DaysBeforeMonth(y, m) + (if m < m' then DaysInMonth(y, m) else 0) <= DaysBeforeMonth(y, m')
    decreases m' - m
  {
    if m < m' - 1 {
      DaysBeforeMonthMonotone(y, m, m' - 1);
    }
  }

  /** The months add up to the length of the year. */
  lemma MonthsFillYear(y: int)
    ensures DaysBeforeMonth(y, 13) == DaysInYear(y)
  {
    var feb := DaysInMonth(y, 2);
    assert DaysBeforeMonth(y, 2) == 31;
    assert DaysBeforeMonth(y, 3) == 31 + feb;
    assert DaysBeforeMonth(y, 4) == 62 + feb;
    assert DaysBeforeMonth(y, 5) == 92 + feb;
    assert DaysBeforeMonth(y, 6) == 123 + feb;
    assert DaysBeforeMonth(y, 7) == 153 + feb;
    assert DaysBeforeMonth(y, 8) == 184 + feb;
    assert DaysBeforeMonth(y, 9) == 215 + feb;
    assert DaysBeforeMonth(y, 10) == 245 + feb;
    assert DaysBeforeMonth(y, 11) == 276 + feb;
    assert DaysBeforeMonth(y, 12) == 306 + feb;
  }

  /** Zero-based position of a day within its year. */
  function Ordinal(d: Date): int
    requires 1 <= d.month <= 12
  {
    DaysBeforeMonth(d.year, d.month) + d.day - 1
  }

  lemma OrdinalInYear(d: CalDate)
    ensures 0 <= Ordinal(d) < DaysInYear(d.year)
  {
    DaysBeforeMonthMonotone(d.year, d.month, 13);
    MonthsFillYear(d.year);
  }

  /** Within one year a day is determined by its ordinal. */
  lemma OrdinalDetermines(d: CalDate, e: CalDate)
    requires d.year == e.year && Ordinal(d) == Ordinal(e)
    ensures d == e
  {
    if d.month < e.month {
      DaysBeforeMonthMonotone(d.year, d.month, e.month);
      assert false;
    } else if e.month < d.month {
      DaysBeforeMonthMonotone(d.year, e.month, d.month);
      assert false;
    }
  }

  /** Days from 0001-01-01 to Jan 1 of year y (proleptic Gregorian calendar). */
  function DaysBeforeYear(y: int): int {
    var p := y - 1;
    365 * p + p / 4 - p / 100 + p / 400
  }

  /** Days since 0001-01-01, which was a Monday. */
  function DayNumber(d: Date): int
    requires 1 <= d.month <= 12
  {
    DaysBeforeYear(d.year) + Ordinal(d)
  }

  /** Weekday index as `Date.prototype.getDay` reports it: 0 = Sunday … 6 = Saturday. */
  function DayOfWeek(d: Date): (w: int)
    requires 1 <= d.month <= 12
    ensures 0 <= w < 7
  {
    (DayNumber(d) + 1) % 7
  }

  /** `new Date(year, 0, 1).getDay()`; the host reads years 0..99 as 1900 + year. */
  function FirstWeekday(year: int): (w: int)
    ensures 0 <= w < 7
    ensures MinYear <= year ==> w == DayOfWeek(Date(year, 1, 1))
  {
    var y := if 0 <= year <= 99 then 1900 + year else year;
    (DaysBeforeYear(y) + 1) % 7
  }

  /** The calendar day after d. */
  function NextDay(d: CalDate): Date {
    if d.day < DaysInMonth(d.year, d.month) then Date(d.year, d.month, d.day + 1)
    else if d.month < 12 then Date(d.year, d.month + 1, 1)
    else Date(d.year + 1, 1, 1)
  }

  /** Consecutive years are DaysInYear apart. */
  lemma DaysBeforeNextYear(y: int)
    ensures DaysBeforeYear(y + 1) == DaysBeforeYear(y) + DaysInYear(y)
  {
    DivStep4(y);
    DivStep100(y);
    DivStep400(y);
  }

  /** Stepping from y - 1 to y crosses a multiple of 4, 100 or 400 exactly when it divides y. */
  lemma DivStep4(y: int)
    ensures y / 4 - (y - 1) / 4 == if y % 4 == 0 then 1 else 0
  {
  }

  lemma DivStep100(y: int)
    ensures y / 100 - (y - 1) / 100 == if y % 100 == 0 then 1 else 0
  {
  }

  lemma DivStep400(y: int)
    ensures y / 400 - (y - 1) / 400 == if y % 400 == 0 then 1 else 0
  {
  }

  /** Known weekdays fix which index is which: 0 is Sunday, 4 is Thursday,
      6 is Saturday, as `getDay` numbers them. */
  lemma WeekdayAnchors()
    ensures DayOfWeek(Date(1970, 1, 1)) == 4
    ensures DayOfWeek(Date(2000, 1, 1)) == 6
    ensures DayOfWeek(Date(2023, 1, 1)) == 0
    ensures DayOfWeek(Date(2024, 2, 29)) == 4
  {
  }

  /** NextDay advances the day count, hence the weekday, by exactly one. */
  lemma NextDayAdvances(d: CalDate)
    ensures 1 <= NextDay(d).month <= 12
    ensures DayNumber(NextDay(d)) == DayNumber(d) + 1
    ensures DayOfWeek(NextDay(d)) == (DayOfWeek(d) + 1) % 7
  {
    var n := NextDay(d);
    if d.day == DaysInMonth(d.year, d.month) && d.month == 12 {
      DaysBeforeNextYear(d.year);
      MonthsFillYear(d.year);
      assert Ordinal(d) + 1 == DaysInYear(d.year);
      assert DayNumber(n) == DaysBeforeYear(d.year + 1);
    } else if d.day == DaysInMonth(d.year, d.month) {
      assert Ordinal(n) == Ordinal(d) + 1;
    } else {
      assert Ordinal(n) == Ordinal(d) + 1;
    }
    var a := DayNumber(d) + 1;
    assert DayOfWeek(n) == (a + 1) % 7;
    ModShift(a, 1);
  }

  /** The k-th day (zero-based) of year y counted from the start of month m. */
  function FromMonth(y: int, m: int, k: nat): (d: Date)
    requires MinYear <= y <= MaxYear && 1 <= m <= 12
    requires DaysBeforeMonth(y, m) + k < DaysBeforeMonth(y, 13)
    ensures ValidDate(d) && d.year == y
    ensures Ordinal(d) == DaysBeforeMonth(y, m) + k
    decreases 12 - m
  {
    if k < DaysInMonth(y, m) then Date(y, m, k + 1)
    else FromMonth(y, m + 1, k - DaysInMonth(y, m))
  }

  /** `getYearDates(year)`: every day of the year, Jan 1 to Dec 31. */
  function YearDates(y: int): (r: seq<CalDate>)
    requires MinYear <= y <= MaxYear
  {
    MonthsFillYear(y);
    seq(DaysInYear(y), k requires 0 <= k < DaysInYear(y) => FromMonth(y, 1, k))
  }

  /** The day at position k of YearDates(y) is the day whose ordinal is k. */
  lemma YearDatesAt(y: int, k: int)
    requires MinYear <= y <= MaxYear && 0 <= k < |YearDates(y)|
    ensures YearDates(y)[k].year == y && Ordinal(YearDates(y)[k]) == k
    ensures DayNumber(YearDates(y)[k]) == DaysBeforeYear(y) + k
  {
  }

  /** Length 366 exactly in leap years; starts on Jan 1 and ends on Dec 31. */
  lemma YearDatesSpan(y: int)
    requires MinYear <= y <= MaxYear
    ensures |YearDates(y)| == (if IsLeapYear(y) then 366 else 365)
    ensures YearDates(y)[0] == Date(y, 1, 1)
    ensures YearDates(y)[|YearDates(y)| - 1] == Date(y, 12, 31)
  {
    var ds := YearDates(y);
    YearDatesAt(y, 0);
    OrdinalDetermines(ds[0], Date(y, 1, 1));
    YearDatesAt(y, |ds| - 1);
    MonthsFillYear(y);
    OrdinalDetermines(ds[|ds| - 1], Date(y, 12, 31));
  }

  /** Each day of YearDates(y) is the day after the previous one. */
  lemma YearDatesConsecutive(y: int, k: int)
    requires MinYear <= y <= MaxYear && 0 <= k < |YearDates(y)| - 1
    ensures YearDates(y)[k + 1] == NextDay(YearDates(y)[k])
  {
    YearDatesAt(y, k);
    YearDatesAt(y, k + 1);
    OrdinalSuccessor(YearDates(y)[k], YearDates(y)[k + 1]);
  }

  /** The day whose ordinal in the same year is one more is the next day. */
  lemma OrdinalSuccessor(d: CalDate, e: CalDate)
    requires d.year == e.year && Ordinal(e) == Ordinal(d) + 1
    ensures e == NextDay(d)
  {
    var y := d.year;
    if d.day < DaysInMonth(y, d.month) {
      var n: CalDate := Date(y, d.month, d.day + 1);
      OrdinalDetermines(e, n);
    } else if d.month < 12 {
      var n: CalDate := Date(y, d.month + 1, 1);
      OrdinalDetermines(e, n);
    } else {
      OrdinalInYear(e);
      MonthsFillYear(y);
      assert false;
    }
  }

  /** Every day of year y occurs in YearDates(y), at the index of its ordinal, and only there. */
  lemma YearDatesContains(d: CalDate, k: int)
    requires 0 <= k < |YearDates(d.year)|
    ensures YearDates(d.year)[k] == d <==> k == Ordinal(d)
  {
    YearDatesAt(d.year, k);
    OrdinalInYear(d);
    if k == Ordinal(d) {
      OrdinalDetermines(YearDates(d.year)[k], d);
    }
  }

  /** Weekdays in YearDates(y) advance by one from FirstWeekday(y). */
  lemma YearDatesWeekday(y: int, k: int)
    requires MinYear <= y <= MaxYear && 0 <= k < |YearDates(y)|
    ensures DayOfWeek(YearDates(y)[k]) == (FirstWeekday(y) + k) % 7
  {
    YearDatesAt(y, k);
    WeekdayInYear(YearDates(y)[k], y, k);
  }

  /** The day k days after the first of year y falls k weekdays after it. */
  lemma WeekdayInYear(d: CalDate, y: int, k: int)
    requires MinYear <= y && DayNumber(d) == DaysBeforeYear(y) + k
    ensures DayOfWeek(d) == (FirstWeekday(y) + k) % 7
  {
    var a := DaysBeforeYear(y) + 1;
    assert DayOfWeek(d) == (a + k) % 7;
    assert FirstWeekday(y) == a % 7;
    ModShift(a, k);
  }

  lemma ModShift(a: int, k: int)
    ensures (a + k) % 7 == (a % 7 + k) % 7
  {
    var q := a / 7;
    assert a == 7 * q + a % 7;
    assert a + k == 7 * q + (a % 7 + k);
  }

  // ---------------------------------------------------------------------
  // The day key `yyyy-MM-dd` (date-fns `format(date, 'yyyy-MM-dd')`)

  /** `formatDate`: the zero-padded `yyyy-MM-dd` key of a day. */
  function FormatDate(d: CalDate): (key: string)
    ensures |key| == 10 && key[4] == '-' && key[7] == '-'
  {
    PadDigits(d.year, 4) + "-" + PadDigits(d.month, 2) + "-" + PadDigits(d.day, 2)
  }

  /** `new Date(key)` for a day key: the day it names, or None (an Invalid Date). */
  function ParseDateKey(s: string): Option<CalDate> {
    if |s| == 10 && s[4] == '-' && s[7] == '-'
      && (forall i :: 0 <= i < 4 ==> IsDigit(s[i]))
      && (forall i :: 5 <= i < 7 ==> IsDigit(s[i]))
      && (forall i :: 8 <= i < 10 ==> IsDigit(s[i]))
    then
      var d := Date(DigitsValue(s[..4]), DigitsValue(s[5..7]), DigitsValue(s[8..]));
      if ValidDate(d) then Some(d) else None
    else None
  }

  /** Formatting then parsing gives the day back. */
  lemma ParseFormat(d: CalDate)
    ensures ParseDateKey(FormatDate(d)) == Some(d)
  {
    var s := FormatDate(d);
    assert s[..4] == PadDigits(d.year, 4);
    assert s[5..7] == PadDigits(d.month, 2);
    assert s[8..] == PadDigits(d.day, 2);
    DigitsValuePad(d.year, 4);
    DigitsValuePad(d.month, 2);
    DigitsValuePad(d.day, 2);
  }

  /** A key that parses is the formatted form of the day it names. */
  lemma FormatParse(s: string)
    requires ParseDateKey(s).Some?
    ensures FormatDate(ParseDateKey(s).value) == s
  {
    var d := ParseDateKey(s).value;
    PadDigitsValue(s[..4]);
    PadDigitsValue(s[5..7]);
    PadDigitsValue(s[8..]);
    assert s == s[..4] + "-" + s[5..7] + "-" + s[8..];
  }

  /** Distinct days have distinct keys. */
  lemma FormatDateInjective(d: CalDate, e: CalDate)
    requires FormatDate(d) == FormatDate(e)
    ensures d == e
  {
    ParseFormat(d);
    ParseFormat(e);
  }
}
