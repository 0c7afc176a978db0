/**
 * The grid of a whole year, as the heat map draws it for one year's
 * activities: every day sits in the row of its weekday, every column has
 * seven cells, and there is one label per month over the column where the
 * month begins.
 */
module HeatmapYear {

  import opened Wrappers
  import opened Calendar
  import opened Records
  import opened TwitterParser
  import opened HeatmapLayout

  /** The days of a year in order, as far as the grid depends on them: from
      January to December, weekdays advancing from FirstWeekday(year), and
      the months changing only to the next month at its first day. */
  predicate YearDays(days: seq<CalDate>, year: int) {
    Weekdays(days, year) && Months(days, year)
  }

  predicate Weekdays(days: seq<CalDate>, year: int) {
    forall k :: 0 <= k < |days| ==> DayOfWeek(days[k]) == (FirstWeekday(year) + k) % 7
  }

  predicate Months(days: seq<CalDate>, year: int) {
    && |days| > 0 && days[0].month == 1 && days[|days| - 1].month == 12
    && (forall k :: 0 < k < |days| ==> MonthMoves(days, year, k))
    && (forall m :: 1 <= m <= 12 ==> DaysBeforeMonth(year, m) < |days| && days[DaysBeforeMonth(year, m)].month == m)
  }

  predicate MonthMoves(days: seq<CalDate>, year: int, k: int)
    requires 0 < k < |days|
  {
    || days[k].month == days[k - 1].month
    || (days[k].month == days[k - 1].month + 1 && k == DaysBeforeMonth(year, days[k].month))
  }

  /** The cells are the days `days` of a year, each key read back as its day. */
  predicate WholeYear(readKey: string -> Option<CalDate>, cd: seq<CalendarDay>, year: int, days: seq<CalDate>) {
    YearDays(days, year) && ReadsAs(readKey, cd, days)
  }

  predicate ReadsAs(readKey: string -> Option<CalDate>, cd: seq<CalendarDay>, days: seq<CalDate>) {
    |cd| == |days| && forall k :: 0 <= k < |cd| ==> readKey(cd[k].date) == Some(days[k])
  }

  /** Positions of the first days of the first c months of year y. */
  function MonthFirsts(y: int, c: nat): seq<nat>
    requires c <= 12
  {
    seq(c, m requires 0 <= m < c => DaysBeforeMonth(y, m + 1))
  }

  // ---------------------------------------------------------------------
  // The days of a calendar year are such days

  /** From one day of a year to the next the month stays, or it moves on to
      the next month, whose first day is at its ordinal. */
  lemma MonthStep(year: int, i: int)
    requires MinYear <= year <= MaxYear && 1 <= i < |YearDates(year)|
    ensures MonthMoves(YearDates(year), year, i)
  {
    var ds := YearDates(year);
    YearDatesConsecutive(year, i - 1);
    YearDatesAt(year, i);
    if ds[i].month != ds[i - 1].month {
      assert ds[i].day == 1;
    }
  }

  /** The first day of month m of year y is at its ordinal. */
  lemma FirstOfMonth(y: int, m: int)
    requires MinYear <= y <= MaxYear && 1 <= m <= 12
    ensures DaysBeforeMonth(y, m) < |YearDates(y)|
    ensures YearDates(y)[DaysBeforeMonth(y, m)] == Date(y, m, 1)
  {
    var d: CalDate := Date(y, m, 1);
    OrdinalInYear(d);
    YearDatesContains(d, Ordinal(d));
  }

  lemma YearDatesAreYearDays(year: int)
    requires MinYear <= year <= MaxYear
    ensures YearDays(YearDates(year), year)
  {
    var ds := YearDates(year);
    YearDatesSpan(year);
    forall k | 0 <= k < |ds|
      ensures DayOfWeek(ds[k]) == (FirstWeekday(year) + k) % 7
    {
      YearDatesWeekday(year, k);
    }
    forall k | 0 < k < |ds|
      ensures MonthMoves(ds, year, k)
    {
      MonthStep(year, k);
    }
    forall m | 1 <= m <= 12
      ensures DaysBeforeMonth(year, m) < |ds| && ds[DaysBeforeMonth(year, m)].month == m
    {
      FirstOfMonth(year, m);
    }
  }

  /** The calendar of a year's activities, read with the day-key parse, is
      the whole year. */
  lemma CalendarIsWholeYear(ts: seq<Tweet>, parseDate: string -> Option<CalDate>, year: int)
    requires MinYear <= year <= MaxYear
    ensures WholeYear(ParseDateKey, GenerateCalendarData(YearActivities(ts, parseDate, year)), year, YearDates(year))
  {
    var cd := GenerateCalendarData(YearActivities(ts, parseDate, year));
    YearDatesAreYearDays(year);
    forall k | 0 <= k < |cd|
      ensures ParseDateKey(cd[k].date) == Some(YearDates(year)[k])
    {
      ParseFormat(YearDates(year)[k]);
    }
  }

  // ---------------------------------------------------------------------
  // The grid of a whole year

  /** Among the first n days of a whole year the months start at the first
      days of the months up to that of day n - 1. */
  lemma {:induction false} YearMonthStarts(readKey: string -> Option<CalDate>, cd: seq<CalendarDay>, year: int,
                                           days: seq<CalDate>, n: nat)
    requires ReadsAs(readKey, cd, days) && Months(days, year) && 1 <= n <= |cd|
    ensures MonthStarts(readKey, cd, n) == MonthFirsts(year, days[n - 1].month)
  {
    if n == 1 {
      assert DaysBeforeMonth(year, 1) == 0;
      assert MonthStarts(readKey, cd, 1) == [0];
    } else {
      YearMonthStarts(readKey, cd, year, days, n - 1);
      assert MonthMoves(days, year, n - 1);
      assert readKey(cd[n - 1].date) == Some(days[n - 1]);
      assert readKey(cd[n - 2].date) == Some(days[n - 2]);
      MonthStartsStep(readKey, cd, year, days[n - 2].month, days[n - 1].month, n);
    }
  }

  /** One more day either stays in the month of the day before, adding no
      start, or begins the next month at that month's first day. */
  lemma MonthStartsStep(readKey: string -> Option<CalDate>, cd: seq<CalendarDay>, year: int, c: int, c': int, n: nat)
    requires 2 <= n <= |cd| && 1 <= c <= c' <= 12
    requires MonthStarts(readKey, cd, n - 1) == MonthFirsts(year, c)
    requires MonthIndex(readKey, cd[n - 2]) == c - 1 && MonthIndex(readKey, cd[n - 1]) == c' - 1
    requires c' == c || (c' == c + 1 && n - 1 == DaysBeforeMonth(year, c'))
    ensures MonthStarts(readKey, cd, n) == MonthFirsts(year, c')
  {
    if c' != c {
      assert MonthStarts(readKey, cd, n) == MonthStarts(readKey, cd, n - 1) + [n - 1];
      FirstsAppend(year, c);
    }
  }

  lemma FirstsAppend(y: int, c: int)
    requires 0 <= c < 12
    ensures MonthFirsts(y, c + 1) == MonthFirsts(y, c) + [DaysBeforeMonth(y, c + 1)]
  {
  }

  /** A day of a whole year at grid position q is a Sunday when q is a
      multiple of seven. */
  lemma DayInItsRow(readKey: string -> Option<CalDate>, cd: seq<CalendarDay>, year: int, days: seq<CalDate>, k: int)
    requires ReadsAs(readKey, cd, days) && Weekdays(days, year) && 0 <= k < |cd|
    ensures IsSunday(readKey, cd[k]) <==> (FirstWeekday(year) + k) % 7 == 0
  {
  }

  /** Every column of a whole year's grid has seven cells, and there are as
      many columns as the leading blanks and the days fill. */
  lemma YearColumns(readKey: string -> Option<CalDate>, cd: seq<CalendarDay>, year: int, days: seq<CalDate>,
                    ws: seq<seq<CalendarDay>>)
    requires ReadsAs(readKey, cd, days) && Weekdays(days, year) && Columns(readKey, ws) && Cells(cd, FirstWeekday(year), ws)
    ensures forall j :: 0 <= j < |ws| ==> |ws[j]| == 7
    ensures |ws| == (FirstWeekday(year) + |cd| + 6) / 7
  {
    var w0 := FirstWeekday(year);
    BeyondSeventh(cd, w0, ws);
    forall k | 0 <= k < |cd|
      ensures IsSunday(readKey, cd[k]) <==> (w0 + k) % 7 == 0
    {
      DayInItsRow(readKey, cd, year, days, k);
    }
    ColumnCount(w0 + |cd|, |ws|);
  }

  /** A last column longer than seven holds a day in its eighth cell, one
      column after the start of that column. */
  lemma BeyondSeventh(cd: seq<CalendarDay>, w0: nat, ws: seq<seq<CalendarDay>>)
    requires Cells(cd, w0, ws) && w0 < 7
    ensures var last := |ws| - 1;
      |ws[last]| > 7 ==> 0 <= 7 * last + 7 - w0 < |cd| && ws[last][7] == cd[7 * last + 7 - w0]
  {
    var last := |ws| - 1;
    if |ws[last]| > 7 {
      assert ws[last][7] == GridCell(cd, w0, 7 * last + 7);
    }
  }

  /** n columns of seven cells hold t cells with less than a column to spare. */
  lemma ColumnCount(t: int, n: int)
    requires t <= 7 * n < t + 7
    ensures n == (t + 6) / 7
  {
  }

  /** Each day of a whole year's grid sits in the row of its weekday. */
  lemma YearRows(readKey: string -> Option<CalDate>, cd: seq<CalendarDay>, year: int, days: seq<CalDate>,
                 ws: seq<seq<CalendarDay>>)
    requires ReadsAs(readKey, cd, days) && Weekdays(days, year) && Columns(readKey, ws) && Cells(cd, FirstWeekday(year), ws)
    ensures forall k :: 0 <= k < |cd| ==>
      var q := FirstWeekday(year) + k;
      && q / 7 < |ws| && q % 7 == DayOfWeek(days[k])
      && q % 7 < |ws[q / 7]| && ws[q / 7][q % 7] == cd[k]
  {
    YearColumns(readKey, cd, year, days, ws);
    forall k | 0 <= k < |cd|
      ensures var q := FirstWeekday(year) + k;
        && q / 7 < |ws| && q % 7 == DayOfWeek(days[k])
        && q % 7 < |ws[q / 7]| && ws[q / 7][q % 7] == cd[k]
    {
      DayInGrid(cd, year, days, ws, k);
    }
  }

  lemma DayInGrid(cd: seq<CalendarDay>, year: int, days: seq<CalDate>, ws: seq<seq<CalendarDay>>, k: int)
    requires |cd| == |days| && Weekdays(days, year) && Cells(cd, FirstWeekday(year), ws)
    requires forall j :: 0 <= j < |ws| ==> |ws[j]| == 7
    requires 0 <= k < |cd|
    ensures var q := FirstWeekday(year) + k;
      && q / 7 < |ws| && q % 7 == DayOfWeek(days[k])
      && q % 7 < |ws[q / 7]| && ws[q / 7][q % 7] == cd[k]
  {
    GridPosition(cd, FirstWeekday(year), ws, FirstWeekday(year) + k);
  }

  /** In columns of seven, grid position q is cell q mod 7 of column q div 7. */
  lemma GridPosition(cd: seq<CalendarDay>, w0: nat, ws: seq<seq<CalendarDay>>, q: int)
    requires Cells(cd, w0, ws) && (forall j :: 0 <= j < |ws| ==> |ws[j]| == 7)
    requires w0 <= q < w0 + |cd|
    ensures q / 7 < |ws| && ws[q / 7][q % 7] == cd[q - w0]
  {
    var j, i := q / 7, q % 7;
    assert q == 7 * j + i;
    assert ws[j][i] == GridCell(cd, w0, 7 * j + i);
  }

  /** A whole year's grid has the twelve month names, in order, each over
      the column of the cell before its month's first day. */
  lemma YearLabels(readKey: string -> Option<CalDate>, cd: seq<CalendarDay>, year: int, days: seq<CalDate>,
                   columns: nat, labels: seq<MonthLabel>)
    requires ReadsAs(readKey, cd, days) && Months(days, year) && Labels(readKey, cd, FirstWeekday(year), columns, labels)
    ensures |labels| == 12
    ensures forall m :: 0 <= m < 12 ==>
      labels[m] == MonthLabel(MonthAbbrevs[m], LabelColumn(FirstWeekday(year) + DaysBeforeMonth(year, m + 1), columns))
  {
    YearMonthStarts(readKey, cd, year, days, |cd|);
    LabelsOverMonths(readKey, cd, year, days, columns, labels);
  }

  lemma LabelsOverMonths(readKey: string -> Option<CalDate>, cd: seq<CalendarDay>, year: int, days: seq<CalDate>,
                         columns: nat, labels: seq<MonthLabel>)
    requires ReadsAs(readKey, cd, days) && Months(days, year) && LabelsOver(readKey, labels, cd, MonthFirsts(year, 12), FirstWeekday(year), columns)
    ensures |labels| == 12
    ensures forall m :: 0 <= m < 12 ==>
      labels[m] == MonthLabel(MonthAbbrevs[m], LabelColumn(FirstWeekday(year) + DaysBeforeMonth(year, m + 1), columns))
  {
    forall m | 0 <= m < 12
      ensures labels[m] == MonthLabel(MonthAbbrevs[m], LabelColumn(FirstWeekday(year) + DaysBeforeMonth(year, m + 1), columns))
    {
      LabelOfMonth(readKey, cd, year, days, columns, labels, m);
    }
  }

  /** The label of month m + 1 names it, over the column of its first day. */
  lemma LabelOfMonth(readKey: string -> Option<CalDate>, cd: seq<CalendarDay>, year: int, days: seq<CalDate>,
                     columns: nat, labels: seq<MonthLabel>, m: int)
    requires ReadsAs(readKey, cd, days) && Months(days, year) && LabelsOver(readKey, labels, cd, MonthFirsts(year, 12), FirstWeekday(year), columns)
    requires 0 <= m < 12
    ensures m < |labels|
    ensures labels[m] == MonthLabel(MonthAbbrevs[m], LabelColumn(FirstWeekday(year) + DaysBeforeMonth(year, m + 1), columns))
  {
    var p := MonthFirsts(year, 12)[m];
    assert p == DaysBeforeMonth(year, m + 1);
    MonthOfFirstDay(readKey, cd, year, days, m + 1);
  }

  /** The first day of month m in a whole year's cells reads as month m. */
  lemma MonthOfFirstDay(readKey: string -> Option<CalDate>, cd: seq<CalendarDay>, year: int, days: seq<CalDate>, m: int)
    requires ReadsAs(readKey, cd, days) && Months(days, year) && 1 <= m <= 12
    ensures DaysBeforeMonth(year, m) < |cd| && MonthIndex(readKey, cd[DaysBeforeMonth(year, m)]) == m - 1
  {
  }
}
