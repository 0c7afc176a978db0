/**
 * The calendar grid of the heat map: the days are laid out in week columns
 * (Sunday at the top), preceded by blank cells up to Jan 1's weekday and
 * followed by blanks that fill the last column; a month label is recorded
 * with the column it is drawn over; a level is shown as a colour class.
 *
 * A day key is read back into a day by `readKey`, the component's
 * `new Date(key)` in the host's zone; under UTC it is `ParseDateKey`
 * (heatmap_year.dfy proves the layout of a whole year for that reading).
 */
module HeatmapLayout {

  import opened Wrappers
  import opened Calendar
  import opened Records
  import opened TwitterParser

  datatype MonthLabel = MonthLabel(text: string, weekIndex: nat)

  /** The grid: week columns of cells, and the month labels. */
  datatype Layout = Layout(weeks: seq<seq<CalendarDay>>, monthLabels: seq<MonthLabel>)

  /** The filler cell. */
  const Blank: CalendarDay := CalendarDay("", 0, 0, [])

  /** Grid position q, counted column after column: w0 blanks, then the
      days, then blanks. */
  function GridCell(cd: seq<CalendarDay>, w0: nat, q: int): CalendarDay {
    if w0 <= q < w0 + |cd| then cd[q - w0] else Blank
  }

  /** `format(date, 'MMM')` in the default locale. */
  const MonthAbbrevs: seq<string> :=
    ["Jan", "Feb", "Mar", "Apr", "May", "Jun", "Jul", "Aug", "Sep", "Oct", "Nov", "Dec"]

  function MonthAbbrev(m: int): string {
    if 0 <= m < 12 then MonthAbbrevs[m] else ""
  }

  /** Every cell's key reads as a day (otherwise formatting its month throws). */
  predicate CellsParse(readKey: string -> Option<CalDate>, cd: seq<CalendarDay>) {
    forall k :: 0 <= k < |cd| ==> readKey(cd[k].date).Some?
  }

  /** `getMonth(new Date(day.date))`, 0 = January. */
  function MonthIndex(readKey: string -> Option<CalDate>, day: CalendarDay): int {
    match readKey(day.date)
    case Some(d) => d.month - 1
    case None => -1
  }

  predicate IsSunday(readKey: string -> Option<CalDate>, day: CalendarDay) {
    readKey(day.date).Some? && DayOfWeek(readKey(day.date).value) == 0
  }

  /** The month-starting positions among the first n days: the first day, and
      every day whose month differs from the previous day's. */
  function MonthStarts(readKey: string -> Option<CalDate>, cd: seq<CalendarDay>, n: nat): (r: seq<nat>)
    requires n <= |cd|
    ensures forall j :: 0 <= j < |r| ==> r[j] < n
  {
    if n == 0 then []
    else MonthStarts(readKey, cd, n - 1) + if n == 1 || MonthIndex(readKey, cd[n - 1]) != MonthIndex(readKey, cd[n - 2]) then [n - 1] else []
  }

  /** Day p is the first of the days or in another month than the day before. */
  predicate StartsMonth(readKey: string -> Option<CalDate>, cd: seq<CalendarDay>, p: int) {
    0 <= p < |cd| && (p == 0 || MonthIndex(readKey, cd[p]) != MonthIndex(readKey, cd[p - 1]))
  }

  /** MonthStarts lists, in increasing order, exactly the days among the
      first n that start a month. */
  lemma {:induction false} MonthStartsExact(readKey: string -> Option<CalDate>, cd: seq<CalendarDay>, n: nat)
    requires n <= |cd|
    ensures forall i, j :: 0 <= i < j < |MonthStarts(readKey, cd, n)| ==> MonthStarts(readKey, cd, n)[i] < MonthStarts(readKey, cd, n)[j]
    ensures forall p :: p in MonthStarts(readKey, cd, n) <==> p < n && StartsMonth(readKey, cd, p)
  {
    if n > 0 {
      MonthStartsExact(readKey, cd, n - 1);
      var last: seq<nat> := if n == 1 || MonthIndex(readKey, cd[n - 1]) != MonthIndex(readKey, cd[n - 2]) then [n - 1] else [];
      assert MonthStarts(readKey, cd, n) == MonthStarts(readKey, cd, n - 1) + last;
      assert StartsMonth(readKey, cd, n - 1) <==> n == 1 || MonthIndex(readKey, cd[n - 1]) != MonthIndex(readKey, cd[n - 2]);
    }
  }

  /** The column a label is drawn over once the grid has `columns` columns:
      the column of the cell just before the month's first day (the first
      column for the very first cell). */
  function LabelColumn(pos: nat, columns: nat): nat {
    if pos == 0 then 0
    else if (pos - 1) / 7 < columns then (pos - 1) / 7
    else if columns == 0 then 0 else columns - 1
  }

  /** Complete columns of seven cells, then a last column of at least
      seven; every column after the first starts with a Sunday, and the last
      one has no Sunday in its eighth cell. */
  predicate Columns(readKey: string -> Option<CalDate>, weeks: seq<seq<CalendarDay>>) {
    && weeks != []
    && (forall j :: 0 <= j < |weeks| - 1 ==> |weeks[j]| == 7)
    && |weeks[|weeks| - 1]| >= 7
    && (forall j :: 0 < j < |weeks| ==> IsSunday(readKey, weeks[j][0]))
    && (|weeks[|weeks| - 1]| > 7 ==> !IsSunday(readKey, weeks[|weeks| - 1][7]))
  }

  /** Cell i of column j is grid position 7j + i, and the grid ends less than
      a column after the last day; blanks are only added to fill the last
      column up to seven cells. */
  predicate Cells(cd: seq<CalendarDay>, w0: nat, weeks: seq<seq<CalendarDay>>) {
    && weeks != []
    && w0 + |cd| <= 7 * (|weeks| - 1) + |weeks[|weeks| - 1]| < w0 + |cd| + 7
    && (|weeks[|weeks| - 1]| > 7 ==> 7 * (|weeks| - 1) + |weeks[|weeks| - 1]| == w0 + |cd|)
    && forall j, i :: 0 <= j < |weeks| && 0 <= i < |weeks[j]| ==> weeks[j][i] == GridCell(cd, w0, 7 * j + i)
  }

  /** One label per month start, naming the month, over its LabelColumn. */
  predicate Labels(readKey: string -> Option<CalDate>, cd: seq<CalendarDay>, w0: nat, columns: nat, labels: seq<MonthLabel>) {
    LabelsOver(readKey, labels, cd, MonthStarts(readKey, cd, |cd|), w0, columns)
  }

  predicate LabelsOver(readKey: string -> Option<CalDate>, labels: seq<MonthLabel>, cd: seq<CalendarDay>, starts: seq<nat>, w0: nat, columns: nat) {
    && |labels| == |starts|
    && forall j :: 0 <= j < |starts| ==>
         starts[j] < |cd| && labels[j] == MonthLabel(MonthAbbrev(MonthIndex(readKey, cd[starts[j]])), LabelColumn(w0 + starts[j], columns))
  }

  /** The grid of `cd` for `year`: all that the layout promises. */
  predicate LaidOut(readKey: string -> Option<CalDate>, cd: seq<CalendarDay>, year: int, l: Layout) {
    if cd == [] then l.weeks == [] && l.monthLabels == []
    else
      && Columns(readKey, l.weeks)
      && Cells(cd, FirstWeekday(year), l.weeks)
      && Labels(readKey, cd, FirstWeekday(year), |l.weeks|, l.monthLabels)
  }

  /** A later grid position never gets an earlier label column. */
  lemma LabelColumnMonotone(p: nat, q: nat, columns: nat)
    requires p <= q
    ensures LabelColumn(p, columns) <= LabelColumn(q, columns)
  {
  }

  /** In a finished layout the labels' columns never decrease from one month
      label to the next. */
  lemma LabelsInColumnOrder(readKey: string -> Option<CalDate>, cd: seq<CalendarDay>, year: int, l: Layout)
    requires LaidOut(readKey, cd, year, l)
    ensures forall i, j :: 0 <= i < j < |l.monthLabels| ==> l.monthLabels[i].weekIndex <= l.monthLabels[j].weekIndex
  {
    if cd != [] {
      MonthStartsExact(readKey, cd, |cd|);
      var starts := MonthStarts(readKey, cd, |cd|);
      forall i, j | 0 <= i < j < |l.monthLabels|
        ensures l.monthLabels[i].weekIndex <= l.monthLabels[j].weekIndex
      {
        LabelColumnMonotone(FirstWeekday(year) + starts[i], FirstWeekday(year) + starts[j], |l.weeks|);
      }
    }
  }

  // ---------------------------------------------------------------------
  // The layout loop

  /** What the loop has built after the first `index` days: complete
      columns of seven grid cells, each after the first starting with a
      Sunday, and an open column with the grid cells after them, which starts
      with a Sunday once a column is complete and never has a Sunday in its
      eighth cell. */
  predicate Placed(readKey: string -> Option<CalDate>, cd: seq<CalendarDay>, index: nat, w0: nat, weeks: seq<seq<CalendarDay>>, current: seq<CalendarDay>) {
    && 7 * |weeks| + |current| == w0 + index
    && (forall j :: 0 <= j < |weeks| ==> |weeks[j]| == 7)
    && (forall j, i :: 0 <= j < |weeks| && 0 <= i < 7 ==> weeks[j][i] == GridCell(cd, w0, 7 * j + i))
    && (forall i :: 0 <= i < |current| ==> current[i] == GridCell(cd, w0, 7 * |weeks| + i))
    && (forall j :: 0 < j < |weeks| ==> IsSunday(readKey, weeks[j][0]))
    && (|weeks| > 0 ==> current != [] && IsSunday(readKey, current[0]))
    && (|current| > 7 ==> !IsSunday(readKey, current[7]))
  }

  /** The label column while `closed` columns are complete and the open one
      holds the cells after them. */
  function OpenColumn(pos: nat, closed: nat): nat {
    if pos == 0 then 0 else if pos - 1 < 7 * closed then (pos - 1) / 7 else closed
  }

  predicate LabelsAt(readKey: string -> Option<CalDate>, labels: seq<MonthLabel>, cd: seq<CalendarDay>, starts: seq<nat>, w0: nat, closed: nat) {
    && |labels| == |starts|
    && forall j :: 0 <= j < |starts| ==>
         starts[j] < |cd| && labels[j] == MonthLabel(MonthAbbrev(MonthIndex(readKey, cd[starts[j]])), OpenColumn(w0 + starts[j], closed))
  }

  /** Day `index` placed into the open column. */
  lemma PlaceInOpen(readKey: string -> Option<CalDate>, cd: seq<CalendarDay>, index: nat, w0: nat, weeks: seq<seq<CalendarDay>>, current: seq<CalendarDay>)
    requires index < |cd| && Placed(readKey, cd, index, w0, weeks, current)
    requires !(IsSunday(readKey, cd[index]) && |current| == 7)
    ensures Placed(readKey, cd, index + 1, w0, weeks, current + [cd[index]])
  {
  }

  /** The full open column closed, and day `index` (a Sunday) starting the next. */
  lemma PlaceAfterClose(readKey: string -> Option<CalDate>, cd: seq<CalendarDay>, index: nat, w0: nat, weeks: seq<seq<CalendarDay>>, current: seq<CalendarDay>)
    requires index < |cd| && Placed(readKey, cd, index, w0, weeks, current)
    requires IsSunday(readKey, cd[index]) && |current| == 7
    ensures Placed(readKey, cd, index + 1, w0, weeks + [current], [cd[index]])
  {
    var ws := weeks + [current];
    forall j, i | 0 <= j < |ws| && 0 <= i < 7
      ensures ws[j][i] == GridCell(cd, w0, 7 * j + i)
    {
      if j == |weeks| {
        assert ws[j] == current;
      }
    }
  }

  /** The label recorded for the first day of a month, before that day is placed. */
  lemma LabelStep(readKey: string -> Option<CalDate>, labels: seq<MonthLabel>, cd: seq<CalendarDay>, starts: seq<nat>, w0: nat,
                  weeks: seq<seq<CalendarDay>>, current: seq<CalendarDay>, index: nat)
    requires index < |cd| && Placed(readKey, cd, index, w0, weeks, current)
    requires LabelsAt(readKey, labels, cd, starts, w0, |weeks|)
    ensures LabelsAt(readKey, labels + [MonthLabel(MonthAbbrev(MonthIndex(readKey, cd[index])), |weeks|)], cd, starts + [index], w0, |weeks|)
  {
  }

  /** Closing the open column leaves the recorded labels where they were. */
  lemma CloseKeepsLabels(readKey: string -> Option<CalDate>, labels: seq<MonthLabel>, cd: seq<CalendarDay>, starts: seq<nat>, w0: nat, closed: nat)
    requires LabelsAt(readKey, labels, cd, starts, w0, closed)
    requires forall j :: 0 <= j < |starts| ==> w0 + starts[j] <= 7 * closed + 7
    ensures LabelsAt(readKey, labels, cd, starts, w0, closed + 1)
  {
  }

  /** The last column padded with blanks to seven cells and pushed. */
  lemma PlacedFinal(readKey: string -> Option<CalDate>, cd: seq<CalendarDay>, w0: nat, weeks: seq<seq<CalendarDay>>, current: seq<CalendarDay>,
                    padded: seq<CalendarDay>)
    requires cd != [] && Placed(readKey, cd, |cd|, w0, weeks, current)
    requires |padded| >= |current| && padded[..|current|] == current
    requires forall i :: |current| <= i < |padded| ==> padded[i] == Blank
    requires |padded| >= 7 && (|padded| > |current| ==> |padded| <= 7)
    ensures Columns(readKey, weeks + [padded]) && Cells(cd, w0, weeks + [padded])
  {
    var ws := weeks + [padded];
    forall j, i | 0 <= j < |ws| && 0 <= i < |ws[j]|
      ensures ws[j][i] == GridCell(cd, w0, 7 * j + i)
    {
      if j == |weeks| {
        assert ws[j] == padded;
        if i < |current| {
          assert padded[i] == current[i];
        }
      }
    }
    if |weeks| > 0 {
      assert ws[|weeks|][0] == current[0];
    }
    if |padded| > 7 {
      assert padded[7] == current[7];
    }
    assert |ws| - 1 == |weeks| && ws[|ws| - 1] == padded;
    assert 7 * (|ws| - 1) + |ws[|ws| - 1]| == 7 * |weeks| + |padded|;
    assert |current| >= 1 by {
      if |current| == 0 {
        assert |weeks| == 0;
      }
    }
    assert |padded| < |current| + 7;
  }

  /** Once the last column is pushed, a label's column is its LabelColumn. */
  lemma FinalLabels(readKey: string -> Option<CalDate>, labels: seq<MonthLabel>, cd: seq<CalendarDay>, starts: seq<nat>, w0: nat, closed: nat)
    requires LabelsAt(readKey, labels, cd, starts, w0, closed)
    ensures LabelsOver(readKey, labels, cd, starts, w0, closed + 1)
  {
    forall j | 0 <= j < |starts|
      ensures labels[j] == MonthLabel(MonthAbbrev(MonthIndex(readKey, cd[starts[j]])), LabelColumn(w0 + starts[j], closed + 1))
    {
      OpenIsLabelColumn(w0 + starts[j], closed);
    }
  }

  lemma OpenIsLabelColumn(pos: nat, closed: nat)
    ensures OpenColumn(pos, closed) == LabelColumn(pos, closed + 1)
  {
    if pos > 0 && pos - 1 >= 7 * closed {
      assert (pos - 1) / 7 >= closed;
    }
  }

  /** The whole state of the loop after the first `index` days. */
  predicate Progress(readKey: string -> Option<CalDate>, cd: seq<CalendarDay>, index: nat, w0: nat, weeks: seq<seq<CalendarDay>>, current: seq<CalendarDay>,
                     lastMonth: int, starts: seq<nat>, labels: seq<MonthLabel>)
    requires index <= |cd|
  {
    && (forall k :: 0 <= k < index ==> readKey(cd[k].date).Some?)
    && Placed(readKey, cd, index, w0, weeks, current)
    && lastMonth == (if index == 0 then -1 else MonthIndex(readKey, cd[index - 1]))
    && starts == MonthStarts(readKey, cd, index)
    && LabelsAt(readKey, labels, cd, starts, w0, |weeks|)
  }

  /** One turn of the loop over the days, for a day whose key reads: a new
      month records its label, a full column followed by a Sunday is closed,
      and the day joins the open column. */
  lemma Advance(readKey: string -> Option<CalDate>, cd: seq<CalendarDay>, index: nat, w0: nat,
                weeks: seq<seq<CalendarDay>>, current: seq<CalendarDay>, lastMonth: int, starts: seq<nat>, labels: seq<MonthLabel>,
                weeks': seq<seq<CalendarDay>>, current': seq<CalendarDay>, lastMonth': int, starts': seq<nat>, labels': seq<MonthLabel>)
    requires index < |cd| && readKey(cd[index].date).Some?
    requires Progress(readKey, cd, index, w0, weeks, current, lastMonth, starts, labels)
    requires lastMonth' == MonthIndex(readKey, cd[index])
    requires MonthIndex(readKey, cd[index]) != lastMonth ==>
      labels' == labels + [MonthLabel(MonthAbbrev(MonthIndex(readKey, cd[index])), |weeks|)] && starts' == starts + [index]
    requires MonthIndex(readKey, cd[index]) == lastMonth ==> labels' == labels && starts' == starts
    requires IsSunday(readKey, cd[index]) && |current| == 7 ==> weeks' == weeks + [current] && current' == [cd[index]]
    requires !(IsSunday(readKey, cd[index]) && |current| == 7) ==> weeks' == weeks && current' == current + [cd[index]]
    ensures Progress(readKey, cd, index + 1, w0, weeks', current', lastMonth', starts', labels')
  {
    AdvanceMonth(readKey, cd, index, w0, weeks, current, lastMonth, starts, labels, starts', labels');
    if IsSunday(readKey, cd[index]) && |current| == 7 {
      PlaceAfterClose(readKey, cd, index, w0, weeks, current);
      CloseKeepsLabels(readKey, labels', cd, starts', w0, |weeks|);
    } else {
      PlaceInOpen(readKey, cd, index, w0, weeks, current);
    }
  }

  /** The month part of a turn: a day in another month than the day before
      starts a month and gets its label over the open column. */
  lemma AdvanceMonth(readKey: string -> Option<CalDate>, cd: seq<CalendarDay>, index: nat, w0: nat,
                     weeks: seq<seq<CalendarDay>>, current: seq<CalendarDay>, lastMonth: int, starts: seq<nat>, labels: seq<MonthLabel>,
                     starts': seq<nat>, labels': seq<MonthLabel>)
    requires index < |cd| && readKey(cd[index].date).Some?
    requires Progress(readKey, cd, index, w0, weeks, current, lastMonth, starts, labels)
    requires MonthIndex(readKey, cd[index]) != lastMonth ==>
      labels' == labels + [MonthLabel(MonthAbbrev(MonthIndex(readKey, cd[index])), |weeks|)] && starts' == starts + [index]
    requires MonthIndex(readKey, cd[index]) == lastMonth ==> labels' == labels && starts' == starts
    ensures starts' == MonthStarts(readKey, cd, index + 1)
    ensures LabelsAt(readKey, labels', cd, starts', w0, |weeks|)
  {
    if MonthIndex(readKey, cd[index]) != lastMonth {
      LabelStep(readKey, labels, cd, starts, w0, weeks, current, index);
    } else {
      assert index > 0;
    }
  }

  /** Blank cells appended to `cells` until it holds at least n. */
  method Pad(cells: seq<CalendarDay>, n: nat) returns (padded: seq<CalendarDay>)
    ensures |padded| == if |cells| < n then n else |cells|
    ensures padded[..|cells|] == cells
    ensures forall i :: |cells| <= i < |padded| ==> padded[i] == Blank
  {
    padded := cells;
    while |padded| < n
      invariant |padded| >= |cells| && padded[..|cells|] == cells
      invariant forall i :: |cells| <= i < |padded| ==> padded[i] == Blank
      invariant |padded| > |cells| ==> |padded| <= n
      decreases n - |padded|
    {
      padded := padded + [Blank];
    }
  }

  /** After the last day, the open column padded with blanks completes the grid. */
  lemma Finish(readKey: string -> Option<CalDate>, cd: seq<CalendarDay>, year: int, weeks: seq<seq<CalendarDay>>, current: seq<CalendarDay>, padded: seq<CalendarDay>,
               lastMonth: int, starts: seq<nat>, labels: seq<MonthLabel>)
    requires cd != [] && Progress(readKey, cd, |cd|, FirstWeekday(year), weeks, current, lastMonth, starts, labels)
    requires |padded| >= |current| && padded[..|current|] == current
    requires forall i :: |current| <= i < |padded| ==> padded[i] == Blank
    requires |padded| >= 7 && (|padded| > |current| ==> |padded| <= 7)
    ensures CellsParse(readKey, cd) && LaidOut(readKey, cd, year, Layout(weeks + [padded], labels))
  {
    PlacedFinal(readKey, cd, FirstWeekday(year), weeks, current, padded);
    FinalLabels(readKey, labels, cd, starts, FirstWeekday(year), |weeks|);
  }

  /** Before the first day: only the blanks leading up to its weekday. */
  lemma Start(readKey: string -> Option<CalDate>, cd: seq<CalendarDay>, w0: nat, current: seq<CalendarDay>)
    requires w0 < 7 && |current| == w0 && forall i :: 0 <= i < |current| ==> current[i] == Blank
    ensures Progress(readKey, cd, 0, w0, [], current, -1, [], [])
  {
  }

  /** With no days there are neither columns nor labels. */
  lemma NothingToLayOut(readKey: string -> Option<CalDate>, year: int, weeks: seq<seq<CalendarDay>>, current: seq<CalendarDay>,
                        lastMonth: int, starts: seq<nat>, labels: seq<MonthLabel>)
    requires Progress(readKey, [], 0, FirstWeekday(year), weeks, current, lastMonth, starts, labels)
    ensures CellsParse(readKey, []) && LaidOut(readKey, [], year, Layout(weeks, labels))
  {
  }

  /** The `useMemo` that computes `{ weeks, monthLabels }`. The block the
      source runs at the last index is run once after the last day. A key
      that does not read as a day makes the month formatter throw. */
  method LayOut(readKey: string -> Option<CalDate>, calendarData: seq<CalendarDay>, year: int) returns (r: Result<Layout, string>)
    ensures r.Failure? <==> !CellsParse(readKey, calendarData)
    ensures r.Failure? ==> r.error == InvalidTime
    ensures r.Success? ==> LaidOut(readKey, calendarData, year, r.value)
  {
    var weeks: seq<seq<CalendarDay>> := [];
    var monthLabels: seq<MonthLabel> := [];
    var currentWeek: seq<CalendarDay> := [];
    var lastMonth := -1;
    var firstDayOfWeek := FirstWeekday(year);
    currentWeek := Pad(currentWeek, firstDayOfWeek);
    ghost var starts: seq<nat> := [];
    Start(readKey, calendarData, firstDayOfWeek, currentWeek);
    for index := 0 to |calendarData|
      invariant Progress(readKey, calendarData, index, firstDayOfWeek, weeks, currentWeek, lastMonth, starts, monthLabels)
    {
      var day := calendarData[index];
      var date := readKey(day.date);
      if date.None? {
        return Failure(InvalidTime);
      }
      weeks, currentWeek, lastMonth, monthLabels, starts :=
        PlaceDay(readKey, calendarData, index, firstDayOfWeek, date.value, weeks, currentWeek, lastMonth, monthLabels, starts);
    }
    if |calendarData| > 0 {
      var lastWeek := Pad(currentWeek, 7);
      Finish(readKey, calendarData, year, weeks, currentWeek, lastWeek, lastMonth, starts, monthLabels);
      weeks := weeks + [lastWeek];
    } else {
      NothingToLayOut(readKey, year, weeks, currentWeek, lastMonth, starts, monthLabels);
    }
    r := Success(Layout(weeks, monthLabels));
  }

  /** The body of the `forEach` over the days, for day `index`, whose key
      reads as `date`: a new month records its label over the current column,
      a Sunday after a full column closes it, and the day joins the open
      column. */
  method PlaceDay(readKey: string -> Option<CalDate>, calendarData: seq<CalendarDay>, index: nat, firstDayOfWeek: nat,
                  date: CalDate, weeks: seq<seq<CalendarDay>>, currentWeek: seq<CalendarDay>, lastMonth: int,
                  monthLabels: seq<MonthLabel>, ghost starts: seq<nat>)
    returns (weeks': seq<seq<CalendarDay>>, currentWeek': seq<CalendarDay>, lastMonth': int,
             monthLabels': seq<MonthLabel>, ghost starts': seq<nat>)
    requires index < |calendarData| && readKey(calendarData[index].date) == Some(date)
    requires Progress(readKey, calendarData, index, firstDayOfWeek, weeks, currentWeek, lastMonth, starts, monthLabels)
    ensures Progress(readKey, calendarData, index + 1, firstDayOfWeek, weeks', currentWeek', lastMonth', starts', monthLabels')
  {
    var day := calendarData[index];
    weeks', currentWeek', lastMonth', monthLabels', starts' := weeks, currentWeek, lastMonth, monthLabels, starts;
    var dayOfWeek := DayOfWeek(date);
    var month := date.month - 1;
    if month != lastMonth' {
      monthLabels' := monthLabels' + [MonthLabel(MonthAbbrev(month), |weeks'|)];
      ghost var at: nat := index;
      starts' := starts' + [at];
      lastMonth' := month;
    }
    if dayOfWeek == 0 && |currentWeek'| == 7 {
      weeks' := weeks' + [currentWeek'];
      currentWeek' := [];
    }
    currentWeek' := currentWeek' + [day];
    Advance(readKey, calendarData, index, firstDayOfWeek, weeks, currentWeek, lastMonth, starts, monthLabels,
            weeks', currentWeek', lastMonth', starts', monthLabels');
  }

  // ---------------------------------------------------------------------
  // Colours

  /** `getColorClass`. */
  function ColorClass(level: int): (c: string)
    ensures !(1 <= level <= 4) <==> c == "bg-gray-100"
  {
    match level
    case 0 => "bg-gray-100"
    case 1 => "bg-green-200"
    case 2 => "bg-green-300"
    case 3 => "bg-green-500"
    case 4 => "bg-green-700"
    case _ => "bg-gray-100"
  }

  /** The five levels get five different classes. */
  lemma ColorClassInjective(i: int, j: int)
    requires 0 <= i <= 4 && 0 <= j <= 4 && ColorClass(i) == ColorClass(j)
    ensures i == j
  {
  }

  /** A day of the calendar is drawn green exactly when it has posts. */
  lemma GreenExactlyOnActiveDays(activities: seq<DailyActivity>, k: int)
    requires 0 <= k < |activities|
    ensures ColorClass(GenerateCalendarData(activities)[k].level) != "bg-gray-100" <==> activities[k].count > 0
  {
    CalendarLevels(activities);
  }
}
