/**
 * The summary of one year of daily activity: totals, streaks, the busiest
 * day, the busiest weekday and the rounded daily average.
 */
module Stats {

  import opened Wrappers
  import opened Text
  import opened Calendar
  import opened Records
  import opened DateUtils

  // ---------------------------------------------------------------------
  // The folds over the entries

  /** `reduce((sum, day) => sum + day.count, 0)`. */
  function TotalCount(s: seq<DailyActivity>): nat {
    if s == [] then 0 else TotalCount(s[..|s| - 1]) + s[|s| - 1].count
  }

  /** `filter(day => day.count > 0).length`. */
  function ActiveCount(s: seq<DailyActivity>): (n: nat)
    ensures n <= |s|
    ensures n == 0 <==> forall i :: 0 <= i < |s| ==> s[i].count == 0
  {
    if s == [] then 0 else ActiveCount(s[..|s| - 1]) + (if s[|s| - 1].count > 0 then 1 else 0)
  }

  /** The largest count, 0 for no entries. */
  function MaxCount(s: seq<DailyActivity>): (m: nat)
    ensures forall i :: 0 <= i < |s| ==> s[i].count <= m
    ensures s != [] ==> exists i :: 0 <= i < |s| && s[i].count == m
    ensures s == [] ==> m == 0
  {
    if s == [] then 0
    else
      var m := MaxCount(s[..|s| - 1]);
      assert forall i :: 0 <= i < |s| - 1 ==> s[..|s| - 1][i] == s[i];
      if s[|s| - 1].count > m then s[|s| - 1].count else m
  }

  /** The most active day as the source's fold finds it: starting from
      ("", 0), a later day replaces the current one only with a strictly
      larger count. */
  function MostActive(s: seq<DailyActivity>): (best: (string, nat))
    ensures best.1 == MaxCount(s)
    ensures best.1 == 0 ==> best.0 == ""
    ensures best.1 > 0 ==> exists i :: (0 <= i < |s| && s[i].date == best.0 && s[i].count == best.1
      && forall k :: 0 <= k < i ==> s[k].count < best.1)
  {
    if s == [] then ("", 0)
    else
      var init := s[..|s| - 1];
      var m := MostActive(init);
      assert forall i :: 0 <= i < |init| ==> init[i] == s[i];
      if s[|s| - 1].count > m.1 then (s[|s| - 1].date, s[|s| - 1].count) else m
  }

  // ---------------------------------------------------------------------
  // Weekday totals

  /** The weekday of an entry's key, when the key names a day. */
  function WeekdayOf(e: DailyActivity): Option<int> {
    match ParseDateKey(e.date)
    case Some(d) => Some(DayOfWeek(d))
    case None => None
  }

  /** Sum of the counts of the active entries that fall on weekday w. An
      entry whose key does not name a day lands on no weekday (the host
      indexes the array with NaN, which touches none of its seven slots). */
  function WeekdaySum(s: seq<DailyActivity>, w: int): nat {
    if s == [] then 0
    else
      var e := s[|s| - 1];
      WeekdaySum(s[..|s| - 1], w) + (if e.count > 0 && WeekdayOf(e) == Some(w) then e.count else 0)
  }

  function WeekdayTotals(s: seq<DailyActivity>): (t: seq<nat>)
    ensures |t| == 7
  {
    seq(7, w requires 0 <= w < 7 => WeekdaySum(s, w))
  }

  /** `Math.max(...c)`. */
  function MaxOf(c: seq<nat>): (m: nat)
    requires c != []
    ensures m in c && forall i :: 0 <= i < |c| ==> c[i] <= m
  {
    if |c| == 1 then c[0]
    else
      var m := MaxOf(c[1..]);
      assert forall i :: 1 <= i < |c| ==> c[i] == c[1..][i - 1];
      if c[0] > m then c[0] else m
  }

  /** `c.indexOf(v)` for a value that occurs. */
  function FirstIndexOf(c: seq<nat>, v: nat): (i: nat)
    requires v in c
    ensures i < |c| && c[i] == v && forall k :: 0 <= k < i ==> c[k] != v
  {
    if c[0] == v then 0
    else
      var i := FirstIndexOf(c[1..], v);
      assert forall k :: 1 <= k < |c| ==> c[k] == c[1..][k - 1];
      i + 1
  }

  /** `c.indexOf(Math.max(...c))`. */
  function FirstMaxIndex(c: seq<nat>): (i: nat)
    requires c != []
    ensures i < |c| && forall k :: 0 <= k < |c| ==> c[k] <= c[i]
    ensures forall k :: 0 <= k < i ==> c[k] < c[i]
  {
    FirstIndexOf(c, MaxOf(c))
  }

  // ---------------------------------------------------------------------
  // The average

  /** `Math.round(total / days * 100)` (hundredths), 0 when there are no days. */
  function AverageHundredths(total: nat, days: nat): (r: nat)
    ensures days == 0 ==> r == 0
    ensures days > 0 ==> 2 * days * r <= 200 * total + days < 2 * days * (r + 1)
  {
    if days == 0 then 0 else (200 * total + days) / (2 * days)
  }

  lemma AverageExamples()
    ensures AverageHundredths(0, 365) == 0
    ensures AverageHundredths(938, 365) == 257
    ensures AverageHundredths(1, 3) == 33 && AverageHundredths(2, 3) == 67
    ensures AverageHundredths(1, 8) == 13
  {
  }

  // ---------------------------------------------------------------------
  // The statistics of a chronological year

  /** What `calculateStats` reports for entries already in date order. */
  function StatsOf(s: seq<DailyActivity>, year: int): ActivityStats {
    ActivityStats(
      totalTweets := TotalCount(s),
      longestStreak := LongestRun(s),
      currentStreak := TrailingRun(s),
      mostActiveDay := MostActive(s).0,
      averagePerDay := AverageHundredths(TotalCount(s), |s|),
      totalDays := |s|,
      activeDays := ActiveCount(s),
      mostActiveDayOfWeek := DayOfWeekName(FirstMaxIndex(WeekdayTotals(s))),
      yearRange := DecimalString(year))
  }

  /** `calculateStats`. The totals are taken first; the streak computation
      then sorts the entries by date in place, and the busiest day and the
      weekday totals are read from the sorted entries, returned as `after`. */
  method CalculateStats(activities: seq<DailyActivity>, year: int)
    returns (stats: ActivityStats, after: seq<DailyActivity>)
    ensures SortedByDate(after) && multiset(after) == multiset(activities)
    ensures SortedByDate(activities) ==> after == activities
    ensures stats.totalTweets == TotalCount(activities)
    ensures stats.activeDays == ActiveCount(activities)
    ensures stats.totalDays == |activities|
    ensures stats.averagePerDay == AverageHundredths(TotalCount(activities), |activities|)
    ensures stats.currentStreak == TrailingRun(after) && stats.longestStreak == LongestRun(after)
    ensures stats.mostActiveDay == MostActive(after).0
    ensures stats.mostActiveDayOfWeek == DayOfWeekName(FirstMaxIndex(WeekdayTotals(after)))
    ensures stats.yearRange == DecimalString(year)
    ensures SortedByDate(activities) ==> stats == StatsOf(activities, year)
  {
    var totalTweets := TotalCount(activities);
    var activeDays := ActiveCount(activities);
    var totalDays := |activities|;

    var a := new DailyActivity[|activities|](i requires 0 <= i < |activities| => activities[i]);
    assert a[..] == activities;
    var currentStreak, longestStreak := CalculateStreak(a);
    after := a[..];

    var mostActiveDay := MostActive(after);

    var dayOfWeekCounts := WeekdayCounts(a);
    var mostActiveDayIndex := FirstMaxIndex(dayOfWeekCounts);

    stats := ActivityStats(
      totalTweets := totalTweets,
      longestStreak := longestStreak,
      currentStreak := currentStreak,
      mostActiveDay := mostActiveDay.0,
      averagePerDay := AverageHundredths(totalTweets, totalDays),
      totalDays := totalDays,
      activeDays := activeDays,
      mostActiveDayOfWeek := DayOfWeekName(mostActiveDayIndex),
      yearRange := DecimalString(year));
  }

  /** The `dayOfWeekCounts` loop: seven slots filled with `+=`. */
  method WeekdayCounts(a: array<DailyActivity>) returns (totals: seq<nat>)
    ensures totals == WeekdayTotals(a[..])
  {
    ghost var s := a[..];
    var counts := new nat[7](_ => 0);
    for i := 0 to a.Length
      invariant forall w :: 0 <= w < 7 ==> counts[w] == WeekdaySum(s[..i], w)
    {
      assert s[..i + 1][..i] == s[..i];
      if a[i].count > 0 {
        match ParseDateKey(a[i].date)
        case Some(d) =>
          var w := DayOfWeek(d);
          counts[w] := counts[w] + a[i].count;
        case None =>
      }
    }
    assert s[..a.Length] == s;
    totals := counts[..];
  }

  // ---------------------------------------------------------------------
  // Properties of the statistics

  /** An all-active window of n entries holds at least n active entries. */
  lemma {:induction false} ActiveCountOfWindow(s: seq<DailyActivity>, i: int, j: int)
    requires 0 <= i <= j <= |s| && AllActive(s[i..j])
    ensures j - i <= ActiveCount(s)
    decreases |s|
  {
    if j < |s| {
      assert s[..|s| - 1][i..j] == s[i..j];
      ActiveCountOfWindow(s[..|s| - 1], i, j);
    } else if i < j {
      var init := s[..|s| - 1];
      assert AllActive(init[i..j - 1]) by {
        forall k | i <= k < j - 1
          ensures init[k].count > 0
        {
          assert init[k] == s[i..j][k - i];
        }
      }
      assert s[|s| - 1] == s[i..j][j - 1 - i];
      ActiveCountOfWindow(init, i, j - 1);
    }
  }

  /** current streak <= longest streak <= active days <= total days. */
  lemma StatsBounds(s: seq<DailyActivity>, year: int)
    ensures var st := StatsOf(s, year);
      st.currentStreak <= st.longestStreak <= st.activeDays <= st.totalDays
  {
    StreakBounds(s);
    LongestRunHasWindow(s);
    var i :| ActiveWindow(s, i, LongestRun(s));
    ActiveCountOfWindow(s, i, i + LongestRun(s));
  }

  /** Nothing happened: no busiest day, Sunday as busiest weekday, no average. */
  lemma IdleStats(s: seq<DailyActivity>, year: int)
    requires forall i :: 0 <= i < |s| ==> s[i].count == 0
    ensures StatsOf(s, year).mostActiveDay == ""
    ensures StatsOf(s, year).mostActiveDayOfWeek == "Sunday"
    ensures StatsOf(s, year).totalTweets == 0 && StatsOf(s, year).averagePerDay == 0
  {
    IdleTotals(s);
    IdleWeekday(s);
    IdleBusiestDay(s);
    AverageOfNothing(|s|);
  }

  lemma AverageOfNothing(days: nat)
    ensures AverageHundredths(0, days) == 0
  {
    if days > 0 {
      assert days / (2 * days) == 0;
    }
  }

  lemma IdleWeekday(s: seq<DailyActivity>)
    requires forall w :: WeekdaySum(s, w) == 0
    ensures FirstMaxIndex(WeekdayTotals(s)) == 0
  {
    var t := WeekdayTotals(s);
    assert t[0] == 0;
  }

  lemma IdleBusiestDay(s: seq<DailyActivity>)
    requires forall i :: 0 <= i < |s| ==> s[i].count == 0
    ensures MostActive(s).0 == ""
  {
    if s != [] {
      var i :| 0 <= i < |s| && s[i].count == MaxCount(s);
    }
  }

  lemma {:induction false} IdleTotals(s: seq<DailyActivity>)
    requires forall i :: 0 <= i < |s| ==> s[i].count == 0
    ensures TotalCount(s) == 0
    ensures forall w :: WeekdaySum(s, w) == 0
  {
    if s != [] {
      IdleTotals(s[..|s| - 1]);
    }
  }

  /** When every key names a day, the seven weekday slots add up to the
      year's total. */
  lemma {:induction false} WeekdayTotalsSum(s: seq<DailyActivity>)
    requires KeysParse(s)
    ensures var t := WeekdayTotals(s); t[0] + t[1] + t[2] + t[3] + t[4] + t[5] + t[6] == TotalCount(s)
  {
    if s != [] {
      var init := s[..|s| - 1];
      assert KeysParse(init) by {
        assert forall i :: 0 <= i < |init| ==> init[i] == s[i];
      }
      WeekdayTotalsSum(init);
      var e := s[|s| - 1];
      assert ParseDateKey(e.date).Some?;
      var w := DayOfWeek(ParseDateKey(e.date).value);
      WeekdaySumStep(s, w);
      var t, t0 := WeekdayTotals(s), WeekdayTotals(init);
      assert t[0] + t[1] + t[2] + t[3] + t[4] + t[5] + t[6] == t0[0] + t0[1] + t0[2] + t0[3] + t0[4] + t0[5] + t0[6] + e.count;
    }
  }

  /** The last entry adds its count to the slot of its weekday only. */
  lemma WeekdaySumStep(s: seq<DailyActivity>, w: int)
    requires s != [] && WeekdayOf(s[|s| - 1]) == Some(w)
    ensures forall v :: WeekdaySum(s, v) == WeekdaySum(s[..|s| - 1], v) + if v == w then s[|s| - 1].count else 0
  {
  }

  /** The busiest weekday is the lowest-numbered weekday with the largest
      total: a tie goes to the earlier day of the week. */
  lemma BusiestWeekdayTieBreak(s: seq<DailyActivity>, year: int, w: int)
    requires 0 <= w < 7
    ensures var t := WeekdayTotals(s); var i := FirstMaxIndex(t);
      StatsOf(s, year).mostActiveDayOfWeek == WeekdayNames[i]
      && t[w] <= t[i] && (w < i ==> t[w] < t[i])
  {
  }
}
