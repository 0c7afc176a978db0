/**
 * What the heat-map data says about the posts it was built from: a day's
 * bucket holds exactly that day's posts, a year's total is the number of
 * posts made in that year, and the yearly totals add up to all the posts.
 */
module HeatmapProperties {

  import opened Wrappers
  import opened Calendar
  import opened Records
  import opened Stats
  import opened TwitterParser

  /** A post is among the posts of day d exactly when it was made on d. */
  lemma {:induction false} DayTweetsMembers(ts: seq<Tweet>, parseDate: string -> Option<CalDate>, d: CalDate, t: Tweet)
    ensures t in DayTweets(ts, parseDate, FormatDate(d)) <==> t in ts && parseDate(t.createdAt) == Some(d)
  {
    var key := FormatDate(d);
    if ts != [] {
      var init, last := ts[..|ts| - 1], ts[|ts| - 1];
      DayTweetsMembers(init, parseDate, d, t);
      assert ts == init + [last];
      assert t in DayTweets(ts, parseDate, key) <==> t in DayTweets(init, parseDate, key) || (t == last && OnDay(last, parseDate, key));
      if t == last && OnDay(last, parseDate, key) {
        FormatDateInjective(parseDate(last.createdAt).value, d);
      }
    }
  }

  // ---------------------------------------------------------------------
  // A year's total

  lemma {:induction false} TotalCountZero(s: seq<DailyActivity>)
    requires forall i :: 0 <= i < |s| ==> s[i].count == 0
    ensures TotalCount(s) == 0
  {
    if s != [] {
      TotalCountZero(s[..|s| - 1]);
    }
  }

  lemma {:induction false} TotalCountSame(s: seq<DailyActivity>, s': seq<DailyActivity>)
    requires |s| == |s'| && forall i :: 0 <= i < |s| ==> s'[i].count == s[i].count
    ensures TotalCount(s') == TotalCount(s)
  {
    if s != [] {
      TotalCountSame(s[..|s| - 1], s'[..|s| - 1]);
    }
  }

  /** One more post on one day adds one to the total. */
  lemma {:induction false} TotalCountBump(s: seq<DailyActivity>, s': seq<DailyActivity>, k: int)
    requires |s| == |s'| && 0 <= k < |s|
    requires s'[k].count == s[k].count + 1
    requires forall i :: 0 <= i < |s| && i != k ==> s'[i].count == s[i].count
    ensures TotalCount(s') == TotalCount(s) + 1
  {
    var n := |s| - 1;
    if k == n {
      TotalCountSame(s[..n], s'[..n]);
    } else {
      TotalCountBump(s[..n], s'[..n], k);
    }
  }

  /** The last post bumps the count of its own day of year y, and only that one. */
  lemma LastPostCounts(ts: seq<Tweet>, parseDate: string -> Option<CalDate>, y: int, i: int)
    requires ts != [] && MinYear <= y <= MaxYear && 0 <= i < |YearDates(y)|
    ensures var t := ts[|ts| - 1];
      YearActivities(ts, parseDate, y)[i].count
        == YearActivities(ts[..|ts| - 1], parseDate, y)[i].count
           + if parseDate(t.createdAt) == Some(YearDates(y)[i]) then 1 else 0
  {
    var t := ts[|ts| - 1];
    var key := FormatDate(YearDates(y)[i]);
    if OnDay(t, parseDate, key) {
      FormatDateInjective(parseDate(t.createdAt).value, YearDates(y)[i]);
    }
  }

  /** The last post adds one to the total of its own year, and nothing to the others'. */
  lemma YearTotalStep(ts: seq<Tweet>, parseDate: string -> Option<CalDate>, y: int)
    requires ts != [] && MinYear <= y <= MaxYear
    ensures var d := parseDate(ts[|ts| - 1].createdAt);
      TotalCount(YearActivities(ts, parseDate, y))
        == TotalCount(YearActivities(ts[..|ts| - 1], parseDate, y)) + if d.Some? && d.value.year == y then 1 else 0
  {
    var t := ts[|ts| - 1];
    var a, b := YearActivities(ts[..|ts| - 1], parseDate, y), YearActivities(ts, parseDate, y);
    forall i | 0 <= i < |b|
      ensures b[i].count == a[i].count + if parseDate(t.createdAt) == Some(YearDates(y)[i]) then 1 else 0
    {
      LastPostCounts(ts, parseDate, y, i);
    }
    var d := parseDate(t.createdAt);
    if d.Some? && d.value.year == y {
      OrdinalInYear(d.value);
      var k := Ordinal(d.value);
      forall i | 0 <= i < |b|
        ensures YearDates(y)[i] == d.value <==> i == k
      {
        YearDatesContains(d.value, i);
      }
      TotalCountBump(a, b, k);
    } else {
      forall i | 0 <= i < |b|
        ensures b[i].count == a[i].count
      {
        YearDatesAt(y, i);
      }
      TotalCountSame(a, b);
    }
  }

  /** The total of year y's activities is the number of posts made in year y. */
  lemma {:induction false} YearTotal(ts: seq<Tweet>, parseDate: string -> Option<CalDate>, y: int)
    requires MinYear <= y <= MaxYear
    ensures TotalCount(YearActivities(ts, parseDate, y)) == YearCount(ts, parseDate, y)
  {
    if ts == [] {
      TotalCountZero(YearActivities(ts, parseDate, y));
    } else {
      YearTotal(ts[..|ts| - 1], parseDate, y);
      YearTotalStep(ts, parseDate, y);
    }
  }

  // ---------------------------------------------------------------------
  // All the years together

  /** Posts made in the years ys. */
  function SumYearCounts(ts: seq<Tweet>, parseDate: string -> Option<CalDate>, ys: seq<int>): nat {
    if ys == [] then 0
    else SumYearCounts(ts, parseDate, ys[..|ys| - 1]) + YearCount(ts, parseDate, ys[|ys| - 1])
  }

  /** How often x occurs in ys. */
  function Occurrences(ys: seq<int>, x: int): nat {
    if ys == [] then 0
    else Occurrences(ys[..|ys| - 1], x) + if ys[|ys| - 1] == x then 1 else 0
  }

  lemma {:induction false} OccursOnce(ys: seq<int>, x: int)
    requires Distinct(ys)
    ensures Occurrences(ys, x) == if x in ys then 1 else 0
  {
    if ys != [] {
      var init := ys[..|ys| - 1];
      OccursOnce(init, x);
      assert ys == init + [ys[|ys| - 1]];
    }
  }

  /** Adding the last post adds one to the sum for each listing of its year. */
  lemma {:induction false} SumYearCountsStep(ts: seq<Tweet>, parseDate: string -> Option<CalDate>, ys: seq<int>)
    requires ts != [] && parseDate(ts[|ts| - 1].createdAt).Some?
    ensures SumYearCounts(ts, parseDate, ys)
      == SumYearCounts(ts[..|ts| - 1], parseDate, ys) + Occurrences(ys, parseDate(ts[|ts| - 1].createdAt).value.year)
  {
    if ys != [] {
      SumYearCountsStep(ts, parseDate, ys[..|ys| - 1]);
    }
  }

  /** When every post is dated, the posts of distinct years covering all
      their years are all the posts. */
  lemma {:induction false} YearCountsCoverPosts(ts: seq<Tweet>, parseDate: string -> Option<CalDate>, ys: seq<int>)
    requires AllDated(ts, parseDate) && Distinct(ys)
    requires forall y :: y in YearsOf(ts, parseDate) ==> y in ys
    ensures SumYearCounts(ts, parseDate, ys) == |ts|
  {
    if ts == [] {
      SumYearCountsEmpty(parseDate, ys);
    } else {
      var init := ts[..|ts| - 1];
      var y := parseDate(ts[|ts| - 1].createdAt).value.year;
      assert AllDated(init, parseDate) by {
        forall i | 0 <= i < |init| ensures parseDate(init[i].createdAt).Some? {
          assert init[i] == ts[i];
        }
      }
      YearCountsCoverPosts(init, parseDate, ys);
      SumYearCountsStep(ts, parseDate, ys);
      OccursOnce(ys, y);
    }
  }

  lemma {:induction false} SumYearCountsEmpty(parseDate: string -> Option<CalDate>, ys: seq<int>)
    ensures SumYearCounts([], parseDate, ys) == 0
  {
    if ys != [] {
      SumYearCountsEmpty(parseDate, ys[..|ys| - 1]);
    }
  }

  /** The posts the statistics of the years ys count. */
  function SumTotals(ys: seq<int>, stats: map<int, ActivityStats>): nat
    requires forall i :: 0 <= i < |ys| ==> ys[i] in stats
  {
    if ys == [] then 0
    else SumTotals(ys[..|ys| - 1], stats) + stats[ys[|ys| - 1]].totalTweets
  }

  lemma {:induction false} SumTotalsAreYearCounts(stats: map<int, ActivityStats>, ts: seq<Tweet>,
                                                  parseDate: string -> Option<CalDate>, ys: seq<int>)
    requires forall i :: 0 <= i < |ys| ==> ys[i] in stats && stats[ys[i]].totalTweets == YearCount(ts, parseDate, ys[i])
    ensures SumTotals(ys, stats) == SumYearCounts(ts, parseDate, ys)
  {
    if ys != [] {
      SumTotalsAreYearCounts(stats, ts, parseDate, ys[..|ys| - 1]);
    }
  }

  /** Every post is counted exactly once: a year's `totalTweets` is the
      number of its posts, and over the listed years they add up to all the
      posts. */
  lemma EveryPostCountedOnce(h: HeatmapData, ts: seq<Tweet>, parseDate: string -> Option<CalDate>)
    requires AllDated(ts, parseDate) && YearsListed(h.availableYears, ts, parseDate) && TablesFor(h, ts, parseDate)
    ensures forall y :: y in h.allYearStats ==> h.allYearStats[y].totalTweets == YearCount(ts, parseDate, y)
    ensures forall i :: 0 <= i < |h.availableYears| ==> h.availableYears[i] in h.allYearStats
    ensures SumTotals(h.availableYears, h.allYearStats) == |ts|
  {
    StatsTotals(h.allYearStats, ts, parseDate);
    ListedTotals(h.allYearStats, h.availableYears, ts, parseDate);
  }

  /** Each year's statistics count that year's posts. */
  lemma StatsTotals(stats: map<int, ActivityStats>, ts: seq<Tweet>, parseDate: string -> Option<CalDate>)
    requires stats.Keys == YearsOf(ts, parseDate)
    requires forall y :: y in stats ==> stats[y] == StatsOf(YearActivities(ts, parseDate, y), y)
    ensures forall y :: y in stats ==> stats[y].totalTweets == YearCount(ts, parseDate, y)
  {
    forall y | y in stats
      ensures stats[y].totalTweets == YearCount(ts, parseDate, y)
    {
      assert y in YearsOf(ts, parseDate);
      assert stats[y].totalTweets == TotalCount(YearActivities(ts, parseDate, y));
      YearTotal(ts, parseDate, y);
    }
  }

  /** Over the listed years, the totals add up to all the posts. */
  lemma ListedTotals(stats: map<int, ActivityStats>, ys: seq<int>, ts: seq<Tweet>, parseDate: string -> Option<CalDate>)
    requires AllDated(ts, parseDate) && YearsListed(ys, ts, parseDate) && stats.Keys == YearsOf(ts, parseDate)
    requires forall y :: y in stats ==> stats[y].totalTweets == YearCount(ts, parseDate, y)
    ensures forall i :: 0 <= i < |ys| ==> ys[i] in stats
    ensures SumTotals(ys, stats) == |ts|
  {
    forall i | 0 <= i < |ys|
      ensures ys[i] in stats && stats[ys[i]].totalTweets == YearCount(ts, parseDate, ys[i])
    {
      assert ys[i] in ys;
    }
    SumTotalsAreYearCounts(stats, ts, parseDate, ys);
    YearCountsCoverPosts(ts, parseDate, ys);
  }

  /** Entry k of a listed year's activities is day k of that year: its key,
      the posts made on it (and no other) and their number. */
  lemma DayEntry(h: HeatmapData, ts: seq<Tweet>, parseDate: string -> Option<CalDate>, y: int, k: int)
    requires TablesFor(h, ts, parseDate) && y in h.allYearActivities
    ensures MinYear <= y <= MaxYear
    ensures |h.allYearActivities[y]| == |YearDates(y)|
    ensures 0 <= k < |YearDates(y)| ==>
      var e := h.allYearActivities[y][k];
      && e.date == FormatDate(YearDates(y)[k]) && e.count == |e.tweets|
      && forall t :: t in e.tweets <==> t in ts && parseDate(t.createdAt) == Some(YearDates(y)[k])
  {
    if 0 <= k < |YearDates(y)| {
      forall t {
        DayTweetsMembers(ts, parseDate, YearDates(y)[k], t);
      }
    }
  }
}
