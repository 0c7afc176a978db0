/**
 * From the archive to the heat-map data: locate `tweets.js`, decode the
 * posts, bucket them by year and by day, lay every year out day by day
 * from Jan 1 to Dec 31 and summarise each year.
 *
 * The date parser that reads a post's creation time into a calendar day is
 * a parameter `parseDate` (None stands for an Invalid Date), and so is the
 * JSON decoder.
 */
module TwitterParser {

  import opened Wrappers
  import opened Calendar
  import opened Records
  import opened DateUtils
  import opened Stats
  import opened TweetsJs

  /** The message of the RangeError the key formatter throws on an Invalid Date. */
  const InvalidTime: string := "Invalid time value"

  // ---------------------------------------------------------------------
  // What the buckets should hold

  /** The post was made on the day whose key is `key`. */
  predicate OnDay(t: Tweet, parseDate: string -> Option<CalDate>, key: string) {
    parseDate(t.createdAt).Some? && FormatDate(parseDate(t.createdAt).value) == key
  }

  /** Every post's creation time reads as a day. */
  predicate AllDated(ts: seq<Tweet>, parseDate: string -> Option<CalDate>) {
    forall i :: 0 <= i < |ts| ==> parseDate(ts[i].createdAt).Some?
  }

  /** The posts of the day `key`, in input order. */
  function DayTweets(ts: seq<Tweet>, parseDate: string -> Option<CalDate>, key: string): (r: seq<Tweet>)
    ensures |r| <= |ts|
    ensures forall t :: t in r ==> t in ts && OnDay(t, parseDate, key)
  {
    if ts == [] then []
    else
      var init, t := ts[..|ts| - 1], ts[|ts| - 1];
      DayTweets(init, parseDate, key) + (if OnDay(t, parseDate, key) then [t] else [])
  }

  /** The set of years the posts were made in (the `years` Set). */
  function YearsOf(ts: seq<Tweet>, parseDate: string -> Option<CalDate>): (ys: set<int>)
    ensures forall y :: y in ys ==> MinYear <= y <= MaxYear
  {
    if ts == [] then {}
    else
      YearsOf(ts[..|ts| - 1], parseDate) +
      match parseDate(ts[|ts| - 1].createdAt)
      case Some(d) => {d.year}
      case None => {}
  }

  /** Number of posts made in year y. */
  function YearCount(ts: seq<Tweet>, parseDate: string -> Option<CalDate>, y: int): nat {
    if ts == [] then 0
    else
      var d := parseDate(ts[|ts| - 1].createdAt);
      YearCount(ts[..|ts| - 1], parseDate, y) + (if d.Some? && d.value.year == y then 1 else 0)
  }

  /** The activity of day d: its key, its posts and their number. */
  function DayActivity(ts: seq<Tweet>, parseDate: string -> Option<CalDate>, d: CalDate): DailyActivity {
    var posts := DayTweets(ts, parseDate, FormatDate(d));
    DailyActivity(FormatDate(d), |posts|, posts)
  }

  /** The activity of every day of year y, Jan 1 to Dec 31. */
  function YearActivities(ts: seq<Tweet>, parseDate: string -> Option<CalDate>, y: int): (acts: seq<DailyActivity>)
    requires MinYear <= y <= MaxYear
    ensures |acts| == |YearDates(y)|
  {
    seq(|YearDates(y)|, k requires 0 <= k < |YearDates(y)| => DayActivity(ts, parseDate, YearDates(y)[k]))
  }

  predicate Distinct(s: seq<int>) {
    forall i, j :: 0 <= i < j < |s| ==> s[i] != s[j]
  }

  predicate StrictlyDescending(s: seq<int>) {
    forall i, j :: 0 <= i < j < |s| ==> s[i] > s[j]
  }

  /** The years of the posts, each once, newest first. */
  ghost predicate YearsListed(ys: seq<int>, ts: seq<Tweet>, parseDate: string -> Option<CalDate>) {
    StrictlyDescending(ys) && forall y :: y in ys <==> y in YearsOf(ts, parseDate)
  }

  /** Per year of the posts: its day-by-day activities and their statistics. */
  ghost predicate TablesFor(h: HeatmapData, ts: seq<Tweet>, parseDate: string -> Option<CalDate>) {
    && h.allYearActivities.Keys == YearsOf(ts, parseDate)
    && h.allYearStats.Keys == YearsOf(ts, parseDate)
    && (forall y :: y in h.allYearActivities ==> h.allYearActivities[y] == YearActivities(ts, parseDate, y))
    && (forall y :: y in h.allYearStats ==> h.allYearStats[y] == StatsOf(YearActivities(ts, parseDate, y), y))
  }

  /** The year shown first: the newest one, or the current year when there are no posts. */
  ghost predicate Selected(h: HeatmapData, currentYear: int) {
    if h.availableYears == [] then
      h.year == currentYear && h.activities == [] && h.stats == StatsOf([], currentYear)
    else
      && h.year == h.availableYears[0]
      && h.year in h.allYearActivities && h.activities == h.allYearActivities[h.year]
      && h.year in h.allYearStats && h.stats == h.allYearStats[h.year]
  }

  /** `h` is the heat-map data of the posts ts. */
  ghost predicate HeatmapFor(h: HeatmapData, ts: seq<Tweet>, parseDate: string -> Option<CalDate>, currentYear: int) {
    YearsListed(h.availableYears, ts, parseDate) && TablesFor(h, ts, parseDate) && Selected(h, currentYear)
  }

  // ---------------------------------------------------------------------
  // The buckets: year -> day key -> activity

  type Buckets = map<int, map<string, DailyActivity>>

  /** One post added to the bucket of its day. */
  function AddPost(g: Buckets, d: CalDate, t: Tweet): Buckets {
    var key := FormatDate(d);
    var ym := if d.year in g then g[d.year] else map[];
    var da := if key in ym then ym[key] else DailyActivity(key, 0, []);
    g[d.year := ym[key := da.(count := da.count + 1, tweets := da.tweets + [t])]]
  }

  /** The buckets after the posts have been added in order. */
  function Grouped(ts: seq<Tweet>, parseDate: string -> Option<CalDate>): Buckets {
    if ts == [] then map[]
    else
      var g := Grouped(ts[..|ts| - 1], parseDate);
      match parseDate(ts[|ts| - 1].createdAt)
      case Some(d) => AddPost(g, d, ts[|ts| - 1])
      case None => g
  }

  /** `yearMap.get(key) || { date: key, count: 0, tweets: [] }`. */
  function Lookup(g: Buckets, d: CalDate): DailyActivity {
    var key := FormatDate(d);
    var ym := if d.year in g then g[d.year] else map[];
    if key in ym then ym[key] else DailyActivity(key, 0, [])
  }

  /** Each bucket holds exactly the posts of its day, in input order, and its
      count is their number; a day without a bucket has no posts. */
  lemma {:induction false} LookupGrouped(ts: seq<Tweet>, parseDate: string -> Option<CalDate>, d: CalDate)
    ensures Lookup(Grouped(ts, parseDate), d) == DayActivity(ts, parseDate, d)
  {
    if ts != [] {
      var init, t := ts[..|ts| - 1], ts[|ts| - 1];
      LookupGrouped(init, parseDate, d);
      match parseDate(t.createdAt)
      case Some(d0) =>
        if d0 != d {
          if FormatDate(d0) == FormatDate(d) {
            FormatDateInjective(d0, d);
          }
        }
      case None =>
    }
  }

  lemma PrefixStep<T>(s: seq<T>, i: int)
    requires 0 <= i < |s|
    ensures s[..i + 1][..i] == s[..i] && s[..i + 1][i] == s[i]
  {
  }

  /** Adding the (i+1)-th post of day d to the buckets and to the years. */
  lemma GroupedStep(ts: seq<Tweet>, parseDate: string -> Option<CalDate>, i: int, d: CalDate)
    requires 0 <= i < |ts| && parseDate(ts[i].createdAt) == Some(d)
    ensures Grouped(ts[..i + 1], parseDate) == AddPost(Grouped(ts[..i], parseDate), d, ts[i])
    ensures YearsOf(ts[..i + 1], parseDate) == YearsOf(ts[..i], parseDate) + {d.year}
  {
    PrefixStep(ts, i);
  }

  lemma DistinctAppend(s: seq<int>, x: int)
    requires Distinct(s) && x !in s
    ensures Distinct(s + [x])
  {
  }

  lemma DatedPrefix(ts: seq<Tweet>, parseDate: string -> Option<CalDate>, i: int)
    requires 0 <= i < |ts| && parseDate(ts[i].createdAt).None?
    ensures !AllDated(ts, parseDate)
  {
  }

  // ---------------------------------------------------------------------
  // Year order

  function Negated(y: int): int {
    -y
  }

  lemma {:induction false} DistinctAtMostOnce(a: seq<int>, x: int)
    requires Distinct(a)
    ensures multiset(a)[x] <= 1
  {
    if a != [] {
      assert a == [a[0]] + a[1..];
      DistinctAtMostOnce(a[1..], x);
      if a[0] == x {
        assert x !in a[1..];
      }
    }
  }

  lemma RepeatedTwice(b: seq<int>, i: int, j: int)
    requires 0 <= i < j < |b| && b[i] == b[j]
    ensures multiset(b)[b[i]] >= 2
  {
    assert b == b[..i] + [b[i]] + b[i + 1..j] + [b[j]] + b[j + 1..];
  }

  /** Sorting distinct years by descending value leaves them strictly descending. */
  lemma SortedYears(years: seq<int>, sorted: seq<int>)
    requires Distinct(years) && multiset(sorted) == multiset(years) && SortedBy(sorted, Negated)
    ensures StrictlyDescending(sorted)
    ensures forall y :: y in sorted <==> y in years
  {
    forall i, j | 0 <= i < j < |sorted|
      ensures sorted[i] > sorted[j]
    {
      if sorted[i] == sorted[j] {
        RepeatedTwice(sorted, i, j);
        DistinctAtMostOnce(years, sorted[i]);
      }
    }
    forall y
      ensures y in sorted <==> y in years
    {
      assert y in sorted <==> y in multiset(sorted);
      assert y in years <==> y in multiset(years);
    }
  }

  // ---------------------------------------------------------------------
  // processTweets

  /** The body of the `forEach` over the posts for a post of day d: the
      year's map is created when missing, the day's bucket is created when
      missing, then its count goes up by one and the post is appended. */
  method AddToBuckets(dailyActivitiesByYear: Buckets, tweetDate: CalDate, tweet: Tweet)
    returns (updated: Buckets)
    ensures updated == AddPost(dailyActivitiesByYear, tweetDate, tweet)
  {
    var dateString := FormatDate(tweetDate);
    var year := tweetDate.year;
    var ym := if year in dailyActivitiesByYear then dailyActivitiesByYear[year] else map[];
    updated := dailyActivitiesByYear;
    if year !in updated {
      updated := updated[year := map[]];
    }
    var yearActivities := updated[year];
    assert yearActivities == ym;
    if dateString !in yearActivities {
      yearActivities := yearActivities[dateString := DailyActivity(dateString, 0, [])];
    }
    var dayActivity := yearActivities[dateString];
    dayActivity := dayActivity.(count := dayActivity.count + 1, tweets := dayActivity.tweets + [tweet]);
    assert yearActivities[dateString := dayActivity] == ym[dateString := dayActivity];
    updated := updated[year := yearActivities[dateString := dayActivity]];
    assert updated == dailyActivitiesByYear[year := ym[dateString := dayActivity]];
  }

  /** The `forEach` over the posts of `processTweets`: fills the nested map
      and the list of distinct years (only their sorted order is observable).
      A post whose creation time does not read as a day makes the key
      formatter throw. */
  method GroupByDay(ts: seq<Tweet>, parseDate: string -> Option<CalDate>)
    returns (r: Result<(Buckets, seq<int>), string>)
    ensures r.Failure? <==> !AllDated(ts, parseDate)
    ensures r.Failure? ==> r.error == InvalidTime
    ensures r.Success? ==> r.value.0 == Grouped(ts, parseDate)
    ensures r.Success? ==> Distinct(r.value.1) && forall y :: y in r.value.1 <==> y in YearsOf(ts, parseDate)
  {
    var dailyActivitiesByYear: Buckets := map[];
    var years: seq<int> := [];
    for i := 0 to |ts|
      invariant Gathered(ts, parseDate, i, dailyActivitiesByYear, years)
    {
      var tweet := ts[i];
      match parseDate(tweet.createdAt)
      case None =>
        DatedPrefix(ts, parseDate, i);
        return Failure(InvalidTime);
      case Some(tweetDate) =>
        ghost var byYear0, years0 := dailyActivitiesByYear, years;
        var year := tweetDate.year;
        if year !in years {
          years := years + [year];
        }
        dailyActivitiesByYear := AddToBuckets(dailyActivitiesByYear, tweetDate, tweet);
        GatherStep(ts, parseDate, i, tweetDate, byYear0, years0, dailyActivitiesByYear, years);
    }
    assert ts[..|ts|] == ts;
    r := Success((dailyActivitiesByYear, years));
  }

  /** After the first i posts: all dated, grouped into the buckets, and their
      years listed once each. */
  ghost predicate Gathered(ts: seq<Tweet>, parseDate: string -> Option<CalDate>, i: int, byYear: Buckets, years: seq<int>) {
    && 0 <= i <= |ts|
    && AllDated(ts[..i], parseDate)
    && byYear == Grouped(ts[..i], parseDate)
    && Distinct(years) && forall y :: y in years <==> y in YearsOf(ts[..i], parseDate)
  }

  lemma GatherStep(ts: seq<Tweet>, parseDate: string -> Option<CalDate>, i: int, d: CalDate,
                   byYear: Buckets, years: seq<int>, byYear': Buckets, years': seq<int>)
    requires Gathered(ts, parseDate, i, byYear, years) && i < |ts| && parseDate(ts[i].createdAt) == Some(d)
    requires byYear' == AddPost(byYear, d, ts[i])
    requires years' == if d.year in years then years else years + [d.year]
    ensures Gathered(ts, parseDate, i + 1, byYear', years')
  {
    var next := ts[..i + 1];
    PrefixStep(ts, i);
    GroupedStep(ts, parseDate, i, d);
    forall k | 0 <= k < |next|
      ensures parseDate(next[k].createdAt).Some?
    {
      if k < i {
        assert next[k] == ts[..i][k];
      }
    }
    if d.year !in years {
      DistinctAppend(years, d.year);
    }
    forall y
      ensures y in years' <==> y in YearsOf(next, parseDate)
    {
      assert y in YearsOf(next, parseDate) <==> y in YearsOf(ts[..i], parseDate) || y == d.year;
    }
  }

  /** `Array.from(years).sort((a, b) => b - a)`. */
  method SortYearsDescending(years: seq<int>) returns (availableYears: seq<int>)
    requires Distinct(years)
    ensures StrictlyDescending(availableYears)
    ensures forall y :: y in availableYears <==> y in years
  {
    var sorted := new int[|years|](k requires 0 <= k < |years| => years[k]);
    assert sorted[..] == years;
    SortBy(sorted, Negated);
    availableYears := sorted[..];
    SortedYears(years, availableYears);
  }

  /** The `yearDates.forEach` of `processTweets`: one entry per day of the
      year, taken from the year's buckets or empty. */
  method LayOutYear(ts: seq<Tweet>, parseDate: string -> Option<CalDate>, byYear: Buckets, year: int)
    returns (activities: seq<DailyActivity>)
    requires MinYear <= year <= MaxYear && byYear == Grouped(ts, parseDate)
    ensures activities == YearActivities(ts, parseDate, year)
  {
    var yearDates := YearDates(year);
    ghost var full := YearActivities(ts, parseDate, year);
    var yearActivitiesMap := if year in byYear then byYear[year] else map[];
    activities := [];
    for k := 0 to |yearDates|
      invariant activities == full[..k]
    {
      var dateString := FormatDate(yearDates[k]);
      var activity :=
        if dateString in yearActivitiesMap then yearActivitiesMap[dateString]
        else DailyActivity(dateString, 0, []);
      YearDayFromBuckets(ts, parseDate, year, k);
      assert activity == Lookup(byYear, yearDates[k]) == full[k];
      assert full[..k + 1] == full[..k] + [full[k]];
      activities := activities + [activity];
    }
    assert full[..|yearDates|] == full;
  }

  /** Day k of year y, looked up in the buckets of the posts, is its activity. */
  lemma YearDayFromBuckets(ts: seq<Tweet>, parseDate: string -> Option<CalDate>, year: int, k: int)
    requires MinYear <= year <= MaxYear && 0 <= k < |YearDates(year)|
    ensures YearDates(year)[k].year == year
    ensures Lookup(Grouped(ts, parseDate), YearDates(year)[k]) == YearActivities(ts, parseDate, year)[k]
  {
    YearDatesAt(year, k);
    LookupGrouped(ts, parseDate, YearDates(year)[k]);
  }

  /** One year of the `availableYears.forEach`: its activities and their statistics. */
  method YearTable(ts: seq<Tweet>, parseDate: string -> Option<CalDate>, byYear: Buckets, year: int)
    returns (activities: seq<DailyActivity>, stats: ActivityStats)
    requires MinYear <= year <= MaxYear && byYear == Grouped(ts, parseDate)
    ensures activities == YearActivities(ts, parseDate, year)
    ensures stats == StatsOf(activities, year)
  {
    var laidOut := LayOutYear(ts, parseDate, byYear, year);
    YearActivitiesSorted(ts, parseDate, year);
    stats, activities := CalculateStats(laidOut, year);
  }

  /** `processTweets`: buckets the posts by year and day, orders the years
      newest first, lays each year out from Jan 1 to Dec 31 with its
      statistics, and selects the newest year (or the current one when there
      are no posts). */
  method ProcessTweets(ts: seq<Tweet>, parseDate: string -> Option<CalDate>, currentYear: int)
    returns (r: Result<HeatmapData, string>)
    ensures r.Failure? <==> !AllDated(ts, parseDate)
    ensures r.Failure? ==> r.error == InvalidTime
    ensures r.Success? ==> HeatmapFor(r.value, ts, parseDate, currentYear)
  {
    var grouped := GroupByDay(ts, parseDate);
    if grouped.Failure? {
      return Failure(grouped.error);
    }
    var dailyActivitiesByYear, years := grouped.value.0, grouped.value.1;
    var availableYears := SortYearsDescending(years);
    assert InRange(availableYears) by {
      forall i | 0 <= i < |availableYears|
        ensures MinYear <= availableYears[i] <= MaxYear
      {
        assert availableYears[i] in availableYears;
        assert availableYears[i] in YearsOf(ts, parseDate);
      }
    }
    var defaultYear := if |availableYears| > 0 then availableYears[0] else currentYear;

    var allYearActivities, allYearStats := BuildTables(ts, parseDate, dailyActivitiesByYear, availableYears);

    var activities := if defaultYear in allYearActivities then allYearActivities[defaultYear] else [];
    var stats: ActivityStats;
    if defaultYear in allYearStats {
      stats := allYearStats[defaultYear];
    } else {
      var unsorted;
      stats, unsorted := CalculateStats([], defaultYear);
    }
    var h := HeatmapData(activities, stats, defaultYear, availableYears, allYearActivities, allYearStats);
    Assembled(h, ts, parseDate, currentYear);
    r := Success(h);
  }

  /** The `availableYears.forEach` of `processTweets`. */
  method BuildTables(ts: seq<Tweet>, parseDate: string -> Option<CalDate>, byYear: Buckets, availableYears: seq<int>)
    returns (allYearActivities: map<int, seq<DailyActivity>>, allYearStats: map<int, ActivityStats>)
    requires InRange(availableYears) && byYear == Grouped(ts, parseDate)
    ensures allYearActivities == Table(availableYears, ActivityRow(ts, parseDate))
    ensures allYearStats == Table(availableYears, StatsRow(ts, parseDate))
  {
    allYearActivities := map[];
    allYearStats := map[];
    for j := 0 to |availableYears|
      invariant allYearActivities == Table(availableYears[..j], ActivityRow(ts, parseDate))
      invariant allYearStats == Table(availableYears[..j], StatsRow(ts, parseDate))
    {
      var year := availableYears[j];
      TableStep(availableYears, ActivityRow(ts, parseDate), j);
      TableStep(availableYears, StatsRow(ts, parseDate), j);
      var activities, stats := YearTable(ts, parseDate, byYear, year);
      allYearActivities := allYearActivities[year := activities];
      allYearStats := allYearStats[year := stats];
    }
    assert availableYears[..|availableYears|] == availableYears;
  }

  predicate InRange(ys: seq<int>) {
    forall i :: 0 <= i < |ys| ==> MinYear <= ys[i] <= MaxYear
  }

  /** The map obtained by setting ys[0], ys[1], ... in turn to their rows. */
  ghost function Table<V>(ys: seq<int>, row: int -> V): map<int, V> {
    if ys == [] then map[]
    else Table(ys[..|ys| - 1], row)[ys[|ys| - 1] := row(ys[|ys| - 1])]
  }

  /** The row `allYearActivities` gets for year y. */
  ghost function ActivityRow(ts: seq<Tweet>, parseDate: string -> Option<CalDate>): int -> seq<DailyActivity> {
    y => if MinYear <= y <= MaxYear then YearActivities(ts, parseDate, y) else []
  }

  /** The row `allYearStats` gets for year y. */
  ghost function StatsRow(ts: seq<Tweet>, parseDate: string -> Option<CalDate>): int -> ActivityStats {
    y => if MinYear <= y <= MaxYear then StatsOf(YearActivities(ts, parseDate, y), y) else StatsOf([], y)
  }

  /** Setting one more year adds its row. */
  lemma TableStep<V>(ys: seq<int>, row: int -> V, j: int)
    requires 0 <= j < |ys|
    ensures Table(ys[..j + 1], row) == Table(ys[..j], row)[ys[j] := row(ys[j])]
  {
    PrefixStep(ys, j);
  }

  /** The table holds one row per listed year, and the row is that year's. */
  lemma {:induction false} TableHolds<V>(ys: seq<int>, row: int -> V)
    ensures forall y :: y in Table(ys, row) <==> y in ys
    ensures forall y :: y in ys ==> Table(ys, row)[y] == row(y)
  {
    if ys != [] {
      var n := |ys| - 1;
      TableHolds(ys[..n], row);
      assert ys == ys[..n] + [ys[n]];
    }
  }

  /** A table keyed by the listed years is keyed by the years of the posts. */
  lemma TableKeys<V>(m: map<int, V>, ys: seq<int>, ts: seq<Tweet>, parseDate: string -> Option<CalDate>)
    requires YearsListed(ys, ts, parseDate) && forall y :: y in m <==> y in ys
    ensures m.Keys == YearsOf(ts, parseDate)
  {
    forall y
      ensures y in m.Keys <==> y in YearsOf(ts, parseDate)
    {
      assert y in m <==> y in ys;
    }
  }

  /** The activities table holds, for each year of the posts, that year's activities. */
  lemma ActivityTableHolds(m: map<int, seq<DailyActivity>>, ys: seq<int>, ts: seq<Tweet>, parseDate: string -> Option<CalDate>)
    requires YearsListed(ys, ts, parseDate) && m == Table(ys, ActivityRow(ts, parseDate))
    ensures m.Keys == YearsOf(ts, parseDate)
    ensures forall y :: y in m ==> m[y] == YearActivities(ts, parseDate, y)
  {
    var row := ActivityRow(ts, parseDate);
    TableHolds(ys, row);
    TableKeys(m, ys, ts, parseDate);
    forall y | y in m
      ensures m[y] == YearActivities(ts, parseDate, y)
    {
      assert y in ys;
      assert m[y] == row(y);
    }
  }

  /** The statistics table holds, for each year of the posts, the statistics of its activities. */
  lemma StatsTableHolds(m: map<int, ActivityStats>, ys: seq<int>, ts: seq<Tweet>, parseDate: string -> Option<CalDate>)
    requires YearsListed(ys, ts, parseDate) && m == Table(ys, StatsRow(ts, parseDate))
    ensures m.Keys == YearsOf(ts, parseDate)
    ensures forall y :: y in m ==> m[y] == StatsOf(YearActivities(ts, parseDate, y), y)
  {
    var row := StatsRow(ts, parseDate);
    TableHolds(ys, row);
    TableKeys(m, ys, ts, parseDate);
    forall y | y in m
      ensures m[y] == StatsOf(YearActivities(ts, parseDate, y), y)
    {
      assert y in ys;
      assert m[y] == row(y);
    }
  }

  /** The pieces `processTweets` assembles make up the heat-map data of the posts. */
  lemma Assembled(h: HeatmapData, ts: seq<Tweet>, parseDate: string -> Option<CalDate>, currentYear: int)
    requires YearsListed(h.availableYears, ts, parseDate)
    requires h.allYearActivities == Table(h.availableYears, ActivityRow(ts, parseDate))
    requires h.allYearStats == Table(h.availableYears, StatsRow(ts, parseDate))
    requires h.year == if |h.availableYears| > 0 then h.availableYears[0] else currentYear
    requires h.activities == if h.year in h.allYearActivities then h.allYearActivities[h.year] else []
    requires h.year in h.allYearStats ==> h.stats == h.allYearStats[h.year]
    requires h.year !in h.allYearStats ==> h.stats == StatsOf([], h.year)
    ensures HeatmapFor(h, ts, parseDate, currentYear)
  {
    ActivityTableHolds(h.allYearActivities, h.availableYears, ts, parseDate);
    StatsTableHolds(h.allYearStats, h.availableYears, ts, parseDate);
    if h.availableYears == [] {
      assert h.year !in YearsOf(ts, parseDate);
    } else {
      assert h.year in h.availableYears;
    }
  }

  // ---------------------------------------------------------------------
  // Properties of the year layout

  /** A year's activities run through the calendar: entry k is the k-th day
      of the year, so they are in date order. */
  lemma YearActivitiesSorted(ts: seq<Tweet>, parseDate: string -> Option<CalDate>, y: int)
    requires MinYear <= y <= MaxYear
    ensures KeysParse(YearActivities(ts, parseDate, y))
    ensures forall k :: 0 <= k < |YearDates(y)| ==>
      ParseDateKey(YearActivities(ts, parseDate, y)[k].date) == Some(YearDates(y)[k])
    ensures SortedByDate(YearActivities(ts, parseDate, y))
  {
    var acts := YearActivities(ts, parseDate, y);
    forall k | 0 <= k < |acts|
      ensures ParseDateKey(acts[k].date) == Some(YearDates(y)[k])
      ensures TimeOf(acts[k]) == DaysBeforeYear(y) + k
    {
      ParseFormat(YearDates(y)[k]);
      YearDatesAt(y, k);
    }
  }

  // ---------------------------------------------------------------------
  // generateCalendarData

  /** `generateCalendarData`: every day keeps its key, count and posts and is
      given the intensity level of its count against the busiest day. */
  function GenerateCalendarData(activities: seq<DailyActivity>): (days: seq<CalendarDay>)
    ensures |days| == |activities|
    ensures forall k :: 0 <= k < |days| ==>
      && days[k].date == activities[k].date && days[k].count == activities[k].count
      && days[k].tweets == activities[k].tweets
      && days[k].level == ActivityLevel(activities[k].count, MaxCount(activities))
  {
    var maxCount := MaxCount(activities);
    seq(|activities|, k requires 0 <= k < |activities| =>
      CalendarDay(activities[k].date, activities[k].count,
        ActivityLevel(activities[k].count, maxCount), activities[k].tweets))
  }

  /** The levels of a calendar: 0 exactly on idle days, ordered like the
      counts, and 4 on the busiest day whenever some day has posts. */
  lemma CalendarLevels(activities: seq<DailyActivity>)
    ensures var days := GenerateCalendarData(activities);
      forall k :: 0 <= k < |days| ==> 0 <= days[k].level <= 4 && (days[k].level == 0 <==> days[k].count == 0)
    ensures var days := GenerateCalendarData(activities);
      forall k, l :: 0 <= k < |days| && 0 <= l < |days| && days[k].count <= days[l].count ==>
        days[k].level <= days[l].level
    ensures var days := GenerateCalendarData(activities);
      (exists k :: 0 <= k < |activities| && activities[k].count > 0) ==>
        exists k :: 0 <= k < |days| && days[k].level == 4
  {
    var days := GenerateCalendarData(activities);
    var m := MaxCount(activities);
    forall k, l | 0 <= k < |days| && 0 <= l < |days| && days[k].count <= days[l].count
      ensures days[k].level <= days[l].level
    {
      ActivityLevelMonotone(days[k].count, days[l].count, m);
    }
    if exists k :: 0 <= k < |activities| && activities[k].count > 0 {
      var k :| 0 <= k < |activities| && activities[k].count == m;
      ActivityLevelOfMax(m);
      assert days[k].level == 4;
    }
  }

  // ---------------------------------------------------------------------
  // parseArchive

  /** The archive entries tried for the posts, in order. */
  const TweetsPaths: seq<string> := ["data/tweets.js", "tweets.js", "data/tweet.js", "tweet.js"]

  const NotFoundError: string :=
    "tweets.js file not found in the archive. Please ensure you uploaded a valid Twitter archive."
  const NoTweetsError: string := "No tweets found in the archive."
  const FailurePrefix: string := "Failed to parse archive: "

  /** An opened archive: entry name to its text, or to the message of the
      error reading it raises. */
  type Entries = map<string, Result<string, string>>

  /** The first of the paths present in the archive (`file(a) || file(b) || ...`). */
  function FirstPresent(files: Entries, paths: seq<string>): (r: Option<string>)
    ensures r.None? <==> forall i :: 0 <= i < |paths| ==> paths[i] !in files
    ensures r.Some? ==> exists i :: (0 <= i < |paths| && paths[i] == r.value && r.value in files
      && forall j :: 0 <= j < i ==> paths[j] !in files)
  {
    if paths == [] then None
    else if paths[0] in files then Some(paths[0])
    else
      var r := FirstPresent(files, paths[1..]);
      assert forall i :: 1 <= i < |paths| ==> paths[i] == paths[1..][i - 1];
      if r.Some? then
        var i :| 0 <= i < |paths[1..]| && paths[1..][i] == r.value && r.value in files
          && forall j :: 0 <= j < i ==> paths[1..][j] !in files;
        assert paths[i + 1] == r.value;
        r
      else r
  }

  /** The posts an archive holds, or the message `parseArchive` reports
      before any post is looked at. `archive` is the outcome of opening the
      zip: its entries, or the message of the error opening it raises. */
  function ArchiveTweets(archive: Result<Entries, string>, decode: string -> Option<seq<Tweet>>)
    : Result<seq<Tweet>, string>
  {
    if archive.Failure? then Failure(FailurePrefix + archive.error)
    else
      match FirstPresent(archive.value, TweetsPaths)
      case None => Failure(NotFoundError)
      case Some(path) =>
        match archive.value[path]
        case Failure(e) => Failure(FailurePrefix + e)
        case Success(content) =>
          match decode(JsonText(content))
          case None => Failure(FailurePrefix + ExtractError)
          case Some(ts) => Success(ts)
  }

  function Failed(message: string): ProcessingResult {
    ProcessingResult(false, None, Some(message))
  }

  /** `parseArchive`: every failure becomes an unsuccessful result with a
      message; a success carries the heat-map data of the posts. */
  method ParseArchive(archive: Result<Entries, string>, decode: string -> Option<seq<Tweet>>,
                      parseDate: string -> Option<CalDate>, currentYear: int)
    returns (r: ProcessingResult)
    ensures r.success <==> r.data.Some?
    ensures r.success <==> r.error.None?
    ensures ArchiveTweets(archive, decode).Failure? ==> r == Failed(ArchiveTweets(archive, decode).error)
    ensures ArchiveTweets(archive, decode).Success? ==>
      var ts := ArchiveTweets(archive, decode).value;
      if ts == [] then r == Failed(NoTweetsError)
      else if !AllDated(ts, parseDate) then r == Failed(FailurePrefix + InvalidTime)
      else r.success && HeatmapFor(r.data.value, ts, parseDate, currentYear)
  {
    if archive.Failure? {
      return Failed(FailurePrefix + archive.error);
    }
    var files := archive.value;
    var tweetsFile := FirstPresent(files, TweetsPaths);
    if tweetsFile.None? {
      return Failed(NotFoundError);
    }
    var tweetsContent := files[tweetsFile.value];
    if tweetsContent.Failure? {
      return Failed(FailurePrefix + tweetsContent.error);
    }
    var tweets := ExtractTweetsFromJs(tweetsContent.value, decode);
    if tweets.Failure? {
      return Failed(FailurePrefix + tweets.error);
    }
    if |tweets.value| == 0 {
      return Failed(NoTweetsError);
    }
    var heatmapData := ProcessTweets(tweets.value, parseDate, currentYear);
    if heatmapData.Failure? {
      return Failed(FailurePrefix + heatmapData.error);
    }
    r := ProcessingResult(true, Some(heatmapData.value), None);
  }

  /** An archive exported with its posts in `data/tweets.js`, written as the
      canonical assignment, yields exactly the posts the decoder reads from
      the array. */
  lemma CanonicalArchive(files: Entries, j: string, w: string, decode: string -> Option<seq<Tweet>>)
    requires Tight(j) && AllSpace(w) && decode(j).Some?
    requires "data/tweets.js" in files && files["data/tweets.js"] == Success(TweetsMarker + j + ";" + w)
    ensures ArchiveTweets(Success(files), decode) == Success(decode(j).value)
  {
    assert FirstPresent(files, TweetsPaths) == Some("data/tweets.js");
    CanonicalRoundTrip(j, w);
  }
}
