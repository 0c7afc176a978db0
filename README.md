# Twitter archive heat map — a verified model of its core

The application reads a Twitter data archive and draws one heat-map calendar per
year of posting. This project models the core of that pipeline in Dafny:

- **Unpacking.** The tweets file is found in the archive (`data/tweets.js`,
  `tweets.js`, `data/tweet.js`, `tweet.js`). Its JavaScript assignment wrapper is
  stripped, and the remaining JSON is decoded.
- **Grouping.** Posts are grouped by calendar day (day key `yyyy-MM-dd`) and by
  year.
- **Per-year tables.** Each year with posts gets a table of activities, one per
  day of the year from 1 January to 31 December, and its statistics: total
  posts, active days, current and longest streak, busiest day, busiest weekday,
  and average per day.
- **Calendar levels.** A day's activity level (0–4) is its count relative to the
  year's busiest day.
- **Grid layout.** The component lays the year out as week columns, Sunday on
  top, with month labels over the columns, and colours each cell by its level.

Modules, one per file:

| file | module | what it holds |
|---|---|---|
| wrappers.dfy | `Wrappers` | `Option`, `Result` |
| records.dfy | `Records` | posts, daily activities, statistics, calendar cells, the heat-map data and the processing result |
| text.dfy | `Text` | decimal digits, substring search, JavaScript `trim` |
| calendar.dfy | `Calendar` | the proleptic Gregorian calendar: day numbers, weekdays, the days of a year, the day key and its reading |
| date_utils.dfy | `DateUtils` | activity level, weekday names, streaks (with the in-place sort that precedes them) |
| stats.dfy | `Stats` | the statistics of one year's activities |
| tweets_js.dfy | `TweetsJs` | unwrapping the `tweets.js` file |
| twitter_parser.dfy | `TwitterParser` | grouping, per-year tables, calendar data, archive parsing |
| heatmap_layout.dfy | `HeatmapLayout` | the week-column grid, month labels, colour classes |
| heatmap_year.dfy | `HeatmapYear` | what the grid looks like for a whole calendar year |
| heatmap_properties.dfy | `HeatmapProperties` | end-to-end facts: every post is counted exactly once, and what each table entry holds |

Some operations belong to the host rather than to this code. Each is a parameter
of the model:

- `decode: string -> Option<seq<Tweet>>` stands for `JSON.parse`. `None` means
  that it throws.
- `parseDate: string -> Option<CalDate>` stands for `parseTwitterDate` followed by
  the host's reading of the result in its zone. `None` means an invalid date.
- `readKey: string -> Option<CalDate>` stands for the component's
  `new Date(key)` read in the host's zone. Under UTC it is `Calendar.ParseDateKey`.
  The whole-year lemmas in `HeatmapYear` are proved for any `readKey` that reads
  each cell as its own day.
- `currentYear` stands for `new Date().getFullYear()`.
- The archive is a map from entry names to their text, or an error when the zip
  cannot be read.

Counts and day numbers are unbounded integers. Every quantity in the source
(post counts, day indices, years) is a small integer that a double represents
exactly, so no rounding is modelled except in `averagePerDay` (below).

## Model

| member | source | states |
|---|---|---|
| Calendar.FormatDate | src/lib/date-utils.ts:3-5 | the key of a day has ten characters, with `-` at positions 4 and 7 |
| Calendar.ParseFormat | src/lib/date-utils.ts:3-5 | reading back the key of any day gives that day |
| Calendar.FormatParse | src/lib/date-utils.ts:3-5 | every string that reads as a day is that day's key, so the keys are exactly the readable strings |
| Calendar.FormatDateInjective | src/lib/date-utils.ts:3-5 | two days with the same key are the same day |
| Calendar.ParseDateKey | src/lib/date-utils.ts:61 | `new Date(key)` on the keys the pipeline produces, read in UTC: every key `FormatDate` makes reads back as its own day (`ParseFormat`), and every string it accepts is such a key (`FormatParse`). Other strings read as invalid here; the host's reading of them is not modelled |
| Calendar.YearDates | src/lib/date-utils.ts:31-35 | the definition of `getYearDates`: position k holds the day of year y with ordinal k. Its properties are in the `YearDates*` rows below |
| Calendar.YearDatesSpan | src/lib/date-utils.ts:31-35 | the days of a year run from 1 January to 31 December: 366 of them in a leap year, 365 otherwise |
| Calendar.YearDatesAt | src/lib/date-utils.ts:31-35 | the k-th day of the year lies in that year, has ordinal k and day number (days before the year) + k |
| Calendar.YearDatesConsecutive | src/lib/date-utils.ts:31-35 | each day of the year is followed by the next calendar day, with no gaps or repeats |
| Calendar.YearDatesContains | src/lib/date-utils.ts:31-35 | a day appears in its year's list exactly at its ordinal |
| Calendar.YearDatesWeekday | src/lib/date-utils.ts:31-35 | the k-th day of the year falls on weekday (weekday of 1 January + k) mod 7 |
| Calendar.NextDayAdvances | src/lib/date-utils.ts:31-35 | the next day has day number one more and weekday one more, mod 7 |
| Calendar.DayOfWeek | src/lib/twitter-parser.ts:167 | `getDay`: a weekday 0..6. It advances by one, mod 7, from each day to the next (`NextDayAdvances`), and `WeekdayAnchors` fixes Sunday = 0 |
| Calendar.WeekdayAnchors | src/lib/twitter-parser.ts:167 | known days fall on their weekdays: 1970-01-01 and 2024-02-29 are Thursdays (4), 2000-01-01 is a Saturday (6), 2023-01-01 is a Sunday (0) |
| Calendar.FirstWeekday | src/components/HeatmapCalendar.tsx:43-44 | a weekday 0..6, namely the weekday of 1 January of the year |
| DateUtils.ActivityLevel | src/lib/date-utils.ts:37-46 | level 0..4; 0 exactly when the count or the maximum is 0; otherwise 1, 2, 3 or 4 as count/max is ≤ 1/4, ≤ 1/2, ≤ 3/4 or above |
| DateUtils.ActivityLevelMonotone | src/lib/date-utils.ts:37-46 | a larger count never gets a lower level under the same maximum |
| DateUtils.ActivityLevelOfMax | src/lib/date-utils.ts:37-46 | the busiest day gets level 4 |
| DateUtils.ActivityLevelExamples | src/lib/date-utils.ts:37-46 | the levels at the boundaries: 2/10 → 1, 3/10 → 2, 5/10 → 2, 7/10 → 3, 8/10 → 4, 10/10 → 4; 0 for a zero count or maximum |
| DateUtils.DayOfWeekName | src/lib/date-utils.ts:48-51 | index 0..6 names Sunday..Saturday in order; "Unknown" exactly for any other index |
| DateUtils.DayOfWeekNameInjective | src/lib/date-utils.ts:48-51 | the seven names are distinct |
| DateUtils.SortBy | src/lib/date-utils.ts:61 | in place: the array ends sorted by key and a permutation of what it held; an array already sorted is left as it was |
| DateUtils.InsertStep | src/lib/date-utils.ts:61 | one insertion: the prefix through i becomes sorted, the array stays a permutation, and nothing after i changes |
| DateUtils.RunLengths | src/lib/date-utils.ts:63-80 | the two loops compute the trailing run of active days and the longest run of active days |
| DateUtils.TrailingRun | src/lib/date-utils.ts:73-80 | the definition of the current streak: the number of active entries at the end, up to the last idle one. `TrailingRunSuffix`, `ActiveSuffixWithinTrailingRun` and `TrailingRunExact` characterize it as the all-active suffix that follows an idle day or the start |
| DateUtils.LongestRun | src/lib/date-utils.ts:63-71 | the definition of the longest streak: the best trailing run over all prefixes. `LongestRunIsLongestWindow` characterizes it as the longest all-active window |
| DateUtils.CalculateStreak | src/lib/date-utils.ts:53-83 | the array is sorted by date in place (permuted, and untouched if already sorted); current = trailing run and longest = longest run of the sorted array, both 0 for an empty array |
| DateUtils.TrailingRunSuffix | src/lib/date-utils.ts:73-80 | the current streak is an all-active suffix, preceded by an idle day unless it covers everything |
| DateUtils.ActiveSuffixWithinTrailingRun | src/lib/date-utils.ts:73-80 | every all-active suffix is at most the current streak |
| DateUtils.TrailingRunExact | src/lib/date-utils.ts:73-80 | an all-active suffix preceded by an idle day (or the whole sequence) is the current streak |
| DateUtils.LongestRunIsLongestWindow | src/lib/date-utils.ts:63-71 | the longest streak is the length of some all-active window, and no all-active window is longer |
| DateUtils.StreakBounds | src/lib/date-utils.ts:53-83 | current ≤ longest ≤ number of days |
| DateUtils.StreakExample | src/lib/date-utils.ts:53-83 | counts 1,0,2,3,0,1,1,1 give current 3 and longest 3 |
| Stats.ActiveCount | src/lib/twitter-parser.ts:151 | at most the number of days, and 0 exactly when no day has a post |
| Stats.MaxCount | src/lib/twitter-parser.ts:191 | an upper bound on every count, attained by some day; 0 for no days |
| Stats.TotalCount | src/lib/twitter-parser.ts:150 | the `reduce` sum of the counts. `HeatmapProperties.TotalCountZero`, `TotalCountSame`, `TotalCountBump` and `YearTotal` state its properties |
| Stats.MostActive | src/lib/twitter-parser.ts:158-161 | the busiest day's count is the maximum; its date is "" when nothing was posted, otherwise the date of a day with that count and no earlier day with as many |
| Stats.WeekdayTotals | src/lib/twitter-parser.ts:164-170 | seven slots; slot w sums the counts of the active days whose key reads as weekday w, and an unreadable key adds to no slot. `WeekdayCounts` computes it with the loop, and `WeekdayTotalsSum` adds the slots up |
| Stats.WeekdayCounts | src/lib/twitter-parser.ts:164-170 | the loop adds each active day's count to its weekday's total |
| Stats.WeekdayTotalsSum | src/lib/twitter-parser.ts:164-170 | when every key reads as a day, the seven weekday totals add up to the total posts |
| Stats.MaxOf | src/lib/twitter-parser.ts:172 | `Math.max`: an element, and no element is larger |
| Stats.FirstIndexOf | src/lib/twitter-parser.ts:172 | `indexOf`: the first position holding the value |
| Stats.FirstMaxIndex | src/lib/twitter-parser.ts:172 | a position of the maximum, and every earlier position holds strictly less |
| Stats.BusiestWeekdayTieBreak | src/lib/twitter-parser.ts:172-173 | the busiest weekday is named by the first weekday with the largest total: no weekday has more, and no earlier weekday has as much |
| Stats.AverageHundredths | src/lib/twitter-parser.ts:175-182 | 0 with no days; otherwise total/days rounded half up to hundredths, given as a whole number of hundredths |
| Stats.AverageExamples | src/lib/twitter-parser.ts:175-182 | 938 posts over 365 days average 2.57; 1/3 → 0.33, 2/3 → 0.67, 1/8 → 0.13 |
| Stats.StatsOf | src/lib/twitter-parser.ts:149-188 | what `calculateStats` reports for entries already in date order, field by field from the definitions above. `CalculateStats` returns it for sorted input; `StatsBounds` and `IdleStats` state its properties |
| Stats.CalculateStats | src/lib/twitter-parser.ts:149-188 | the activities are sorted in place by date (a permutation, unchanged if already sorted); each statistic is the total, active count, day count, rounded average, streaks of the sorted activities, busiest day, busiest weekday's name and the year written in decimal; on sorted input the result is `StatsOf` |
| Stats.ActiveCountOfWindow | src/lib/twitter-parser.ts:151-155 | an all-active window has no more days than the year has active days |
| Stats.StatsBounds | src/lib/twitter-parser.ts:149-188 | current streak ≤ longest streak ≤ active days ≤ total days |
| Stats.IdleStats | src/lib/twitter-parser.ts:149-188 | a year without posts has no busiest day, Sunday as busiest weekday, and total and average 0 |
| TweetsJs.ExtractTweetsFromJs | src/lib/twitter-parser.ts:52-78 | the step-by-step unwrapping yields the decoded posts of `JsonText(content)`, or the "Failed to parse tweets.js file" error when decoding fails |
| TweetsJs.JsonText | src/lib/twitter-parser.ts:56-69 | the text handed to `JSON.parse`: the first marker present is removed (the newer one first), the text is trimmed, and one trailing `;` is dropped. The round-trip rows below characterize it |
| TweetsJs.CanonicalRoundTrip | src/lib/twitter-parser.ts:59-69 | `window.YTD.tweets.part0 = ` + JSON + `;` + trailing whitespace unwraps to the JSON |
| TweetsJs.LegacyRoundTrip | src/lib/twitter-parser.ts:61-69 | the same for the older `window.YTD.tweet.part0 = ` prefix, when the newer marker does not occur |
| TweetsJs.BareJsonUntouched | src/lib/twitter-parser.ts:56-69 | JSON with no marker and no trailing semicolon is passed on unchanged |
| TweetsJs.OneSemicolonRemoved | src/lib/twitter-parser.ts:67-69 | only one trailing semicolon is removed: `;;` leaves one behind |
| TweetsJs.UnwrapBody | src/lib/twitter-parser.ts:59-66 | removing the marker and trimming leaves the JSON and its semicolon |
| TweetsJs.TrimEndSpace | src/lib/twitter-parser.ts:66 | trimming removes exactly the trailing whitespace |
| TweetsJs.FirstOccurrenceAtStart | src/lib/twitter-parser.ts:60 | `replace` with a string pattern acts at the first occurrence, which is position 0 when the text starts with it |
| TwitterParser.AddToBuckets | src/lib/twitter-parser.ts:91-109 | one post is added to its year's bucket and its day's entry, creating either when missing |
| TwitterParser.AddPost | src/lib/twitter-parser.ts:91-109 | the buckets after one post: its day's entry in its year's map gains one count and the post at the end, and is created with count 0 when missing |
| TwitterParser.Grouped | src/lib/twitter-parser.ts:85-110 | the buckets after the posts have been added in order. `LookupGrouped` and `HeatmapProperties.DayTweetsMembers` state what each entry holds |
| TwitterParser.Lookup | src/lib/twitter-parser.ts:122-131 | `get(key) || { date: key, count: 0, tweets: [] }` on a day's year map, which may itself be missing |
| TwitterParser.GroupByDay | src/lib/twitter-parser.ts:80-110 | fails with "Invalid time value" exactly when some post's date is invalid; otherwise returns the grouping of all posts by day and the distinct years of the posts |
| TwitterParser.GatherStep | src/lib/twitter-parser.ts:85-110 | one pass of the grouping loop keeps its invariant: buckets and years are those of the posts seen so far |
| TwitterParser.LookupGrouped | src/lib/twitter-parser.ts:122-131 | after grouping, looking up a day (with the zero default) gives that day's count and posts |
| TwitterParser.SortYearsDescending | src/lib/twitter-parser.ts:113 | the years come out strictly descending, with the same members |
| TwitterParser.SortedYears | src/lib/twitter-parser.ts:113 | a sorted permutation of distinct years is strictly descending and has the same members |
| TwitterParser.LayOutYear | src/lib/twitter-parser.ts:121-133 | the loop builds, for each day of the year in order, that day's entry or a zero entry |
| TwitterParser.YearTable | src/lib/twitter-parser.ts:120-136 | one year's activities and the statistics computed from them |
| TwitterParser.BuildTables | src/lib/twitter-parser.ts:117-137 | the two tables map exactly the listed years to their activities and statistics |
| TwitterParser.TableHolds | src/lib/twitter-parser.ts:117-137 | a table filled year by year has exactly the listed years as keys, each with its row |
| TwitterParser.ActivityTableHolds | src/lib/twitter-parser.ts:117-135 | the activity table's keys are the years of the posts, and each entry is that year's day list |
| TwitterParser.StatsTableHolds | src/lib/twitter-parser.ts:117-136 | the statistics table's keys are the years of the posts, and each entry is the statistics of that year's day list |
| TwitterParser.ProcessTweets | src/lib/twitter-parser.ts:80-147 | fails with "Invalid time value" exactly when a post's date is invalid; otherwise the years are listed strictly descending, the tables are complete, and the shown year is the most recent one (the current year, with empty data, when there are no posts) |
| TwitterParser.YearActivities | src/lib/twitter-parser.ts:120-133 | one entry per day of the year |
| TwitterParser.YearActivitiesSorted | src/lib/twitter-parser.ts:120-136 | a year's entries read back as its days in order, so they are sorted by date and the sort inside the statistics leaves them in place |
| TwitterParser.DayTweets | src/lib/twitter-parser.ts:107-109 | a day's post list comes from the input and holds only posts of that day |
| TwitterParser.YearsOf | src/lib/twitter-parser.ts:89-91 | the years of the posts all lie in the modelled range |
| TwitterParser.GenerateCalendarData | src/lib/twitter-parser.ts:190-199 | one cell per activity, with the same date, count and posts, and level = ActivityLevel(count, busiest count) |
| TwitterParser.CalendarLevels | src/lib/twitter-parser.ts:190-199 | levels lie in 0..4, are 0 exactly on idle days, are monotone in the count, and some day gets level 4 whenever any day has a post |
| TwitterParser.FirstPresent | src/lib/twitter-parser.ts:14-17 | none exactly when no candidate path is in the archive; otherwise the first candidate present |
| TwitterParser.ArchiveTweets | src/lib/twitter-parser.ts:10-27 | the lookup-and-decode half of `parseArchive`. It gives the prefixed error when the zip cannot be opened, the not-found message when no candidate file exists, the prefixed error when the file cannot be read, and the prefixed extraction error when decoding fails. Otherwise it gives the decoded posts (`CanonicalArchive`) |
| TwitterParser.ParseArchive | src/lib/twitter-parser.ts:8-50 | `success` exactly when there is data and no error. A missing file, a bad archive or undecodable JSON gives the matching message. No posts gives "No tweets found in the archive.". An invalid date gives "Failed to parse archive: Invalid time value". Otherwise the data is the heat map of the posts |
| TwitterParser.CanonicalArchive | src/lib/twitter-parser.ts:14-27 | an archive whose `data/tweets.js` is the canonical wrapper around valid JSON yields exactly the decoded posts |
| HeatmapProperties.DayTweetsMembers | src/lib/twitter-parser.ts:85-110 | a post is in a day's list exactly when it is one of the posts and its date is that day |
| HeatmapProperties.YearTotal | src/lib/twitter-parser.ts:120-150 | the total of a year's table is the number of posts dated in that year |
| HeatmapProperties.YearCountsCoverPosts | src/lib/twitter-parser.ts:85-113 | when all dates are valid, the per-year counts over the distinct years of the posts add up to the number of posts |
| HeatmapProperties.EveryPostCountedOnce | src/lib/twitter-parser.ts:113-150 | each year's `totalTweets` is its post count, every listed year has statistics, and the totals over the listed years add up to the number of posts |
| HeatmapProperties.DayEntry | src/lib/twitter-parser.ts:120-135 | entry k of a year's table is keyed by the year's k-th day, counts its posts, and holds exactly the posts dated that day |
| HeatmapLayout.MonthStartsExact | src/components/HeatmapCalendar.tsx:62-69 | the label positions are increasing, and are exactly the days whose month differs from the previous day's |
| HeatmapLayout.LabelColumnMonotone | src/components/HeatmapCalendar.tsx:62-69 | a later grid position never gets an earlier label column |
| HeatmapLayout.LabelsInColumnOrder | src/components/HeatmapCalendar.tsx:62-69 | in a finished layout the labels' `weekIndex` values never decrease from one label to the next |
| HeatmapLayout.Pad | src/components/HeatmapCalendar.tsx:47-55 | the cells are kept and followed by blanks up to length n |
| HeatmapLayout.PlaceDay | src/components/HeatmapCalendar.tsx:57-78 | one day of the loop keeps the layout invariant: complete columns of seven cells, columns after the first starting on Sunday, labels over the first day of each month |
| HeatmapLayout.LayOut | src/components/HeatmapCalendar.tsx:36-95 | fails with "Invalid time value" exactly when a key does not read as a day; otherwise each cell of the columns is the day at its grid position, every column after the first starts on a Sunday, and each month change has its label over the right column |
| HeatmapLayout.Finish | src/components/HeatmapCalendar.tsx:80-89 | padding and pushing the last column completes the layout |
| HeatmapLayout.ColorClass | src/components/HeatmapCalendar.tsx:97-106 | grey exactly outside levels 1..4, with one green shade per level |
| HeatmapLayout.ColorClassInjective | src/components/HeatmapCalendar.tsx:97-106 | levels 0..4 get five distinct classes |
| HeatmapLayout.GreenExactlyOnActiveDays | src/components/HeatmapCalendar.tsx:97-106 | a cell is green exactly when its day has a post |
| HeatmapYear.CalendarIsWholeYear | src/lib/twitter-parser.ts:190-199 | a year's calendar cells read back, under `ParseDateKey`, as that year's days in order |
| HeatmapYear.YearColumns | src/components/HeatmapCalendar.tsx:36-95 | for a whole year, every column has seven cells, and there are ceil((weekday of 1 January + days) / 7) columns |
| HeatmapYear.YearRows | src/components/HeatmapCalendar.tsx:36-95 | for a whole year, each day sits in the row of its weekday, in column (weekday of 1 January + ordinal) / 7 |
| HeatmapYear.YearMonthStarts | src/components/HeatmapCalendar.tsx:62-69 | over a year's days, the month changes are exactly the first days of the months reached so far |
| HeatmapYear.YearLabels | src/components/HeatmapCalendar.tsx:62-69 | a whole year gets twelve labels, Jan..Dec, each over the column of the day before that month's first day (the first column for January) |
| HeatmapYear.MonthOfFirstDay | src/components/HeatmapCalendar.tsx:59-62 | the first day of month m is read as month m |

## Left out

- Reading the zip (JSZip), the asynchronous file API, the React component's
  rendering, tooltips, export and the page around it are not modelled. The
  archive is given as a map of entries, or a read error.
- `JSON.parse` is the `decode` parameter. A file that parses to something other
  than an array of posts, or a post without `tweet.created_at`, is not modelled.
- `parseTwitterDate` (date-utils.ts:7-29) is the `parseDate` parameter, together
  with its ISO/Twitter-format choice and its fallbacks. So is the reading of the
  result as a day in the host's zone.
- The component's `new Date(key)` is the `readKey` parameter. JavaScript reads a
  date-only key as UTC midnight and then takes the local weekday and month. West
  of UTC that shifts each cell to the previous day. The whole-year lemmas assume
  a reading that gives each cell its own day, which is `ParseDateKey` (UTC).
- The statistics' own `new Date(key)` (twitter-parser.ts:167, date-utils.ts:61)
  reads keys with `ParseDateKey`, which is the UTC reading.
- Days are modelled for years 100 to 9999, the years whose key has four digits.
  A post dated outside that range counts as an invalid date.
- `Stats.AverageHundredths`: `averagePerDay` is an integer number of
  hundredths, rounded half up. The double division and `Math.round` are not
  modelled, because the ratio is exact here. Binary floating point could round a
  tie such as 1.005 differently.
- `Calendar.ParseDateKey`: only keys made by `FormatDate` are read as the host
  reads them. On other strings, hosts differ: V8 rolls `2023-02-30` over to
  2 March and reads `2023-1-5` as a local date, while the model reads both as
  invalid. The host's reading of such strings is not modelled.
- `DateUtils.SortBy`: a key that `ParseDateKey` does not accept gets sort key 0.
  The host's `getTime()` on such a key, whether NaN or a rolled-over date, and
  the sort order that follows from it are not modelled. Every key the pipeline produces reads as a day
  (`TwitterParser.YearActivitiesSorted`).
- `DateUtils.SortBy`: it is an insertion sort, proved sorted and a permutation.
  Stability, which JavaScript's `Array.prototype.sort` guarantees, is not stated.
- The "Unknown error" message (twitter-parser.ts:47) for a thrown non-Error is
  not modelled. All failures modelled here throw `Error`s.
- The order in which a JavaScript `Set` yields the years is not modelled.
  Only the sorted, descending list is observable.
- `HeatmapLayout.LayOut`: the padding of the last column (HeatmapCalendar.tsx:80-89)
  runs inside the loop on the last index in the source. In the model it runs
  once after the loop, which has the same effect because it is the final
  iteration. The loop body is the method `HeatmapLayout.PlaceDay`.
- The logging calls (`console.error` at src/lib/twitter-parser.ts:44 and :75,
  `console.warn` in `parseTwitterDate`) are not modelled; they have no effect on
  any result.
- Time-of-day, the local time zone and the clock (`new Date()` in
  processTweets) are parameters, as described above.

At the thresholds the code compares with ≤, so 3 of 10 is level 2 and 8 of 10
is level 4 (src/lib/date-utils.ts:41-45; `DateUtils.ActivityLevelExamples`).
