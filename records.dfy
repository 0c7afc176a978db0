/**
 * The record shapes the pipeline passes around: one archived post, the
 * activity of one day, the statistics of one year, the calendar cell, the
 * assembled heat-map data and the result of processing an archive.
 */
module Records {

  import opened Wrappers

  datatype Url = Url(url: string, expandedUrl: string)

  datatype Mention = Mention(screenName: string, name: string)

  datatype Entities = Entities(hashtags: seq<string>, urls: seq<Url>, userMentions: seq<Mention>)

  /** One archived post (the `tweet` member of an archive entry). The raw
      `createdAt` text is read into a calendar day by the date parser that
      the pipeline is given. */
  datatype Tweet = Tweet(
    id: string,
    fullText: string,
    createdAt: string,
    retweetCount: Option<int>,
    favoriteCount: Option<int>,
    inReplyToStatusId: Option<string>,
    inReplyToUserId: Option<string>,
    entities: Option<Entities>)

  /** The posts of one day under its `yyyy-MM-dd` key. */
  datatype DailyActivity = DailyActivity(date: string, count: nat, tweets: seq<Tweet>)

  /** Summary of one year. `averagePerDay` is kept in hundredths (2.57 is 257). */
  datatype ActivityStats = ActivityStats(
    totalTweets: nat,
    longestStreak: nat,
    currentStreak: nat,
    mostActiveDay: string,
    averagePerDay: nat,
    totalDays: nat,
    activeDays: nat,
    mostActiveDayOfWeek: string,
    yearRange: string)

  /** A day of the rendered calendar, with its intensity level. */
  datatype CalendarDay = CalendarDay(date: string, count: nat, level: int, tweets: seq<Tweet>)

  datatype HeatmapData = HeatmapData(
    activities: seq<DailyActivity>,
    stats: ActivityStats,
    year: int,
    availableYears: seq<int>,
    allYearActivities: map<int, seq<DailyActivity>>,
    allYearStats: map<int, ActivityStats>)

  /** `{ success, data?, error? }`. */
  datatype ProcessingResult = ProcessingResult(success: bool, data: Option<HeatmapData>, error: Option<string>)
}
