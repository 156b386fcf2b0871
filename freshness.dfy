/** What the content script and the popup share: the stored solved-problem
    record, the freshness bands, and the whole-days-since computation both of
    them perform on millisecond clocks. */
module Freshness {

  const MsPerSecond := 1000
  /** `1000 * 60 * 60 * 24`. */
  const MsPerDay := 1000 * 60 * 60 * 24

  /** One solved problem as stored under `problemData`: `timestamp` is in
      seconds since the epoch. */
  datatype Problem = Problem(title: string, titleSlug: string, timestamp: int)

  /** The four freshness categories, from most to least recently solved. The
      problem-list page paints them green, amber, red and brown; the popup
      counts them as fresh, good, review-soon and need-review. */
  datatype Band = Fresh | Good | ReviewSoon | NeedReview

  /** Position of a band in the order above. */
  function Rank(b: Band): nat {
    match b
    case Fresh => 0
    case Good => 1
    case ReviewSoon => 2
    case NeedReview => 3
  }

  /** `Math.floor((now - timestamp * 1000) / 86400000)`: the whole number of
      days from a solve time in seconds to a clock reading in milliseconds,
      rounded towards minus infinity (negative for a solve time in the
      future). */
  function DaysSince(nowMs: int, timestamp: int): (d: int)
    ensures d * MsPerDay <= nowMs - timestamp * MsPerSecond < (d + 1) * MsPerDay
  {
    (nowMs - timestamp * MsPerSecond) / MsPerDay
  }

  /** A later clock reading never gives fewer days. */
  lemma DaysSinceGrowsWithTime(nowMs: int, laterMs: int, timestamp: int)
    requires nowMs <= laterMs
    ensures DaysSince(nowMs, timestamp) <= DaysSince(laterMs, timestamp)
  {
  }

  /** A day is exactly 86400000 ms: a solve exactly `n` whole days before the
      clock reading is `n` days old. */
  lemma DaysSinceWholeDays(timestamp: int, n: int)
    ensures DaysSince(timestamp * MsPerSecond + n * MsPerDay, timestamp) == n
  {
  }
}
