/** The extension's popup (popup.js): the freshness counters over the stored
    problems, the relative-time wording, the line-number gutter, the weighted
    pick of a difficulty to practise, and the sync button's guard on the
    active tab. */
module Popup {
  import opened Wrappers
  import opened JsStrings
  import opened Freshness
  import ProblemSet

  // =====================================================================
  // loadStats

  /** The popup's category of a day count: `<= 7` fresh, `<= 30` good,
      `< 90` review soon, otherwise need review. */
  function PopupBucket(daysSince: int): (b: Band)
    ensures b == Fresh <==> daysSince <= 7
    ensures b == Good <==> 8 <= daysSince <= 30
    ensures b == ReviewSoon <==> 31 <= daysSince <= 89
    ensures b == NeedReview <==> 90 <= daysSince
  {
    if daysSince <= 7 then Fresh
    else if daysSince <= 30 then Good
    else if daysSince < 90 then ReviewSoon
    else NeedReview
  }

  /** The popup and the problem-list page agree on every day count but one:
      a problem solved exactly 90 days ago is painted in the review-soon
      colour on the page but counted as need-review in the popup. */
  lemma PopupAndPageDisagreeOnlyAtDay90(daysSince: int)
    ensures PopupBucket(daysSince) != ProblemSet.RendererBand(daysSince) <==> daysSince == 90
    ensures daysSince == 90 ==>
      PopupBucket(daysSince) == NeedReview && ProblemSet.RendererBand(daysSince) == ReviewSoon
  {
  }

  /** How many of `problems` fall in bucket `b` at clock reading `nowMs`. */
  function CountInBucket(problems: seq<Problem>, nowMs: int, b: Band): (n: nat)
    ensures n <= |problems|
    decreases |problems|
  {
    if problems == [] then 0
    else
      var last := problems[|problems| - 1];
      CountInBucket(problems[..|problems| - 1], nowMs, b)
        + (if PopupBucket(DaysSince(nowMs, last.timestamp)) == b then 1 else 0)
  }

  /** Every problem lands in exactly one bucket: the four counts add up to
      the number of problems. */
  lemma {:induction false} BucketsPartition(problems: seq<Problem>, nowMs: int)
    ensures CountInBucket(problems, nowMs, Fresh) + CountInBucket(problems, nowMs, Good)
      + CountInBucket(problems, nowMs, ReviewSoon) + CountInBucket(problems, nowMs, NeedReview)
      == |problems|
    decreases |problems|
  {
    if problems != [] {
      BucketsPartition(problems[..|problems| - 1], nowMs);
    }
  }

  /** The four counters of `loadStats`. */
  datatype Stats = Stats(freshCount: nat, goodCount: nat, reviewSoonCount: nat, needReviewCount: nat)

  /** `loadStats`: missing `problemData` counts as an empty list; each
      counter holds the number of problems of its bucket, and together they
      count every problem once. */
  method LoadStats(storedProblems: Option<seq<Problem>>, nowMs: int) returns (stats: Stats)
    ensures var problems := storedProblems.GetOr([]);
      && stats.freshCount == CountInBucket(problems, nowMs, Fresh)
      && stats.goodCount == CountInBucket(problems, nowMs, Good)
      && stats.reviewSoonCount == CountInBucket(problems, nowMs, ReviewSoon)
      && stats.needReviewCount == CountInBucket(problems, nowMs, NeedReview)
    ensures stats.freshCount + stats.goodCount + stats.reviewSoonCount + stats.needReviewCount == |storedProblems.GetOr([])|
    ensures storedProblems.None? ==> stats == Stats(0, 0, 0, 0)
  {
    var problems := storedProblems.GetOr([]);
    var freshCount, goodCount, reviewSoonCount, needReviewCount := 0, 0, 0, 0;
    for i := 0 to |problems|
      invariant freshCount == CountInBucket(problems[..i], nowMs, Fresh)
      invariant goodCount == CountInBucket(problems[..i], nowMs, Good)
      invariant reviewSoonCount == CountInBucket(problems[..i], nowMs, ReviewSoon)
      invariant needReviewCount == CountInBucket(problems[..i], nowMs, NeedReview)
    {
      assert problems[..i + 1][..i] == problems[..i];
      var daysSince := DaysSince(nowMs, problems[i].timestamp);
      if daysSince <= 7 {
        freshCount := freshCount + 1;
      } else if daysSince <= 30 {
        goodCount := goodCount + 1;
      } else if daysSince < 90 {
        reviewSoonCount := reviewSoonCount + 1;
      } else {
        needReviewCount := needReviewCount + 1;
      }
    }
    assert problems[..|problems|] == problems;
    BucketsPartition(problems, nowMs);
    stats := Stats(freshCount, goodCount, reviewSoonCount, needReviewCount);
  }

  // =====================================================================
  // updateUsernameTitle

  const DefaultTitle := "Leettuce"

  /** The popup's heading: `@` and the stored username when there is a
      non-empty one, otherwise the extension's name. The heading starts with
      `@` exactly when a username is shown, and the rest is that username. */
  function UsernameTitle(storedUsername: Option<string>): (title: string)
    ensures |title| > 0
    ensures title[0] == '@' <==> storedUsername.Some? && storedUsername.value != []
    ensures title[0] == '@' ==> title[1..] == storedUsername.value
    ensures title[0] != '@' ==> title == DefaultTitle
  {
    if storedUsername.Some? && storedUsername.value != [] then "@" + storedUsername.value
    else DefaultTitle
  }

  // =====================================================================
  // getTimeAgo

  /** The wording `getTimeAgo` picks: "just now", or a count of minutes,
      hours or days. */
  datatype TimeAgo = JustNow | MinutesAgo(n: nat) | HoursAgo(n: nat) | DaysAgo(n: nat)

  /** Position of a wording's unit, from "just now" to days. */
  function UnitRank(t: TimeAgo): nat {
    match t
    case JustNow => 0
    case MinutesAgo(_) => 1
    case HoursAgo(_) => 2
    case DaysAgo(_) => 3
  }

  /** The unit ladder on an elapsed number of seconds: below a minute "just
      now", below an hour whole minutes, below a day whole hours, otherwise
      whole days, each count rounded down. */
  function TimeAgoOf(seconds: int): (t: TimeAgo)
    ensures t == JustNow <==> seconds < 60
    ensures t.MinutesAgo? <==> 60 <= seconds < 3600
    ensures t.HoursAgo? <==> 3600 <= seconds < 86400
    ensures t.DaysAgo? <==> 86400 <= seconds
    ensures t.MinutesAgo? ==> 1 <= t.n < 60 && t.n * 60 <= seconds < (t.n + 1) * 60
    ensures t.HoursAgo? ==> 1 <= t.n < 24 && t.n * 3600 <= seconds < (t.n + 1) * 3600
    ensures t.DaysAgo? ==> 1 <= t.n && t.n * 86400 <= seconds < (t.n + 1) * 86400
  {
    if seconds < 60 then JustNow
    else if seconds < 3600 then MinutesAgo(seconds / 60)
    else if seconds < 86400 then HoursAgo(seconds / 3600)
    else DaysAgo(seconds / 86400)
  }

  /** More elapsed time never gives a smaller unit. */
  lemma TimeAgoUnitMonotone(s1: int, s2: int)
    requires s1 <= s2
    ensures UnitRank(TimeAgoOf(s1)) <= UnitRank(TimeAgoOf(s2))
  {
  }

  /** The text of a wording. */
  function TimeAgoText(t: TimeAgo): (text: string)
    ensures text == "just now" <==> t == JustNow
    ensures t.MinutesAgo? ==> EndsWith(text, " min ago")
    ensures t.HoursAgo? ==> EndsWith(text, " hours ago")
    ensures t.DaysAgo? ==> EndsWith(text, " days ago")
  {
    match t
    case JustNow => "just now"
    case MinutesAgo(n) => NatToString(n) + " min ago"
    case HoursAgo(n) => NatToString(n) + " hours ago"
    case DaysAgo(n) => NatToString(n) + " days ago"
  }

  /** `getTimeAgo(timestamp)`: both times in milliseconds, the elapsed time
      floored to whole seconds. */
  function GetTimeAgo(nowMs: int, timestampMs: int): (text: string)
    ensures text == "just now" <==> nowMs - timestampMs < 60 * MsPerSecond
    ensures text == TimeAgoText(TimeAgoOf((nowMs - timestampMs) / MsPerSecond))
  {
    var t := TimeAgoOf((nowMs - timestampMs) / MsPerSecond);
    assert !t.JustNow? ==> |TimeAgoText(t)| > |"just now"|;
    TimeAgoText(t)
  }

  /** The number in the text is the count of the wording. */
  lemma TimeAgoTextReadsBack(t: TimeAgo)
    requires !t.JustNow?
    ensures var text := TimeAgoText(t);
      var numeral := text[..|NatToString(t.n)|];
      && (forall k :: 0 <= k < |numeral| ==> IsDigit(numeral[k]))
      && ParseNat(numeral) == t.n
      && (numeral[0] == '0' ==> t.n == 0)
      && text[|numeral|..] == match t
        case MinutesAgo(_) => " min ago"
        case HoursAgo(_) => " hours ago"
        case DaysAgo(_) => " days ago"
  {
    var text := TimeAgoText(t);
    assert text[..|NatToString(t.n)|] == NatToString(t.n);
    ParseNatToString(t.n);
  }

  // =====================================================================
  // updateLineNumbers

  const LineHeight := 20
  const MinimumLines := 10

  /** `Math.ceil(scrollHeight / 20)`. */
  function VisibleLines(scrollHeight: int): (n: int)
    ensures (n - 1) * LineHeight < scrollHeight <= n * LineHeight
  {
    (scrollHeight + LineHeight - 1) / LineHeight
  }

  /** `Math.max(10, visibleLines)`. */
  function LineCount(scrollHeight: int): (n: nat)
    ensures n >= MinimumLines
    ensures n >= VisibleLines(scrollHeight)
    ensures n == MinimumLines || n == VisibleLines(scrollHeight)
  {
    if VisibleLines(scrollHeight) > MinimumLines then VisibleLines(scrollHeight) else MinimumLines
  }

  const LineBreak := "<br>"

  /** The numerals `lo`, `lo+1`, ..., `hi`, each followed by `<br>`. */
  function NumberedLines(lo: nat, hi: nat): (html: string)
    ensures html == "" <==> lo > hi
    ensures lo <= hi ==> EndsWith(html, LineBreak)
    decreases hi + 1 - lo
  {
    if lo > hi then "" else NatToString(lo) + LineBreak + NumberedLines(lo + 1, hi)
  }

  lemma ConcatAssoc(a: string, b: string, c: string)
    ensures (a + b) + c == a + (b + c)
  {
  }

  /** One more line goes at the end. */
  lemma {:induction false} NumberedLinesAppend(lo: nat, hi: nat)
    requires lo <= hi + 1
    ensures NumberedLines(lo, hi + 1) == NumberedLines(lo, hi) + (NatToString(hi + 1) + LineBreak)
    decreases hi + 1 - lo
  {
    if lo <= hi {
      NumberedLinesAppend(lo + 1, hi);
      ConcatAssoc(NatToString(lo) + LineBreak, NumberedLines(lo + 1, hi), NatToString(hi + 1) + LineBreak);
    }
  }

  /** The numerals `lo`, ..., `hi`. */
  function Numerals(lo: nat, hi: nat): (ns: seq<string>)
    ensures |ns| == if lo > hi then 0 else hi + 1 - lo
    ensures forall k :: 0 <= k < |ns| ==> ns[k] == NatToString(lo + k)
    decreases hi + 1 - lo
  {
    if lo > hi then [] else [NatToString(lo)] + Numerals(lo + 1, hi)
  }

  /** Cut at every `<br>`, the gutter gives back its numerals in order, and
      nothing after the last break. */
  lemma {:induction false} NumberedLinesSplit(lo: nat, hi: nat)
    ensures Split(NumberedLines(lo, hi), LineBreak) == Numerals(lo, hi) + [""]
    decreases hi + 1 - lo
  {
    if lo <= hi {
      var numeral := NatToString(lo);
      assert '<' !in numeral by {
        forall k | 0 <= k < |numeral| ensures numeral[k] != '<' {
          assert IsDigit(numeral[k]);
        }
      }
      SplitAfterPiece(numeral, LineBreak, NumberedLines(lo + 1, hi));
      NumberedLinesSplit(lo + 1, hi);
      assert [numeral] + (Numerals(lo + 1, hi) + [""]) == ([numeral] + Numerals(lo + 1, hi)) + [""];
    }
  }

  /** Each numeral reads back as its number. */
  lemma NumeralsReadBack(lo: nat, hi: nat)
    ensures forall k :: 0 <= k < |Numerals(lo, hi)| ==> ParseNat(Numerals(lo, hi)[k]) == lo + k
  {
    forall k | 0 <= k < |Numerals(lo, hi)|
      ensures ParseNat(Numerals(lo, hi)[k]) == lo + k
    {
      ParseNatToString(lo + k);
    }
  }

  /** `updateLineNumbers`: nothing when the gutter or the content element is
      missing; otherwise the numerals 1 to `max(10, ceil(scrollHeight/20))`,
      each followed by `<br>`. */
  method UpdateLineNumbers(elementsPresent: bool, scrollHeight: int) returns (html: Option<string>)
    ensures !elementsPresent ==> html.None?
    ensures elementsPresent ==> html == Some(NumberedLines(1, LineCount(scrollHeight)))
  {
    if !elementsPresent {
      return None;
    }
    var visibleLines := VisibleLines(scrollHeight);
    var s := "";
    var i := 1;
    while i <= (if MinimumLines > visibleLines then MinimumLines else visibleLines)
      invariant 1 <= i <= LineCount(scrollHeight) + 1
      invariant s == NumberedLines(1, i - 1)
      decreases LineCount(scrollHeight) + 1 - i
    {
      NumberedLinesAppend(1, i - 1);
      s := s + (NatToString(i) + LineBreak);
      i := i + 1;
    }
    html := Some(s);
  }

  /** The gutter always has at least ten lines, numbered from 1 in order. */
  lemma GutterHasAtLeastTenLines(scrollHeight: int)
    ensures var parts := Split(NumberedLines(1, LineCount(scrollHeight)), LineBreak);
      && |parts| - 1 == LineCount(scrollHeight) >= 10
      && parts[|parts| - 1] == ""
      && forall k :: 0 <= k < |parts| - 1 ==> parts[k] == NatToString(k + 1) && ParseNat(parts[k]) == k + 1
  {
    var n := LineCount(scrollHeight);
    NumberedLinesSplit(1, n);
    NumeralsReadBack(1, n);
    var parts := Split(NumberedLines(1, n), LineBreak);
    forall k | 0 <= k < |parts| - 1
      ensures parts[k] == NatToString(k + 1) && ParseNat(parts[k]) == k + 1
    {
      assert parts[k] == Numerals(1, n)[k];
    }
  }

  // =====================================================================
  // setRandomDifficulty

  datatype Difficulty = Difficulty(name: string, cssClass: string, weight: int)

  /** The table of `setRandomDifficulty`. */
  const Difficulties := [
    Difficulty("Easy", "easy", 60),
    Difficulty("Medium", "medium", 30),
    Difficulty("Hard", "hard", 10)
  ]

  /** Sum of the first `k` weights (`reduce` for `k == |ds|`). */
  function CumulativeWeight(ds: seq<Difficulty>, k: nat): int
    requires k <= |ds|
  {
    if k == 0 then 0 else CumulativeWeight(ds, k - 1) + ds[k - 1].weight
  }

  /** Sum of the weights of entries `0..j`, the value `random` is compared
      against at entry `j`. */
  function WeightThrough(ds: seq<Difficulty>, j: nat): int
    requires j < |ds|
  {
    CumulativeWeight(ds, j + 1)
  }

  /** The entry the loop stops at for a drawn value `r`: the first whose
      cumulative weight reaches `r`, or none when no entry does. */
  function SelectIndex(ds: seq<Difficulty>, r: real, from: nat): (pick: Option<nat>)
    requires from <= |ds|
    ensures pick.Some? ==>
      && from <= pick.value < |ds|
      && r <= WeightThrough(ds, pick.value) as real
      && forall j :: from <= j < pick.value ==> WeightThrough(ds, j) as real < r
    ensures pick.None? ==> forall j :: from <= j < |ds| ==> WeightThrough(ds, j) as real < r
    decreases |ds| - from
  {
    if from == |ds| then None
    else if r <= WeightThrough(ds, from) as real then Some(from)
    else SelectIndex(ds, r, from + 1)
  }

  /** The loop of `setRandomDifficulty`: `random` is decreased by each weight
      in turn and the first entry that brings it to zero or below is
      chosen. */
  method PickDifficulty(ds: seq<Difficulty>, r: real) returns (pick: Option<nat>)
    ensures pick == SelectIndex(ds, r, 0)
  {
    var random := r;
    pick := None;
    var i := 0;
    while i < |ds|
      invariant 0 <= i <= |ds|
      invariant random == r - CumulativeWeight(ds, i) as real
      invariant forall j :: 0 <= j < i ==> WeightThrough(ds, j) as real < r
      invariant SelectIndex(ds, r, 0) == SelectIndex(ds, r, i)
    {
      random := random - ds[i].weight as real;
      if random <= 0.0 {
        pick := Some(i);
        return;
      }
      i := i + 1;
    }
  }

  /** With the extension's table, a drawn value in [0, 100] picks exactly one
      difficulty: Easy up to 60, Medium above 60 up to 90, Hard above 90. */
  lemma TableSelection(r: real)
    requires 0.0 <= r <= 100.0
    ensures SelectIndex(Difficulties, r, 0).Some?
    ensures SelectIndex(Difficulties, r, 0) == Some(0) <==> r <= 60.0
    ensures SelectIndex(Difficulties, r, 0) == Some(1) <==> 60.0 < r <= 90.0
    ensures SelectIndex(Difficulties, r, 0) == Some(2) <==> 90.0 < r
  {
    assert CumulativeWeight(Difficulties, 1) == 60;
    assert CumulativeWeight(Difficulties, 2) == 90;
    assert CumulativeWeight(Difficulties, 3) == 100;
  }

  /** The total weight of the table is 100. */
  lemma TotalWeightIsHundred()
    ensures CumulativeWeight(Difficulties, |Difficulties|) == 100
  {
    assert CumulativeWeight(Difficulties, 1) == 60;
    assert CumulativeWeight(Difficulties, 2) == 90;
  }

  /** `setRandomDifficulty` with `Math.random()` passed in as `random01`:
      nothing when the pill element is missing; otherwise the name and class
      the pill is given, or none when the loop selects nothing. */
  method SetRandomDifficulty(pillPresent: bool, random01: real) returns (pill: Option<Difficulty>)
    ensures !pillPresent ==> pill.None?
    ensures pillPresent && 0.0 <= random01 < 1.0 ==> pill.Some? && pill.value in Difficulties
    ensures pill.Some? ==>
      && pillPresent
      && (pill.value == Difficulties[0] <==> random01 * 100.0 <= 60.0)
      && (pill.value == Difficulties[2] <==> 90.0 < random01 * 100.0)
  {
    if !pillPresent {
      return None;
    }
    var totalWeight := CumulativeWeight(Difficulties, |Difficulties|);
    TotalWeightIsHundred();
    var random := random01 * totalWeight as real;
    var pick := PickDifficulty(Difficulties, random);
    if 0.0 <= random <= 100.0 {
      TableSelection(random);
    }
    pill := if pick.Some? then Some(Difficulties[pick.value]) else None;
  }

  // =====================================================================
  // syncData

  const LeetCodeHost := "leetcode.com"

  /** `tab.url && tab.url.includes('leetcode.com')`. */
  function IsLeetCodeTab(url: Option<string>): (ok: bool)
    ensures ok <==> url.Some? && exists i :: OccursAt(url.value, LeetCodeHost, i)
  {
    url.Some? && Includes(url.value, LeetCodeHost)
  }

  /** The popup's sync button and what it has sent to the page and written to
      storage. */
  class PopupView {
    var syncButtonDisabled: bool
    var sent: seq<ProblemSet.Request>
    var storedProblems: Option<seq<Problem>>
    var storedUsername: Option<string>
    var storedLastUpdated: Option<int>

    constructor ()
      ensures !syncButtonDisabled && sent == []
      ensures storedProblems == None && storedUsername == None && storedLastUpdated == None
    {
      syncButtonDisabled := false;
      sent := [];
      storedProblems, storedUsername, storedLastUpdated := None, None, None;
    }

    /** `syncData` up to the message: off a LeetCode tab it gives up before
        sending anything and re-enables the button; otherwise it sends the
        trimmed username and waits with the button disabled. */
    method SyncData(inputValue: string, tabUrl: Option<string>)
      modifies this
      ensures storedProblems == old(storedProblems) && storedUsername == old(storedUsername)
      ensures storedLastUpdated == old(storedLastUpdated)
      ensures !IsLeetCodeTab(tabUrl) ==> sent == old(sent) && !syncButtonDisabled
      ensures IsLeetCodeTab(tabUrl) ==>
        sent == old(sent) + [ProblemSet.SyncProblems(Some(Trim(inputValue)))] && syncButtonDisabled
    {
      var username := Trim(inputValue);
      syncButtonDisabled := true;
      var onLeetCode := IsLeetCodeTab(tabUrl);
      if !onLeetCode {
        syncButtonDisabled := false;
        return;
      }
      sent := sent + [ProblemSet.SyncProblems(Some(username))];
    }

    /** The response callback: `None` stands for `chrome.runtime.lastError`.
        A successful reply stores the problems, the time and the username
        that the request just sent carried; in every case the button is
        enabled again. */
    method OnSyncResponse(response: Option<ProblemSet.SyncResult>, username: string, nowMs: int)
      requires sent != [] && sent[|sent| - 1] == ProblemSet.SyncProblems(Some(username))
      modifies this
      ensures !syncButtonDisabled && sent == old(sent)
      ensures response.Some? && response.value.Synced? ==>
        && storedProblems == Some(response.value.problems)
        && storedUsername == Some(username)
        && storedLastUpdated == Some(nowMs)
      ensures !(response.Some? && response.value.Synced?) ==>
        && storedProblems == old(storedProblems)
        && storedUsername == old(storedUsername)
        && storedLastUpdated == old(storedLastUpdated)
    {
      if response.Some? && response.value.Synced? {
        storedProblems := Some(response.value.problems);
        storedLastUpdated := Some(nowMs);
        storedUsername := Some(username);
      }
      syncButtonDisabled := false;
    }
  }
}
