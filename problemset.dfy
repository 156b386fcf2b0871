/** The content script of the problem-list pages (content-problemset.js):
    turning the solved-problems query's response into stored problems, the
    request headers it sends, the message handler the popup talks to, and the
    colouring pass that paints every problem link by how long ago the problem
    was solved. */
module ProblemSet {
  import opened Wrappers
  import opened JsStrings
  import opened Freshness

  // =====================================================================
  // The solved-problems response and its normalisation

  /** One entry of `userProgressQuestionList.questions`, with the fields the
      script reads. `lastSubmittedAt` is `None` when the field is falsy
      (absent, null or the empty string); otherwise it holds the submission
      time in milliseconds, as `new Date(q.lastSubmittedAt).getTime()` gives
      it. */
  datatype Question = Question(title: string, titleSlug: string, lastSubmittedAt: Option<int>)

  /** `userProgressQuestionList`; `questions` may be missing. */
  datatype QuestionList = QuestionList(questions: Option<seq<Question>>)

  /** The response's `data` object. */
  datatype ResponseData = ResponseData(userProgressQuestionList: Option<QuestionList>)

  /** The decoded response body. Any present `errors` value is truthy, an
      empty array included. */
  datatype GraphQLResponse = GraphQLResponse(errors: Option<seq<string>>, data: Option<ResponseData>)

  /** What `fetch` followed by `response.json()` produced: a body, or an
      exception with its message. */
  datatype FetchOutcome = Received(body: GraphQLResponse) | Threw(message: string)

  /** The failure replies of the sync path, one per error message. */
  datatype SyncError =
    | UsernameNotFound              // 'Username not found on page. Please enter manually.'
    | ApiError(errors: seq<string>) // 'API error: ' followed by the serialised errors
    | InvalidResponseStructure      // 'Invalid API response structure'
    | Exception(message: string)    // the message of a caught exception

  /** `{success: true, problems, latestTimestamp}` or `{success: false, error}`. */
  datatype SyncResult =
    | Synced(problems: seq<Problem>, latestTimestamp: int)
    | SyncFailed(error: SyncError)

  /** The filter `q => q.lastSubmittedAt`. */
  predicate HasSubmission(q: Question) {
    q.lastSubmittedAt.Some?
  }

  /** The map step: title and slug are copied and the millisecond time is
      floored to whole seconds. */
  function ToProblem(q: Question): (p: Problem)
    requires HasSubmission(q)
    ensures p.title == q.title && p.titleSlug == q.titleSlug
    ensures p.timestamp * MsPerSecond <= q.lastSubmittedAt.value < (p.timestamp + 1) * MsPerSecond
  {
    Problem(q.title, q.titleSlug, q.lastSubmittedAt.value / MsPerSecond)
  }

  /** `questions.filter(q => q.lastSubmittedAt).map(...)`: every question with
      a submission time becomes a problem, and nothing else does. */
  function Normalise(questions: seq<Question>): (problems: seq<Problem>)
    ensures |problems| <= |questions|
    ensures forall i :: 0 <= i < |questions| && HasSubmission(questions[i]) ==>
      ToProblem(questions[i]) in problems
    ensures forall p :: p in problems ==>
      exists q :: q in questions && HasSubmission(q) && p == ToProblem(q)
    decreases |questions|
  {
    if questions == [] then []
    else
      var rest := Normalise(questions[1..]);
      assert forall i :: 1 <= i < |questions| ==> questions[i] == questions[1..][i - 1];
      (if HasSubmission(questions[0]) then [ToProblem(questions[0])] else []) + rest
  }

  /** Normalisation keeps input order: it distributes over concatenation, so
      the problems of an earlier question come before those of a later one. */
  lemma {:induction false} NormaliseConcat(a: seq<Question>, b: seq<Question>)
    ensures Normalise(a + b) == Normalise(a) + Normalise(b)
    decreases |a|
  {
    if a == [] {
      assert a + b == b;
    } else {
      assert (a + b)[0] == a[0];
      assert (a + b)[1..] == a[1..] + b;
      NormaliseConcat(a[1..], b);
    }
  }

  /** When every question has a submission time nothing is dropped, and the
      `i`-th problem comes from the `i`-th question. */
  lemma {:induction false} NormaliseKeepsDated(questions: seq<Question>)
    requires forall i :: 0 <= i < |questions| ==> HasSubmission(questions[i])
    ensures |Normalise(questions)| == |questions|
    ensures forall i :: 0 <= i < |questions| ==> Normalise(questions)[i] == ToProblem(questions[i])
    decreases |questions|
  {
    if questions != [] {
      NormaliseKeepsDated(questions[1..]);
      assert forall i :: 1 <= i < |questions| ==> questions[i] == questions[1..][i - 1];
    }
  }

  /** `Math.max(...problems.map(p => p.timestamp))` over a non-empty list. */
  function MaxTimestamp(problems: seq<Problem>): (m: int)
    requires problems != []
    ensures forall i :: 0 <= i < |problems| ==> problems[i].timestamp <= m
    ensures exists i :: 0 <= i < |problems| && problems[i].timestamp == m
    decreases |problems|
  {
    if |problems| == 1 then problems[0].timestamp
    else
      var rest := MaxTimestamp(problems[1..]);
      assert forall i :: 1 <= i < |problems| ==> problems[i] == problems[1..][i - 1];
      if problems[0].timestamp > rest then problems[0].timestamp else rest
  }

  /** `latest` is the watermark of `problems`: 0 for none, otherwise the
      largest timestamp, attained by some problem. */
  ghost predicate IsWatermark(problems: seq<Problem>, latest: int) {
    && (problems == [] ==> latest == 0)
    && (forall i :: 0 <= i < |problems| ==> problems[i].timestamp <= latest)
    && (problems != [] ==> exists i :: 0 <= i < |problems| && problems[i].timestamp == latest)
  }

  /** `latestTimestamp`: the maximum timestamp, or 0 when there are none. */
  function LatestTimestamp(problems: seq<Problem>): (latest: int)
    ensures IsWatermark(problems, latest)
  {
    if |problems| > 0 then MaxTimestamp(problems) else 0
  }

  /** `data.data?.userProgressQuestionList`. */
  function QuestionListOf(body: GraphQLResponse): Option<QuestionList> {
    if body.data.Some? then body.data.value.userProgressQuestionList else None
  }

  /** `syncProblemsFromPage` after the request: an explicit error payload is
      reported first, then a missing question list; a missing `questions`
      array counts as empty. A successful result always carries its own
      watermark. */
  function SyncProblemsFromPage(outcome: FetchOutcome): (r: SyncResult)
    ensures outcome.Threw? ==> r == SyncFailed(Exception(outcome.message))
    ensures outcome.Received? && outcome.body.errors.Some? ==>
      r == SyncFailed(ApiError(outcome.body.errors.value))
    ensures outcome.Received? && outcome.body.errors.None? && QuestionListOf(outcome.body).None? ==>
      r == SyncFailed(InvalidResponseStructure)
    ensures r.Synced? <==>
      outcome.Received? && outcome.body.errors.None? && QuestionListOf(outcome.body).Some?
    ensures r.Synced? ==>
      var questions := QuestionListOf(outcome.body).value.questions;
      && r.problems == Normalise(questions.GetOr([]))
      && (questions.None? ==> r.problems == [])
      && IsWatermark(r.problems, r.latestTimestamp)
  {
    match outcome
    case Threw(message) => SyncFailed(Exception(message))
    case Received(body) =>
      if body.errors.Some? then SyncFailed(ApiError(body.errors.value))
      else if QuestionListOf(body).None? then SyncFailed(InvalidResponseStructure)
      else
        var problems := Normalise(QuestionListOf(body).value.questions.GetOr([]));
        Synced(problems, LatestTimestamp(problems))
  }

  // =====================================================================
  // Request headers and the CSRF cookie

  const CsrfCookiePrefix := "csrftoken="

  /** The index `find` stops at: the first segment at or after `from` that
      starts with `csrftoken=`. */
  function FindCsrfCookie(segments: seq<string>, from: nat): (r: Option<nat>)
    ensures r.Some? ==> from <= r.value < |segments| && StartsWith(segments[r.value], CsrfCookiePrefix)
    ensures r.Some? ==> forall j :: from <= j < r.value ==> !StartsWith(segments[j], CsrfCookiePrefix)
    ensures r.None? ==> forall j :: from <= j < |segments| ==> !StartsWith(segments[j], CsrfCookiePrefix)
    decreases |segments| - from
  {
    if from >= |segments| then None
    else if StartsWith(segments[from], CsrfCookiePrefix) then Some(from)
    else FindCsrfCookie(segments, from + 1)
  }

  /** `segment.split('=')[1]`: the text between the first and the second `=`
      (or the end). */
  function CsrfCookieValue(segment: string): (v: string)
    requires StartsWith(segment, CsrfCookiePrefix)
    ensures '=' !in v
    ensures StartsWith(segment[|CsrfCookiePrefix|..], v)
    ensures |CsrfCookiePrefix| + |v| == |segment| || segment[|CsrfCookiePrefix| + |v|] == '='
  {
    CsrfSecondPiece(segment);
    Split(segment, "=")[1]
  }

  /** The second `=`-piece of a `csrftoken=` segment is what follows the
      prefix, up to the next `=`. */
  lemma CsrfSecondPiece(segment: string)
    requires StartsWith(segment, CsrfCookiePrefix)
    ensures |Split(segment, "=")| >= 2
    ensures var tail := segment[|CsrfCookiePrefix|..];
      Split(segment, "=")[1] == tail[..IndexOf(tail, '=')]
  {
    CsrfPrefixFirstEquals();
    IndexOfAfterPrefix(segment, CsrfCookiePrefix, '=');
    SplitOnChar(segment, '=');
    var tail := segment[10..];
    SplitOnChar(tail, '=');
  }

  /** The prefix's only `=` is its last character. */
  lemma CsrfPrefixFirstEquals()
    ensures IndexOf(CsrfCookiePrefix, '=') == 9
  {
    assert CsrfCookiePrefix[9] == '=';
    assert forall j :: 0 <= j < 9 ==> CsrfCookiePrefix[j] != '=';
  }

  /** Some segment starts with `csrftoken=`. */
  predicate HasCsrfCookie(segments: seq<string>) {
    exists j :: 0 <= j < |segments| && StartsWith(segments[j], CsrfCookiePrefix)
  }

  /** At most one segment is the first `csrftoken=` segment. */
  lemma FirstCsrfCookieUnique(segments: seq<string>, i: int, j: int)
    requires IsFirstCsrfCookie(segments, i) && IsFirstCsrfCookie(segments, j)
    ensures i == j
  {
  }

  /** The first `c` of a string lies where it lies in a prefix containing
      `c`. */
  lemma {:induction false} IndexOfAfterPrefix(s: string, p: string, c: char)
    requires StartsWith(s, p) && c in p
    ensures IndexOf(s, c) == IndexOf(p, c)
    decreases |p|
  {
    assert s[0] == p[0];
    if p[0] != c {
      assert p == [p[0]] + p[1..];
      assert s[1..][..|p| - 1] == p[1..];
      IndexOfAfterPrefix(s[1..], p[1..], c);
    }
  }

  /** Segment `i` is the one `find` returns. */
  predicate IsFirstCsrfCookie(segments: seq<string>, i: int) {
    && 0 <= i < |segments|
    && StartsWith(segments[i], CsrfCookiePrefix)
    && forall j :: 0 <= j < i ==> !StartsWith(segments[j], CsrfCookiePrefix)
  }

  /** The cookie value of lines 204–206: none when no `; `-separated segment
      starts with `csrftoken=`, otherwise the value of the first such
      segment. */
  function CsrfToken(cookie: string): (t: Option<string>)
    ensures t.None? <==> !HasCsrfCookie(Split(cookie, "; "))
    ensures t.Some? ==> exists i :: (IsFirstCsrfCookie(Split(cookie, "; "), i)
      && t.value == CsrfCookieValue(Split(cookie, "; ")[i]))
  {
    var segments := Split(cookie, "; ");
    match FindCsrfCookie(segments, 0)
    case None => None
    case Some(i) =>
      assert IsFirstCsrfCookie(segments, i);
      assert HasCsrfCookie(segments);
      Some(CsrfCookieValue(segments[i]))
  }

  /** The headers of the solved-problems request: the two fixed ones, and
      `x-csrftoken` exactly when the first `csrftoken=` cookie carries a
      non-empty value (an empty string is falsy), holding that value. */
  function RequestHeaders(cookie: string): (h: map<string, string>)
    ensures "Content-Type" in h && h["Content-Type"] == "application/json"
    ensures "x-requested-with" in h && h["x-requested-with"] == "XMLHttpRequest"
    ensures h.Keys <= {"Content-Type", "x-requested-with", "x-csrftoken"}
    ensures "x-csrftoken" in h <==> CsrfToken(cookie).Some? && CsrfToken(cookie).value != ""
    ensures "x-csrftoken" in h ==> h["x-csrftoken"] == CsrfToken(cookie).value && '=' !in h["x-csrftoken"]
    ensures "x-csrftoken" in h ==> exists i :: (IsFirstCsrfCookie(Split(cookie, "; "), i)
      && CsrfCookieValue(Split(cookie, "; ")[i]) != "")
    ensures (exists i :: (IsFirstCsrfCookie(Split(cookie, "; "), i)
      && CsrfCookieValue(Split(cookie, "; ")[i]) != "")) ==> "x-csrftoken" in h
  {
    var base := map["Content-Type" := "application/json", "x-requested-with" := "XMLHttpRequest"];
    var segments := Split(cookie, "; ");
    var token := CsrfToken(cookie);
    assert token.Some? ==> forall j :: IsFirstCsrfCookie(segments, j) ==> token.value == CsrfCookieValue(segments[j]) by {
      if token.Some? {
        var i :| IsFirstCsrfCookie(segments, i) && token.value == CsrfCookieValue(segments[i]);
        forall j | IsFirstCsrfCookie(segments, j)
          ensures token.value == CsrfCookieValue(segments[j])
        {
          FirstCsrfCookieUnique(segments, i, j);
        }
      }
    }
    assert token.Some? && token.value != "" ==>
      exists i :: IsFirstCsrfCookie(segments, i) && CsrfCookieValue(segments[i]) != "" by {
      if token.Some? && token.value != "" {
        var i :| IsFirstCsrfCookie(segments, i) && token.value == CsrfCookieValue(segments[i]);
        assert CsrfCookieValue(segments[i]) != "";
      }
    }
    if token.Some? && token.value != "" then base["x-csrftoken" := token.value] else base
  }

  // =====================================================================
  // The message handler and the detected username

  /** The messages the content script reacts to. */
  datatype Request = DataUpdated | SyncProblems(username: Option<string>) | OtherAction

  /** What the handler does with a message: reload the page, answer at once,
      or start a fetch for a username and answer with its result. */
  datatype Reaction = ReloadPage | RespondNow(result: SyncResult) | FetchAndRespond(username: string) | NoReaction

  /** The `onMessage` listener: a sync request without a (non-empty) username
      is answered with a failure and never reaches the fetcher. */
  function OnMessage(request: Request): (a: Reaction)
    ensures a == ReloadPage <==> request.DataUpdated?
    ensures request.SyncProblems? && request.username.GetOr("") == "" ==>
      a == RespondNow(SyncFailed(UsernameNotFound))
    ensures a.FetchAndRespond? <==> request.SyncProblems? && request.username.GetOr("") != ""
    ensures a.FetchAndRespond? ==> request.username == Some(a.username)
    ensures request.OtherAction? ==> a == NoReaction
  {
    match request
    case DataUpdated => ReloadPage
    case SyncProblems(username) =>
      if username.GetOr("") == "" then RespondNow(SyncFailed(UsernameNotFound))
      else FetchAndRespond(username.value)
    case OtherAction => NoReaction
  }

  /** The answer the popup finally receives for a sync request, given what the
      fetch would produce. */
  function SyncReply(request: Request, outcome: FetchOutcome): (r: Option<SyncResult>)
    requires request.SyncProblems?
    ensures r.Some?
    ensures request.username.GetOr("") == "" ==> r == Some(SyncFailed(UsernameNotFound))
    ensures request.username.GetOr("") != "" ==> r == Some(SyncProblemsFromPage(outcome))
  {
    match OnMessage(request)
    case RespondNow(result) => Some(result)
    case FetchAndRespond(_) => Some(SyncProblemsFromPage(outcome))
  }

  /** The response of the current-user endpoint as `detectUsername` sees it. */
  datatype UserApiResponse = UserApiNotOk | UserApiThrew | UserApiBody(userName: Option<string>)

  /** `detectUsername`: the `user_name` of a successful response, unless it is
      missing or empty. */
  function DetectUsername(response: UserApiResponse): (u: Option<string>)
    ensures u.Some? <==> response.UserApiBody? && response.userName.GetOr("") != ""
    ensures u.Some? ==> response.userName == u
  {
    match response
    case UserApiBody(name) => if name.GetOr("") != "" then name else None
    case _ => None
  }

  // =====================================================================
  // The colouring pass

  /** `daysSince <= 7` green, `<= 30` amber, `<= 90` red, otherwise brown. */
  function RendererBand(daysSince: int): (b: Band)
    ensures b == Fresh <==> daysSince <= 7
    ensures b == Good <==> 8 <= daysSince <= 30
    ensures b == ReviewSoon <==> 31 <= daysSince <= 90
    ensures b == NeedReview <==> 91 <= daysSince
  {
    if daysSince <= 7 then Fresh
    else if daysSince <= 30 then Good
    else if daysSince <= 90 then ReviewSoon
    else NeedReview
  }

  /** More days never give a fresher band. */
  lemma RendererBandMonotone(d1: int, d2: int)
    requires d1 <= d2
    ensures Rank(RendererBand(d1)) <= Rank(RendererBand(d2))
  {
  }

  /** Where the badge was inserted: before the link's percentage label, or at
      the end of the link. */
  datatype Placement = BeforePercentLabel | AppendedToLink

  /** A `.freshness-indicator` span: its text and the band whose accent colour
      it carries. */
  datatype Badge = Badge(text: string, accent: Band, placement: Placement)

  /** One `<a>` element of the page, with what the pass reads and writes:
      `colored` is `dataset.colored`, `paint` the band whose background and
      left border were set, `percentLabel` the text of the first `text-sm`
      descendant (if any) and `badges` the indicator spans inside it. */
  datatype Link = Link(
    href: string,
    colored: Option<string>,
    paint: Option<Band>,
    percentLabel: Option<string>,
    badges: seq<Badge>)

  const ProblemsMarker := "/problems/"

  /** `${daysSince}d ago`. */
  function BadgeText(daysSince: int): (text: string)
    ensures EndsWith(text, "d ago") && |text| > |"d ago"|
  {
    IntToString(daysSince) + "d ago"
  }

  /** The badge text names the day count it was made from: a `-` when the
      problem's time lies in the future, then the digits of the count, then
      `d ago`. */
  lemma BadgeTextReadsBack(daysSince: int)
    ensures var t := BadgeText(daysSince);
      var start := if daysSince < 0 then 1 else 0;
      && |t| > start + 5 && t[|t| - 5..] == "d ago"
      && (daysSince < 0 <==> t[0] == '-')
      && (forall k :: start <= k < |t| - 5 ==> IsDigit(t[k]))
      && ParseNat(t[start..|t| - 5]) == (if daysSince < 0 then -daysSince else daysSince)
      && (t[start] == '0' ==> daysSince == 0)
  {
    var t := BadgeText(daysSince);
    var num := IntToString(daysSince);
    var start := if daysSince < 0 then 1 else 0;
    assert t[start..|t| - 5] == num[start..];
  }

  /** The slug the pass acts on: the regex capture, if that slug is known. */
  function KnownSlug(link: Link, problemMap: map<string, Problem>): (slug: Option<string>)
    ensures slug.Some? <==>
      MatchSegmentAfter(link.href, ProblemsMarker).Some? && MatchSegmentAfter(link.href, ProblemsMarker).value in problemMap
    ensures slug.Some? ==> slug == MatchSegmentAfter(link.href, ProblemsMarker)
    ensures slug.Some? ==> slug.value in problemMap && slug.value != [] && '/' !in slug.value
  {
    var slug := MatchSegmentAfter(link.href, ProblemsMarker);
    if slug.Some? && slug.value in problemMap then slug else None
  }

  /** The body of the `forEach` for one link. A link without a slug, or with
      an unknown one, is left as it is. Otherwise the link is styled only when
      its marker differs from the slug: the marker is set, the band of the
      problem's age is painted, and a badge is added only if the link has none
      yet. */
  function ColorLink(link: Link, problemMap: map<string, Problem>, nowMs: int): (r: Link)
    ensures r.href == link.href && r.percentLabel == link.percentLabel
    ensures KnownSlug(link, problemMap).None? ==> r == link
    ensures KnownSlug(link, problemMap).Some? ==>
      var slug := KnownSlug(link, problemMap).value;
      var band := RendererBand(DaysSince(nowMs, problemMap[slug].timestamp));
      && r.colored == Some(slug)
      && (link.colored == Some(slug) ==> r == link)
      && (link.colored != Some(slug) ==> r.paint == Some(band))
      && (link.colored != Some(slug) && link.badges != [] ==> r.badges == link.badges)
    // An unmarked link without a badge gets exactly one, reading its age in
    // days, in its band's accent, before the percentage label when that
    // label shows a `%`.
    ensures KnownSlug(link, problemMap).Some? ==>
      var slug := KnownSlug(link, problemMap).value;
      var days := DaysSince(nowMs, problemMap[slug].timestamp);
      link.colored != Some(slug) && link.badges == [] ==>
        && |r.badges| == 1
        && r.badges[0].text == BadgeText(days)
        && r.badges[0].accent == RendererBand(days)
        && (r.badges[0].placement == BeforePercentLabel <==>
              link.percentLabel.Some? && Includes(link.percentLabel.value, "%"))
  {
    match KnownSlug(link, problemMap)
    case None => link
    case Some(slug) =>
      if link.colored == Some(slug) then link
      else
        var days := DaysSince(nowMs, problemMap[slug].timestamp);
        var band := RendererBand(days);
        var placement :=
          if link.percentLabel.Some? && Includes(link.percentLabel.value, "%")
          then BeforePercentLabel else AppendedToLink;
        var badges := if link.badges == [] then [Badge(BadgeText(days), band, placement)] else link.badges;
        link.(colored := Some(slug), paint := Some(band), badges := badges)
  }

  /** A second pass over a link changes nothing, whatever the clock reads
      then: the marker makes the pass idempotent. */
  lemma ColorLinkIdempotent(link: Link, problemMap: map<string, Problem>, nowMs: int, laterMs: int)
    ensures ColorLink(ColorLink(link, problemMap, nowMs), problemMap, laterMs) == ColorLink(link, problemMap, nowMs)
  {
    var once := ColorLink(link, problemMap, nowMs);
    assert KnownSlug(once, problemMap) == KnownSlug(link, problemMap);
  }

  /** Repeated passes never give a link more than one badge of their own. */
  lemma ColorLinkAtMostOneBadge(link: Link, problemMap: map<string, Problem>, nowMs: int)
    ensures |ColorLink(link, problemMap, nowMs).badges| <= if link.badges == [] then 1 else |link.badges|
  {
  }

  /** The pass over the whole page's links, as a value. */
  function ColorAll(links: seq<Link>, problemMap: map<string, Problem>, nowMs: int): (r: seq<Link>)
    ensures |r| == |links|
    ensures forall i :: 0 <= i < |links| ==> r[i] == ColorLink(links[i], problemMap, nowMs)
  {
    seq(|links|, i requires 0 <= i < |links| => ColorLink(links[i], problemMap, nowMs))
  }

  /** The colouring triggered again by a page mutation leaves the page as the
      first pass left it. */
  lemma ColorAllIdempotent(links: seq<Link>, problemMap: map<string, Problem>, nowMs: int, laterMs: int)
    ensures ColorAll(ColorAll(links, problemMap, nowMs), problemMap, laterMs) == ColorAll(links, problemMap, nowMs)
  {
    var once := ColorAll(links, problemMap, nowMs);
    forall i | 0 <= i < |links|
      ensures ColorLink(once[i], problemMap, laterMs) == once[i]
    {
      ColorLinkIdempotent(links[i], problemMap, nowMs, laterMs);
    }
  }

  /** `colorProblemRows`: the `forEach` over the page's problem links, each
      updated in place. */
  method ColorProblemRows(links: array<Link>, problemMap: map<string, Problem>, nowMs: int)
    modifies links
    ensures forall i :: 0 <= i < links.Length ==> links[i] == ColorLink(old(links[i]), problemMap, nowMs)
  {
    ghost var original := links[..];
    for i := 0 to links.Length
      invariant forall j :: 0 <= j < i ==> links[j] == ColorLink(original[j], problemMap, nowMs)
      invariant forall j :: i <= j < links.Length ==> links[j] == original[j]
    {
      var colored := ColorLink(links[i], problemMap, nowMs);
      links[i] := colored;
    }
  }

  // =====================================================================
  // The slug lookup of applyColors

  /** The `Map` that `problemMap.set(problem.titleSlug, problem)` builds when
      run over `problemData` in order: a later problem with the same slug
      replaces an earlier one. */
  function ProblemLookup(problemData: seq<Problem>): (m: map<string, Problem>)
    ensures forall k :: k in m ==> m[k].titleSlug == k && m[k] in problemData
    ensures forall i :: 0 <= i < |problemData| ==> problemData[i].titleSlug in m
    decreases |problemData|
  {
    if problemData == [] then map[]
    else
      var n := |problemData| - 1;
      var earlier := ProblemLookup(problemData[..n]);
      assert forall i :: 0 <= i < n ==> problemData[i] == problemData[..n][i];
      earlier[problemData[n].titleSlug := problemData[n]]
  }

  /** The lookup returns, for each slug, the last problem carrying it. */
  lemma {:induction false} ProblemLookupLastWins(problemData: seq<Problem>, i: nat)
    requires i < |problemData|
    requires forall j :: i < j < |problemData| ==> problemData[j].titleSlug != problemData[i].titleSlug
    ensures ProblemLookup(problemData)[problemData[i].titleSlug] == problemData[i]
    decreases |problemData|
  {
    var n := |problemData| - 1;
    var last := problemData[n];
    var earlier := ProblemLookup(problemData[..n]);
    assert ProblemLookup(problemData) == earlier[last.titleSlug := last];
    if i < n {
      var prefix := problemData[..n];
      assert prefix[i] == problemData[i];
      assert forall j :: i < j < n ==> prefix[j].titleSlug != prefix[i].titleSlug by {
        forall j | i < j < n ensures prefix[j].titleSlug != prefix[i].titleSlug {
          assert prefix[j] == problemData[j];
        }
      }
      ProblemLookupLastWins(prefix, i);
      assert last.titleSlug != problemData[i].titleSlug;
    }
  }

  /** The `forEach` of lines 88–91. */
  method BuildProblemMap(problemData: seq<Problem>) returns (problemMap: map<string, Problem>)
    ensures problemMap == ProblemLookup(problemData)
  {
    problemMap := map[];
    for i := 0 to |problemData|
      invariant problemMap == ProblemLookup(problemData[..i])
    {
      assert problemData[..i + 1][..i] == problemData[..i];
      problemMap := problemMap[problemData[i].titleSlug := problemData[i]];
    }
    assert problemData[..|problemData|] == problemData;
  }

  // =====================================================================
  // The page's state

  /** What the script writes to `chrome.storage.local` after a sync: the
      four keys are written together. */
  datatype Snapshot = Snapshot(problemData: seq<Problem>, lastUpdated: int, username: string, latestTimestamp: int)

  /** The stored watermark belongs to the stored problems. */
  ghost predicate SnapshotConsistent(s: Snapshot) {
    IsWatermark(s.problemData, s.latestTimestamp)
  }

  /** The script's state on one problem-list page: the module-level
      `problemData`, the stored snapshot, and the page's problem links. */
  class ProblemSetPage {
    var problemData: seq<Problem>
    var storage: Option<Snapshot>
    const links: array<Link>

    constructor (links: array<Link>, storage: Option<Snapshot>)
      ensures this.links == links && this.storage == storage && problemData == []
    {
      this.links := links;
      this.storage := storage;
      problemData := [];
    }

    /** `applyColors`: nothing when there is no data, otherwise one colouring
        pass with the lookup built from `problemData`. */
    method ApplyColors(nowMs: int)
      modifies links
      ensures problemData == [] ==> links[..] == old(links[..])
      ensures problemData != [] ==> links[..] == ColorAll(old(links[..]), ProblemLookup(problemData), nowMs)
    {
      if |problemData| == 0 {
        return;
      }
      var problemMap := BuildProblemMap(problemData);
      ColorProblemRows(links, problemMap, nowMs);
      assert links[..] == ColorAll(old(links[..]), problemMap, nowMs);
    }

    /** The initial storage read: stored problem data (even an empty list,
        which is truthy) is adopted and painted; without it an automatic sync
        is started. */
    method OnStorageRead(nowMs: int) returns (startAutoSync: bool)
      modifies this, links
      ensures startAutoSync <==> storage.None?
      ensures storage == old(storage)
      ensures storage.None? ==> problemData == old(problemData) && links[..] == old(links[..])
      ensures storage.Some? ==> problemData == storage.value.problemData
      ensures storage.Some? && problemData == [] ==> links[..] == old(links[..])
      ensures storage.Some? && problemData != [] ==>
        links[..] == ColorAll(old(links[..]), ProblemLookup(problemData), nowMs)
    {
      if storage.Some? {
        problemData := storage.value.problemData;
        ApplyColors(nowMs);
        startAutoSync := false;
      } else {
        startAutoSync := true;
      }
    }

    /** `autoSync`: without a detected username nothing happens; after a
        successful sync the whole snapshot is written at once, becomes the
        page's `problemData` and is painted; a failed sync changes nothing. */
    method AutoSync(userResponse: UserApiResponse, outcome: FetchOutcome, nowMs: int)
      modifies this, links
      ensures var username := DetectUsername(userResponse);
        if username.Some? && SyncProblemsFromPage(outcome).Synced? then
          var r := SyncProblemsFromPage(outcome);
          && storage == Some(Snapshot(r.problems, nowMs, username.value, r.latestTimestamp))
          && problemData == r.problems
          && (problemData == [] ==> links[..] == old(links[..]))
          && (problemData != [] ==> links[..] == ColorAll(old(links[..]), ProblemLookup(problemData), nowMs))
        else
          storage == old(storage) && problemData == old(problemData) && links[..] == old(links[..])
      ensures old(storage).Some? && SnapshotConsistent(old(storage).value) ==>
        storage.Some? && SnapshotConsistent(storage.value)
    {
      var username := DetectUsername(userResponse);
      if username.None? {
        return;
      }
      var result := SyncProblemsFromPage(outcome);
      if result.Synced? {
        storage := Some(Snapshot(result.problems, nowMs, username.value, result.latestTimestamp));
        problemData := result.problems;
        ApplyColors(nowMs);
      }
    }
  }
}
