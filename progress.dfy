/** The content script of the progress page (content-progress.js): finding
    the user's name, asking the API for recent submissions, and keeping one
    entry per problem, the latest accepted submission, in the order problems
    were first accepted. */
module Progress {
  import opened Wrappers
  import opened JsStrings
  import opened OrderedMaps

  // =====================================================================
  // Submissions and the per-problem entry

  /** One element of `recentSubmissionList`; `timestamp` is already the
      integer `parseInt` reads from the API's string, in seconds. */
  datatype Submission = Submission(
    title: string, titleSlug: string, timestamp: int, statusDisplay: string, lang: string)

  /** The record kept per problem. */
  datatype AcceptedProblem = AcceptedProblem(title: string, titleSlug: string, timestamp: int, lang: string)

  const AcceptedStatus := "Accepted"

  predicate IsAccepted(sub: Submission) {
    sub.statusDisplay == AcceptedStatus
  }

  /** An accepted submission of the problem `slug`. */
  predicate IsAcceptedFor(sub: Submission, slug: string) {
    IsAccepted(sub) && sub.titleSlug == slug
  }

  /** The record built from a submission. */
  function ToAccepted(sub: Submission): (p: AcceptedProblem)
    ensures p.titleSlug == sub.titleSlug && p.timestamp == sub.timestamp
    ensures p.title == sub.title && p.lang == sub.lang
  {
    AcceptedProblem(sub.title, sub.titleSlug, sub.timestamp, sub.lang)
  }

  // =====================================================================
  // The deduplicating pass

  /** One iteration of the `forEach`: an accepted submission replaces the
      entry of its problem when there is none or when it is strictly
      later. */
  function Step(acceptedProblems: OrderedMap<AcceptedProblem>, sub: Submission): (r: OrderedMap<AcceptedProblem>)
    ensures !IsAccepted(sub) ==> r == acceptedProblems
  {
    if !IsAccepted(sub) then acceptedProblems
    else
      var existing := acceptedProblems.Get(sub.titleSlug);
      if existing.None? || sub.timestamp > existing.value.timestamp then
        acceptedProblems.Set(sub.titleSlug, ToAccepted(sub))
      else acceptedProblems
  }

  /** After an accepted submission its problem has an entry, which is the
      submission's record or the one already there and is never older than
      either; nothing else changes and the key order is kept. */
  lemma StepKeepsLatest(acceptedProblems: OrderedMap<AcceptedProblem>, sub: Submission)
    requires IsAccepted(sub)
    ensures var r := Step(acceptedProblems, sub);
      var k := sub.titleSlug;
      && k in r.entries
      && (r.entries == acceptedProblems.entries || r.entries == acceptedProblems.entries[k := ToAccepted(sub)])
      && r.entries[k].timestamp >= sub.timestamp
      && (k in acceptedProblems.entries ==> r.entries[k].timestamp >= acceptedProblems.entries[k].timestamp)
      && |acceptedProblems.keys| <= |r.keys| && r.keys[..|acceptedProblems.keys|] == acceptedProblems.keys
  {
  }

  /** The map after the pass over `subs`. */
  function Accumulate(subs: seq<Submission>): (m: OrderedMap<AcceptedProblem>)
    ensures m.Valid()
    ensures |m.keys| <= |subs|
    decreases |subs|
  {
    if subs == [] then Empty()
    else Step(Accumulate(subs[..|subs| - 1]), subs[|subs| - 1])
  }

  /** The list the pass hands to storage. */
  function Dedup(subs: seq<Submission>): (problems: seq<AcceptedProblem>)
    ensures |problems| == |Accumulate(subs).keys| <= |subs|
  {
    Accumulate(subs).Values()
  }

  /** The pass over `recentSubmissionList`, filling a `Map` in place and
      reading its values out at the end. */
  method DedupAccepted(subs: seq<Submission>) returns (problems: seq<AcceptedProblem>)
    ensures problems == Dedup(subs)
  {
    var acceptedProblems: OrderedMap<AcceptedProblem> := Empty();
    for i := 0 to |subs|
      invariant acceptedProblems == Accumulate(subs[..i])
    {
      assert subs[..i + 1][..i] == subs[..i];
      var sub := subs[i];
      if sub.statusDisplay == AcceptedStatus {
        var existing := acceptedProblems.Get(sub.titleSlug);
        if existing.None? || sub.timestamp > existing.value.timestamp {
          acceptedProblems := acceptedProblems.Set(sub.titleSlug, ToAccepted(sub));
        }
      }
    }
    assert subs[..|subs|] == subs;
    problems := acceptedProblems.Values();
  }

  // ---------------------------------------------------------------------
  // What the pass computes

  /** The index of the first accepted submission of `slug`, or `|subs|` when
      there is none. */
  function FirstAcceptedIndex(subs: seq<Submission>, slug: string): (i: nat)
    ensures i <= |subs|
    ensures i < |subs| ==> IsAcceptedFor(subs[i], slug)
    ensures forall j :: 0 <= j < i ==> !IsAcceptedFor(subs[j], slug)
    decreases |subs|
  {
    if subs == [] then 0
    else
      var i := FirstAcceptedIndex(subs[..|subs| - 1], slug);
      if i < |subs| - 1 then i
      else if IsAcceptedFor(subs[|subs| - 1], slug) then |subs| - 1
      else |subs|
  }

  /** Submission `j` is the one kept for `slug`: accepted, strictly later
      than every earlier accepted submission of the problem and at least as
      late as every later one (the strict `>` keeps the first of equal
      timestamps). */
  ghost predicate IsWinner(subs: seq<Submission>, slug: string, j: int) {
    && 0 <= j < |subs|
    && IsAcceptedFor(subs[j], slug)
    && (forall i :: 0 <= i < j && IsAcceptedFor(subs[i], slug) ==> subs[i].timestamp < subs[j].timestamp)
    && (forall i :: j < i < |subs| && IsAcceptedFor(subs[i], slug) ==> subs[i].timestamp <= subs[j].timestamp)
  }

  /** The kept submission has the largest timestamp of its problem. */
  lemma WinnerIsLatest(subs: seq<Submission>, slug: string, j: int)
    requires IsWinner(subs, slug, j)
    ensures forall i :: 0 <= i < |subs| && IsAcceptedFor(subs[i], slug) ==> subs[i].timestamp <= subs[j].timestamp
  {
  }

  /** At most one submission is the kept one. */
  lemma WinnerUnique(subs: seq<Submission>, slug: string, j1: int, j2: int)
    requires IsWinner(subs, slug, j1) && IsWinner(subs, slug, j2)
    ensures j1 == j2
  {
  }

  /** Every accepted problem has an entry. */
  ghost predicate Covers(subs: seq<Submission>, m: OrderedMap<AcceptedProblem>) {
    forall i :: 0 <= i < |subs| && IsAccepted(subs[i]) ==> subs[i].titleSlug in m.entries
  }

  /** Every entry is the record of its problem's kept submission. */
  ghost predicate Sound(subs: seq<Submission>, m: OrderedMap<AcceptedProblem>) {
    forall k :: k in m.entries ==> exists j :: IsWinner(subs, k, j) && m.entries[k] == ToAccepted(subs[j])
  }

  /** Keys are in the order their problems were first accepted. */
  ghost predicate Ordered(subs: seq<Submission>, m: OrderedMap<AcceptedProblem>) {
    forall a, b :: 0 <= a < b < |m.keys| ==>
      FirstAcceptedIndex(subs, m.keys[a]) < FirstAcceptedIndex(subs, m.keys[b])
  }

  lemma FirstAcceptedIndexExtends(subs: seq<Submission>, s: Submission, slug: string)
    ensures FirstAcceptedIndex(subs + [s], slug) ==
      if FirstAcceptedIndex(subs, slug) < |subs| then FirstAcceptedIndex(subs, slug)
      else if IsAcceptedFor(s, slug) then |subs|
      else |subs| + 1
  {
    assert (subs + [s])[..|subs|] == subs;
  }

  /** A key of a sound map was accepted before the end of `subs`. */
  lemma SoundKeyAccepted(subs: seq<Submission>, m: OrderedMap<AcceptedProblem>, k: string)
    requires Sound(subs, m) && k in m.entries
    ensures FirstAcceptedIndex(subs, k) < |subs|
  {
    var j :| IsWinner(subs, k, j) && m.entries[k] == ToAccepted(subs[j]);
    assert IsAcceptedFor(subs[j], k);
  }

  lemma WinnerExtends(subs: seq<Submission>, s: Submission, slug: string, j: int)
    requires IsWinner(subs, slug, j)
    requires IsAcceptedFor(s, slug) ==> s.timestamp <= subs[j].timestamp
    ensures IsWinner(subs + [s], slug, j)
  {
    var t := subs + [s];
    forall i | j < i < |t| && IsAcceptedFor(t[i], slug)
      ensures t[i].timestamp <= t[j].timestamp
    {
      if i < |subs| {
        assert t[i] == subs[i];
      }
    }
  }

  lemma NewWinner(subs: seq<Submission>, s: Submission, slug: string)
    requires IsAcceptedFor(s, slug)
    requires forall i :: 0 <= i < |subs| && IsAcceptedFor(subs[i], slug) ==> subs[i].timestamp < s.timestamp
    ensures IsWinner(subs + [s], slug, |subs|)
  {
    var t := subs + [s];
    forall i | 0 <= i < |subs| && IsAcceptedFor(t[i], slug)
      ensures t[i].timestamp < t[|subs|].timestamp
    {
      assert t[i] == subs[i];
    }
  }

  lemma StepKeepsCovers(subs: seq<Submission>, s: Submission, m: OrderedMap<AcceptedProblem>)
    requires m.Valid() && Covers(subs, m)
    ensures Covers(subs + [s], Step(m, s))
  {
    var t := subs + [s];
    var m' := Step(m, s);
    assert forall k :: k in m.entries ==> k in m'.entries;
    forall i | 0 <= i < |t| && IsAccepted(t[i])
      ensures t[i].titleSlug in m'.entries
    {
      if i < |subs| {
        assert t[i] == subs[i];
      }
    }
  }

  /** The entry written for an accepted submission that is new or strictly
      later is the record of the new kept submission. */
  lemma ReplacedEntrySound(subs: seq<Submission>, s: Submission, m: OrderedMap<AcceptedProblem>)
    requires m.Valid() && Covers(subs, m) && Sound(subs, m)
    requires IsAccepted(s)
    requires s.titleSlug !in m.entries || s.timestamp > m.entries[s.titleSlug].timestamp
    ensures IsWinner(subs + [s], s.titleSlug, |subs|)
  {
    var k := s.titleSlug;
    forall i | 0 <= i < |subs| && IsAcceptedFor(subs[i], k)
      ensures subs[i].timestamp < s.timestamp
    {
      assert k in m.entries;
      var j :| IsWinner(subs, k, j) && m.entries[k] == ToAccepted(subs[j]);
      WinnerIsLatest(subs, k, j);
    }
    NewWinner(subs, s, k);
  }

  /** An entry the submission does not replace keeps its kept submission. */
  lemma KeptEntrySound(subs: seq<Submission>, s: Submission, m: OrderedMap<AcceptedProblem>, k: string)
    requires Sound(subs, m) && k in m.entries
    requires IsAcceptedFor(s, k) ==> s.timestamp <= m.entries[k].timestamp
    ensures exists j :: IsWinner(subs + [s], k, j) && m.entries[k] == ToAccepted((subs + [s])[j])
  {
    var j :| IsWinner(subs, k, j) && m.entries[k] == ToAccepted(subs[j]);
    WinnerExtends(subs, s, k, j);
    assert (subs + [s])[j] == subs[j];
  }

  lemma StepKeepsSound(subs: seq<Submission>, s: Submission, m: OrderedMap<AcceptedProblem>)
    requires m.Valid() && Covers(subs, m) && Sound(subs, m)
    ensures Sound(subs + [s], Step(m, s))
  {
    var t := subs + [s];
    var m' := Step(m, s);
    if IsAccepted(s) && (s.titleSlug !in m.entries || s.timestamp > m.entries[s.titleSlug].timestamp) {
      ReplacedEntrySound(subs, s, m);
      assert m'.entries == m.entries[s.titleSlug := ToAccepted(s)];
      forall k | k in m'.entries
        ensures exists j :: IsWinner(t, k, j) && m'.entries[k] == ToAccepted(t[j])
      {
        if k == s.titleSlug {
          assert t[|subs|] == s;
        } else {
          KeptEntrySound(subs, s, m, k);
        }
      }
    } else {
      assert m' == m;
      forall k | k in m'.entries
        ensures exists j :: IsWinner(t, k, j) && m'.entries[k] == ToAccepted(t[j])
      {
        KeptEntrySound(subs, s, m, k);
      }
    }
  }

  lemma StepKeepsOrdered(subs: seq<Submission>, s: Submission, m: OrderedMap<AcceptedProblem>)
    requires m.Valid() && Covers(subs, m) && Sound(subs, m) && Ordered(subs, m)
    ensures Ordered(subs + [s], Step(m, s))
  {
    var t := subs + [s];
    var m' := Step(m, s);
    forall a | 0 <= a < |m.keys|
      ensures FirstAcceptedIndex(t, m.keys[a]) == FirstAcceptedIndex(subs, m.keys[a]) < |subs|
    {
      SoundKeyAccepted(subs, m, m.keys[a]);
      FirstAcceptedIndexExtends(subs, s, m.keys[a]);
    }
    if |m'.keys| == |m.keys| + 1 {
      var k0 := m'.keys[|m.keys|];
      assert k0 == s.titleSlug && IsAccepted(s) && k0 !in m.entries;
      FirstAcceptedIndexExtends(subs, s, k0);
      assert FirstAcceptedIndex(t, k0) == |subs|;
    }
  }

  /** The facts the pass keeps about the map at every step. */
  ghost predicate PassInvariant(subs: seq<Submission>, m: OrderedMap<AcceptedProblem>) {
    m.Valid() && Covers(subs, m) && Sound(subs, m) && Ordered(subs, m)
  }

  lemma {:induction false} AccumulateKeepsInvariant(subs: seq<Submission>)
    ensures PassInvariant(subs, Accumulate(subs))
    decreases |subs|
  {
    if subs != [] {
      var prefix := subs[..|subs| - 1];
      var s := subs[|subs| - 1];
      AccumulateKeepsInvariant(prefix);
      assert subs == prefix + [s];
      StepKeepsCovers(prefix, s, Accumulate(prefix));
      StepKeepsSound(prefix, s, Accumulate(prefix));
      StepKeepsOrdered(prefix, s, Accumulate(prefix));
    }
  }

  /** Entry `a` of the output is the value under the `a`-th key, carries that
      key as its slug, and is the record of the key's kept submission. */
  lemma DedupEntryAt(subs: seq<Submission>, a: int)
    requires 0 <= a < |Dedup(subs)|
    ensures var m := Accumulate(subs);
      && |Dedup(subs)| == |m.keys|
      && Dedup(subs)[a].titleSlug == m.keys[a]
      && exists j :: IsWinner(subs, m.keys[a], j) && Dedup(subs)[a] == ToAccepted(subs[j])
  {
    var m := Accumulate(subs);
    AccumulateKeepsInvariant(subs);
    var k := m.keys[a];
    assert k in m.entries;
    var j :| IsWinner(subs, k, j) && m.entries[k] == ToAccepted(subs[j]);
    assert Dedup(subs)[a] == m.entries[k];
  }

  /** Each entry of the output is the record of the kept submission of its
      problem: accepted, the latest of that problem, the first of equal
      timestamps. */
  lemma DedupKeepsLatestAccepted(subs: seq<Submission>)
    ensures forall a :: 0 <= a < |Dedup(subs)| ==>
      exists j :: IsWinner(subs, Dedup(subs)[a].titleSlug, j) && Dedup(subs)[a] == ToAccepted(subs[j])
  {
    var out := Dedup(subs);
    forall a | 0 <= a < |out|
      ensures exists j :: IsWinner(subs, out[a].titleSlug, j) && out[a] == ToAccepted(subs[j])
    {
      DedupEntryAt(subs, a);
    }
  }

  /** No problem appears twice in the output. */
  lemma DedupDistinctSlugs(subs: seq<Submission>)
    ensures forall a, b :: 0 <= a < b < |Dedup(subs)| ==> Dedup(subs)[a].titleSlug != Dedup(subs)[b].titleSlug
  {
    var out := Dedup(subs);
    var m := Accumulate(subs);
    forall a | 0 <= a < |out|
      ensures out[a].titleSlug == m.keys[a]
    {
      DedupEntryAt(subs, a);
    }
  }

  /** Every problem with an accepted submission appears in the output. */
  lemma DedupCoversAccepted(subs: seq<Submission>)
    ensures forall i :: 0 <= i < |subs| && IsAccepted(subs[i]) ==>
      exists a :: 0 <= a < |Dedup(subs)| && Dedup(subs)[a].titleSlug == subs[i].titleSlug
  {
    var out := Dedup(subs);
    var m := Accumulate(subs);
    AccumulateKeepsInvariant(subs);
    forall i | 0 <= i < |subs| && IsAccepted(subs[i])
      ensures exists a :: 0 <= a < |out| && out[a].titleSlug == subs[i].titleSlug
    {
      var k := subs[i].titleSlug;
      assert k in m.keys;
      var a :| 0 <= a < |m.keys| && m.keys[a] == k;
      DedupEntryAt(subs, a);
    }
  }

  /** The output lists problems in the order of their first acceptance; a
      later, later-dated submission replaces an entry without moving it. */
  lemma DedupInFirstAcceptanceOrder(subs: seq<Submission>)
    ensures forall a, b :: 0 <= a < b < |Dedup(subs)| ==>
      FirstAcceptedIndex(subs, Dedup(subs)[a].titleSlug) < FirstAcceptedIndex(subs, Dedup(subs)[b].titleSlug)
  {
    var out := Dedup(subs);
    var m := Accumulate(subs);
    AccumulateKeepsInvariant(subs);
    forall a | 0 <= a < |out|
      ensures out[a].titleSlug == m.keys[a]
    {
      DedupEntryAt(subs, a);
    }
  }

  // A worked case: two-sum accepted at 100 and again at 300, with a rejected
  // run at 500 and an accepted add-two-numbers at 200 in between, keeps
  // two-sum at 300 in first place and add-two-numbers second.

  const ExampleSubs := [
    Submission("Two Sum", "two-sum", 100, "Accepted", "python3"),
    Submission("Add Two Numbers", "add-two-numbers", 200, "Accepted", "cpp"),
    Submission("Two Sum", "two-sum", 500, "Wrong Answer", "python3"),
    Submission("Two Sum", "two-sum", 300, "Accepted", "java")
  ]

  const ExampleAfterTwo := OrderedMap(["two-sum", "add-two-numbers"],
    map["two-sum" := ToAccepted(ExampleSubs[0]), "add-two-numbers" := ToAccepted(ExampleSubs[1])])

  lemma ExampleFirstTwo()
    ensures Accumulate(ExampleSubs[..2]) == ExampleAfterTwo
  {
    assert ExampleSubs[..2][..1] == ExampleSubs[..1];
    assert ExampleSubs[..1][..0] == [];
    assert Accumulate(ExampleSubs[..1]) == OrderedMap(["two-sum"], map["two-sum" := ToAccepted(ExampleSubs[0])]);
  }

  const ExampleFinal := OrderedMap(["two-sum", "add-two-numbers"],
    map["two-sum" := ToAccepted(ExampleSubs[3]), "add-two-numbers" := ToAccepted(ExampleSubs[1])])

  lemma ExampleLastTwo()
    ensures Step(Step(ExampleAfterTwo, ExampleSubs[2]), ExampleSubs[3]) == ExampleFinal
  {
    assert Step(ExampleAfterTwo, ExampleSubs[2]) == ExampleAfterTwo;
    assert ExampleAfterTwo.Get("two-sum") == Some(ToAccepted(ExampleSubs[0]));
  }

  lemma ExampleFirstThree()
    ensures Accumulate(ExampleSubs[..3]) == Step(ExampleAfterTwo, ExampleSubs[2])
  {
    ExampleFirstTwo();
    assert ExampleSubs[..3][..2] == ExampleSubs[..2];
  }

  lemma ExampleAccumulate()
    ensures Accumulate(ExampleSubs) == ExampleFinal
  {
    ExampleFirstThree();
    ExampleLastTwo();
    assert ExampleSubs[..4][..3] == ExampleSubs[..3];
    assert ExampleSubs[..4] == ExampleSubs;
  }

  lemma DedupExample()
    ensures Dedup(ExampleSubs) == [
      AcceptedProblem("Two Sum", "two-sum", 300, "java"),
      AcceptedProblem("Add Two Numbers", "add-two-numbers", 200, "cpp")
    ]
  {
    ExampleAccumulate();
    assert ExampleFinal.Values() == [ExampleFinal.entries["two-sum"], ExampleFinal.entries["add-two-numbers"]];
  }

  // =====================================================================
  // fetchProgressViaAPI

  datatype ProgressData = ProgressData(recentSubmissionList: Option<seq<Submission>>)

  /** The parsed GraphQL body; any `errors` value, even an empty array, is
      truthy. */
  datatype ProgressResponse = ProgressResponse(errors: Option<seq<string>>, data: Option<ProgressData>)

  /** What `fetch` and `response.json()` produced: a body, or an exception's
      message. */
  datatype ProgressFetch = ProgressReceived(body: ProgressResponse) | ProgressThrew(message: string)

  /** The failure reported with `scrapingComplete`. `DataFieldMissing` is
      the `TypeError` reading `recentSubmissionList` of a missing `data`
      raises, which the `catch` reports by its message. */
  datatype ScrapeError =
    | UsernameNotFound
    | GraphQLError
    | NoSubmissionsFound
    | DataFieldMissing
    | ScrapeException(message: string)

  /** Either a failure, or the list sent with `saveProgress`. */
  datatype ScrapeOutcome = ScrapeFailed(error: ScrapeError) | SaveRequested(problems: seq<AcceptedProblem>)

  /** `fetchProgressViaAPI`, with the username found on the page and the
      fetch's result passed in. No username (missing or empty) fails before
      any request; then an exception, `errors`, a missing `data`, and a
      missing list fail in that order; otherwise the deduplicated list is
      saved. An empty list is not an error. */
  method FetchProgressViaApi(username: Option<string>, fetched: ProgressFetch) returns (outcome: ScrapeOutcome)
    ensures outcome == ScrapeFailed(UsernameNotFound) <==> username.None? || username.value == []
    ensures username.Some? && username.value != [] ==>
      match fetched
      case ProgressThrew(message) => outcome == ScrapeFailed(ScrapeException(message))
      case ProgressReceived(body) =>
        if body.errors.Some? then outcome == ScrapeFailed(GraphQLError)
        else if body.data.None? then outcome == ScrapeFailed(DataFieldMissing)
        else if body.data.value.recentSubmissionList.None? then outcome == ScrapeFailed(NoSubmissionsFound)
        else outcome == SaveRequested(Dedup(body.data.value.recentSubmissionList.value))
  {
    if username.None? || username.value == [] {
      return ScrapeFailed(UsernameNotFound);
    }
    match fetched
    case ProgressThrew(message) =>
      outcome := ScrapeFailed(ScrapeException(message));
    case ProgressReceived(data) =>
      if data.errors.Some? {
        outcome := ScrapeFailed(GraphQLError);
      } else if data.data.None? {
        outcome := ScrapeFailed(DataFieldMissing);
      } else if data.data.value.recentSubmissionList.None? {
        outcome := ScrapeFailed(NoSubmissionsFound);
      } else {
        var problemsArray := DedupAccepted(data.data.value.recentSubmissionList.value);
        outcome := SaveRequested(problemsArray);
      }
  }

  // =====================================================================
  // getCurrentUsername

  const ProgressMarker := "/progress/"

  /** A non-empty `alt` on the avatar element. `None` is a page without the
      element, `Some(None)` an element without the attribute. */
  predicate HasAvatarName(avatarAlt: Option<Option<string>>) {
    avatarAlt.Some? && avatarAlt.value.Some? && avatarAlt.value.value != []
  }

  /** `getCurrentUsername`: the segment after `/progress/` in the path, else
      the avatar's non-empty `alt`, else the trimmed text of a username
      element (possibly empty), else nothing. */
  function GetCurrentUsername(pathname: string, avatarAlt: Option<Option<string>>, usernameText: Option<string>)
    : (r: Option<string>)
    ensures (exists j :: SegmentStartsAt(pathname, ProgressMarker, j)) ==>
      r == MatchSegmentAfter(pathname, ProgressMarker) && r.Some? && r.value != [] && '/' !in r.value
    ensures (forall j :: !SegmentStartsAt(pathname, ProgressMarker, j)) ==>
      if HasAvatarName(avatarAlt) then r == avatarAlt.value
      else if usernameText.Some? then r == Some(Trim(usernameText.value))
      else r.None?
    ensures r.None? <==>
      (forall j :: !SegmentStartsAt(pathname, ProgressMarker, j)) && !HasAvatarName(avatarAlt) && usernameText.None?
    ensures r.Some? && r.value == [] ==> usernameText.Some? && Trim(usernameText.value) == []
  {
    var urlMatch := MatchSegmentAfter(pathname, ProgressMarker);
    if urlMatch.Some? then urlMatch
    else if HasAvatarName(avatarAlt) then avatarAlt.value
    else if usernameText.Some? then Some(Trim(usernameText.value))
    else None
  }

  /** On `/progress/<name>` (optionally followed by more path) the name in the
      path is used, whatever the avatar or the page text say. */
  lemma PathNameWins(name: string, rest: string, avatarAlt: Option<Option<string>>, usernameText: Option<string>)
    requires name != [] && '/' !in name
    requires rest == [] || rest[0] == '/'
    ensures GetCurrentUsername(ProgressMarker + name + rest, avatarAlt, usernameText) == Some(name)
  {
    MatchSegmentOfBuiltPath(ProgressMarker, name, rest);
  }

  /** A username element whose text is only whitespace yields the empty
      name, which `fetchProgressViaAPI` reports as not found. */
  lemma BlankUsernameTextGivesEmptyName(pathname: string, avatarAlt: Option<Option<string>>, text: string)
    requires forall j :: !SegmentStartsAt(pathname, ProgressMarker, j)
    requires !HasAvatarName(avatarAlt)
    requires forall k :: 0 <= k < |text| ==> IsJsWhitespace(text[k])
    ensures GetCurrentUsername(pathname, avatarAlt, Some(text)) == Some([])
  {
  }
}
