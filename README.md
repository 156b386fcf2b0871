# Leettuce freshness logic, modelled in Dafny

Leettuce is a browser extension for LeetCode. On the problem-list pages it
paints each problem link by how long ago the user last solved that problem:
green for a week or less, amber up to 30 days, red up to 90 days and brown
beyond that. It also adds a "Nd ago" badge. The solved problems come from
LeetCode's GraphQL API and are kept in the extension's storage. The popup
counts them in the same four categories, and the progress page collects the
user's most recent accepted submissions.

This project models the logic under that plumbing and proves what it does.
It covers:

- turning the API response into stored problems, and the error replies;
- working out the CSRF header from the cookie string;
- the message guard on a sync request;
- the slug lookup and the idempotent colouring pass over the page's links;
- the popup's counters, relative-time wording, line-number gutter, weighted
  difficulty pick and sync-button guard;
- the progress page's deduplication of accepted submissions, and its ordered
  username fallbacks.

Layout, one module per file:

- `wrappers.dfy`, module `Wrappers`: `Option`.
- `jsstrings.dfy`, module `JsStrings`: the JavaScript string built-ins the
  code relies on, written out over `seq<char>` and proved:
  - `split` and `join` (`Join(Split(s, sep), sep) == s`);
  - `includes` and `startsWith`;
  - `trim`, with the ECMAScript white-space and line-terminator set;
  - the capture of the regexes `/\/problems\/([^\/]+)/` and
    `/\/progress\/([^\/]+)/`;
  - number-to-decimal conversion, with a parser that reads it back.
- `freshness.dfy`, module `Freshness`: the stored `Problem` record, the four
  bands, and the whole-days computation that both the page and the popup
  perform.
- `problemset.dfy`, module `ProblemSet`: content-problemset.js. The page's
  state is a class, `ProblemSetPage`, and the DOM links are an `array<Link>`
  updated in place.
- `popup.dfy`, module `Popup`: popup.js. The sync button and what the popup
  has sent and stored are a class, `PopupView`.
- `orderedmap.dfy`, module `OrderedMaps`: a JavaScript `Map` with string
  keys, which is a `map` plus the keys in insertion order.
- `progress.dfy`, module `Progress`: content-progress.js.

Inputs from the outside world are parameters. The clock (`Date.now()`) is
`nowMs`. `Math.random()` is `random01`. The results of `fetch`,
`response.json()` and `chrome.tabs.query` are given datatypes, and an
exception is a `Threw` / `ProgressThrew` value carrying its message. The
cookie string, the location's path and the DOM queries are plain values.

Integers are unbounded. The code's integers are all well inside the range
where a JavaScript number is exact: second and millisecond clocks, day counts
and small weights. `Math.floor` of a division by a positive constant is
Dafny's `/`, which rounds towards minus infinity like `Math.floor` for
negative dividends too. `Math.ceil(h / 20)` is written `(h + 19) / 20`.

Some behaviour of the code that the model keeps as written:

- `autoSync` always fetches the whole solved-problems list
  (content-problemset.js:63-83). Nothing stops two syncs from running at
  the same time. `colorProblemRows` paints every link whose slug is
  known, including the link of the problem being viewed.
- A problem that the API lists twice is stored twice:
  `syncProblemsFromPage` does not deduplicate. The page's lookup map then
  uses the last occurrence (`ProblemLookupLastWins`), not the latest one.
- The popup's sync writes `problemData`, `lastUpdated` and `username` but not
  `latestTimestamp` (popup.js:77-81). The content script's own sync writes
  all four keys (content-problemset.js:70-75). `PopupView.OnSyncResponse`
  models the three keys the popup writes.
- The popup puts day 90 in "need review" (`< 90`, popup.js:127). The page
  paints day 90 in the review-soon colour (`<= 90`,
  content-problemset.js:133). `Popup.PopupAndPageDisagreeOnlyAtDay90` proves
  that this is the only day count on which the two differ.
- The CSRF header uses the first cookie segment that starts with
  `csrftoken=`. When that segment's value is empty, no header is sent, even
  if a later segment carries a value.
- The page's slug is the regex capture. That is the slash-free run after the
  leftmost `/problems/` that is followed by a character other than `/`, which
  is not always the first `/problems/` in the link.

## Model

| member | source | states |
|---|---|---|
| `JsStrings.Includes` | popup.js:55 | `s.includes(p)` is true exactly when `p` occurs in `s` at some position |
| `JsStrings.Split` | content-problemset.js:204 | `split` always yields at least one piece, and the first piece is a prefix of the string |
| `JsStrings.SplitPiecesFreeOfSeparator` | content-problemset.js:204 | the separator is cut out wherever it occurs: no piece contains it |
| `JsStrings.JoinSplit` | content-problemset.js:204-206 | splitting loses nothing: joining the pieces with the same separator gives the string back |
| `JsStrings.SplitAfterPiece` | popup.js:188 | a piece free of the separator's first character, followed by the separator, splits off as one whole piece |
| `JsStrings.Trim` | popup.js:38 | the result is a slice of the input with only white space removed around it, and it neither starts nor ends with white space |
| `JsStrings.MatchSegmentAfter` | content-problemset.js:112 | no capture exactly when no marker is followed by a non-slash character; otherwise the capture is non-empty, slash-free and is the run after the leftmost such marker |
| `JsStrings.MatchSegmentOfBuiltPath` | content-progress.js:150 | a path `marker + segment` (optionally followed by `/...`) captures exactly `segment` |
| `JsStrings.NatToString` | popup.js:188 | the decimal form of a natural number is non-empty, all digits, and has no leading zero |
| `JsStrings.IntToString` | content-problemset.js:152 | the decimal form of an integer starts with `-` exactly when it is negative; the rest is all digits, has no leading zero, and reads back as the magnitude |
| `JsStrings.ParseNatToString` | popup.js:188 | the decimal form reads back as the number |
| `Freshness.DaysSince` | content-problemset.js:120-122 | the whole number of days between the solve time in seconds and the clock in milliseconds, rounded down |
| `Freshness.DaysSinceGrowsWithTime` | popup.js:122 | a later clock never gives fewer days |
| `Freshness.DaysSinceWholeDays` | content-problemset.js:122 | a solve exactly `n` days of 86400000 ms before the clock is `n` days old |
| `ProblemSet.ToProblem` | content-problemset.js:272-276 | title and slug are copied, and the timestamp is the submission time in milliseconds floored to seconds |
| `ProblemSet.Normalise` | content-problemset.js:270-277 | at most as many problems as questions; every question with a submission time gives a problem; every problem comes from such a question |
| `ProblemSet.NormaliseConcat` | content-problemset.js:271 | normalisation keeps input order: it distributes over concatenation |
| `ProblemSet.NormaliseKeepsDated` | content-problemset.js:271-277 | when every question has a submission time, problem `i` is the image of question `i` |
| `ProblemSet.MaxTimestamp` | content-problemset.js:280 | the maximum is at least every timestamp and is attained |
| `ProblemSet.LatestTimestamp` | content-problemset.js:279-281 | `latestTimestamp` is 0 with no problems, otherwise the largest timestamp, attained by some problem |
| `ProblemSet.SyncProblemsFromPage` | content-problemset.js:258-286 | an exception gives its message; `errors` gives the API error before anything else; a missing question list fails next; success exactly otherwise, with the normalised problems (a missing `questions` counts as empty) and their watermark |
| `ProblemSet.FindCsrfCookie` | content-problemset.js:204-205 | `find` gives the first segment that starts with `csrftoken=`, or none when no segment does |
| `ProblemSet.CsrfCookieValue` | content-problemset.js:206 | `split('=')[1]` is the text after `csrftoken=` up to the next `=` or the end |
| `ProblemSet.CsrfSecondPiece` | content-problemset.js:206 | the second `=`-piece of a `csrftoken=` segment is the tail after the prefix, cut at its first `=` |
| `ProblemSet.CsrfToken` | content-problemset.js:204-206 | no token exactly when no segment of `cookie.split('; ')` starts with `csrftoken=`; otherwise the value of the first such segment |
| `ProblemSet.RequestHeaders` | content-problemset.js:208-215 | the two fixed headers always; `x-csrftoken` exactly when `CsrfToken` of the cookie is a non-empty value (the first `csrftoken=` segment's), holding that value, which contains no `=` |
| `ProblemSet.OnMessage` | content-problemset.js:178-200 | `dataUpdated` reloads; a sync request with a missing or empty username is answered with "username not found" and never reaches the fetcher; a fetch is started exactly for a non-empty username |
| `ProblemSet.SyncReply` | content-problemset.js:183-199 | the requester always gets an answer: "username not found" without a username, otherwise the result of the sync |
| `ProblemSet.DetectUsername` | content-problemset.js:7-19 | a username exactly when the endpoint answered OK with a non-empty `user_name` |
| `ProblemSet.RendererBand` | content-problemset.js:127-139 | green exactly for `<= 7` days, amber for 8 to 30, red for 31 to 90, brown for 91 and more |
| `ProblemSet.RendererBandMonotone` | content-problemset.js:127-139 | more days never give a fresher band |
| `ProblemSet.BadgeTextReadsBack` | content-problemset.js:152 | the badge reads an optional `-` (exactly for a negative count), then digits with no leading zero, then `d ago`, and the digits parse back to the magnitude of the day count |
| `ProblemSet.BadgeText` | content-problemset.js:152 | the badge text ends in `d ago` after at least one character of the count |
| `ProblemSet.KnownSlug` | content-problemset.js:111-117 | a slug exactly when the link's `/problems/` capture exists and is a key of the lookup; it is that capture, non-empty and slash-free |
| `ProblemSet.ColorLink` | content-problemset.js:110-173 | href and label are never touched; a link with no capture or an unknown slug is unchanged; otherwise the marker ends equal to the slug, and an already-marked link is unchanged. An unmarked link is painted in the band of its age and keeps any badge it has. Without one it gets exactly one badge, which reads `BadgeText` of its age in days, carries that band's accent, and sits before the percentage label exactly when that label shows a `%` |
| `ProblemSet.ColorLinkIdempotent` | content-problemset.js:142-143 | a second pass, at any later clock, changes nothing |
| `ProblemSet.ColorLinkAtMostOneBadge` | content-problemset.js:149 | the pass adds at most one badge, and only to a link without one |
| `ProblemSet.ColorAll` | content-problemset.js:110 | every link of the page is passed through the per-link step, and the list keeps its length and order |
| `ProblemSet.ColorAllIdempotent` | content-problemset.js:96-98 | re-running the pass when the page mutates leaves the links as the first pass left them |
| `ProblemSet.ColorProblemRows` | content-problemset.js:107-175 | each array element is replaced, in place, by the per-link step applied to its old value |
| `ProblemSet.ProblemLookup` | content-problemset.js:88-91 | every stored problem's slug is a key, and each key maps to a stored problem with that slug |
| `ProblemSet.ProblemLookupLastWins` | content-problemset.js:89-91 | a slug maps to the last problem in `problemData` that carries it |
| `ProblemSet.BuildProblemMap` | content-problemset.js:88-91 | the loop builds exactly the lookup |
| `ProblemSet.ProblemSetPage.ApplyColors` | content-problemset.js:85-93 | no data: the links are unchanged; otherwise every link is coloured with the lookup of `problemData` |
| `ProblemSet.ProblemSetPage.OnStorageRead` | content-problemset.js:22-29 | the stored `problemData`, even an empty list, becomes the page's data and is painted; only its absence starts an automatic sync; storage is not written |
| `ProblemSet.ProblemSetPage.AutoSync` | content-problemset.js:63-83 | no username or a failed sync changes nothing; a successful one writes the whole snapshot at once, adopts its problems and paints them; a consistent stored watermark stays consistent |
| `Popup.PopupBucket` | popup.js:123-131 | fresh exactly for `<= 7` days, good for 8 to 30, review soon for 31 to 89, need review for 90 and more |
| `Popup.PopupAndPageDisagreeOnlyAtDay90` | popup.js:127 | the popup's bucket and the page's band differ exactly at day 90 |
| `Popup.CountInBucket` | popup.js:121-132 | a bucket never counts more problems than there are |
| `Popup.BucketsPartition` | popup.js:119-132 | the four counts add up to the number of problems |
| `Popup.LoadStats` | popup.js:105-132 | missing data counts as an empty list (all zeros); each counter is the number of problems in its bucket; the four add up to `problems.length` |
| `Popup.UsernameTitle` | popup.js:154-168 | the heading starts with `@` exactly when a non-empty username is stored, and the rest is that username; otherwise it is the extension's name |
| `Popup.TimeAgoOf` | popup.js:171-178 | "just now" exactly below 60 s, whole minutes below an hour, whole hours below a day, whole days otherwise, each count rounded down and in its unit's range |
| `Popup.TimeAgoText` | popup.js:174-177 | the text is "just now" only for that wording, and otherwise ends in ` min ago`, ` hours ago` or ` days ago` by the wording's unit |
| `Popup.GetTimeAgo` | popup.js:171-177 | the text is "just now" exactly when less than a minute has passed, and otherwise the wording of the elapsed whole seconds on the minute/hour/day ladder |
| `Popup.TimeAgoUnitMonotone` | popup.js:174-177 | more elapsed time never gives a smaller unit |
| `Popup.TimeAgoTextReadsBack` | popup.js:175-177 | the text is a numeral with no leading zero that parses back to the count, followed by exactly ` min ago`, ` hours ago` or ` days ago` for the wording's unit |
| `Popup.VisibleLines` | popup.js:185 | `Math.ceil(scrollHeight / 20)`: the fewest 20-pixel lines that cover the height |
| `Popup.LineCount` | popup.js:187 | at least 10, and at least the visible lines, and one of the two |
| `Popup.NumberedLines` | popup.js:187-188 | the gutter text is empty exactly for an empty range, and otherwise ends with `<br>` |
| `Popup.NumberedLinesAppend` | popup.js:187-189 | each loop round appends the next numeral and `<br>` at the end |
| `Popup.Numerals` | popup.js:188 | the list of numerals `lo..hi` in order |
| `Popup.NumberedLinesSplit` | popup.js:186-190 | cut at `<br>`, the gutter gives back its numerals in order and nothing after the last break |
| `Popup.NumeralsReadBack` | popup.js:188 | numeral `k` parses back to `lo + k` |
| `Popup.UpdateLineNumbers` | popup.js:180-191 | nothing without the elements; otherwise the numerals 1 to `max(10, ceil(h / 20))`, each followed by `<br>` |
| `Popup.GutterHasAtLeastTenLines` | popup.js:184-190 | the gutter always has at least ten lines, and line `k` reads `k + 1` |
| `Popup.SelectIndex` | popup.js:207-214 | the chosen entry is the first whose cumulative weight reaches the drawn value; none when no entry does |
| `Popup.PickDifficulty` | popup.js:205-214 | the subtract-and-break loop chooses exactly the entry `SelectIndex` names |
| `Popup.TableSelection` | popup.js:194-214 | with the extension's table a draw in [0, 100] always selects: Easy exactly up to 60, Medium above 60 up to 90, Hard above 90 |
| `Popup.TotalWeightIsHundred` | popup.js:204 | the weights add up to 100 |
| `Popup.SetRandomDifficulty` | popup.js:193-215 | nothing without the pill; with it and a draw in [0, 1) a difficulty from the table is always shown, Easy exactly when `100 r <= 60`, Hard exactly when `100 r > 90` |
| `Popup.IsLeetCodeTab` | popup.js:55 | true exactly when the tab has a URL containing `leetcode.com` |
| `Popup.PopupView.SyncData` | popup.js:33-67 | off a LeetCode tab nothing is sent and the button is enabled again; on one, exactly one sync request with the trimmed username is sent and the button stays disabled; storage is untouched |
| `Popup.PopupView.OnSyncResponse` | popup.js:67-93 | called for the request just sent, a successful reply stores the problems, the time and that request's username; an error or failed reply stores nothing; the button is enabled again in every case |
| `OrderedMaps.OrderedMap.Get` | content-progress.js:103 | a value exactly for a present key, and it is the stored one |
| `OrderedMaps.OrderedMap.Set` | content-progress.js:105 | the value is replaced; existing keys keep their order; a new key goes last; a well-formed map stays well-formed |
| `OrderedMaps.OrderedMap.Values` | content-progress.js:116 | the values in key order |
| `OrderedMaps.Empty` | content-progress.js:100 | `new Map()` is well-formed and has no keys |
| `Progress.ToAccepted` | content-progress.js:105-111 | the record keeps the submission's title, slug, timestamp and language |
| `Progress.Step` | content-progress.js:102-113 | a submission that is not accepted leaves the map as it was |
| `Progress.StepKeepsLatest` | content-progress.js:102-111 | after an accepted submission its problem has an entry, which is its record or the old one, never older than either; the other entries and the key order are kept |
| `Progress.Accumulate` | content-progress.js:101-114 | the map after the pass is well-formed and has at most one key per submission |
| `Progress.Dedup` | content-progress.js:100-116 | the output has one element per key of the pass's map, and never more elements than submissions |
| `Progress.DedupAccepted` | content-progress.js:100-116 | the loop over the `Map` computes exactly `Dedup` |
| `Progress.FirstAcceptedIndex` | content-progress.js:101-102 | the index of the first accepted submission of a slug, or the list's length when there is none |
| `Progress.WinnerIsLatest` | content-progress.js:104 | the kept submission has the largest timestamp among its problem's accepted submissions |
| `Progress.WinnerUnique` | content-progress.js:104 | the strict `>` makes the kept submission unique |
| `Progress.AccumulateKeepsInvariant` | content-progress.js:101-114 | after every prefix, every accepted problem has an entry, every entry is its problem's kept submission, and keys are in first-acceptance order |
| `Progress.DedupKeepsLatestAccepted` | content-progress.js:102-111 | each output entry comes from an accepted submission of its problem, with the largest timestamp, and the first one on ties |
| `Progress.DedupDistinctSlugs` | content-progress.js:100-116 | no problem appears twice |
| `Progress.DedupCoversAccepted` | content-progress.js:101-116 | every problem with an accepted submission appears |
| `Progress.DedupInFirstAcceptanceOrder` | content-progress.js:100-116 | entries are in the order their problems were first accepted; a replacement does not move an entry |
| `Progress.DedupExample` | content-progress.js:100-116 | two-sum accepted at 100 and then at 300, with a rejected run and another problem in between, gives two-sum at 300 first and the other problem second |
| `Progress.FetchProgressViaApi` | content-progress.js:23-145 | a missing or empty username fails before any request; then an exception, `errors`, a missing `data` and a missing list fail in that order; otherwise the deduplicated list is saved, an empty list included |
| `Progress.GetCurrentUsername` | content-progress.js:147-169 | the path's `/progress/` segment wins when there is one; else a non-empty avatar `alt`; else the trimmed text of a username element; nothing exactly when all three are absent; an empty name can only come from blank element text |
| `Progress.PathNameWins` | content-progress.js:150-153 | on `/progress/<name>` the name in the path is used, whatever the page shows |
| `Progress.BlankUsernameTextGivesEmptyName` | content-progress.js:163-166 | an all-white-space username element gives the empty name |

## Left out

- background.js: it only relays storage reads and writes and has no logic of its own.
- `chrome.storage`, `chrome.runtime` and `chrome.tabs` messaging, and the `fetch` / GraphQL transport. Their results are parameters, and their asynchrony is not modelled. Storage callbacks run at once, in order.
- The query strings and request bodies, including the page-size constants 4000 and 100. They are passed to the API unchanged.
- The History API overrides and the `popstate` listener (content-problemset.js:31-60). The `setTimeout` delays (content-problemset.js:55-57, content-progress.js:213) are left out too. These are event wiring and timing.
- `MutationObserver` and `ResizeObserver` wiring. A re-run of the colouring pass is covered by `ColorAllIdempotent`. `applyColors` creates a new observer each time it runs and never disconnects the old ones. That stacking is not modelled.
- Date parsing and formatting: `new Date(q.lastSubmittedAt).getTime()`, `toLocaleDateString` (the badge's tooltip) and `toISOString` (`dateCompleted`). Timestamps are taken as integers, and the date-string fields are not part of the model's records.
- `ProblemSet.ProblemSetPage.storage` and the stored fields of `Popup.PopupView` are two views of the one `chrome.storage.local` area, kept apart in the model: a write by the popup is not seen by the page's next read. In the model, a stored record always carries all four keys of the page's own sync snapshot. The program has other writers with fewer keys: the popup writes three (popup.js:77-81), and the progress page's save, handled in background.js, writes only `problemData` and `lastUpdated`. The page adopts whatever `problemData` it finds (content-problemset.js:23-25); those writers are not modelled.
- One clock reading `nowMs` serves a whole colouring pass and the stored `lastUpdated`. The code reads `new Date()` again for each link (content-problemset.js:121) and calls `Date.now()` when it builds the storage write (content-problemset.js:72). A pass during which the clock crosses a whole-day boundary is not modelled.
- `parseInt` on the submission timestamps is taken as already applied. A timestamp that does not parse (NaN) is not modelled.
- `ProblemSet.ColorLink`: the colours, the border and transition styles, the badge's CSS and its tooltip are cosmetic. A painted link records only its band, and a badge records its text, its accent band and where it was inserted.
- Status texts, button labels, tab switching (popup.js:13-24), `showNotification` and its animation styles, and `sendProgress` progress messages are cosmetic UI.
- `ProblemSet.SyncProblemsFromPage`: the error text serialises `errors` with `JSON.stringify`. The model carries the errors themselves.
- `Progress.FetchProgressViaApi`: it stops at the `saveProgress` request. The notification and the completion message sent after the save's reply are left out. A missing `data` raises a `TypeError` whose message depends on the engine; the model reports it as `DataFieldMissing`.
- `Popup.SetRandomDifficulty`: `Math.random()` is the parameter `random01`. Floating-point rounding of `random01 * 100` and of the subtractions is not modelled; the arithmetic is exact over the reals.
- `Popup.PopupView.SyncData`: the `try` / `catch` around `sendMessage` is left out, because `sendMessage` with a callback does not throw in the shown use.
