# fallacy-bot decision logic in Dafny

This project models the decision-making core of fallacy-bot. The bot watches X (Twitter) accounts and mentions. It asks a chat model whether a tweet contains logical fallacies and, if it does, replies to the tweet. Two browser monitors do the watching: the Playwright one, which is the bot's main loop, and the older Selenium one. An SQLite table remembers which tweets were already handled.

The model keeps the decisions and leaves the effects outside:

- **Browser pages are scripted values.**
  - A selector lookup is a boolean: whether that selector shows up within its wait at that point of the flow.
  - Attempts are numbered, so `present(k)` answers for attempt `k`.
  - A `find_elements` call answers with the list it found, or says it raised.
- **The chat service is a parameter.** Every answer it could give is an input (`ChatReply`, `DetectReply`). Each operation that talks to it returns the list of requests it sent (`ChatCall`). This makes the "no request is made" guards provable.
- **Clocks are integer seconds** passed in by the caller or carried by the scripted element they are read for.
- **The dedup table is a class.** It holds a `map` from tweet id to row. Each store call takes `ok`, whether SQLite carried the statement out.

Files, one module each:

| file | module | source |
|---|---|---|
| `wrappers.dfy` | `Wrappers` | `Option` |
| `strings.dfy` | `Strings` | the Python `str` operations the core uses: `strip`, `startswith`, `in`, `split(sep)[-1]`, `split('?')[0]`, `split('=', 1)[1]`, `"\n".join` |
| `fallback.dfy` | `Fallback` | "try candidates in order, first that works wins", the shape of every selector and click loop |
| `fallacy_detector.dfy` | `FallacyDetector` | `bot/fallacy_detector.py` (pure) |
| `db_manager.dfy` | `DbManager` | `bot/db_manager.py` (class `DBManager`) |
| `playwright_credentials.dfy` | `PlaywrightCredentials` | the `.env` reading in `TwitterMonitorPlaywright.__init__` |
| `playwright_login.dfy` | `PlaywrightLogin` | `_wait_for_element`, `_login`, `_handle_verification_screens` |
| `playwright_tweet.dfy` | `PlaywrightTweet` | the per-tweet flow of `monitor_account`: status id, dedup check, detection, reply button, reply box, text entry, send button and success indicator, marking |
| `playwright_monitor.dfy` | `TwitterMonitorPlaywright` | the monitor object, the profile-load loop and the timeline scan of `monitor_account` |
| `twitter_monitor.dfy` | `TwitterMonitorSelenium` | `bot/twitter_monitor.py` (class `TwitterMonitor`) |

The two monitors decide differently:

- **Playwright path.** It replies to any tweet with a non-empty finding list and applies no confidence threshold. It marks a tweet processed either when no fallacy was found, or after a success indicator confirmed the reply.
- **Selenium path.** It gates on the largest confidence being at least 0.8, and it remembers replies only in its in-memory `last_check` map, with a one-hour cooldown.

The credential parser keeps the code's behaviour where it departs from a plain "value, whitespace-stripped" reading:

- the source strips the whole line before splitting at the first `=`;
- so blanks right after the `=` are kept (`ParseValue`);
- then single quotes, and after them double quotes, are stripped from both ends.

## Model

| member | source | states |
|---|---|---|
| Strings.Strip | bot/twitter_monitor_playwright.py:44 | `str.strip(chars)`: no longer than the input, and no dropped character is left at either end |
| Strings.StripMiddle | bot/twitter_monitor_playwright.py:44 | the stripped string is a slice of the input, and everything cut off on either side is a dropped character |
| Strings.StripNothing | bot/twitter_monitor_playwright.py:44 | a string with no dropped character at either end strips to itself |
| Strings.StripExact | bot/twitter_monitor_playwright.py:44 | stripping `p + m + t`, where `p` and `t` consist only of dropped characters and `m` has none at its ends, gives exactly `m` |
| Strings.StripKeeps | bot/twitter_monitor_playwright.py:44 | a character that is not dropped survives stripping |
| Strings.IndexOf | bot/twitter_monitor_playwright.py:238 | the first occurrence of a separator; `None` exactly when the separator does not occur |
| Strings.LastPiece | bot/twitter_monitor_playwright.py:238 | `s.split(sep)[-1]` is a suffix of `s` |
| Strings.LastPieceHasNoSep | bot/twitter_monitor_playwright.py:238 | the last piece of a split does not contain the separator |
| Strings.LastPieceWhole | bot/twitter_monitor_playwright.py:238 | without an occurrence of the separator, the last piece is the whole string |
| Strings.LastPieceAfterCut | bot/twitter_monitor_playwright.py:238 | when the separator occurs, the text before the last piece ends with it |
| Strings.LastPieceAfterOnlyCut | bot/twitter_monitor_playwright.py:238 | when the separator occurs first at `i` and never after that occurrence, the last piece is everything after it |
| Strings.LastPieceAfterLastCut | bot/twitter_monitor_playwright.py:238 | an occurrence of the separator that no earlier occurrence overlaps and after which none follows is the last cut: the last piece is everything after it |
| Strings.UntilChar | bot/twitter_monitor_playwright.py:238 | `s.split(c)[0]`: the longest prefix without `c`, followed in `s` by `c` when shorter than `s` |
| Strings.UntilCharStops | bot/twitter_monitor_playwright.py:238 | the prefix before `c` of `head + tail`, where `head` has no `c` and `tail` starts with `c` or is empty, is `head` |
| Strings.AfterFirst | bot/twitter_monitor_playwright.py:44 | `s.split(c, 1)[1]`: `s` is the text before the first `c`, then `c`, then the result |
| Strings.SplitJoin | bot/fallacy_detector.py:186-189 | joining lines that contain no separator and splitting again gives the lines back |
| Fallback.FirstWorking | bot/twitter_monitor_playwright.py:309-318 | the loop answers the first candidate that works, and `None` only when none does |
| Fallback.FirstIsUnique | bot/twitter_monitor_playwright.py:309-318 | the first working candidate is the one the specification function names |
| Fallback.FirstPresent | bot/twitter_monitor_playwright.py:82-90 | the first selector of a list that is present, in list order; `None` exactly when none is |
| FallacyDetector.DetectFallacies | bot/fallacy_detector.py:73-104 | one request; the parsed list is returned unchanged; a failed request, a non-JSON answer or a non-list answer gives `[]` |
| FallacyDetector.SortByConfidence | bot/fallacy_detector.py:184 | the sorted list is in non-increasing confidence and a permutation of the input |
| FallacyDetector.SortKeepsTieOrder | bot/fallacy_detector.py:184 | the sort is stable: the findings of each confidence keep their input order |
| FallacyDetector.TopTwo | bot/fallacy_detector.py:184 | `sorted(...)[:2]` keeps `min(2, n)` findings |
| FallacyDetector.TopTwoSelects | bot/fallacy_detector.py:184 | the kept findings are in non-increasing confidence and drawn from the input; every dropped finding is no more confident than every kept one; ties keep input order |
| FallacyDetector.TopOfSorted | bot/fallacy_detector.py:184 | any prefix of the sorted list has the properties `TopTwoSelects` states |
| FallacyDetector.ReplaceChar | bot/fallacy_detector.py:187 | `replace('_', ' ')`: same length, each `a` becomes `b`, every other character is kept |
| FallacyDetector.TitleFrom | bot/fallacy_detector.py:187 | `str.title()` over ASCII: a cased character is upper-cased at the start of a word and lower-cased inside one |
| FallacyDetector.FormatTypeAt | bot/fallacy_detector.py:187 | the formatted type has the input's length and no `_`; each `_` becomes a space; letters are upper-cased at word starts and lower-cased elsewhere; other characters are kept |
| FallacyDetector.FormatTypeOneLine | bot/fallacy_detector.py:187 | a type without a newline formats to one without a newline |
| FallacyDetector.FormatType | bot/fallacy_detector.py:187 | `type.replace('_', ' ').title()`: `ReplaceChar`, then `TitleFrom` from a word start; its value position by position is proved in `FormatTypeAt`, and `FormatTypeOneLine` proves it adds no line break |
| FallacyDetector.TweetLines | bot/fallacy_detector.py:186-189 | one `- <Type>` line per finding, in order |
| FallacyDetector.ResponseLines | bot/fallacy_detector.py:112-115 | one `- <Type>: <explanation>` line per finding, in order |
| FallacyDetector.TweetDescriptions | bot/fallacy_detector.py:183-189 | the `fallacy_descriptions` text: the bullet lines of the two most confident findings joined by `\n`; `TweetDescriptionsLines` proves it splits back into exactly those lines |
| FallacyDetector.TweetDescriptionsLines | bot/fallacy_detector.py:183-189 | the descriptions text splits back into one or two bullet lines, those of the top-two findings in order |
| FallacyDetector.GenerateTwitterResponse | bot/fallacy_detector.py:178-225 | no findings gives `None` with no request; otherwise one request built from the top-two descriptions, answering the stripped reply, or `None` when the request fails |
| FallacyDetector.GenerateResponse | bot/fallacy_detector.py:107-146 | no findings gives `None` with no request; otherwise one request listing every finding, answering the stripped reply, or `None` on failure |
| FallacyDetector.ExplainFallacy | bot/fallacy_detector.py:149-175 | a name outside the ten known ones gives `None` with no request; a known one gives the stripped answer, or the fixed apology when the request fails |
| DbManager.Inserted | bot/db_manager.py:42-56 | insert-if-absent: the id is present afterwards; an id already present keeps its row and the map is unchanged; no other row changes |
| DbManager.Kept | bot/db_manager.py:58-70 | exactly the rows written at or after the cutoff survive, unchanged |
| DbManager.KeptIdempotent | bot/db_manager.py:58-70 | a second clean-up with the same cutoff deletes nothing |
| DbManager.FreshRowSurvives | bot/db_manager.py:58-68 | a row written no more than `days` days before the clean-up survives it |
| DbManager.DefaultRetentionKeeps | bot/db_manager.py:58-65 | with the default of thirty days, a stored row survives the clean-up exactly when it was written at most thirty days of seconds before it |
| DbManager.DBManager.constructor | bot/db_manager.py:8-10 | opening the store runs the set-up: an existing table keeps its rows |
| DbManager.DBManager.SetupDatabase | bot/db_manager.py:12-27 | the table exists afterwards if it did before or the statement ran; the rows are unchanged |
| DbManager.DBManager.IsTweetProcessed | bot/db_manager.py:29-40 | true exactly when the query runs, the table exists and the id has a row; nothing is modified |
| DbManager.DBManager.MarkTweetProcessed | bot/db_manager.py:42-56 | the rows become the insert-if-absent of the id stamped `now`; a failing call changes nothing |
| DbManager.DBManager.CleanupOldEntries | bot/db_manager.py:58-70 | the rows become those written at or after `now - days`; a failing call changes nothing |
| DbManager.MarkThenCheck | bot/db_manager.py:29-56 | after marking an id, asking for it answers true; an id already present keeps its original row |
| PlaywrightCredentials.ParseValue | bot/twitter_monitor_playwright.py:43-47 | the parsed value is shorter than the line and has no double quote at either end |
| PlaywrightCredentials.ParseValueRoundTrip | bot/twitter_monitor_playwright.py:43-47 | a line `KEY=` + quote + value + quote + trailing blanks parses back to the value |
| PlaywrightCredentials.Assigned | bot/twitter_monitor_playwright.py:40-48 | the credential after the line loop: each line starting with the key's prefix sets the value, others leave it; `LastMatchWins`, `AssignedNoMatch` and `KeysExclusive` prove the last match wins, no match keeps the value, and the two keys never both match |
| PlaywrightCredentials.LastMatchWins | bot/twitter_monitor_playwright.py:38-48 | the value a key ends with is the one its last matching line gives |
| PlaywrightCredentials.RootOverridesBot | bot/twitter_monitor_playwright.py:29-48 | when the root `.env` assigns a key, `bot/.env` has no say in its value |
| PlaywrightCredentials.KeysExclusive | bot/twitter_monitor_playwright.py:43-47 | no line assigns both the username and the password |
| PlaywrightCredentials.AssignedNoMatch | bot/twitter_monitor_playwright.py:42-48 | lines that assign nothing leave the environment's value in place |
| PlaywrightCredentials.LoadCredentials | bot/twitter_monitor_playwright.py:32-48 | the files are read only when a credential is missing from the environment; then each credential is the last assignment across `bot/.env` and the root `.env`, and otherwise the environment's value |
| PlaywrightLogin.WaitForElement | bot/twitter_monitor_playwright.py:65-92 | the primary selector when present; otherwise the first present alternative of its list, in order; `None` when the selector has no alternatives or none is present |
| PlaywrightLogin.HandleVerificationScreens | bot/twitter_monitor_playwright.py:169-193 | the four screens are checked in order; true at the first one found unless it is a button whose click fails; false when none is found |
| PlaywrightLogin.LoginAttempt | bot/twitter_monitor_playwright.py:103-157 | an attempt succeeds exactly when the page opens, both fields are found, each Next or Log in button found takes its click, and the home timeline or a handled verification screen follows; a missing button is replaced by Enter, and each submit is recorded as a click or an Enter; a missing field or a failing click ends the attempt at that point |
| PlaywrightLogin.Login | bot/twitter_monitor_playwright.py:94-167 | a missing or empty credential fails before any attempt; otherwise the first successful attempt out of three is used, and failure means all three failed |
| PlaywrightTweet.ExtractStatusId | bot/twitter_monitor_playwright.py:238 | the id never contains `?` and is no longer than the link |
| PlaywrightTweet.ExtractStatusIdOf | bot/twitter_monitor_playwright.py:238 | for `p + "/status/" + d + s`, where `p` does not end in `/status`, `d` holds neither `?` nor `/status/`, and `s` is empty or starts with `?` and holds no `/status/`, the id is `d`, whatever markers `p` holds |
| PlaywrightTweet.ExtractStatusIdAfterStatusPath | bot/twitter_monitor_playwright.py:238 | a path ending in `/status` right before the marker (`x/status/status/12`) reads the id `status/12`, so the condition of `ExtractStatusIdOf` cannot be dropped |
| PlaywrightTweet.SelectorCounts | bot/twitter_monitor_playwright.py:261-374 | the flow indexes six reply-button selectors, five send-button selectors and three success indicators, the lengths of the source's lists |
| PlaywrightTweet.LinkId | bot/twitter_monitor_playwright.py:233-241 | the id read from a tweet's status link; reading fails when the lookup raises or the link has no `href` |
| PlaywrightTweet.EnterText | bot/twitter_monitor_playwright.py:325-335 | the text counts as entered only when the reply is a substring of what the box reads back, within three attempts |
| PlaywrightTweet.SendReply | bot/twitter_monitor_playwright.py:338-406 | the reply is confirmed exactly when a send button is found and some click method is followed by a success indicator |
| PlaywrightTweet.SendStageSent | bot/twitter_monitor_playwright.py:325-406 | typing and sending a response ends in a sent reply exactly when some attempt takes the text and a send is confirmed |
| PlaywrightTweet.ComposeStageSent | bot/twitter_monitor_playwright.py:315-414 | once the box is open, the reply goes out exactly when a response is generated, entered and confirmed |
| PlaywrightTweet.ReplyStageSent | bot/twitter_monitor_playwright.py:255-420 | the reply goes out exactly when a reply button is found, it scrolls, a click opens the box and the compose goes through |
| PlaywrightTweet.Compose | bot/twitter_monitor_playwright.py:315-414 | the stage is the one `ComposeStageOf` gives: no response, text not entered, no send button, not confirmed, or sent, and sent exactly when the reply is generated, entered and confirmed; exactly one request, for the reply text |
| PlaywrightTweet.Reply | bot/twitter_monitor_playwright.py:255-420 | the stage is the one `ReplyStageOf` gives; sent exactly when a reply button is found, it scrolls, a click method opens the reply box and the reply goes through; no request is made exactly when the flow stops before the box opens |
| PlaywrightTweet.TweetOutcomeOf | bot/twitter_monitor_playwright.py:227-425 | a tweet's outcome from what the page answers: no text element, the text read raising, the id read failing, the id already stored, or else what detection and the reply flow give; its iffs are proved in `TweetOutcomeCases` and `TweetOutcomeDetected` |
| PlaywrightTweet.DetectedOutcome | bot/twitter_monitor_playwright.py:248-425 | a tweet that reaches the detector: no findings marks it, else the reply flow's stage decides between no reply button, a scroll error, an abandoned stage and a confirmed reply; `TweetOutcomeDetected` proves marking happens exactly for no findings or a confirmed reply |
| PlaywrightTweet.RowsAfter | bot/twitter_monitor_playwright.py:382-384 | the store after a tweet: a marking outcome inserts its id when the insert goes through, any other outcome leaves the store; `MonitorRows` proves every new row comes from a marked tweet |
| PlaywrightTweet.HandleTweet | bot/twitter_monitor_playwright.py:224-425 | the outcome is the one `TweetOutcomeOf` gives and the store the one `RowsAfter` gives; no request is made exactly when the tweet never reaches the detector, the detection request comes first otherwise, and a confirmed reply sent the reply request after it |
| PlaywrightTweet.DetectAndReply | bot/twitter_monitor_playwright.py:248-425 | for a tweet whose text and id were read and which is not skipped: the outcome is the one `DetectedOutcome` gives, the store the one `RowsAfter` gives, the detection request comes first, and a confirmed reply sent the reply request after it |
| PlaywrightTweet.TweetOutcomeCases | bot/twitter_monitor_playwright.py:227-246 | a tweet ends without text exactly when it has no text element, with a failed text read exactly when that read raises, with a failed id read exactly when the link lookup raises; it is skipped exactly when its id is non-empty and the lookup finds it in the table |
| PlaywrightTweet.TweetOutcomeDetected | bot/twitter_monitor_playwright.py:248-425 | a detected tweet without findings ends as such; one with findings is replied to exactly when the whole reply flow goes through; a tweet is marked exactly when it was detected, has a non-empty id, and had no findings or a confirmed reply |
| TwitterMonitorPlaywright.RoundsFrom | bot/twitter_monitor_playwright.py:450-676 | the scan does between one and three rounds |
| TwitterMonitorPlaywright.RoundsStopAtSameHeight | bot/twitter_monitor_playwright.py:667-676 | a scan that stops before three rounds stops at a scroll that left the page height unchanged |
| TwitterMonitorPlaywright.OneNodePerScan | bot/twitter_monitor_playwright.py:454-459 | with every node's `data-testid` equal, as the tweet selector makes it, a scan handles at most one node |
| TwitterMonitorPlaywright.ScanKeys | bot/twitter_monitor_playwright.py:446-459 | the seen set holds exactly the keys of the nodes handled |
| TwitterMonitorPlaywright.LoadStepOf | bot/twitter_monitor_playwright.py:205-434 | one load attempt: a raising load, the error page, no tweet nodes, or the first node handled as `TweetOutcomeOf` gives; `FirstPassFits` proves step `k` is this of attempt `k` |
| TwitterMonitorPlaywright.Retries | bot/twitter_monitor_playwright.py:211-441 | the steps after which the profile is loaded again: the error page (211-216), a failed id read (239-241), an id already stored (244-246), no reply button (282-284), or a load, selector query or text read that raises into the retrying except (436-441); `RetryWritesNothing` proves none of them writes to the store |
| TwitterMonitorPlaywright.FirstPassOf | bot/twitter_monitor_playwright.py:203-441 | the first pass the page determines: attempts in order while a step retries, at most three; `FirstPassFits`, `FirstPassFromRows` and `FirstPassUnique` prove its shape, its store and that the page fixes it |
| TwitterMonitorPlaywright.FirstPassFits | bot/twitter_monitor_playwright.py:203-441 | the first pass fits the page: attempt `k` is step `k`, every step but the last retries, the last stops the pass unless the three attempts ran out; only the last step can have written to the store |
| TwitterMonitorPlaywright.FirstPassFromFits | bot/twitter_monitor_playwright.py:204-441 | from an attempt on, with the attempts before it all retried, the rest of the pass fits the page |
| TwitterMonitorPlaywright.FirstPassFromRows | bot/twitter_monitor_playwright.py:204-441 | from an attempt on, the store after the pass is what its last step left |
| TwitterMonitorPlaywright.FirstPassEndsFits | bot/twitter_monitor_playwright.py:204-441 | attempts that all retried followed by one that stops the pass fit the page |
| TwitterMonitorPlaywright.RetriedPrefixGrows | bot/twitter_monitor_playwright.py:204-441 | a retrying attempt after attempts that all retried extends the retried prefix |
| TwitterMonitorPlaywright.FirstPassExplained | bot/twitter_monitor_playwright.py:203-441 | a confirmed reply can only be the last step of the first pass, and the store after it holds the rows it had plus rows of tweets the pass marked |
| TwitterMonitorPlaywright.RetriesExplained | bot/twitter_monitor_playwright.py:203-441 | steps that all retry but the last contain no earlier confirmed reply, and the store after them holds the rows it had plus at most the last step's mark |
| TwitterMonitorPlaywright.RetryWritesNothing | bot/twitter_monitor_playwright.py:241-246 | a step that retries (failed load, error page, failed id read, already processed, no reply button) writes nothing to the store |
| TwitterMonitorPlaywright.FirstPassUnique | bot/twitter_monitor_playwright.py:203-441 | the page determines the first pass: two step lists that both fit it are equal |
| TwitterMonitorPlaywright.NodeStep | bot/twitter_monitor_playwright.py:455-663 | one node of a scan round: a node whose `data-testid` is read and unseen is handled as `TweetOutcomeOf` gives, any other is passed over; `NodeStepKeeps` proves it keeps the scan state consistent |
| TwitterMonitorPlaywright.RoundFrom | bot/twitter_monitor_playwright.py:454-663 | a round's nodes in order until a reply is confirmed; `RoundFromKeeps` and `RoundFromCovers` prove consistency and that every readable key is seen |
| TwitterMonitorPlaywright.ScanOf | bot/twitter_monitor_playwright.py:444-676 | the scan the page determines: up to three rounds, stopping early when the height after a scroll is unchanged or a reply is confirmed; `ScanFacts` and `ScanStepsAreNodes` prove its properties |
| TwitterMonitorPlaywright.MonitorOf | bot/twitter_monitor_playwright.py:195-683 | `monitor_account`: the first pass, then, unless it gave up or replied, the scan on the store it left; `MonitorFirstPass`, `MonitorScan`, `MonitorScanNodes` and `MonitorRows` prove its properties |
| TwitterMonitorPlaywright.HandledKeeps | bot/twitter_monitor_playwright.py:454-459 | handling a node under a key not seen before keeps the scan state consistent: the seen set is the set of handled keys, the keys are distinct, and only the last step can be a confirmed reply |
| TwitterMonitorPlaywright.NodeStepKeeps | bot/twitter_monitor_playwright.py:454-663 | handling one node keeps the scan state consistent |
| TwitterMonitorPlaywright.RoundFromKeeps | bot/twitter_monitor_playwright.py:454-663 | a round keeps the scan state consistent |
| TwitterMonitorPlaywright.RoundFromCovers | bot/twitter_monitor_playwright.py:454-459 | a round only adds keys to the seen set, and unless it replied, every node of the round with a readable key is seen afterwards |
| TwitterMonitorPlaywright.ScanFromKeeps | bot/twitter_monitor_playwright.py:450-676 | the scan from a round on keeps the state consistent and runs at least one round when any is left; unless it replied, it runs as many rounds as the heights allow and has seen every readable key of them |
| TwitterMonitorPlaywright.ScanFacts | bot/twitter_monitor_playwright.py:444-676 | the whole scan: a consistent state, one to three rounds; unless it replied, the height rule fixes the number of rounds and every readable key of them was handled; the store gains rows only for marked tweets |
| TwitterMonitorPlaywright.ScanStepsAreNodes | bot/twitter_monitor_playwright.py:450-663 | each scanned step is a node of a round the scan went through, under that node's key, with the outcome the node has against the store as it stood when the node came up |
| TwitterMonitorPlaywright.MonitorFirstPass | bot/twitter_monitor_playwright.py:195-441 | the first pass of a visit is the one the page determines and fits it; the answer is false exactly when it gave up; only its last step can be a confirmed reply, which makes the answer true; a pass that gave up or replied ends the visit with no scan and the store it left |
| TwitterMonitorPlaywright.MonitorScan | bot/twitter_monitor_playwright.py:444-683 | the scan of a visit takes at most three rounds, only its last step can be a confirmed reply, its keys are distinct, and without a reply it went through every round the heights allow and handled every readable key |
| TwitterMonitorPlaywright.MonitorScanNodes | bot/twitter_monitor_playwright.py:450-663 | every scanned step of a visit is a node of a round the scan went through |
| TwitterMonitorPlaywright.MonitorRows | bot/twitter_monitor_playwright.py:195-683 | the store after a visit keeps every row it had and gains rows only for tweets marked on the way |
| TwitterMonitorPlaywright.TwitterMonitorPlaywright.constructor | bot/twitter_monitor_playwright.py:19-48 | a fresh store whose table exists exactly when it was stored before or `setup_database` succeeded, holding the stored rows, and the credentials `LoadCredentials` describes |
| TwitterMonitorPlaywright.TwitterMonitorPlaywright.LoadProfile | bot/twitter_monitor_playwright.py:205-434 | one load attempt: a load that raises, an error page, a page without tweets, or the first tweet handled as any tweet; the step is the one `LoadStepOf` gives and the store the one `RowsAfterLoad` gives, so only a marked first tweet adds a row |
| TwitterMonitorPlaywright.TwitterMonitorPlaywright.FirstPass | bot/twitter_monitor_playwright.py:203-441 | the steps and the store are the ones `FirstPassOf` gives for the page; one to three steps; the answer is "give up" exactly when the third load or text read raised, and "replied" exactly when the last step is a confirmed reply |
| TwitterMonitorPlaywright.TwitterMonitorPlaywright.Scan | bot/twitter_monitor_playwright.py:444-676 | the nodes handled, the store, the reply flag and the number of rounds are the ones `ScanOf` gives for the page |
| TwitterMonitorPlaywright.TwitterMonitorPlaywright.ScanRound | bot/twitter_monitor_playwright.py:451-663 | the nodes handled, the seen set, the store and the reply flag are the ones `RoundFrom` gives for the round's nodes |
| TwitterMonitorPlaywright.TwitterMonitorPlaywright.MonitorAccount | bot/twitter_monitor_playwright.py:195-683 | the answer, the report and the store are the ones `MonitorOf` gives: the first pass the page determines, then the scan on the store it left; false exactly when the first pass gave up; a confirmed reply is the last tweet handled; without one the scan went through every round the heights allow and handled every readable key; every scanned step is a node of those rounds; the store keeps every row and gains only rows of marked tweets |
| TwitterMonitorSelenium.FirstFoundIsFirst | bot/twitter_monitor.py:176-186 | the answer is the elements of the first selector that found any; `[]` exactly when none did |
| TwitterMonitorSelenium.FirstNonEmpty | bot/twitter_monitor.py:205-214 | the selector loop answers what `FirstFound` specifies |
| TwitterMonitorSelenium.MaxConfidence | bot/twitter_monitor.py:231 | the largest confidence: no finding exceeds it and some finding has it |
| TwitterMonitorSelenium.GateOpensOnOneConfident | bot/twitter_monitor.py:227-234 | the gate opens exactly when some finding has confidence of at least 0.8, bound included |
| TwitterMonitorSelenium.ShouldAnalyzeTweet | bot/twitter_monitor.py:261-285 | false without a time element or status link; true for an unrecorded link; for a recorded one, true exactly when a full hour has passed |
| TwitterMonitorSelenium.CooldownAfterPost | bot/twitter_monitor.py:277-279 | once a reply is recorded, the tweet is analysed again exactly when an hour has passed; other links are unaffected |
| TwitterMonitorSelenium.ExtractedText | bot/twitter_monitor.py:205-218 | a timeline tweet's text: the first text selector that finds elements gives the first one's text, none gives `None`; `FirstFoundIsFirst` proves the selector is the first non-empty one |
| TwitterMonitorSelenium.MentionText | bot/twitter_monitor.py:119-123 | a mention's text: the one `find_element` lookup gives its text, a lookup that raises gives `None`; `StepOfPassedOver` proves a `None` passes the mention over |
| TwitterMonitorSelenium.Stamped | bot/twitter_monitor.py:317-320 | `last_check` after a step: a sent reply on a tweet with a status link stamps that link with the clock reading, anything else leaves it; `RunOfStamps` and `RunOfKeepsOtherLinks` prove each change comes from a sent reply on the loop's own links |
| TwitterMonitorSelenium.AnalyzeStep | bot/twitter_monitor.py:222-246 | the shared analysis of a tweet with text: not due, no findings, below the 0.8 gate, no response, or posted; `AnalyzeStepCases` proves each case's iff |
| TwitterMonitorSelenium.StepOf | bot/twitter_monitor.py:117-246 | one loop step: the feed's text read, then `AnalyzeStep`; `StepOfPassedOver`, `StepOfAllowed` and `StepOfOwnLink` prove when a tweet is passed over, that posting needs the gate, and that only the tweet's own link matters |
| TwitterMonitorSelenium.AnalyzeStepCases | bot/twitter_monitor.py:222-246 | a tweet is passed over exactly when it is not due; a due tweet without findings is marked as such; a due tweet gets a reply exactly when some finding is at least 0.8 confident and the reply request answers something other than blanks; the reply is the stripped answer, sent exactly when every posting step goes through |
| TwitterMonitorSelenium.RunOf | bot/twitter_monitor.py:117-254 | a loop over `n` elements takes `n` steps |
| TwitterMonitorSelenium.RunOfNext | bot/twitter_monitor.py:117-254 | a loop that handled the first `i` elements and handles element `i` against `last_check` as they left it has handled the first `i + 1` |
| TwitterMonitorSelenium.RunOfSteps | bot/twitter_monitor.py:117-254 | step `i` of a loop is element `i` handled against `last_check` as the elements before it left it |
| TwitterMonitorSelenium.RunOfKeepsOtherLinks | bot/twitter_monitor.py:287-325 | a loop stamps only the links of its own elements: every other entry of `last_check` is left as it was |
| TwitterMonitorSelenium.StepOfOwnLink | bot/twitter_monitor.py:261-285 | how an element is handled depends on `last_check` only at its own link |
| TwitterMonitorSelenium.OwnLinkHandledAlone | bot/twitter_monitor.py:117-285 | an element whose link no earlier element shares is handled as it would be against `last_check` from before the loop |
| TwitterMonitorSelenium.StepOfPassedOver | bot/twitter_monitor.py:117-218 | a timeline tweet is passed over exactly when its text is missing or empty, a mention exactly when its text lookup raises |
| TwitterMonitorSelenium.RunOfPassedOver | bot/twitter_monitor.py:117-218 | the elements a loop passes over are exactly the ones `StepOfPassedOver` names |
| TwitterMonitorSelenium.StepOfAllowed | bot/twitter_monitor.py:222-246 | an element is posted to only after its text was read, its findings passed the gate and the generator gave that non-empty reply |
| TwitterMonitorSelenium.RunOfGated | bot/twitter_monitor.py:117-254 | every reply a loop posts passed the gate on its own element's findings |
| TwitterMonitorSelenium.RunOfStamps | bot/twitter_monitor.py:117-325 | every change a loop makes to `last_check` is the link of a reply it sent, stamped with its posting time |
| TwitterMonitorSelenium.Capped | bot/twitter_monitor.py:117 | `items[:cap]` keeps `min(n, cap)` items |
| TwitterMonitorSelenium.NewMonitor | bot/twitter_monitor.py:22-40 | a monitor exists exactly when both credentials are set and non-empty; it starts with no driver, no login and an empty `last_check` |
| TwitterMonitorSelenium.TwitterMonitor.constructor | bot/twitter_monitor.py:22-40 | no driver, not logged in, nothing recorded |
| TwitterMonitorSelenium.TwitterMonitor.Cleanup | bot/twitter_monitor.py:327-332 | afterwards there is no driver and no login |
| TwitterMonitorSelenium.TwitterMonitor.Login | bot/twitter_monitor.py:64-100 | logged in exactly when every step of the login page goes through |
| TwitterMonitorSelenium.TwitterMonitor.Start | bot/twitter_monitor.py:42-62 | succeeds exactly when the driver starts and the login goes through; a failure cleans up |
| TwitterMonitorSelenium.TwitterMonitor.PostResponse | bot/twitter_monitor.py:287-325 | `last_check` is stamped only after the reply box went stale and the status link was found; any failure leaves it unchanged |
| TwitterMonitorSelenium.TwitterMonitor.Analyze | bot/twitter_monitor.py:222-246 | the step is the one `AnalyzeStep` gives for `last_check` before the call: not analysed exactly when the tweet is not due; no findings, below threshold or no response on the matching branch; a reply is posted only for a due tweet whose findings pass the 0.8 gate and whose generated reply is non-empty; `last_check` is stamped only for a sent reply |
| TwitterMonitorSelenium.TwitterMonitor.HandleTweet | bot/twitter_monitor.py:193-246 | the step is the one `StepOf` gives for a timeline tweet; passed over exactly when its text is missing or empty; every post passed the gate; `last_check` is stamped only for a sent reply |
| TwitterMonitorSelenium.TwitterMonitor.HandleMention | bot/twitter_monitor.py:117-135 | the step is the one `StepOf` gives for a mention; passed over exactly when the text lookup raises; every post passed the gate; `last_check` is stamped only for a sent reply |
| TwitterMonitorSelenium.GatePassedAt | bot/twitter_monitor.py:227-234 | in a run where every post passed the gate, each single step passed it |
| TwitterMonitorSelenium.TwitterMonitor.HandleTweets | bot/twitter_monitor.py:193-254 | the steps and `last_check` are the ones `RunOf` gives for the first three tweets; a missing or empty text passes the tweet over exactly; every post passed the gate; `last_check` changes only for sent replies |
| TwitterMonitorSelenium.TwitterMonitor.MonitorAccount | bot/twitter_monitor.py:144-259 | starts first when not logged in and fails exactly when the start fails; not loaded exactly when the page does not load; no tweets exactly when no container selector finds any; otherwise the steps and `last_check` are the ones `RunOf` gives for at most three tweets of the first selector that finds any |
| TwitterMonitorSelenium.TwitterMonitor.HandleMentions | bot/twitter_monitor.py:117-139 | the steps and `last_check` are the ones `RunOf` gives for the first five mentions; a mention is passed over exactly when its text lookup raises; every post passed the gate; `last_check` changes only for sent replies |
| TwitterMonitorSelenium.TwitterMonitor.CheckNotifications | bot/twitter_monitor.py:102-142 | starts first when not logged in and fails exactly when the start fails; not loaded exactly when the page does not load; otherwise the steps and `last_check` are the ones `RunOf` gives for at most five mentions |

## Left out

- Browser automation is not modelled: navigation, waits, clicks, typing, scrolling, screenshots and timeouts. Each lookup or click is a scripted answer, and screenshots are diagnostics only.
- `asyncio.sleep`, `time.sleep` and `random.uniform` delays are left out. They only pace the flow, and the awaited calls run strictly in sequence.
- Chat requests, prompt text and `json.loads` are not modelled. Their results are inputs, and a request is recorded by its kind and arguments.
- tenacity's `@retry` around the detector methods is left out. Those methods catch their own exceptions, so the retry never changes what they return.
- The 280-character limit is not checked, because only the prompt asks for it.
- Findings are taken to be well-formed records. A finding dict without `type`, `explanation` or `confidence` would raise `KeyError`, which is not modelled.
- Confidences are `real`; floating-point rounding is not modelled.
- `FallacyDetector.TitleFrom` covers ASCII letters only. Python's `str.title()` also cases other Unicode letters.
- `FallacyDetector.FormatTypeAt` states the formatting one position at a time. The worked example `"ad_hominem"` to `"Ad Hominem"` is not proved as a literal.
- `DbManager.Kept` compares integer seconds. The source compares SQLite's `CURRENT_TIMESTAMP` (UTC, stored as text) with a local `datetime` parameter, and that mismatch is not modelled.
- SQLite connections, transactions and locking are left out. The `ok` flag says only whether a call succeeded.
- The `os.environ` writes in the Playwright `__init__` are left out; nothing in the core reads them back.
- Non-timeout exceptions in the Playwright helpers are not modelled. This covers `_wait_for_element`, `fill` and `press`, and a `page.reload` that raises. Each lookup answers "found within its wait" or not.
- In the scan, a `query_selector_all` or `evaluate` that raises would end `monitor_account` with false. The model reads those as always answering.
- `PlaywrightTweet.EnterText` treats a `text_content()` of `None` as a raised read. In the source, `response in None` raises, which goes to the same except clause.
- An unconfirmed send may in fact have posted the reply. The model only records that no success indicator was seen.
- Browser and context set-up and `cleanup` of the Playwright monitor are left out, as are the dashboard, the webhook handler, the tweepy client, `monitor.py` and `run.py`.
- `TwitterMonitorSelenium.ShouldAnalyzeTweet` uses whole seconds. `datetime.now()` differences keep microseconds, so a recorded time exactly one hour old compares the same only at second resolution.
- `TwitterMonitorSelenium.TwitterMonitor.Login` is one flag per login step. The real steps raise on timeouts or missing elements, and a failing step raises out of `start`, which the model returns as `StartFailed`.
- `TwitterMonitorSelenium.TwitterMonitor.Analyze` and the other Selenium loop members do not model a raised exception inside a tweet. Lookups that raise are scripted answers, and the only other source is a malformed finding, already excluded above.
- The Playwright monitor's `last_check_times` field is never read or written after `__init__`, so it is not modelled.
