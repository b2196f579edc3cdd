/**
 * The Playwright monitor object (bot/twitter_monitor_playwright.py,
 * `TwitterMonitorPlaywright`): its credentials and dedup store, and
 * `monitor_account`, which loads a profile (up to three attempts, checking
 * the first tweet on each), then scans the timeline over up to three
 * scrolls. It answers true as soon as a reply is confirmed.
 */
module TwitterMonitorPlaywright {
  import opened Wrappers
  import opened DbManager
  import opened PlaywrightCredentials
  import opened PlaywrightTweet

  /** Profile loads before `monitor_account` gives up. */
  const MaxProfileAttempts: nat := 3

  /** Scrolls of the timeline scan. */
  const MaxScrolls: nat := 3

  /** One profile load as the page answers it. */
  datatype ProfileAttempt = ProfileAttempt(
    loads: bool,              // `goto` and both selector queries return (any of them raising goes to the retry)
    errorPage: bool,          // "Something went wrong" is shown
    tweets: seq<TweetView>    // the tweet nodes found after the load
  )

  /**
   * The profile page: what each load attempt meets, the page height before
   * the scan, the tweet nodes each scan round finds and the height after
   * each round's scroll.
   */
  datatype ProfilePage = ProfilePage(
    attempts: nat -> ProfileAttempt,
    initialHeight: int,
    round: nat -> seq<TweetView>,
    heightAfter: nat -> int
  )

  /** What one load attempt came to. */
  datatype LoadStep = LoadFailed | ErrorPage | NoTweets | FirstTweet(outcome: TweetOutcome)

  /** One tweet node the scan handled, under its scan key. */
  datatype ScanStep = ScanStep(key: Option<string>, outcome: TweetOutcome)

  /** How the first pass ended: give up (answer false), a confirmed reply (answer true), or go on to the scan. */
  datatype FirstPassEnd = GaveUp | RepliedFirst | ToScan

  /** What `monitor_account` did, for the contracts. */
  datatype Report = Report(firstPass: seq<LoadStep>, scan: seq<ScanStep>, rounds: nat)

  /**
   * The number of scan rounds from round `r` on, the last height being
   * `last`: a round whose scroll leaves the height unchanged is the last.
   */
  function RoundsFrom(last: int, heightAfter: nat -> int, r: nat): (n: nat)
    ensures r < MaxScrolls ==> 1 <= n <= MaxScrolls - r
    ensures r >= MaxScrolls ==> n == 0
    decreases MaxScrolls - r
  {
    if r >= MaxScrolls then 0
    else if heightAfter(r) == last then 1
    else 1 + RoundsFrom(heightAfter(r), heightAfter, r + 1)
  }

  /** The scan stops early only at a scroll that did not change the height. */
  lemma {:induction false} RoundsStopAtSameHeight(last: int, heightAfter: nat -> int, r: nat)
    requires r < MaxScrolls
    requires r + RoundsFrom(last, heightAfter, r) < MaxScrolls
    ensures var end := r + RoundsFrom(last, heightAfter, r) - 1;
            heightAfter(end) == (if end == r then last else heightAfter(end - 1))
    decreases MaxScrolls - r
  {
    if heightAfter(r) != last {
      RoundsStopAtSameHeight(heightAfter(r), heightAfter, r + 1);
    }
  }

  /** Scan keys are distinct; the keys the source reads are all the same selector value. */
  predicate DistinctKeys(scan: seq<ScanStep>) {
    forall i, j :: 0 <= i < j < |scan| ==> scan[i].key != scan[j].key
  }

  /**
   * Two scanned nodes under distinct keys. Kept apart from `OneNodePerScan`:
   * there the fact is needed inside a branch its requires rule out, where only
   * a call, not an assertion of the keys, is checked without the clash.
   */
  lemma FirstTwoKeysDiffer(scan: seq<ScanStep>)
    requires DistinctKeys(scan) && |scan| >= 2
    ensures scan[0].key != scan[1].key
  {
  }

  /**
   * The scan key is the node's `data-testid`, which the tweet selector fixes
   * to `tweet`: when every node has that key, a scan handles one node at most.
   */
  lemma OneNodePerScan(scan: seq<ScanStep>, key: Option<string>)
    requires DistinctKeys(scan)
    requires forall i :: 0 <= i < |scan| ==> scan[i].key == key
    ensures |scan| <= 1
  {
    if |scan| >= 2 {
      FirstTwoKeysDiffer(scan);
      assert false;
    }
  }

  /** Some handled tweet with an id was marked under `id`. */
  predicate MarkedIn(first: seq<LoadStep>, scan: seq<ScanStep>, id: string) {
    (exists i :: 0 <= i < |first| && first[i].FirstTweet? && first[i].outcome.Marks() && first[i].outcome.id.value == id)
    || (exists i :: 0 <= i < |scan| && scan[i].outcome.Marks() && scan[i].outcome.id.value == id)
  }

  /** The store kept every row it had, and each new row comes from a tweet marked in `first` or `scan`. */
  predicate RowsExplained(rows: map<string, Row>, before: map<string, Row>, first: seq<LoadStep>, scan: seq<ScanStep>) {
    (forall id :: id in before ==> id in rows && rows[id] == before[id])
    && (forall id :: id in rows ==> id in before || MarkedIn(first, scan, id))
  }

  /** Recording one more load step keeps every mark already recorded. */
  lemma MarkedAfterLoadStep(first: seq<LoadStep>, scan: seq<ScanStep>, step: LoadStep, id: string)
    requires MarkedIn(first, scan, id)
    ensures MarkedIn(first + [step], scan, id)
  {
    if exists i :: 0 <= i < |first| && first[i].FirstTweet? && first[i].outcome.Marks() && first[i].outcome.id.value == id {
      var i :| 0 <= i < |first| && first[i].FirstTweet? && first[i].outcome.Marks() && first[i].outcome.id.value == id;
      assert (first + [step])[i] == first[i];
    }
  }

  /** Recording one more scanned node keeps every mark already recorded. */
  lemma MarkedAfterScanStep(first: seq<LoadStep>, scan: seq<ScanStep>, step: ScanStep, id: string)
    requires MarkedIn(first, scan, id)
    ensures MarkedIn(first, scan + [step], id)
  {
    if exists i :: 0 <= i < |scan| && scan[i].outcome.Marks() && scan[i].outcome.id.value == id {
      var i :| 0 <= i < |scan| && scan[i].outcome.Marks() && scan[i].outcome.id.value == id;
      assert (scan + [step])[i] == scan[i];
    }
  }

  /** A load step that handled no tweet leaves the store's rows explained. */
  lemma ExplainedAfterLoadStep(rows: map<string, Row>, before: map<string, Row>, first: seq<LoadStep>, step: LoadStep)
    requires RowsExplained(rows, before, first, [])
    ensures RowsExplained(rows, before, first + [step], [])
  {
    forall id | id in rows && id !in before
      ensures MarkedIn(first + [step], [], id)
    {
      MarkedAfterLoadStep(first, [], step, id);
    }
  }

  /**
   * Handling the first tweet of a load, which at most inserts the row of a
   * marked tweet, keeps the store's rows explained.
   */
  lemma ExplainedAfterFirstTweet(rows: map<string, Row>, mid: map<string, Row>, before: map<string, Row>,
                                 first: seq<LoadStep>, o: TweetOutcome, now: int, account: string)
    requires RowsExplained(mid, before, first, [])
    requires rows == mid || (o.Marks() && rows == Inserted(mid, o.id.value, Row(now, account)))
    ensures RowsExplained(rows, before, first + [FirstTweet(o)], [])
  {
    var first' := first + [FirstTweet(o)];
    assert first'[|first|] == FirstTweet(o);
    forall id | id in rows && id !in before
      ensures MarkedIn(first', [], id)
    {
      if id in mid {
        MarkedAfterLoadStep(first, [], FirstTweet(o), id);
      }
    }
  }

  /** A load step, which writes at most the row of its first tweet, keeps the store's rows explained. */
  lemma ExplainedAfterLoad(rows: map<string, Row>, before: map<string, Row>, first: seq<LoadStep>,
                           load: ProfileAttempt, step: LoadStep, tableExists: bool, account: string, now: int)
    requires rows == before
    ensures RowsExplained(RowsAfterLoad(rows, tableExists, load, step, account, now), before, first + [step], [])
  {
    assert RowsExplained(rows, before, first, []);
    if step.FirstTweet? {
      ExplainedAfterFirstTweet(RowsAfterLoad(rows, tableExists, load, step, account, now), rows, before, first,
                               step.outcome, now, account);
    } else {
      ExplainedAfterLoadStep(rows, before, first, step);
    }
  }

  /**
   * Handling a scanned node, which at most inserts the row of a marked
   * tweet, keeps the store's rows explained.
   */
  lemma ExplainedAfterScanned(rows: map<string, Row>, mid: map<string, Row>, before: map<string, Row>,
                              first: seq<LoadStep>, scan: seq<ScanStep>, key: Option<string>,
                              o: TweetOutcome, now: int, account: string)
    requires RowsExplained(mid, before, first, scan)
    requires rows == mid || (o.Marks() && rows == Inserted(mid, o.id.value, Row(now, account)))
    ensures RowsExplained(rows, before, first, scan + [ScanStep(key, o)])
  {
    var scan' := scan + [ScanStep(key, o)];
    assert scan'[|scan|] == ScanStep(key, o);
    forall id | id in rows && id !in before
      ensures MarkedIn(first, scan', id)
    {
      if id in mid {
        MarkedAfterScanStep(first, scan, ScanStep(key, o), id);
      }
    }
  }

  /** The scan has handled nothing but tweets that were not confirmed replies. */
  predicate NoReplyIn(scan: seq<ScanStep>) {
    forall i :: 0 <= i < |scan| ==> !scan[i].outcome.Replied?
  }

  /** The keys the scan has handled, i.e. the `tweets_seen` set. */
  function ScanKeys(scan: seq<ScanStep>): (keys: set<Option<string>>)
    ensures forall i :: 0 <= i < |scan| ==> scan[i].key in keys
    ensures forall k :: k in keys ==> exists i :: 0 <= i < |scan| && scan[i].key == k
  {
    set i | 0 <= i < |scan| :: scan[i].key
  }

  /** Handling one more node adds its key to the seen set. */
  lemma ScanKeysAppend(scan: seq<ScanStep>, step: ScanStep)
    ensures ScanKeys(scan + [step]) == ScanKeys(scan) + {step.key}
  {
    var scan' := scan + [step];
    assert scan'[|scan|] == step;
    forall k | k in ScanKeys(scan')
      ensures k in ScanKeys(scan) + {step.key}
    {
      var i :| 0 <= i < |scan'| && scan'[i].key == k;
      if i < |scan| {
        assert scan'[i] == scan[i];
      }
    }
    forall k | k in ScanKeys(scan)
      ensures k in ScanKeys(scan')
    {
      var i :| 0 <= i < |scan| && scan[i].key == k;
      assert scan'[i] == scan[i];
    }
  }

  /** Every node with a readable key, in the first `rounds` scan rounds, had its key handled. */
  predicate AllKeysHandled(page: ProfilePage, rounds: nat, keys: set<Option<string>>) {
    forall r, j :: 0 <= r < rounds && 0 <= j < |page.round(r)| && page.round(r)[j].key.AttrValue? ==>
      page.round(r)[j].key.value in keys
  }

  /** The first pass gave up: its third attempt failed to load or to read the tweet text. */
  predicate GaveUpOn(first: seq<LoadStep>) {
    |first| == MaxProfileAttempts
    && (first[|first| - 1] == LoadFailed || first[|first| - 1] == FirstTweet(TextFailed))
  }

  /** The first pass ended with a confirmed reply. */
  predicate RepliedFirstOn(first: seq<LoadStep>) {
    |first| > 0 && first[|first| - 1].FirstTweet? && first[|first| - 1].outcome.Replied?
  }

  // ---------------------------------------------------------------------------
  // The first pass, as the page determines it

  /** What one load attempt comes to, the store holding `rows`. */
  function LoadStepOf(rows: map<string, Row>, tableExists: bool, load: ProfileAttempt): LoadStep {
    if !load.loads then LoadFailed
    else if load.errorPage then ErrorPage
    else if load.tweets == [] then NoTweets
    else FirstTweet(TweetOutcomeOf(rows, tableExists, load.tweets[0]))
  }

  /**
   * The load steps after which the first pass loads the profile again: a
   * load that raised, an error page, and a first tweet whose text read
   * raised, whose id read raised, that was already processed, or that had
   * no reply button.
   */
  predicate Retries(step: LoadStep) {
    step == LoadFailed || step == ErrorPage
    || (step.FirstTweet? && (step.outcome == TextFailed || step.outcome == IdFailed
                             || step.outcome.AlreadyProcessed? || step.outcome == NoReplyButtonFound))
  }

  /**
   * The first pass the page determines: attempt `k` is step `k`, every step
   * but the last is one that retries, and the last one stops the pass
   * unless the attempts ran out.
   */
  predicate FirstPassOn(page: ProfilePage, rows: map<string, Row>, tableExists: bool, steps: seq<LoadStep>) {
    1 <= |steps| <= MaxProfileAttempts
    && (forall k :: 0 <= k < |steps| ==> steps[k] == LoadStepOf(rows, tableExists, page.attempts(k)))
    && (forall k :: 0 <= k < |steps| - 1 ==> Retries(steps[k]))
    && (|steps| < MaxProfileAttempts ==> !Retries(steps[|steps| - 1]))
  }

  /** The store after a load step: only a handled first tweet can add a row. */
  function RowsAfterLoad(rows: map<string, Row>, tableExists: bool, load: ProfileAttempt, step: LoadStep,
                         account: string, now: int): map<string, Row>
  {
    if step.FirstTweet? && load.tweets != [] then RowsAfter(rows, tableExists, load.tweets[0], step.outcome, account, now)
    else rows
  }

  /** A step that retries writes nothing: the outcomes it covers do not mark. */
  lemma RetryWritesNothing(rows: map<string, Row>, tableExists: bool, load: ProfileAttempt, step: LoadStep,
                           account: string, now: int)
    requires Retries(step)
    ensures RowsAfterLoad(rows, tableExists, load, step, account, now) == rows
  {
  }

  /** The first pass so far: its load steps and the store's rows. */
  datatype PassState = PassState(steps: seq<LoadStep>, rows: map<string, Row>)

  /** The first pass from attempt `a` on: each attempt's step is recorded, and only a step that retries goes on. */
  function FirstPassFrom(page: ProfilePage, tableExists: bool, account: string, now: int, a: nat, st: PassState): PassState
    decreases MaxProfileAttempts - a
  {
    if a >= MaxProfileAttempts then st
    else
      var step := LoadStepOf(st.rows, tableExists, page.attempts(a));
      var st' := PassState(st.steps + [step], RowsAfterLoad(st.rows, tableExists, page.attempts(a), step, account, now));
      if Retries(step) then FirstPassFrom(page, tableExists, account, now, a + 1, st') else st'
  }

  /** The whole first pass, the store holding `rows`. */
  function FirstPassOf(page: ProfilePage, rows: map<string, Row>, tableExists: bool, account: string, now: int): PassState {
    FirstPassFrom(page, tableExists, account, now, 0, PassState([], rows))
  }

  /** One attempt of the first pass: its step is recorded, and the pass goes on only after a step that retries. */
  lemma FirstPassStep(page: ProfilePage, tableExists: bool, account: string, now: int, a: nat, steps: seq<LoadStep>,
                      rows: map<string, Row>, step: LoadStep, rows': map<string, Row>)
    requires a < MaxProfileAttempts
    requires step == LoadStepOf(rows, tableExists, page.attempts(a))
    requires rows' == RowsAfterLoad(rows, tableExists, page.attempts(a), step, account, now)
    ensures FirstPassFrom(page, tableExists, account, now, a, PassState(steps, rows))
            == if Retries(step) then FirstPassFrom(page, tableExists, account, now, a + 1, PassState(steps + [step], rows'))
               else PassState(steps + [step], rows')
  {
  }

  /** Attempts before `a` that all retried, followed by attempt `a` retrying, are attempts before `a + 1` that all retried. */
  lemma RetriedPrefixGrows(page: ProfilePage, rows: map<string, Row>, tableExists: bool, a: nat,
                           steps: seq<LoadStep>, step: LoadStep)
    requires |steps| == a
    requires forall k :: 0 <= k < a ==> steps[k] == LoadStepOf(rows, tableExists, page.attempts(k)) && Retries(steps[k])
    requires step == LoadStepOf(rows, tableExists, page.attempts(a)) && Retries(step)
    ensures forall k :: 0 <= k < a + 1 ==>
              (steps + [step])[k] == LoadStepOf(rows, tableExists, page.attempts(k)) && Retries((steps + [step])[k])
  {
    var all := steps + [step];
    assert forall k :: 0 <= k < a ==> all[k] == steps[k];
    assert all[a] == step;
  }

  /** A pass whose attempts before `a` all retried and which stops after attempt `a` fits the page. */
  lemma FirstPassEndsFits(page: ProfilePage, rows: map<string, Row>, tableExists: bool, a: nat,
                          steps: seq<LoadStep>, step: LoadStep)
    requires a < MaxProfileAttempts && |steps| == a
    requires forall k :: 0 <= k < a ==> steps[k] == LoadStepOf(rows, tableExists, page.attempts(k)) && Retries(steps[k])
    requires step == LoadStepOf(rows, tableExists, page.attempts(a))
    requires a + 1 < MaxProfileAttempts ==> !Retries(step)
    ensures FirstPassOn(page, rows, tableExists, steps + [step])
  {
    var all := steps + [step];
    assert forall k :: 0 <= k < a ==> all[k] == steps[k];
    assert all[a] == step;
  }

  /** From attempt `a` on, with the attempts before it all retried, the pass fits the page. */
  lemma {:induction false} FirstPassFromFits(page: ProfilePage, tableExists: bool, account: string, now: int, a: nat, st: PassState)
    requires a < MaxProfileAttempts && |st.steps| == a
    requires forall k :: 0 <= k < a ==> st.steps[k] == LoadStepOf(st.rows, tableExists, page.attempts(k)) && Retries(st.steps[k])
    ensures FirstPassOn(page, st.rows, tableExists, FirstPassFrom(page, tableExists, account, now, a, st).steps)
    decreases MaxProfileAttempts - a
  {
    var load := page.attempts(a);
    var step := LoadStepOf(st.rows, tableExists, load);
    var st' := PassState(st.steps + [step], RowsAfterLoad(st.rows, tableExists, load, step, account, now));
    FirstPassStep(page, tableExists, account, now, a, st.steps, st.rows, step, st'.rows);
    var r := FirstPassFrom(page, tableExists, account, now, a, st);
    if Retries(step) && a + 1 < MaxProfileAttempts {
      RetryWritesNothing(st.rows, tableExists, load, step, account, now);
      var next := PassState(st.steps + [step], st.rows);
      assert st' == next;
      RetriedPrefixGrows(page, st.rows, tableExists, a, st.steps, step);
      FirstPassFromFits(page, tableExists, account, now, a + 1, next);
      assert r == FirstPassFrom(page, tableExists, account, now, a + 1, next);
    } else {
      assert r.steps == st.steps + [step] by {
        if Retries(step) {
          assert FirstPassFrom(page, tableExists, account, now, a + 1, st') == st';
        }
      }
      FirstPassEndsFits(page, st.rows, tableExists, a, st.steps, step);
    }
  }

  /** From attempt `a` on, only the last step of the pass can have changed the store. */
  lemma {:induction false} FirstPassFromRows(page: ProfilePage, tableExists: bool, account: string, now: int, a: nat, st: PassState)
    requires a < MaxProfileAttempts && |st.steps| == a
    ensures |FirstPassFrom(page, tableExists, account, now, a, st).steps| > a
    ensures FirstPassFrom(page, tableExists, account, now, a, st).rows
            == RowsAfterLoad(st.rows, tableExists, page.attempts(|FirstPassFrom(page, tableExists, account, now, a, st).steps| - 1),
                             FirstPassFrom(page, tableExists, account, now, a, st).steps[|FirstPassFrom(page, tableExists, account, now, a, st).steps| - 1],
                             account, now)
    decreases MaxProfileAttempts - a
  {
    var load := page.attempts(a);
    var step := LoadStepOf(st.rows, tableExists, load);
    var st' := PassState(st.steps + [step], RowsAfterLoad(st.rows, tableExists, load, step, account, now));
    FirstPassStep(page, tableExists, account, now, a, st.steps, st.rows, step, st'.rows);
    var r := FirstPassFrom(page, tableExists, account, now, a, st);
    if Retries(step) && a + 1 < MaxProfileAttempts {
      RetryWritesNothing(st.rows, tableExists, load, step, account, now);
      var next := PassState(st.steps + [step], st.rows);
      assert st' == next;
      FirstPassFromRows(page, tableExists, account, now, a + 1, next);
      assert r == FirstPassFrom(page, tableExists, account, now, a + 1, next);
    } else {
      assert r == st' by {
        if Retries(step) {
          assert FirstPassFrom(page, tableExists, account, now, a + 1, st') == st';
        }
      }
      assert r.steps[a] == step;
    }
  }

  /**
   * The first pass fits the page (attempt `k` is step `k`, every step but
   * the last retries, the last stops the pass unless the attempts ran out),
   * and only its last step can have written to the store.
   */
  lemma FirstPassFits(page: ProfilePage, rows: map<string, Row>, tableExists: bool, account: string, now: int)
    ensures FirstPassOn(page, rows, tableExists, FirstPassOf(page, rows, tableExists, account, now).steps)
    ensures FirstPassOf(page, rows, tableExists, account, now).rows
            == RowsAfterLoad(rows, tableExists, page.attempts(|FirstPassOf(page, rows, tableExists, account, now).steps| - 1),
                             FirstPassOf(page, rows, tableExists, account, now).steps[|FirstPassOf(page, rows, tableExists, account, now).steps| - 1],
                             account, now)
  {
    FirstPassFromFits(page, tableExists, account, now, 0, PassState([], rows));
    FirstPassFromRows(page, tableExists, account, now, 0, PassState([], rows));
  }

  /**
   * A confirmed reply can only end the first pass, and the store after it
   * holds the rows it had plus rows of tweets the pass marked.
   */
  lemma FirstPassExplained(page: ProfilePage, rows: map<string, Row>, tableExists: bool, account: string, now: int)
    ensures forall i :: 0 <= i < |FirstPassOf(page, rows, tableExists, account, now).steps| - 1 ==>
              !(FirstPassOf(page, rows, tableExists, account, now).steps[i].FirstTweet?
                && FirstPassOf(page, rows, tableExists, account, now).steps[i].outcome.Replied?)
    ensures RowsExplained(FirstPassOf(page, rows, tableExists, account, now).rows, rows,
                          FirstPassOf(page, rows, tableExists, account, now).steps, [])
  {
    FirstPassFits(page, rows, tableExists, account, now);
    var p := FirstPassOf(page, rows, tableExists, account, now);
    RetriesExplained(rows, p.steps, p.rows, page.attempts(|p.steps| - 1), tableExists, account, now);
  }

  /**
   * Load steps that all retry but the last, the store after them being what
   * the last one left: no step but the last is a confirmed reply, and the
   * store holds the rows it had plus, at most, the last step's mark.
   */
  lemma RetriesExplained(rows: map<string, Row>, steps: seq<LoadStep>, after: map<string, Row>, load: ProfileAttempt,
                         tableExists: bool, account: string, now: int)
    requires |steps| >= 1 && forall k :: 0 <= k < |steps| - 1 ==> Retries(steps[k])
    requires after == RowsAfterLoad(rows, tableExists, load, steps[|steps| - 1], account, now)
    ensures forall i :: 0 <= i < |steps| - 1 ==> !(steps[i].FirstTweet? && steps[i].outcome.Replied?)
    ensures RowsExplained(after, rows, steps, [])
  {
    var n := |steps|;
    ExplainedAfterLoad(rows, rows, steps[..n - 1], load, steps[n - 1], tableExists, account, now);
    assert steps[..n - 1] + [steps[n - 1]] == steps;
  }

  /** The page determines the first pass: two passes that both fit it are the same. */
  lemma FirstPassUnique(page: ProfilePage, rows: map<string, Row>, tableExists: bool, s: seq<LoadStep>, u: seq<LoadStep>)
    requires FirstPassOn(page, rows, tableExists, s) && FirstPassOn(page, rows, tableExists, u)
    ensures s == u
  {
  }

  // ---------------------------------------------------------------------------
  // The scan, as the page determines it

  /** The scan so far: the nodes handled, the keys seen, the store's rows, and whether a reply went out. */
  datatype ScanState = ScanState(steps: seq<ScanStep>, seen: set<Option<string>>, rows: map<string, Row>, replied: bool)

  /** The state after handling a node under `key` with outcome `o`, the store then holding `rows`. */
  function Handled(st: ScanState, key: Option<string>, o: TweetOutcome, rows: map<string, Row>): ScanState {
    ScanState(st.steps + [ScanStep(key, o)], st.seen + {key}, rows, o.Replied?)
  }

  /** One node of a round: handled when its key was read and not seen before. */
  function NodeStep(view: TweetView, st: ScanState, tableExists: bool, account: string, now: int): ScanState {
    if view.key.AttrValue? && view.key.value !in st.seen then
      var o := TweetOutcomeOf(st.rows, tableExists, view);
      Handled(st, view.key.value, o, RowsAfter(st.rows, tableExists, view, o, account, now))
    else st
  }

  /** A round from node `j` on: its nodes in order, until a reply is confirmed. */
  function RoundFrom(tweets: seq<TweetView>, j: nat, st: ScanState, tableExists: bool, account: string, now: int): ScanState
    decreases |tweets| - j
  {
    if j >= |tweets| || st.replied then st
    else RoundFrom(tweets, j + 1, NodeStep(tweets[j], st, tableExists, account, now), tableExists, account, now)
  }

  /** Where the scan ended and after how many rounds. */
  datatype ScanEnd = ScanEnd(state: ScanState, rounds: nat)

  /**
   * The scan from round `r` on, `last` being the height before that round's
   * scroll: a round that confirms a reply or whose scroll leaves the height
   * unchanged is the last, and so is round `MaxScrolls - 1`.
   */
  function ScanFrom(page: ProfilePage, r: nat, last: int, st: ScanState, tableExists: bool, account: string, now: int): ScanEnd
    decreases MaxScrolls - r
  {
    if r >= MaxScrolls then ScanEnd(st, r)
    else
      var st' := RoundFrom(page.round(r), 0, st, tableExists, account, now);
      if st'.replied || page.heightAfter(r) == last then ScanEnd(st', r + 1)
      else ScanFrom(page, r + 1, page.heightAfter(r), st', tableExists, account, now)
  }

  /** The whole scan, starting with nothing seen and the store holding `rows`. */
  function ScanOf(page: ProfilePage, rows: map<string, Row>, tableExists: bool, account: string, now: int): ScanEnd {
    ScanFrom(page, 0, page.initialHeight, ScanState([], {}, rows, false), tableExists, account, now)
  }

  /**
   * The scan state is consistent: `seen` is the set of handled keys, the
   * keys are distinct, and only the last step can be a confirmed reply,
   * which `replied` records.
   */
  predicate ScanCoherent(st: ScanState) {
    st.seen == ScanKeys(st.steps) && DistinctKeys(st.steps)
    && (forall i :: 0 <= i < |st.steps| - 1 ==> !st.steps[i].outcome.Replied?)
    && (st.replied <==> |st.steps| > 0 && st.steps[|st.steps| - 1].outcome.Replied?)
  }

  /** Handling a node under a key not seen before keeps the state consistent. */
  lemma HandledKeeps(st: ScanState, key: Option<string>, o: TweetOutcome, rows: map<string, Row>)
    requires ScanCoherent(st) && !st.replied && key !in st.seen
    ensures ScanCoherent(Handled(st, key, o, rows))
  {
    var step := ScanStep(key, o);
    ScanKeysAppend(st.steps, step);
    var steps' := st.steps + [step];
    forall i, j | 0 <= i < j < |steps'|
      ensures steps'[i].key != steps'[j].key
    {
      assert steps'[i] == st.steps[i];
      if j < |st.steps| {
        assert steps'[j] == st.steps[j];
      } else {
        assert st.steps[i].key in st.seen;
      }
    }
    forall i | 0 <= i < |steps'| - 1
      ensures !steps'[i].outcome.Replied?
    {
      assert steps'[i] == st.steps[i];
    }
  }

  /** Handling a node keeps the state consistent. */
  lemma NodeStepKeeps(view: TweetView, st: ScanState, tableExists: bool, account: string, now: int)
    requires ScanCoherent(st) && !st.replied
    ensures ScanCoherent(NodeStep(view, st, tableExists, account, now))
  {
    if view.key.AttrValue? && view.key.value !in st.seen {
      var o := TweetOutcomeOf(st.rows, tableExists, view);
      HandledKeeps(st, view.key.value, o, RowsAfter(st.rows, tableExists, view, o, account, now));
    }
  }

  /** A round keeps the state consistent. */
  lemma {:induction false} RoundFromKeeps(tweets: seq<TweetView>, j: nat, st: ScanState, tableExists: bool, account: string, now: int)
    requires ScanCoherent(st)
    ensures ScanCoherent(RoundFrom(tweets, j, st, tableExists, account, now))
    decreases |tweets| - j
  {
    if j < |tweets| && !st.replied {
      NodeStepKeeps(tweets[j], st, tableExists, account, now);
      RoundFromKeeps(tweets, j + 1, NodeStep(tweets[j], st, tableExists, account, now), tableExists, account, now);
    }
  }

  /** A round only adds keys, and unless it replied, every node with a read key from `j` on is seen. */
  lemma {:induction false} RoundFromCovers(tweets: seq<TweetView>, j: nat, st: ScanState, tableExists: bool, account: string, now: int)
    ensures st.seen <= RoundFrom(tweets, j, st, tableExists, account, now).seen
    ensures !RoundFrom(tweets, j, st, tableExists, account, now).replied ==>
              forall k :: j <= k < |tweets| && tweets[k].key.AttrValue? ==>
                tweets[k].key.value in RoundFrom(tweets, j, st, tableExists, account, now).seen
    decreases |tweets| - j
  {
    if j < |tweets| && !st.replied {
      var st1 := NodeStep(tweets[j], st, tableExists, account, now);
      assert st.seen <= st1.seen;
      assert tweets[j].key.AttrValue? ==> tweets[j].key.value in st1.seen;
      RoundFromCovers(tweets, j + 1, st1, tableExists, account, now);
    }
  }

  /** Handling a node keeps the store's rows explained. */
  lemma NodeStepExplained(view: TweetView, st: ScanState, before: map<string, Row>, first: seq<LoadStep>,
                          tableExists: bool, account: string, now: int)
    requires RowsExplained(st.rows, before, first, st.steps)
    ensures RowsExplained(NodeStep(view, st, tableExists, account, now).rows, before, first,
                          NodeStep(view, st, tableExists, account, now).steps)
  {
    if view.key.AttrValue? && view.key.value !in st.seen {
      var o := TweetOutcomeOf(st.rows, tableExists, view);
      ExplainedAfterScanned(RowsAfter(st.rows, tableExists, view, o, account, now), st.rows, before, first, st.steps,
                            view.key.value, o, now, account);
    }
  }

  /** A round keeps the store's rows explained. */
  lemma {:induction false} RoundFromExplained(tweets: seq<TweetView>, j: nat, st: ScanState, before: map<string, Row>,
                                              first: seq<LoadStep>, tableExists: bool, account: string, now: int)
    requires RowsExplained(st.rows, before, first, st.steps)
    ensures RowsExplained(RoundFrom(tweets, j, st, tableExists, account, now).rows, before, first,
                          RoundFrom(tweets, j, st, tableExists, account, now).steps)
    decreases |tweets| - j
  {
    if j < |tweets| && !st.replied {
      NodeStepExplained(tweets[j], st, before, first, tableExists, account, now);
      RoundFromExplained(tweets, j + 1, NodeStep(tweets[j], st, tableExists, account, now), before, first,
                         tableExists, account, now);
    }
  }

  /**
   * The scan from round `r` on keeps the state consistent and runs at
   * least one round when any is left; unless it replied, it runs as many
   * rounds as the heights allow and has seen every read key of them.
   */
  lemma {:induction false} ScanFromKeeps(page: ProfilePage, r: nat, last: int, st: ScanState, tableExists: bool,
                                         account: string, now: int)
    requires r <= MaxScrolls && ScanCoherent(st) && !st.replied && AllKeysHandled(page, r, st.seen)
    ensures ScanCoherent(ScanFrom(page, r, last, st, tableExists, account, now).state)
    ensures r <= ScanFrom(page, r, last, st, tableExists, account, now).rounds <= MaxScrolls
    ensures r < MaxScrolls ==> r < ScanFrom(page, r, last, st, tableExists, account, now).rounds
    ensures !ScanFrom(page, r, last, st, tableExists, account, now).state.replied ==>
              ScanFrom(page, r, last, st, tableExists, account, now).rounds == r + RoundsFrom(last, page.heightAfter, r)
              && AllKeysHandled(page, ScanFrom(page, r, last, st, tableExists, account, now).rounds,
                                ScanFrom(page, r, last, st, tableExists, account, now).state.seen)
    decreases MaxScrolls - r
  {
    if r < MaxScrolls {
      RoundFromKeeps(page.round(r), 0, st, tableExists, account, now);
      RoundFromCovers(page.round(r), 0, st, tableExists, account, now);
      var st' := RoundFrom(page.round(r), 0, st, tableExists, account, now);
      if !st'.replied {
        forall r0, k | 0 <= r0 < r + 1 && 0 <= k < |page.round(r0)| && page.round(r0)[k].key.AttrValue?
          ensures page.round(r0)[k].key.value in st'.seen
        {
          if r0 < r {
            assert page.round(r0)[k].key.value in st.seen;
          }
        }
        if page.heightAfter(r) != last {
          ScanFromKeeps(page, r + 1, page.heightAfter(r), st', tableExists, account, now);
        }
      }
    }
  }

  /** The scan from round `r` on keeps the store's rows explained. */
  lemma {:induction false} ScanFromExplained(page: ProfilePage, r: nat, last: int, st: ScanState, before: map<string, Row>,
                                             first: seq<LoadStep>, tableExists: bool, account: string, now: int)
    requires RowsExplained(st.rows, before, first, st.steps)
    ensures RowsExplained(ScanFrom(page, r, last, st, tableExists, account, now).state.rows, before, first,
                          ScanFrom(page, r, last, st, tableExists, account, now).state.steps)
    decreases MaxScrolls - r
  {
    if r < MaxScrolls {
      RoundFromExplained(page.round(r), 0, st, before, first, tableExists, account, now);
      var st' := RoundFrom(page.round(r), 0, st, tableExists, account, now);
      if !(st'.replied || page.heightAfter(r) == last) {
        ScanFromExplained(page, r + 1, page.heightAfter(r), st', before, first, tableExists, account, now);
      }
    }
  }

  /**
   * The whole scan: its state is consistent, it runs one to three rounds,
   * and unless it replied it ran as many rounds as the heights allow and
   * saw every read key of them; the store's rows stay explained.
   */
  lemma ScanFacts(page: ProfilePage, rows: map<string, Row>, before: map<string, Row>, first: seq<LoadStep>,
                  tableExists: bool, account: string, now: int)
    requires RowsExplained(rows, before, first, [])
    ensures ScanCoherent(ScanOf(page, rows, tableExists, account, now).state)
    ensures 1 <= ScanOf(page, rows, tableExists, account, now).rounds <= MaxScrolls
    ensures !ScanOf(page, rows, tableExists, account, now).state.replied ==>
              ScanOf(page, rows, tableExists, account, now).rounds == RoundsFrom(page.initialHeight, page.heightAfter, 0)
              && AllKeysHandled(page, ScanOf(page, rows, tableExists, account, now).rounds,
                                ScanOf(page, rows, tableExists, account, now).state.seen)
    ensures RowsExplained(ScanOf(page, rows, tableExists, account, now).state.rows, before, first,
                          ScanOf(page, rows, tableExists, account, now).state.steps)
  {
    var st := ScanState([], {}, rows, false);
    assert ScanKeys([]) == {};
    ScanFromKeeps(page, 0, page.initialHeight, st, tableExists, account, now);
    ScanFromExplained(page, 0, page.initialHeight, st, before, first, tableExists, account, now);
  }

  /** What `monitor_account` comes to: its answer, its report and the store it leaves. */
  datatype Monitored = Monitored(ok: bool, report: Report, rows: map<string, Row>)

  /**
   * `monitor_account` as the page determines it: the first pass, then, unless
   * it gave up or replied, the scan on the store the first pass left.
   */
  function MonitorOf(page: ProfilePage, rows: map<string, Row>, tableExists: bool, account: string, now: int): Monitored {
    var p := FirstPassOf(page, rows, tableExists, account, now);
    if GaveUpOn(p.steps) then Monitored(false, Report(p.steps, [], 0), p.rows)
    else if RepliedFirstOn(p.steps) then Monitored(true, Report(p.steps, [], 0), p.rows)
    else
      var e := ScanOf(page, p.rows, tableExists, account, now);
      Monitored(true, Report(p.steps, e.state.steps, e.rounds), e.state.rows)
  }

  /**
   * The first pass of a visit is the one the page determines; the answer is
   * false exactly when it gave up; a confirmed reply ends it; and a pass
   * that gave up or replied ends the visit with the store it left.
   */
  lemma MonitorFirstPass(page: ProfilePage, before: map<string, Row>, tableExists: bool, account: string, now: int,
                         ok: bool, report: Report, after: map<string, Row>)
    requires Monitored(ok, report, after) == MonitorOf(page, before, tableExists, account, now)
    ensures FirstPassOn(page, before, tableExists, report.firstPass)
    ensures report.firstPass == FirstPassOf(page, before, tableExists, account, now).steps
    ensures (GaveUpOn(report.firstPass) || RepliedFirstOn(report.firstPass)) ==>
              report.scan == [] && report.rounds == 0
              && after == FirstPassOf(page, before, tableExists, account, now).rows
    ensures !GaveUpOn(report.firstPass) && !RepliedFirstOn(report.firstPass) ==>
              var e := ScanOf(page, FirstPassOf(page, before, tableExists, account, now).rows, tableExists, account, now);
              report.scan == e.state.steps && report.rounds == e.rounds && after == e.state.rows
    ensures 1 <= |report.firstPass| <= MaxProfileAttempts
    ensures !ok <==> GaveUpOn(report.firstPass)
    ensures forall i :: 0 <= i < |report.firstPass| - 1 ==>
              !(report.firstPass[i].FirstTweet? && report.firstPass[i].outcome.Replied?)
    ensures RepliedFirstOn(report.firstPass) ==> ok
  {
    FirstPassFits(page, before, tableExists, account, now);
    FirstPassExplained(page, before, tableExists, account, now);
  }

  /**
   * The scan of a visit: it takes at most three rounds, a confirmed reply is
   * its last step, its keys are distinct, and a scan that found no reply went
   * through every round the page heights allow and handled every readable
   * key in them.
   */
  lemma MonitorScan(page: ProfilePage, before: map<string, Row>, tableExists: bool, account: string, now: int,
                    ok: bool, report: Report, after: map<string, Row>)
    requires Monitored(ok, report, after) == MonitorOf(page, before, tableExists, account, now)
    ensures report.rounds <= MaxScrolls
    ensures forall i :: 0 <= i < |report.scan| - 1 ==> !report.scan[i].outcome.Replied?
    ensures DistinctKeys(report.scan)
    ensures !GaveUpOn(report.firstPass) && !RepliedFirstOn(report.firstPass)
            && !(|report.scan| > 0 && report.scan[|report.scan| - 1].outcome.Replied?) ==>
              report.rounds == RoundsFrom(page.initialHeight, page.heightAfter, 0)
              && AllKeysHandled(page, report.rounds, ScanKeys(report.scan))
  {
    var p := FirstPassOf(page, before, tableExists, account, now);
    if !GaveUpOn(p.steps) && !RepliedFirstOn(p.steps) {
      FirstPassExplained(page, before, tableExists, account, now);
      ScanFacts(page, p.rows, before, p.steps, tableExists, account, now);
    }
  }

  /** Every scanned step of a visit is a node of the rounds the scan went through. */
  lemma MonitorScanNodes(page: ProfilePage, before: map<string, Row>, tableExists: bool, account: string, now: int,
                         ok: bool, report: Report, after: map<string, Row>)
    requires Monitored(ok, report, after) == MonitorOf(page, before, tableExists, account, now)
    ensures AllFromNodes(page, report.rounds, report.scan,
                         FirstPassOf(page, before, tableExists, account, now).rows, after, tableExists)
  {
    var p := FirstPassOf(page, before, tableExists, account, now);
    if !GaveUpOn(p.steps) && !RepliedFirstOn(p.steps) {
      ScanStepsAreNodes(page, p.rows, tableExists, account, now);
    } else {
      assert AllFromNodes(page, 0, [], p.rows, p.rows, tableExists);
    }
  }

  /** The store after a visit gains rows only for the tweets marked on the way. */
  lemma MonitorRows(page: ProfilePage, before: map<string, Row>, tableExists: bool, account: string, now: int,
                    ok: bool, report: Report, after: map<string, Row>)
    requires Monitored(ok, report, after) == MonitorOf(page, before, tableExists, account, now)
    ensures RowsExplained(after, before, report.firstPass, report.scan)
  {
    var p := FirstPassOf(page, before, tableExists, account, now);
    FirstPassExplained(page, before, tableExists, account, now);
    if !GaveUpOn(p.steps) && !RepliedFirstOn(p.steps) {
      ScanFacts(page, p.rows, before, p.steps, tableExists, account, now);
    }
  }

  /**
   * A scanned step is a node of one of the first `rounds` rounds, under that
   * node's key, with the outcome that node has against the store as it
   * stood when the node came up: holding every row of `before` and no row
   * that `after` lacks.
   */
  ghost predicate FromNode(page: ProfilePage, rounds: nat, step: ScanStep, before: map<string, Row>, after: map<string, Row>,
                     tableExists: bool)
  {
    exists r, j, mid: map<string, Row> :: 0 <= r < rounds && 0 <= j < |page.round(r)|
      && page.round(r)[j].key == AttrValue(step.key)
      && before.Keys <= mid.Keys && mid.Keys <= after.Keys
      && step.outcome == TweetOutcomeOf(mid, tableExists, page.round(r)[j])
  }

  ghost predicate AllFromNodes(page: ProfilePage, rounds: nat, steps: seq<ScanStep>, before: map<string, Row>,
                         after: map<string, Row>, tableExists: bool)
  {
    forall i :: 0 <= i < |steps| ==> FromNode(page, rounds, steps[i], before, after, tableExists)
  }

  /** More rounds and a larger store keep every step accounted for. */
  lemma AllFromNodesGrow(page: ProfilePage, rounds: nat, rounds': nat, steps: seq<ScanStep>, before: map<string, Row>,
                         after: map<string, Row>, after': map<string, Row>, tableExists: bool)
    requires AllFromNodes(page, rounds, steps, before, after, tableExists)
    requires rounds <= rounds' && after.Keys <= after'.Keys
    ensures AllFromNodes(page, rounds', steps, before, after', tableExists)
  {
    forall i | 0 <= i < |steps|
      ensures FromNode(page, rounds', steps[i], before, after', tableExists)
    {
      assert FromNode(page, rounds, steps[i], before, after, tableExists);
      var r: nat, j: nat, mid: map<string, Row> :| 0 <= r < rounds && 0 <= j < |page.round(r)|
        && page.round(r)[j].key == AttrValue(steps[i].key)
        && before.Keys <= mid.Keys && mid.Keys <= after.Keys
        && steps[i].outcome == TweetOutcomeOf(mid, tableExists, page.round(r)[j]);
      assert mid.Keys <= after'.Keys;
    }
  }

  /** Handling a node only adds rows. */
  lemma NodeStepGrows(view: TweetView, st: ScanState, tableExists: bool, account: string, now: int)
    ensures st.rows.Keys <= NodeStep(view, st, tableExists, account, now).rows.Keys
    ensures NodeStep(view, st, tableExists, account, now).steps[..|st.steps|] == st.steps
  {
  }

  /** Every step a round adds comes from one of its nodes. */
  lemma {:induction false} RoundFromNodes(page: ProfilePage, r: nat, j: nat, st: ScanState, before: map<string, Row>,
                                          tableExists: bool, account: string, now: int)
    requires j <= |page.round(r)|
    requires before.Keys <= st.rows.Keys
    requires AllFromNodes(page, r + 1, st.steps, before, st.rows, tableExists)
    ensures before.Keys <= RoundFrom(page.round(r), j, st, tableExists, account, now).rows.Keys
    ensures AllFromNodes(page, r + 1, RoundFrom(page.round(r), j, st, tableExists, account, now).steps,
                         before, RoundFrom(page.round(r), j, st, tableExists, account, now).rows, tableExists)
    decreases |page.round(r)| - j
  {
    if j < |page.round(r)| && !st.replied {
      var view := page.round(r)[j];
      var st1 := NodeStep(view, st, tableExists, account, now);
      NodeStepGrows(view, st, tableExists, account, now);
      AllFromNodesGrow(page, r + 1, r + 1, st.steps, before, st.rows, st1.rows, tableExists);
      if view.key.AttrValue? && view.key.value !in st.seen {
        var step := st1.steps[|st.steps|];
        assert page.round(r)[j].key == AttrValue(step.key)
               && before.Keys <= st.rows.Keys && st.rows.Keys <= st1.rows.Keys
               && step.outcome == TweetOutcomeOf(st.rows, tableExists, page.round(r)[j]);
        assert FromNode(page, r + 1, step, before, st1.rows, tableExists);
        forall i | 0 <= i < |st1.steps|
          ensures FromNode(page, r + 1, st1.steps[i], before, st1.rows, tableExists)
        {
          if i < |st.steps| {
            assert st1.steps[i] == st.steps[i];
          }
        }
      }
      RoundFromNodes(page, r, j + 1, st1, before, tableExists, account, now);
    }
  }

  /** Every step the scan adds from round `r` on comes from a node of a round it went through. */
  lemma {:induction false} ScanFromNodes(page: ProfilePage, r: nat, last: int, st: ScanState, before: map<string, Row>,
                                         tableExists: bool, account: string, now: int)
    requires before.Keys <= st.rows.Keys
    requires AllFromNodes(page, r, st.steps, before, st.rows, tableExists)
    ensures AllFromNodes(page, ScanFrom(page, r, last, st, tableExists, account, now).rounds,
                         ScanFrom(page, r, last, st, tableExists, account, now).state.steps,
                         before, ScanFrom(page, r, last, st, tableExists, account, now).state.rows, tableExists)
    decreases MaxScrolls - r
  {
    if r < MaxScrolls {
      AllFromNodesGrow(page, r, r + 1, st.steps, before, st.rows, st.rows, tableExists);
      RoundFromNodes(page, r, 0, st, before, tableExists, account, now);
      var st' := RoundFrom(page.round(r), 0, st, tableExists, account, now);
      if !(st'.replied || page.heightAfter(r) == last) {
        ScanFromNodes(page, r + 1, page.heightAfter(r), st', before, tableExists, account, now);
      }
    }
  }

  /**
   * Each step of the scan is a node of one of the rounds the scan went
   * through, under that node's key, with the outcome the node has against
   * the store as it stood when the node came up.
   */
  lemma ScanStepsAreNodes(page: ProfilePage, rows: map<string, Row>, tableExists: bool, account: string, now: int)
    ensures AllFromNodes(page, ScanOf(page, rows, tableExists, account, now).rounds,
                         ScanOf(page, rows, tableExists, account, now).state.steps,
                         rows, ScanOf(page, rows, tableExists, account, now).state.rows, tableExists)
  {
    ScanFromNodes(page, 0, page.initialHeight, ScanState([], {}, rows, false), rows, tableExists, account, now);
  }

  class TwitterMonitorPlaywright {
    var twitterUsername: Option<string>
    var twitterPassword: Option<string>
    const db: DBManager

    /**
     * `__init__`: opens the dedup store and looks the credentials up in the
     * environment and, when one is missing, in `bot/.env` and the root
     * `.env` (`files`, in that order).
     */
    constructor(envUser: Option<string>, envPass: Option<string>, files: seq<Option<seq<string>>>,
                stored: Option<map<string, Row>>, dbOk: bool)
      ensures fresh(db) && db.Valid()
      ensures db.tableExists == (stored.Some? || dbOk)
      ensures db.rows == if stored.Some? then stored.value else map[]
      ensures !ReadsFiles(envUser, envPass) ==> twitterUsername == envUser && twitterPassword == envPass
      ensures ReadsFiles(envUser, envPass) ==>
                twitterUsername == Assigned(AllLines(files), UsernameKey, envUser)
                && twitterPassword == Assigned(AllLines(files), PasswordKey, envPass)
    {
      db := new DBManager(stored, dbOk);
      var user, pass := LoadCredentials(envUser, envPass, files);
      twitterUsername, twitterPassword := user, pass;
    }

    /**
     * One attempt of the first pass: load the profile and, when it shows
     * tweets, handle the first one as any tweet.
     */
    method LoadProfile(load: ProfileAttempt, account: string, now: int) returns (step: LoadStep)
      requires db.Valid()
      modifies db
      ensures db.Valid() && db.tableExists == old(db.tableExists)
      ensures step == LoadStepOf(old(db.rows), db.tableExists, load)
      ensures db.rows == RowsAfterLoad(old(db.rows), db.tableExists, load, step, account, now)
    {
      if !load.loads {
        return LoadFailed;
      }
      if load.errorPage {
        return ErrorPage;
      }
      if load.tweets == [] {
        return NoTweets;
      }
      var outcome, _ := HandleTweet(db, load.tweets[0], account, now);
      return FirstTweet(outcome);
    }

    /**
     * The profile-load loop of `monitor_account`: each attempt loads the
     * profile and checks its first tweet. An error page, a tweet whose id
     * could not be read, an already processed tweet or a missing reply
     * button moves on to the next attempt; a load or text read that raises
     * does too, except on the last attempt, where it ends everything with
     * false; a confirmed reply ends everything with true; anything else
     * goes on to the scan. The steps are the ones the page determines, and
     * only the last one can have written to the store.
     */
    method FirstPass(account: string, page: ProfilePage, now: int) returns (end: FirstPassEnd, steps: seq<LoadStep>)
      requires db.Valid()
      modifies db
      ensures db.Valid() && db.tableExists == old(db.tableExists)
      ensures PassState(steps, db.rows) == FirstPassOf(page, old(db.rows), db.tableExists, account, now)
      ensures 1 <= |steps| <= MaxProfileAttempts
      ensures end == GaveUp <==> GaveUpOn(steps)
      ensures end == RepliedFirst <==> RepliedFirstOn(steps)
    {
      steps := [];
      var attempt := 0;
      while attempt < MaxProfileAttempts
        invariant 0 <= attempt <= MaxProfileAttempts
        invariant |steps| == attempt
        invariant attempt == MaxProfileAttempts ==> !GaveUpOn(steps) && !RepliedFirstOn(steps)
        invariant db.Valid() && db.tableExists == old(db.tableExists)
        invariant db.rows == old(db.rows)
        invariant FirstPassOf(page, old(db.rows), db.tableExists, account, now)
                  == FirstPassFrom(page, db.tableExists, account, now, attempt, PassState(steps, db.rows))
      {
        var step := LoadProfile(page.attempts(attempt), account, now);
        FirstPassStep(page, db.tableExists, account, now, attempt, steps, old(db.rows), step, db.rows);
        steps := steps + [step];
        if step.FirstTweet? && step.outcome.Replied? {
          return RepliedFirst, steps;
        }
        if !Retries(step) {
          return ToScan, steps;
        }
        RetryWritesNothing(old(db.rows), db.tableExists, page.attempts(attempt), step, account, now);
        if attempt == MaxProfileAttempts - 1 && (step == LoadFailed || step == FirstTweet(TextFailed)) {
          return GaveUp, steps;
        }
        attempt := attempt + 1;
      }
      end := ToScan;
    }

    /**
     * One round of the timeline scan: the nodes of `tweets` whose
     * `data-testid` was read and is not in `seen` are handled in order, each
     * key joining `seen`, until a reply is confirmed.
     */
    method ScanRound(tweets: seq<TweetView>, account: string, now: int, scan0: seq<ScanStep>, seen0: set<Option<string>>)
      returns (replied: bool, scan: seq<ScanStep>, seen: set<Option<string>>)
      requires db.Valid()
      modifies db
      ensures db.Valid() && db.tableExists == old(db.tableExists)
      ensures ScanState(scan, seen, db.rows, replied)
              == RoundFrom(tweets, 0, ScanState(scan0, seen0, old(db.rows), false), db.tableExists, account, now)
    {
      scan, seen := scan0, seen0;
      var j := 0;
      while j < |tweets|
        invariant 0 <= j <= |tweets|
        invariant db.Valid() && db.tableExists == old(db.tableExists)
        invariant RoundFrom(tweets, 0, ScanState(scan0, seen0, old(db.rows), false), db.tableExists, account, now)
                  == RoundFrom(tweets, j, ScanState(scan, seen, db.rows, false), db.tableExists, account, now)
      {
        var view := tweets[j];
        if view.key.AttrValue? && view.key.value !in seen {
          var key := view.key.value;
          var outcome, _ := HandleTweet(db, view, account, now);
          scan := scan + [ScanStep(key, outcome)];
          seen := seen + {key};
          if outcome.Replied? {
            return true, scan, seen;
          }
        }
        j := j + 1;
      }
      replied := false;
    }

    /**
     * The timeline scan of `monitor_account`: each round handles the tweet
     * nodes it finds whose `data-testid` was read and not seen before, and
     * answers true at the first confirmed reply; then it scrolls, and stops
     * when the page height did not change or after three rounds.
     */
    method Scan(account: string, page: ProfilePage, now: int) returns (replied: bool, scan: seq<ScanStep>, rounds: nat)
      requires db.Valid()
      modifies db
      ensures db.Valid() && db.tableExists == old(db.tableExists)
      ensures var e := ScanOf(page, old(db.rows), db.tableExists, account, now);
              scan == e.state.steps && db.rows == e.state.rows && replied == e.state.replied && rounds == e.rounds
    {
      var lastHeight := page.initialHeight;
      var seen: set<Option<string>> := {};
      scan := [];
      var r := 0;
      while r < MaxScrolls
        invariant 0 <= r <= MaxScrolls
        invariant db.Valid() && db.tableExists == old(db.tableExists)
        invariant ScanOf(page, old(db.rows), db.tableExists, account, now)
                  == ScanFrom(page, r, lastHeight, ScanState(scan, seen, db.rows, false), db.tableExists, account, now)
      {
        var roundReplied;
        roundReplied, scan, seen := ScanRound(page.round(r), account, now, scan, seen);
        if roundReplied {
          return true, scan, r + 1;
        }
        var newHeight := page.heightAfter(r);
        if newHeight == lastHeight {
          return false, scan, r + 1;
        }
        lastHeight := newHeight;
        r := r + 1;
      }
      return false, scan, r;
    }

    /**
     * `monitor_account`: the first pass, then, unless it gave up or replied,
     * the scan. The first pass is the one the page determines, and the scan
     * is the one the page determines on the store the first pass left. The
     * answer is false only when the first pass gave up; a confirmed reply is
     * the last tweet handled; every scanned step is a node of a round the
     * scan went through; the store gains rows only for tweets marked on the
     * way.
     */
    method MonitorAccount(account: string, page: ProfilePage, now: int) returns (ok: bool, report: Report)
      requires db.Valid()
      modifies db
      ensures db.Valid() && db.tableExists == old(db.tableExists)
      ensures Monitored(ok, report, db.rows) == MonitorOf(page, old(db.rows), db.tableExists, account, now)
      ensures FirstPassOn(page, old(db.rows), db.tableExists, report.firstPass)
      ensures report.firstPass == FirstPassOf(page, old(db.rows), db.tableExists, account, now).steps
      ensures (GaveUpOn(report.firstPass) || RepliedFirstOn(report.firstPass)) ==>
                report.scan == [] && report.rounds == 0
                && db.rows == FirstPassOf(page, old(db.rows), db.tableExists, account, now).rows
      ensures !GaveUpOn(report.firstPass) && !RepliedFirstOn(report.firstPass) ==>
                var e := ScanOf(page, FirstPassOf(page, old(db.rows), db.tableExists, account, now).rows, db.tableExists, account, now);
                report.scan == e.state.steps && report.rounds == e.rounds && db.rows == e.state.rows
      ensures AllFromNodes(page, report.rounds, report.scan,
                           FirstPassOf(page, old(db.rows), db.tableExists, account, now).rows, db.rows, db.tableExists)
      ensures 1 <= |report.firstPass| <= MaxProfileAttempts && report.rounds <= MaxScrolls
      ensures !ok <==> GaveUpOn(report.firstPass)
      ensures forall i :: 0 <= i < |report.firstPass| - 1 ==>
                !(report.firstPass[i].FirstTweet? && report.firstPass[i].outcome.Replied?)
      ensures RepliedFirstOn(report.firstPass) ==> ok
      ensures forall i :: 0 <= i < |report.scan| - 1 ==> !report.scan[i].outcome.Replied?
      ensures DistinctKeys(report.scan)
      ensures !GaveUpOn(report.firstPass) && !RepliedFirstOn(report.firstPass)
              && !(|report.scan| > 0 && report.scan[|report.scan| - 1].outcome.Replied?) ==>
                report.rounds == RoundsFrom(page.initialHeight, page.heightAfter, 0)
                && AllKeysHandled(page, report.rounds, ScanKeys(report.scan))
      ensures RowsExplained(db.rows, old(db.rows), report.firstPass, report.scan)
    {
      var end, first := FirstPass(account, page, now);
      if end == GaveUp {
        ok, report := false, Report(first, [], 0);
      } else if end == RepliedFirst {
        ok, report := true, Report(first, [], 0);
      } else {
        var _, scan, rounds := Scan(account, page, now);
        ok, report := true, Report(first, scan, rounds);
      }
      MonitorFirstPass(page, old(db.rows), db.tableExists, account, now, ok, report, db.rows);
      MonitorScan(page, old(db.rows), db.tableExists, account, now, ok, report, db.rows);
      MonitorScanNodes(page, old(db.rows), db.tableExists, account, now, ok, report, db.rows);
      MonitorRows(page, old(db.rows), db.tableExists, account, now, ok, report, db.rows);
    }
  }
}
