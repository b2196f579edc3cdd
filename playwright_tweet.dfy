/**
 * What the Playwright monitor does with one tweet on the page
 * (bot/twitter_monitor_playwright.py, the body shared by the first-tweet
 * check of `monitor_account` and its timeline scan): read the text and the
 * status id, skip ids the dedup store already has, ask the detector, and
 * either mark a tweet without findings or reply to it and mark it once a
 * success indicator shows. The page is an oracle indexed by the position in
 * this flow: which of the listed selectors match, which click methods go
 * through, what the reply box reads back.
 */
module PlaywrightTweet {
  import opened Wrappers
  import opened Strings
  import opened Fallback
  import opened FallacyDetector
  import opened DbManager

  const StatusMarker: string := "/status/"

  /** Selectors for the reply button inside a tweet, tried in order. */
  const ReplySelectors: seq<string> := [
    "div[aria-label=\"Reply\"]",
    "div[data-testid=\"replyButton\"]",
    "button[data-testid=\"replyButton\"]",
    "div[role=\"button\"][aria-label*=\"Reply\"]",
    "a[href*=\"/compose/tweet\"][role=\"button\"]",
    "[data-testid=\"reply\"]"
  ]

  /** Plain, delayed, left-button and forced clicks, then two scripted clicks. */
  const ReplyClickMethods: nat := 6

  /** How many times the reply text is typed before giving up. */
  const TextEntryAttempts: nat := 3

  /** Selectors for the button that sends the reply, tried in order. */
  const TweetButtonSelectors: seq<string> := [
    "[data-testid=\"tweetButton\"]",
    "[data-testid=\"tweetButtonInline\"]",
    "div[data-testid=\"tweetButtonInline\"]",
    "div[role=\"button\"]:has-text(\"Reply\")",
    "div[role=\"button\"]:has-text(\"Tweet\")"
  ]

  /** Plain, delayed and forced clicks, then a scripted click. */
  const SendClickMethods: nat := 4

  /** Elements whose appearance confirms that the reply went out. */
  const SuccessIndicators: seq<string> := [
    "div[data-testid=\"toast\"]",
    "div[aria-label*=\"Your tweet was sent\"]",
    "div[data-testid=\"tweetButtonInline\"][aria-disabled=\"true\"]"
  ]

  /**
   * The flow depends only on how many selectors each list has: the page
   * oracles below are indexed by position in these lists.
   */
  const ReplySelectorCount: nat := 6
  const TweetButtonCount: nat := 5
  const SuccessIndicatorCount: nat := 3

  /** The counts are the lengths of the lists. */
  lemma SelectorCounts()
    ensures |ReplySelectors| == ReplySelectorCount
    ensures |TweetButtonSelectors| == TweetButtonCount
    ensures |SuccessIndicators| == SuccessIndicatorCount
  {
  }

  // ---------------------------------------------------------------------------
  // Status ids

  /**
   * `href.split('/status/')[-1].split('?')[0]`: the text after the last cut
   * at `/status/`, up to the first `?`.
   */
  function ExtractStatusId(href: string): (r: string)
    ensures '?' !in r
    ensures |r| <= |href|
  {
    UntilChar(LastPiece(href, StatusMarker), '?')
  }

  /**
   * A permalink `p/status/d?query` gives `d`, whatever markers the path
   * before it holds, as long as the path does not end in `/status` (which
   * would make an earlier marker run into this one), `d` holds neither `?`
   * nor the marker, and the query (empty or starting with `?`) holds no
   * marker.
   */
  lemma ExtractStatusIdOf(p: string, d: string, s: string)
    requires !EndsWith(p, "/status")
    requires '?' !in d && !Contains(d, StatusMarker)
    requires s == [] || s[0] == '?'
    requires !Contains(s, StatusMarker)
    ensures ExtractStatusId(p + StatusMarker + d + s) == d
  {
    var href := p + StatusMarker + d + s;
    var off := |p| + |StatusMarker|;
    assert href == p + StatusMarker + (d + s);
    assert href[|p|..off] == StatusMarker;
    forall j | 0 <= j < |p| && |p| < j + |StatusMarker|
      ensures !OccursAt(href, StatusMarker, j)
    {
      if OccursAt(href, StatusMarker, j) {
        MarkerRunsIntoMarker(p, d + s, j);
        assert false;
      }
    }
    assert href[off..] == d + s;
    NoMarkerAcross(d, s);
    LastPieceAfterLastCut(href, StatusMarker, |p|);
    UntilCharStops(d, '?', s);
  }

  /**
   * The `/status` condition cannot be dropped: after `x/status` the earlier
   * marker takes the `/` of `/status/12`, and the id read is `status/12`.
   */
  lemma ExtractStatusIdAfterStatusPath()
    ensures ExtractStatusId("x/status" + StatusMarker + "12") == "status/12"
  {
    var href := "x/status" + StatusMarker + "12";
    assert href[1..9] == StatusMarker;
    assert href[0] != StatusMarker[0];
    CutScanFirst(href, StatusMarker, 0, 0, 1);
    var tail := href[9..];
    assert tail == "status/12";
    assert tail[0] != '/' && tail[1] != '/';
    SuffixUncut(href, StatusMarker, 9);
    UntilCharStops(tail, '?', []);
    assert tail + [] == tail;
  }

  /**
   * The marker overlaps itself only in its `/`: a marker that starts in `p`
   * and runs into the marker right after `p` means `p` ends in `/status`.
   */
  lemma MarkerRunsIntoMarker(p: string, rest: string, j: nat)
    requires j < |p| < j + |StatusMarker|
    requires OccursAt(p + StatusMarker + rest, StatusMarker, j)
    ensures EndsWith(p, "/status")
  {
    var href := p + StatusMarker + rest;
    assert forall i :: 1 <= i < 7 ==> StatusMarker[i] != '/';
    assert href[j..j + |StatusMarker|][|p| - j] == href[|p|] == '/';
    assert |p| - j == 7;
    assert p[|p| - 7..] == href[j..j + 7] == StatusMarker[..7];
  }

  /** A marker cannot straddle an id without `?` and a query that starts with `?`. */
  lemma NoMarkerAcross(d: string, s: string)
    requires '?' !in d && !Contains(d, StatusMarker)
    requires s == [] || s[0] == '?'
    requires !Contains(s, StatusMarker)
    ensures !Contains(d + s, StatusMarker)
  {
    var ds := d + s;
    forall i | 0 <= i <= |ds| - |StatusMarker| ensures !OccursAt(ds, StatusMarker, i) {
      if i + |StatusMarker| <= |d| {
        assert ds[i..i + |StatusMarker|] == d[i..i + |StatusMarker|];
        assert !OccursAt(d, StatusMarker, i);
      } else if i >= |d| {
        assert ds[i..i + |StatusMarker|] == s[i - |d|..i - |d| + |StatusMarker|];
        assert !OccursAt(s, StatusMarker, i - |d|);
      } else {
        assert ds[|d|] == s[0] == '?';
        assert '?' !in StatusMarker;
        if OccursAt(ds, StatusMarker, i) {
          assert false;
        }
      }
    }
  }

  // ---------------------------------------------------------------------------
  // The page as one tweet meets it

  /** `get_attribute`: it raises, or answers the attribute (`None` when absent). */
  datatype Attr = AttrRaised | AttrValue(value: Option<string>)

  /** The tweet's text element: absent, reading it raised, or its inner text. */
  datatype TextRead = NoTextElement | TextRaised | Text(text: string)

  /** The status link: absent, reading it raised, or its `href` (`None` when it has none). */
  datatype LinkRead = NoLink | LinkRaised | Href(href: Option<string>)

  /** One typing attempt: it raised, or the reply box read back this text. */
  datatype EntryRead = EntryRaised | EntryRead(text: string)

  /** What the reply controls do for this tweet, by position in the flow. */
  datatype ReplyUi = ReplyUi(
    replyButton: nat -> bool,      // reply selector k matches inside the tweet
    buttonScrolls: bool,           // scrolling the reply button into view works
    boxOpens: nat -> bool,         // click method k goes through and the reply box shows
    chat: ChatReply,               // the chat service's answer to the reply request
    entry: nat -> EntryRead,       // typing attempt a
    tweetButton: nat -> bool,      // send-button selector k shows up and scrolls into view
    sendClick: nat -> bool,        // click method k on the send button goes through
    indicator: (nat, nat) -> bool  // after send click k, success indicator i shows up
  )

  /** One tweet node: its scan key, text, link, the detector's answer, the store's availability and the reply controls. */
  datatype TweetView = TweetView(
    key: Attr,
    text: TextRead,
    link: LinkRead,
    detect: DetectReply,
    checkOk: bool,
    markOk: bool,
    ui: ReplyUi
  )

  /**
   * The id read from the link: `None` when reading it raised (also a link
   * without `href`, whose `split` raises), `Some(None)` without a link.
   */
  function LinkId(link: LinkRead): (r: Option<Option<string>>)
    ensures r.None? <==> link.LinkRaised? || link == Href(None)
    ensures link.Href? && link.href.Some? ==> r == Some(Some(ExtractStatusId(link.href.value)))
  {
    match link
    case NoLink => Some(None)
    case LinkRaised => None
    case Href(None) => None
    case Href(Some(h)) => Some(Some(ExtractStatusId(h)))
  }

  // ---------------------------------------------------------------------------
  // Sending the reply

  /** A send button shows up, and some send click is followed by some success indicator. */
  predicate Confirmable(ui: ReplyUi) {
    (exists b :: 0 <= b < TweetButtonCount && ui.tweetButton(b))
    && exists k, i :: 0 <= k < SendClickMethods && 0 <= i < SuccessIndicatorCount && ui.sendClick(k) && ui.indicator(k, i)
  }

  datatype SendResult = NoTweetButton | NotConfirmed | Confirmed(click: nat, indicator: nat)

  /**
   * The send step: the first send-button selector that shows up is used; its
   * click methods are tried in order, and after each one that goes through
   * the success indicators are awaited in order. The first indicator seen
   * confirms the reply; when every click method is used up, the step gives up.
   */
  method SendReply(ui: ReplyUi) returns (r: SendResult)
    ensures r.Confirmed? <==> Confirmable(ui)
    ensures r == NoTweetButton <==> forall b :: 0 <= b < TweetButtonCount ==> !ui.tweetButton(b)
    ensures r.Confirmed? ==> r.click < SendClickMethods && r.indicator < SuccessIndicatorCount
                             && ui.sendClick(r.click) && ui.indicator(r.click, r.indicator)
  {
    var button := FirstWorking(TweetButtonCount, ui.tweetButton);
    if button.None? {
      return NoTweetButton;
    }
    var k := 0;
    while k < SendClickMethods
      invariant 0 <= k <= SendClickMethods
      invariant forall k', i :: 0 <= k' < k && 0 <= i < SuccessIndicatorCount ==> !(ui.sendClick(k') && ui.indicator(k', i))
    {
      if ui.sendClick(k) {
        var i := 0;
        while i < SuccessIndicatorCount
          invariant 0 <= i <= SuccessIndicatorCount
          invariant forall i' :: 0 <= i' < i ==> !ui.indicator(k, i')
        {
          if ui.indicator(k, i) {
            return Confirmed(k, i);
          }
          i := i + 1;
        }
      }
      k := k + 1;
    }
    return NotConfirmed;
  }

  /** Typing attempt `e` left the response in the reply box. */
  predicate Accepted(e: EntryRead, response: string) {
    e.EntryRead? && Contains(e.text, response)
  }

  datatype EntryResult = NotEntered | Entered(attempt: nat, sent: SendResult)

  /**
   * The typing loop: up to three attempts; the send step runs only after an
   * attempt whose read-back text contains the response, and then the loop
   * ends whatever the send step gave.
   */
  method EnterText(response: string, ui: ReplyUi) returns (r: EntryResult)
    ensures r.Entered? ==> r.attempt < TextEntryAttempts && Accepted(ui.entry(r.attempt), response)
                           && (forall a :: 0 <= a < r.attempt ==> !Accepted(ui.entry(a), response))
                           && (r.sent.Confirmed? <==> Confirmable(ui))
                           && (r.sent == NoTweetButton <==> forall b :: 0 <= b < TweetButtonCount ==> !ui.tweetButton(b))
    ensures r.NotEntered? <==> forall a :: 0 <= a < TextEntryAttempts ==> !Accepted(ui.entry(a), response)
  {
    var attempt := 0;
    while attempt < TextEntryAttempts
      invariant 0 <= attempt <= TextEntryAttempts
      invariant forall a :: 0 <= a < attempt ==> !Accepted(ui.entry(a), response)
    {
      var read := ui.entry(attempt);
      if read.EntryRead? && Contains(read.text, response) {
        var sent := SendReply(ui);
        return Entered(attempt, sent);
      }
      attempt := attempt + 1;
    }
    return NotEntered;
  }

  /** Where a reply that was not confirmed stopped. */
  datatype Stage = BoxNeverOpened | NoResponse | TextNotEntered | NoSendButton | NotSent

  datatype ReplyStage = NoReplyButton | ScrollFailed | Stopped(stage: Stage) | Sent

  /** The response the chat service's answer gives, if it is one the flow will type. */
  function Response(fs: seq<Finding>, text: string, ui: ReplyUi): Option<string> {
    var gen := GenerateTwitterResponse(fs, text, ui.chat).value;
    if gen.Some? && gen.value != "" then gen else None
  }

  /** With `response` in hand: an attempt that takes it, and a confirmed send. */
  predicate TypedAndSent(response: string, ui: ReplyUi) {
    (exists a :: 0 <= a < TextEntryAttempts && Accepted(ui.entry(a), response))
    && Confirmable(ui)
  }

  /** Once the reply box is open: a response to type, an attempt that takes it, and a confirmed send. */
  predicate ComposeGoesThrough(fs: seq<Finding>, text: string, ui: ReplyUi) {
    Response(fs, text, ui).Some? && TypedAndSent(Response(fs, text, ui).value, ui)
  }

  /** Everything a confirmed reply needs, in the order the flow meets it. */
  predicate ReplyGoesThrough(fs: seq<Finding>, text: string, ui: ReplyUi) {
    (exists k :: 0 <= k < ReplySelectorCount && ui.replyButton(k))
    && ui.buttonScrolls
    && (exists k :: 0 <= k < ReplyClickMethods && ui.boxOpens(k))
    && ComposeGoesThrough(fs, text, ui)
  }

  /**
   * Where typing and sending `response` stops, the checks coming in the
   * order the flow meets them: an attempt that takes it, a send button, and
   * a send click followed by a success indicator.
   */
  function SendStageOf(response: string, ui: ReplyUi): ReplyStage {
    if forall a :: 0 <= a < TextEntryAttempts ==> !Accepted(ui.entry(a), response) then Stopped(TextNotEntered)
    else if forall b :: 0 <= b < TweetButtonCount ==> !ui.tweetButton(b) then Stopped(NoSendButton)
    else if !Confirmable(ui) then Stopped(NotSent)
    else Sent
  }

  /** Where a reply stops once the box is open: no response to type, or a stage of sending it. */
  function ComposeStageOf(fs: seq<Finding>, text: string, ui: ReplyUi): ReplyStage {
    var response := Response(fs, text, ui);
    if response.None? then Stopped(NoResponse) else SendStageOf(response.value, ui)
  }

  /** Where a reply stops: no reply button, a failed scroll, a box that never opens, or a stage of composing. */
  function ReplyStageOf(fs: seq<Finding>, text: string, ui: ReplyUi): ReplyStage {
    if forall k :: 0 <= k < ReplySelectorCount ==> !ui.replyButton(k) then NoReplyButton
    else if !ui.buttonScrolls then ScrollFailed
    else if forall k :: 0 <= k < ReplyClickMethods ==> !ui.boxOpens(k) then Stopped(BoxNeverOpened)
    else ComposeStageOf(fs, text, ui)
  }

  /** Typing and sending ends in a sent reply exactly when `TypedAndSent` holds. */
  lemma SendStageSent(response: string, ui: ReplyUi)
    ensures SendStageOf(response, ui) == Sent <==> TypedAndSent(response, ui)
  {
  }

  /** Composing ends in a sent reply exactly when everything `ComposeGoesThrough` lists happens. */
  lemma ComposeStageSent(fs: seq<Finding>, text: string, ui: ReplyUi)
    ensures ComposeStageOf(fs, text, ui) == Sent <==> ComposeGoesThrough(fs, text, ui)
  {
    var response := Response(fs, text, ui);
    if response.Some? {
      SendStageSent(response.value, ui);
    }
  }

  /** The reply goes out exactly when everything `ReplyGoesThrough` lists happens. */
  lemma ReplyStageSent(fs: seq<Finding>, text: string, ui: ReplyUi)
    ensures ReplyStageOf(fs, text, ui) == Sent <==> ReplyGoesThrough(fs, text, ui)
  {
    ComposeStageSent(fs, text, ui);
  }

  /**
   * With the reply box open: the reply is generated (one chat request), and
   * when there is one, typed and sent.
   */
  method Compose(fs: seq<Finding>, text: string, ui: ReplyUi) returns (r: ReplyStage, calls: seq<ChatCall>)
    requires fs != []
    ensures r == ComposeStageOf(fs, text, ui)
    ensures r == Sent <==> ComposeGoesThrough(fs, text, ui)
    ensures (r.Stopped? && r.stage != BoxNeverOpened) || r == Sent
    ensures calls == [TweetCall(TweetDescriptions(fs), text)]
  {
    var gen := GenerateTwitterResponse(fs, text, ui.chat);
    calls := gen.calls;
    if gen.value.None? || gen.value.value == "" {
      return Stopped(NoResponse), calls;
    }
    var entry := EnterText(gen.value.value, ui);
    assert Response(fs, text, ui) == gen.value;
    match entry
    case NotEntered =>
      r := Stopped(TextNotEntered);
    case Entered(_, NoTweetButton) =>
      r := Stopped(NoSendButton);
    case Entered(_, NotConfirmed) =>
      r := Stopped(NotSent);
    case Entered(_, Confirmed(_, _)) =>
      r := Sent;
  }

  /**
   * Replying to a tweet with findings: find the reply button, scroll to it,
   * click until the reply box opens, then compose. `calls` are the chat
   * requests sent: none unless the box opened.
   */
  method Reply(fs: seq<Finding>, text: string, ui: ReplyUi) returns (r: ReplyStage, calls: seq<ChatCall>)
    requires fs != []
    ensures r == ReplyStageOf(fs, text, ui)
    ensures r == Sent <==> ReplyGoesThrough(fs, text, ui)
    ensures r == NoReplyButton <==> forall k :: 0 <= k < ReplySelectorCount ==> !ui.replyButton(k)
    ensures calls != [] ==> calls == [TweetCall(TweetDescriptions(fs), text)]
    ensures calls == [] <==> r == NoReplyButton || r == ScrollFailed || r == Stopped(BoxNeverOpened)
  {
    var button := FirstWorking(ReplySelectorCount, ui.replyButton);
    if button.None? {
      return NoReplyButton, [];
    }
    assert ui.replyButton(button.value) && button.value < ReplySelectorCount;
    if !ui.buttonScrolls {
      return ScrollFailed, [];
    }
    var box := FirstWorking(ReplyClickMethods, ui.boxOpens);
    if box.None? {
      return Stopped(BoxNeverOpened), [];
    }
    assert ui.boxOpens(box.value) && box.value < ReplyClickMethods;
    r, calls := Compose(fs, text, ui);
  }

  // ---------------------------------------------------------------------------
  // One tweet

  datatype TweetOutcome =
    | NoText                              // no text element: nothing to check
    | TextFailed                          // reading the text raised
    | IdFailed                            // reading the status link raised
    | AlreadyProcessed(storedId: string)  // the store has the id: skipped
    | NoFindings(id: Option<string>)      // nothing found: marked when it has an id
    | NoReplyButtonFound                  // findings, but no reply button
    | ReplyError                          // scrolling to the reply button raised
    | Abandoned(stage: Stage)             // findings, reply not confirmed: not marked
    | Replied(id: Option<string>)         // reply confirmed: marked when it has an id
  {
    /** The outcomes after which the tweet's id is written to the store. */
    predicate Marks() {
      (NoFindings? || Replied?) && Truthy(id)
    }
  }

  /** The store has the tweet's id: text and id were read, the id is not empty, and the lookup finds it. */
  predicate Skipped(rows: map<string, Row>, tableExists: bool, view: TweetView) {
    view.text.Text? && LinkId(view.link).Some? && Truthy(LinkId(view.link).value)
    && view.checkOk && tableExists && LinkId(view.link).value.value in rows
  }

  /** Text and id were read and the tweet is not skipped: it goes to the detector. */
  predicate Detected(rows: map<string, Row>, tableExists: bool, view: TweetView) {
    view.text.Text? && LinkId(view.link).Some? && !Skipped(rows, tableExists, view)
  }

  /** What the detector finds in the tweet's text. */
  function Findings(view: TweetView): seq<Finding>
    requires view.text.Text?
  {
    DetectFallacies(view.text.text, view.detect).value
  }

  /**
   * What happens to one tweet, the store holding `rows`: the text is read,
   * then the id, then the store is asked, then the detector, then the reply
   * is tried; the first of these that stops the flow names the outcome.
   */
  function TweetOutcomeOf(rows: map<string, Row>, tableExists: bool, view: TweetView): TweetOutcome {
    if view.text.NoTextElement? then NoText
    else if view.text.TextRaised? then TextFailed
    else if LinkId(view.link).None? then IdFailed
    else if Skipped(rows, tableExists, view) then AlreadyProcessed(LinkId(view.link).value.value)
    else DetectedOutcome(view)
  }

  /** What happens to a tweet that reaches the detector: marked without findings, else replied to. */
  function DetectedOutcome(view: TweetView): TweetOutcome
    requires view.text.Text? && LinkId(view.link).Some?
  {
    if Findings(view) == [] then NoFindings(LinkId(view.link).value)
    else match ReplyStageOf(Findings(view), view.text.text, view.ui)
      case NoReplyButton => NoReplyButtonFound
      case ScrollFailed => ReplyError
      case Stopped(stage) => Abandoned(stage)
      case Sent => Replied(LinkId(view.link).value)
  }

  /** The store after one tweet: a marking outcome inserts the id when the insert goes through. */
  function RowsAfter(rows: map<string, Row>, tableExists: bool, view: TweetView, outcome: TweetOutcome,
                     account: string, now: int): map<string, Row>
  {
    if outcome.Marks() && view.markOk && tableExists then Inserted(rows, outcome.id.value, Row(now, account)) else rows
  }

  /**
   * The outcome of a tweet, case by case: each early stop happens exactly
   * when its read fails, a stored id is skipped exactly when the lookup
   * finds it, a tweet without findings is marked, and a tweet with findings
   * is replied to exactly when the whole reply flow goes through. The id is
   * written only for a tweet without findings or after a confirmed reply.
   */
  lemma TweetOutcomeCases(rows: map<string, Row>, tableExists: bool, view: TweetView)
    ensures TweetOutcomeOf(rows, tableExists, view) == NoText <==> view.text.NoTextElement?
    ensures TweetOutcomeOf(rows, tableExists, view) == TextFailed <==> view.text.TextRaised?
    ensures TweetOutcomeOf(rows, tableExists, view) == IdFailed <==> view.text.Text? && LinkId(view.link).None?
    ensures TweetOutcomeOf(rows, tableExists, view).AlreadyProcessed? <==> Skipped(rows, tableExists, view)
    ensures TweetOutcomeOf(rows, tableExists, view).AlreadyProcessed? ==>
              view.checkOk && tableExists && TweetOutcomeOf(rows, tableExists, view).storedId in rows
  {
  }

  /**
   * A tweet that reaches the detector: without findings it is marked as
   * such; with findings it is replied to exactly when the reply goes
   * through; and it is marked exactly in those two cases, when its id is
   * not empty.
   */
  lemma TweetOutcomeDetected(rows: map<string, Row>, tableExists: bool, view: TweetView)
    ensures Detected(rows, tableExists, view) && Findings(view) == [] ==>
              TweetOutcomeOf(rows, tableExists, view) == NoFindings(LinkId(view.link).value)
    ensures Detected(rows, tableExists, view) && Findings(view) != [] ==>
              (TweetOutcomeOf(rows, tableExists, view) == Replied(LinkId(view.link).value)
               <==> ReplyGoesThrough(Findings(view), view.text.text, view.ui))
    ensures TweetOutcomeOf(rows, tableExists, view).Marks() <==>
              Detected(rows, tableExists, view) && Truthy(LinkId(view.link).value)
              && (Findings(view) == [] || ReplyGoesThrough(Findings(view), view.text.text, view.ui))
  {
    if Detected(rows, tableExists, view) && Findings(view) != [] {
      ReplyStageSent(Findings(view), view.text.text, view.ui);
    }
  }

  /**
   * The per-tweet body of `monitor_account`: the outcome and the store are
   * those `TweetOutcomeOf` and `RowsAfter` give. The chat requests sent are
   * none for a tweet that never reaches the detector, and the detection
   * request first for one that does; a confirmed reply sent the reply
   * request after it.
   */
  method HandleTweet(db: DBManager, view: TweetView, account: string, now: int)
    returns (outcome: TweetOutcome, calls: seq<ChatCall>)
    requires db.Valid()
    modifies db
    ensures db.Valid() && db.tableExists == old(db.tableExists)
    ensures outcome == TweetOutcomeOf(old(db.rows), db.tableExists, view)
    ensures db.rows == RowsAfter(old(db.rows), db.tableExists, view, outcome, account, now)
    ensures calls == [] <==> !Detected(old(db.rows), db.tableExists, view)
    ensures Detected(old(db.rows), db.tableExists, view) ==> calls[0] == DetectCall(view.text.text)
    ensures outcome.Replied? ==>
              calls == [DetectCall(view.text.text), TweetCall(TweetDescriptions(Findings(view)), view.text.text)]
  {
    calls := [];
    if !view.text.Text? {
      outcome := if view.text.NoTextElement? then NoText else TextFailed;
      return;
    }
    var linkId := LinkId(view.link);
    if linkId.None? {
      return IdFailed, [];
    }
    var id := linkId.value;
    if Truthy(id) {
      var processed := db.IsTweetProcessed(id.value, view.checkOk);
      if processed {
        return AlreadyProcessed(id.value), [];
      }
    }
    outcome, calls := DetectAndReply(db, view, account, now);
  }

  /**
   * The rest of the per-tweet body once the tweet reaches the detector:
   * mark it when nothing is found, otherwise reply and mark it once the
   * reply is confirmed.
   */
  method DetectAndReply(db: DBManager, view: TweetView, account: string, now: int)
    returns (outcome: TweetOutcome, calls: seq<ChatCall>)
    requires db.Valid() && view.text.Text? && LinkId(view.link).Some?
    modifies db
    ensures db.Valid() && db.tableExists == old(db.tableExists)
    ensures outcome == DetectedOutcome(view)
    ensures db.rows == RowsAfter(old(db.rows), db.tableExists, view, outcome, account, now)
    ensures calls != [] && calls[0] == DetectCall(view.text.text)
    ensures outcome.Replied? ==>
              calls == [DetectCall(view.text.text), TweetCall(TweetDescriptions(Findings(view)), view.text.text)]
  {
    var text := view.text.text;
    var id := LinkId(view.link).value;
    var detected := DetectFallacies(text, view.detect);
    calls := detected.calls;
    var fs := detected.value;
    assert fs == Findings(view);
    if fs == [] {
      outcome := NoFindings(id);
    } else {
      var stage, replyCalls := Reply(fs, text, view.ui);
      calls := calls + replyCalls;
      outcome := match stage
        case NoReplyButton => NoReplyButtonFound
        case ScrollFailed => ReplyError
        case Stopped(s) => Abandoned(s)
        case Sent => Replied(id);
    }
    // Both places that mark (no findings, confirmed reply) come last on their path.
    if outcome.Marks() {
      db.MarkTweetProcessed(outcome.id.value, account, now, view.markOk);
    }
  }
}
