/**
 * The Selenium monitor (bot/twitter_monitor.py, `TwitterMonitor`): the
 * session flags, the `last_check` cooldown map, the selector fallbacks that
 * find tweets and their text, the 0.8 confidence gate and the caps of three
 * tweets per account and five mentions. The browser is scripted: each
 * lookup's answer is part of the page value handed in, and each clock
 * reading is a number of seconds carried by the element it is taken for.
 */
module TwitterMonitorSelenium {
  import opened Wrappers
  import opened FallacyDetector
  import Strings

  /** `cooldown_period`: one hour, in seconds. */
  const CooldownSeconds: int := 3600

  /** `confidence_threshold`. */
  const ConfidenceThreshold: real := 0.8

  /** Tweets of a profile handled per visit. */
  const MaxTweets: nat := 3

  /** Mentions handled per visit to the notifications page. */
  const MaxMentions: nat := 5

  /** Where `monitor_account` looks for tweets, in order. */
  const ContainerSelectors: seq<string> := [
    "article[data-testid=\"tweet\"]",
    "div[data-testid=\"cellInnerDiv\"]",
    "div[role=\"article\"]"
  ]

  /** Where `monitor_account` looks for a tweet's text, in order. */
  const TextSelectors: seq<string> := [
    "div[data-testid=\"tweetText\"]",
    "div[lang]",
    "div[dir=\"auto\"]"
  ]

  // ---------------------------------------------------------------------------
  // First non-empty selector

  /** What `find_elements` gave for one selector: it raised, or the elements it found. */
  datatype ElementsRead<T> = LookupRaised | Elements(found: seq<T>)

  predicate NonEmpty<T>(read: ElementsRead<T>) {
    read.Elements? && |read.found| > 0
  }

  /**
   * The elements of the first selector, from `answers[i]` on, that found
   * any; `[]` when none did (`FirstFoundIsFirst`).
   */
  function FirstFound<T(==)>(answers: seq<ElementsRead<T>>, i: nat): seq<T>
    requires i <= |answers|
    decreases |answers| - i
  {
    if i == |answers| then []
    else if NonEmpty(answers[i]) then answers[i].found
    else FirstFound(answers, i + 1)
  }

  /** `FirstFound` answers the elements of the first selector that found any, and `[]` only when none did. */
  lemma {:induction false} FirstFoundIsFirst<T>(answers: seq<ElementsRead<T>>, i: nat)
    requires i <= |answers|
    ensures var r := FirstFound(answers, i);
            (r == [] ==> forall k :: i <= k < |answers| ==> !NonEmpty(answers[k]))
            && (r != [] ==> exists k :: i <= k < |answers| && NonEmpty(answers[k]) && answers[k].found == r
                                        && forall j :: i <= j < k ==> !NonEmpty(answers[j]))
    decreases |answers| - i
  {
    if i < |answers| && !NonEmpty(answers[i]) {
      FirstFoundIsFirst(answers, i + 1);
    }
  }

  /**
   * The selector loops of `monitor_account`: tries each selector's answer in
   * order, passes over one that raised or found nothing, and stops at the
   * first that found elements.
   */
  method FirstNonEmpty<T(==)>(answers: seq<ElementsRead<T>>) returns (found: seq<T>)
    ensures found == FirstFound(answers, 0)
  {
    var i := 0;
    while i < |answers|
      invariant 0 <= i <= |answers|
      invariant FirstFound(answers, 0) == FirstFound(answers, i)
    {
      if NonEmpty(answers[i]) {
        return answers[i].found;
      }
      i := i + 1;
    }
    return [];
  }

  // ---------------------------------------------------------------------------
  // The confidence gate

  /** `max(f['confidence'] for f in fallacies)`. */
  function MaxConfidence(fs: seq<Finding>): (m: real)
    requires fs != []
    ensures forall i :: 0 <= i < |fs| ==> fs[i].confidence <= m
    ensures exists i :: 0 <= i < |fs| && fs[i].confidence == m
  {
    if |fs| == 1 then fs[0].confidence
    else
      var rest := MaxConfidence(fs[1..]);
      assert forall i :: 1 <= i < |fs| ==> fs[i] == fs[1..][i - 1];
      if fs[0].confidence >= rest then fs[0].confidence else rest
  }

  /** `fallacies and max(...) >= confidence_threshold`. */
  predicate PassesGate(fs: seq<Finding>) {
    fs != [] && MaxConfidence(fs) >= ConfidenceThreshold
  }

  /** The gate opens exactly when some finding is at least 0.8 confident; the bound is inclusive. */
  lemma GateOpensOnOneConfident(fs: seq<Finding>)
    ensures PassesGate(fs) <==> exists i :: 0 <= i < |fs| && fs[i].confidence >= ConfidenceThreshold
  {
    if exists i :: 0 <= i < |fs| && fs[i].confidence >= ConfidenceThreshold {
      var i :| 0 <= i < |fs| && fs[i].confidence >= ConfidenceThreshold;
      assert fs[i].confidence <= MaxConfidence(fs);
    }
  }

  // ---------------------------------------------------------------------------
  // Tweet elements and the cooldown

  /** How posting a reply goes: each step either goes through or raises. */
  datatype PostUi = PostUi(
    replyButton: bool,   // `div[aria-label="Reply"]` is found and clicked
    replyBox: bool,      // the reply box shows up within its wait and takes the text
    tweetButton: bool,   // the send button is found and clicked
    goesStale: bool      // the reply box goes away within its wait
  )

  /** The reply went out: every step of `_post_response` up to the staleness wait went through. */
  predicate PostGoesThrough(ui: PostUi) {
    ui.replyButton && ui.replyBox && ui.tweetButton && ui.goesStale
  }

  /** One tweet element as the page answers for it. */
  datatype TweetElement = TweetElement(
    textReads: seq<ElementsRead<string>>,  // the texts each text selector found, in selector order
    hasTime: bool,                         // a `time` element is found
    link: Option<Option<string>>,          // the status link: missing, or its `href` (which may be absent)
    detect: DetectReply,
    chat: ChatReply,
    post: PostUi,
    checkedAt: int,                        // the clock when `_should_analyze_tweet` runs
    postedAt: int                          // the clock when `_post_response` records the reply
  )

  /** The text `monitor_account` reads: the first element of the first text selector that found any. */
  function ExtractedText(el: TweetElement): Option<string> {
    var found := FirstFound(el.textReads, 0);
    if found == [] then None else Some(found[0])
  }

  /**
   * `_should_analyze_tweet`: false when the time element or the status link
   * is missing, or when the link was recorded less than the cooldown ago;
   * true when it was never recorded or the whole cooldown has passed.
   */
  function ShouldAnalyzeTweet(lastCheck: map<Option<string>, int>, el: TweetElement, now: int): (b: bool)
    ensures b ==> el.hasTime && el.link.Some?
    ensures el.hasTime && el.link.Some? && el.link.value !in lastCheck ==> b
    ensures el.hasTime && el.link.Some? && el.link.value in lastCheck ==>
              (b <==> now - lastCheck[el.link.value] >= CooldownSeconds)
  {
    if !el.hasTime || el.link.None? then false
    else
      var url := el.link.value;
      !(url in lastCheck && now - lastCheck[url] < CooldownSeconds)
  }

  /**
   * After a reply to a tweet is recorded at `postedAt`, the tweet is looked at
   * again exactly when a full hour has passed; other links are unaffected.
   */
  lemma CooldownAfterPost(lastCheck: map<Option<string>, int>, el: TweetElement, other: TweetElement,
                          postedAt: int, now: int)
    requires el.hasTime && el.link.Some?
    requires other.link != el.link
    ensures ShouldAnalyzeTweet(lastCheck[el.link.value := postedAt], el, now) <==> now - postedAt >= CooldownSeconds
    ensures ShouldAnalyzeTweet(lastCheck[el.link.value := postedAt], other, now) == ShouldAnalyzeTweet(lastCheck, other, now)
  {
  }

  /** What handling one tweet or mention came to. */
  datatype TweetStep =
    | NoText                          // no text was found, or it was empty
    | TextRaised                      // a mention without a text element
    | NotAnalyzed                     // `_should_analyze_tweet` said no
    | NoFindings
    | BelowThreshold
    | NoResponse                      // the reply generator gave nothing to post
    | Posted(response: string, sent: bool)

  /** How a visit to a page ended. */
  datatype Visit =
    | StartFailed                     // `start` raised: the driver or the login failed
    | NotLoaded                       // navigation or the wait for tweets failed
    | NoTweetsFound
    | Visited(steps: seq<TweetStep>)

  /** `last_check` after a step: a sent reply stamps its tweet's link with the posting time. */
  function Stamped(lastCheck: map<Option<string>, int>, el: TweetElement, step: TweetStep): map<Option<string>, int> {
    if step.Posted? && step.sent && el.link.Some? then lastCheck[el.link.value := el.postedAt] else lastCheck
  }

  /** Every change to `last_check` is the link of a sent reply, stamped with its clock reading. */
  predicate ChangesFromSent(lastCheck: map<Option<string>, int>, before: map<Option<string>, int>,
                            tweets: seq<TweetElement>, steps: seq<TweetStep>)
    requires |steps| <= |tweets|
  {
    (forall u :: u in before ==> u in lastCheck)
    && (forall u :: u in lastCheck && (u !in before || lastCheck[u] != before[u]) ==>
          exists i :: 0 <= i < |steps| && steps[i].Posted? && steps[i].sent
                      && tweets[i].link == Some(u) && lastCheck[u] == tweets[i].postedAt)
  }

  /**
   * A posted step is one whose tweet was analysed: its text was read, its
   * findings pass the gate, and what it posted is the non-empty reply the
   * generator gave for them.
   */
  predicate StepAllowed(text: Option<string>, el: TweetElement, step: TweetStep) {
    step.Posted? ==>
      text.Some? && PassesGate(DetectFallacies(text.value, el.detect).value)
      && GenerateTwitterResponse(DetectFallacies(text.value, el.detect).value, text.value, el.chat).value == Some(step.response)
      && step.response != ""
  }

  /** Every posted step passed the gate on the findings of its tweet. */
  predicate PostsPassedGate(texts: seq<Option<string>>, tweets: seq<TweetElement>, steps: seq<TweetStep>)
    requires |steps| <= |tweets| && |steps| <= |texts|
    decreases |steps|
  {
    steps == []
    || (PostsPassedGate(texts, tweets, steps[..|steps| - 1])
        && StepAllowed(texts[|steps| - 1], tweets[|steps| - 1], steps[|steps| - 1]))
  }

  /** Read step by step: each posted step passed the gate on its own tweet. */
  lemma {:induction false} GatePassedAt(texts: seq<Option<string>>, tweets: seq<TweetElement>, steps: seq<TweetStep>, i: nat)
    requires |steps| <= |tweets| && |steps| <= |texts|
    requires PostsPassedGate(texts, tweets, steps) && i < |steps|
    ensures StepAllowed(texts[i], tweets[i], steps[i])
    decreases |steps|
  {
    if i < |steps| - 1 {
      var front := steps[..|steps| - 1];
      GatePassedAt(texts, tweets, front, i);
      assert front[i] == steps[i];
    }
  }

  /** The scripted login page of `login`: each step goes through or raises. */
  datatype LoginScreens = LoginScreens(
    opens: bool, usernameField: bool, nextButton: bool, passwordField: bool, logInButton: bool, profileLink: bool
  )

  predicate LoginGoesThrough(p: LoginScreens) {
    p.opens && p.usernameField && p.nextButton && p.passwordField && p.logInButton && p.profileLink
  }

  /** What `start` meets: whether the browser starts, and the login page. */
  datatype Session = Session(driverOk: bool, login: LoginScreens)

  /** The profile as `monitor_account` finds it. */
  datatype ProfileScript = ProfileScript(
    loads: bool,                                      // navigation and the wait for a tweet went through
    containerReads: seq<ElementsRead<TweetElement>>   // one answer per container selector, in order
  )

  /** The mentions page as `check_notifications` finds it. */
  datatype MentionsScript = MentionsScript(loads: bool, mentions: seq<TweetElement>)

  /** The mention text `check_notifications` answers: the first `tweetText` element; `None` when the lookup raises. */
  function MentionText(el: TweetElement): Option<string> {
    if |el.textReads| > 0 && NonEmpty(el.textReads[0]) then Some(el.textReads[0].found[0]) else None
  }

  // ---------------------------------------------------------------------------
  // The steps the page determines

  /**
   * What the shared body of both loops comes to for a tweet whose text was
   * read as `text`, `last_check` holding `lastCheck`: passed over when not
   * due, then detection, the 0.8 gate, the reply generator and the posting.
   */
  function AnalyzeStep(lastCheck: map<Option<string>, int>, el: TweetElement, text: string): TweetStep {
    if !ShouldAnalyzeTweet(lastCheck, el, el.checkedAt) then NotAnalyzed
    else
      var fs := DetectFallacies(text, el.detect).value;
      if fs == [] then NoFindings
      else if !PassesGate(fs) then BelowThreshold
      else
        var response := GenerateTwitterResponse(fs, text, el.chat).value;
        if !Truthy(response) then NoResponse
        else Posted(response.value, PostGoesThrough(el.post))
  }

  /**
   * A due tweet gets a reply exactly when some finding is at least 0.8
   * confident and the reply request is answered with something other than
   * blanks; the reply is the stripped answer, and it is sent when every
   * posting step goes through. A tweet without findings is marked as such,
   * whatever the reply generator would say.
   */
  lemma AnalyzeStepCases(lastCheck: map<Option<string>, int>, el: TweetElement, text: string)
    ensures var step := AnalyzeStep(lastCheck, el, text);
            var fs := DetectFallacies(text, el.detect).value;
            (step == NotAnalyzed <==> !ShouldAnalyzeTweet(lastCheck, el, el.checkedAt))
            && (step == NoFindings <==> ShouldAnalyzeTweet(lastCheck, el, el.checkedAt) && fs == [])
            && (step.Posted? <==>
                  ShouldAnalyzeTweet(lastCheck, el, el.checkedAt)
                  && (exists i :: 0 <= i < |fs| && fs[i].confidence >= ConfidenceThreshold)
                  && el.chat.Answered? && Strings.StripSpace(el.chat.content) != "")
            && (step.Posted? ==> step.response == Strings.StripSpace(el.chat.content) && step.sent == PostGoesThrough(el.post))
  {
    var fs := DetectFallacies(text, el.detect).value;
    GateOpensOnOneConfident(fs);
  }

  /** Which loop a tweet element is handled by. */
  datatype Feed = Timeline | Mentions

  /** The text a loop reads for an element. */
  function TextOf(feed: Feed, el: TweetElement): Option<string> {
    match feed
    case Timeline => ExtractedText(el)
    case Mentions => MentionText(el)
  }

  /**
   * One element of a loop, `last_check` holding `lastCheck`: a timeline
   * tweet whose text is missing or empty is passed over, a mention without a
   * text element is passed over (an empty mention text is analysed), and
   * anything else is analysed.
   */
  function StepOf(feed: Feed, lastCheck: map<Option<string>, int>, el: TweetElement): TweetStep {
    match feed
    case Timeline =>
      if Truthy(ExtractedText(el)) then AnalyzeStep(lastCheck, el, ExtractedText(el).value) else NoText
    case Mentions =>
      if MentionText(el).Some? then AnalyzeStep(lastCheck, el, MentionText(el).value) else TextRaised
  }

  /** A loop's steps so far and `last_check` after them. */
  datatype Run = Run(steps: seq<TweetStep>, lastCheck: map<Option<string>, int>)

  /** A loop over `els` from `lastCheck`: each element is handled in turn, with `last_check` as the ones before left it. */
  function RunOf(feed: Feed, els: seq<TweetElement>, lastCheck: map<Option<string>, int>): (r: Run)
    ensures |r.steps| == |els|
    decreases |els|
  {
    if els == [] then Run([], lastCheck)
    else
      var before := RunOf(feed, els[..|els| - 1], lastCheck);
      var step := StepOf(feed, before.lastCheck, els[|els| - 1]);
      Run(before.steps + [step], Stamped(before.lastCheck, els[|els| - 1], step))
  }

  /** A loop that has handled the first `i` elements and handles element `i` next has handled the first `i + 1`. */
  lemma RunOfNext(feed: Feed, els: seq<TweetElement>, i: nat, lastCheck: map<Option<string>, int>,
                  steps: seq<TweetStep>, after: map<Option<string>, int>, step: TweetStep)
    requires i < |els|
    requires Run(steps, after) == RunOf(feed, els[..i], lastCheck)
    requires step == StepOf(feed, after, els[i])
    ensures Run(steps + [step], Stamped(after, els[i], step)) == RunOf(feed, els[..i + 1], lastCheck)
  {
    assert els[..i + 1][..i] == els[..i];
  }

  /** Step `i` of a loop is its element handled with `last_check` as the elements before it left it. */
  lemma {:induction false} RunOfSteps(feed: Feed, els: seq<TweetElement>, lastCheck: map<Option<string>, int>, i: nat)
    requires i < |els|
    ensures RunOf(feed, els, lastCheck).steps[i] == StepOf(feed, RunOf(feed, els[..i], lastCheck).lastCheck, els[i])
    decreases |els|
  {
    var front := els[..|els| - 1];
    var before := RunOf(feed, front, lastCheck);
    var step := StepOf(feed, before.lastCheck, els[|els| - 1]);
    assert RunOf(feed, els, lastCheck).steps == before.steps + [step];
    if i < |els| - 1 {
      RunOfSteps(feed, front, lastCheck, i);
      assert front[..i] == els[..i];
      assert front[i] == els[i];
      assert RunOf(feed, els, lastCheck).steps[i] == before.steps[i];
    } else {
      assert front == els[..i];
    }
  }

  /** A loop only stamps the links of its own elements: every other entry of `last_check` is left as it was. */
  lemma {:induction false} RunOfKeepsOtherLinks(feed: Feed, els: seq<TweetElement>, lastCheck: map<Option<string>, int>,
                                                u: Option<string>)
    requires forall j :: 0 <= j < |els| ==> els[j].link != Some(u)
    ensures u in RunOf(feed, els, lastCheck).lastCheck <==> u in lastCheck
    ensures u in lastCheck ==> RunOf(feed, els, lastCheck).lastCheck[u] == lastCheck[u]
    decreases |els|
  {
    if els != [] {
      RunOfKeepsOtherLinks(feed, els[..|els| - 1], lastCheck, u);
    }
  }

  /** Whether a tweet is due depends on `last_check` only at its own link. */
  lemma StepOfOwnLink(feed: Feed, lastCheck: map<Option<string>, int>, other: map<Option<string>, int>, el: TweetElement)
    requires el.link.Some? ==> (el.link.value in lastCheck <==> el.link.value in other)
    requires el.link.Some? && el.link.value in lastCheck ==> lastCheck[el.link.value] == other[el.link.value]
    ensures StepOf(feed, lastCheck, el) == StepOf(feed, other, el)
  {
    assert ShouldAnalyzeTweet(lastCheck, el, el.checkedAt) == ShouldAnalyzeTweet(other, el, el.checkedAt);
  }

  /**
   * An element whose status link no earlier element of the loop shares is
   * handled exactly as it would be on its own, against `last_check` as it
   * stood before the loop: in particular a due tweet with text is analysed.
   */
  lemma OwnLinkHandledAlone(feed: Feed, els: seq<TweetElement>, lastCheck: map<Option<string>, int>, i: nat)
    requires i < |els|
    requires forall j :: 0 <= j < i ==> els[j].link != els[i].link
    ensures RunOf(feed, els, lastCheck).steps[i] == StepOf(feed, lastCheck, els[i])
  {
    RunOfSteps(feed, els, lastCheck, i);
    var mid := RunOf(feed, els[..i], lastCheck).lastCheck;
    if els[i].link.Some? {
      var u := els[i].link.value;
      assert forall j :: 0 <= j < |els[..i]| ==> els[..i][j].link != Some(u) by {
        forall j | 0 <= j < |els[..i]| ensures els[..i][j].link != Some(u) {
          assert els[..i][j] == els[j];
        }
      }
      RunOfKeepsOtherLinks(feed, els[..i], lastCheck, u);
    }
    StepOfOwnLink(feed, mid, lastCheck, els[i]);
  }

  /**
   * The elements a loop passes over are exactly the ones without text: a
   * timeline tweet whose text is missing or empty, a mention without a text
   * element.
   */
  lemma {:induction false} RunOfPassedOver(feed: Feed, els: seq<TweetElement>, n: nat, lastCheck: map<Option<string>, int>,
                                           steps: seq<TweetStep>, after: map<Option<string>, int>)
    requires n <= |els| && Run(steps, after) == RunOf(feed, els[..n], lastCheck)
    ensures forall i :: 0 <= i < |steps| ==>
              (steps[i] == NoText <==> feed == Timeline && !Truthy(Texts(feed, els)[i]))
              && (steps[i] == TextRaised <==> feed == Mentions && Texts(feed, els)[i].None?)
    decreases n
  {
    if n > 0 {
      assert els[..n][..n - 1] == els[..n - 1];
      var before := RunOf(feed, els[..n - 1], lastCheck);
      RunOfPassedOver(feed, els, n - 1, lastCheck, before.steps, before.lastCheck);
      StepOfPassedOver(feed, before.lastCheck, els[n - 1]);
      forall i | 0 <= i < n
        ensures (steps[i] == NoText <==> feed == Timeline && !Truthy(Texts(feed, els)[i]))
                && (steps[i] == TextRaised <==> feed == Mentions && Texts(feed, els)[i].None?)
      {
        if i < n - 1 {
          assert steps[i] == before.steps[i];
        }
      }
    }
  }

  /** One element is passed over exactly when its text is missing (or, on the timeline, empty). */
  lemma StepOfPassedOver(feed: Feed, lastCheck: map<Option<string>, int>, el: TweetElement)
    ensures StepOf(feed, lastCheck, el) == NoText <==> feed == Timeline && !Truthy(TextOf(feed, el))
    ensures StepOf(feed, lastCheck, el) == TextRaised <==> feed == Mentions && TextOf(feed, el).None?
  {
  }

  /** Every reply a loop posts passed the gate on the findings of its own element. */
  lemma {:induction false} RunOfGated(feed: Feed, els: seq<TweetElement>, n: nat, lastCheck: map<Option<string>, int>,
                                      steps: seq<TweetStep>, after: map<Option<string>, int>)
    requires n <= |els| && Run(steps, after) == RunOf(feed, els[..n], lastCheck)
    ensures PostsPassedGate(Texts(feed, els), els, steps)
    decreases n
  {
    if n > 0 {
      assert els[..n][..n - 1] == els[..n - 1];
      var before := RunOf(feed, els[..n - 1], lastCheck);
      RunOfGated(feed, els, n - 1, lastCheck, before.steps, before.lastCheck);
      StepOfAllowed(feed, before.lastCheck, els[n - 1]);
      GatePassedAppend(Texts(feed, els), els, before.steps, StepOf(feed, before.lastCheck, els[n - 1]));
    }
  }

  /** Every change a loop makes to `last_check` is the link of a reply it sent, stamped with its posting time. */
  lemma {:induction false} RunOfStamps(feed: Feed, els: seq<TweetElement>, n: nat, lastCheck: map<Option<string>, int>,
                                       steps: seq<TweetStep>, after: map<Option<string>, int>)
    requires n <= |els| && Run(steps, after) == RunOf(feed, els[..n], lastCheck)
    ensures ChangesFromSent(after, lastCheck, els, steps)
    decreases n
  {
    if n > 0 {
      assert els[..n][..n - 1] == els[..n - 1];
      var before := RunOf(feed, els[..n - 1], lastCheck);
      RunOfStamps(feed, els, n - 1, lastCheck, before.steps, before.lastCheck);
      SentStampsLink(after, before.lastCheck, lastCheck, els, before.steps, StepOf(feed, before.lastCheck, els[n - 1]));
    }
  }

  /** A posted step is one whose element was analysed and whose findings passed the gate. */
  lemma StepOfAllowed(feed: Feed, lastCheck: map<Option<string>, int>, el: TweetElement)
    ensures StepAllowed(TextOf(feed, el), el, StepOf(feed, lastCheck, el))
  {
  }

  class TwitterMonitor {
    /** Whether a browser driver is open. */
    var driverOpen: bool
    var isLoggedIn: bool
    /** When a reply was last posted, by status link. */
    var lastCheck: map<Option<string>, int>
    const twitterUsername: string
    const twitterPassword: string

    /** A session is only logged in while its browser is open. */
    predicate Valid()
      reads this
    {
      isLoggedIn ==> driverOpen
    }

    /** `__init__` past its credential check: no driver, not logged in, nothing recorded. */
    constructor(user: string, password: string)
      requires user != "" && password != ""
      ensures Valid() && !driverOpen && !isLoggedIn && lastCheck == map[]
      ensures twitterUsername == user && twitterPassword == password
    {
      driverOpen, isLoggedIn, lastCheck := false, false, map[];
      twitterUsername, twitterPassword := user, password;
    }

    /** `cleanup`: quits an open driver and forgets the login; without a driver it does nothing. */
    method Cleanup()
      requires Valid()
      modifies this
      ensures Valid() && !driverOpen && !isLoggedIn
      ensures lastCheck == old(lastCheck)
    {
      if driverOpen {
        driverOpen := false;
        isLoggedIn := false;
      }
    }

    /** `login`: sets the flag only when every step of the login page goes through; a failing step raises. */
    method Login(page: LoginScreens) returns (ok: bool)
      requires Valid() && driverOpen
      modifies this
      ensures Valid() && driverOpen && lastCheck == old(lastCheck)
      ensures ok <==> LoginGoesThrough(page)
      ensures isLoggedIn == (old(isLoggedIn) || ok)
    {
      if !page.opens || !page.usernameField || !page.nextButton {
        return false;
      }
      if !page.passwordField || !page.logInButton || !page.profileLink {
        return false;
      }
      isLoggedIn := true;
      return true;
    }

    /** `start`: opens a driver and logs in; on any failure it cleans up and raises. */
    method Start(session: Session) returns (ok: bool)
      requires Valid()
      modifies this
      ensures Valid() && lastCheck == old(lastCheck)
      ensures ok <==> session.driverOk && LoginGoesThrough(session.login)
      ensures ok ==> driverOpen && isLoggedIn
      ensures !ok ==> !driverOpen && !isLoggedIn
    {
      if !session.driverOk {
        Cleanup();
        return false;
      }
      driverOpen := true;
      ok := Login(session.login);
      if !ok {
        Cleanup();
      }
    }

    /**
     * `_post_response`: clicks reply, types the response, sends it and waits
     * for the box to go; only then, and only when the status link is found,
     * is the link stamped in `last_check`. Any failing step is logged and
     * leaves `last_check` as it was.
     */
    method PostResponse(el: TweetElement, response: string) returns (sent: bool)
      modifies this
      ensures driverOpen == old(driverOpen) && isLoggedIn == old(isLoggedIn)
      ensures sent <==> PostGoesThrough(el.post)
      ensures lastCheck == if sent && el.link.Some? then old(lastCheck)[el.link.value := el.postedAt] else old(lastCheck)
    {
      if !el.post.replyButton || !el.post.replyBox {
        return false;
      }
      if !el.post.tweetButton || !el.post.goesStale {
        return false;
      }
      if el.link.Some? {
        lastCheck := lastCheck[el.link.value := el.postedAt];
      }
      return true;
    }

    /**
     * The body both loops share once a tweet's text is read: the cooldown
     * check, detection, the confidence gate, the reply and its posting.
     */
    method Analyze(el: TweetElement, text: string) returns (step: TweetStep)
      modifies this
      ensures driverOpen == old(driverOpen) && isLoggedIn == old(isLoggedIn)
      ensures step == NotAnalyzed <==> !ShouldAnalyzeTweet(old(lastCheck), el, el.checkedAt)
      ensures step == NoFindings ==> DetectFallacies(text, el.detect).value == []
      ensures step == BelowThreshold ==> var fs := DetectFallacies(text, el.detect).value;
                                         fs != [] && !PassesGate(fs)
      ensures step.Posted? ==> ShouldAnalyzeTweet(old(lastCheck), el, el.checkedAt)
                               && PassesGate(DetectFallacies(text, el.detect).value)
                               && GenerateTwitterResponse(DetectFallacies(text, el.detect).value, text, el.chat).value
                                  == Some(step.response)
                               && step.response != ""
                               && step.sent == PostGoesThrough(el.post)
      ensures step == NoResponse ==> !Truthy(
                GenerateTwitterResponse(DetectFallacies(text, el.detect).value, text, el.chat).value)
      ensures ShouldAnalyzeTweet(old(lastCheck), el, el.checkedAt) && DetectFallacies(text, el.detect).value == [] ==>
                step == NoFindings
      ensures step.TextRaised? == false && step.NoText? == false
      ensures step == AnalyzeStep(old(lastCheck), el, text)
      ensures lastCheck == Stamped(old(lastCheck), el, step)
    {
      if !ShouldAnalyzeTweet(lastCheck, el, el.checkedAt) {
        return NotAnalyzed;
      }
      var fs := DetectFallacies(text, el.detect).value;
      if fs == [] {
        return NoFindings;
      }
      if !PassesGate(fs) {
        return BelowThreshold;
      }
      var response := GenerateTwitterResponse(fs, text, el.chat).value;
      if !Truthy(response) {
        return NoResponse;
      }
      var sent := PostResponse(el, response.value);
      return Posted(response.value, sent);
    }

    /**
     * One tweet of the tweet loop: its text is read through the text
     * selectors; passed over when it is missing or empty, analysed otherwise.
     */
    method HandleTweet(el: TweetElement) returns (step: TweetStep)
      modifies this
      ensures driverOpen == old(driverOpen) && isLoggedIn == old(isLoggedIn)
      ensures step == NoText <==> !Truthy(ExtractedText(el))
      ensures StepAllowed(ExtractedText(el), el, step)
      ensures step == StepOf(Timeline, old(lastCheck), el)
      ensures lastCheck == Stamped(old(lastCheck), el, step)
    {
      var found := FirstNonEmpty(el.textReads);
      var text := if found == [] then None else Some(found[0]);
      assert text == ExtractedText(el);
      if !Truthy(text) {
        return NoText;
      }
      step := Analyze(el, text.value);
    }

    /** One mention of the mention loop: passed over when its text element is missing, analysed otherwise. */
    method HandleMention(el: TweetElement) returns (step: TweetStep)
      modifies this
      ensures driverOpen == old(driverOpen) && isLoggedIn == old(isLoggedIn)
      ensures step == TextRaised <==> MentionText(el).None?
      ensures StepAllowed(MentionText(el), el, step)
      ensures step == StepOf(Mentions, old(lastCheck), el)
      ensures lastCheck == Stamped(old(lastCheck), el, step)
    {
      var text := MentionText(el);
      if text.None? {
        return TextRaised;
      }
      step := Analyze(el, text.value);
    }

    /**
     * The tweet loop of `monitor_account`: the first three tweets at most,
     * in order; a tweet whose text is missing or empty is passed over.
     */
    method HandleTweets(tweets: seq<TweetElement>) returns (steps: seq<TweetStep>)
      modifies this
      ensures driverOpen == old(driverOpen) && isLoggedIn == old(isLoggedIn)
      ensures |steps| == Capped(|tweets|, MaxTweets)
      ensures forall i :: 0 <= i < |steps| ==> (steps[i] == NoText <==> !Truthy(Texts(Timeline, tweets)[i]))
      ensures PostsPassedGate(Texts(Timeline, tweets), tweets, steps)
      ensures ChangesFromSent(lastCheck, old(lastCheck), tweets, steps)
      ensures Run(steps, lastCheck) == RunOf(Timeline, tweets[..Capped(|tweets|, MaxTweets)], old(lastCheck))
    {
      var n := Capped(|tweets|, MaxTweets);
      steps := [];
      while |steps| < n
        invariant |steps| <= n
        invariant driverOpen == old(driverOpen) && isLoggedIn == old(isLoggedIn)
        invariant Run(steps, lastCheck) == RunOf(Timeline, tweets[..|steps|], old(lastCheck))
      {
        var tweet := tweets[|steps|];
        ghost var before := lastCheck;
        var step := HandleTweet(tweet);
        RunOfNext(Timeline, tweets, |steps|, old(lastCheck), steps, before, step);
        steps := steps + [step];
      }
      RunOfPassedOver(Timeline, tweets, n, old(lastCheck), steps, lastCheck);
      RunOfGated(Timeline, tweets, n, old(lastCheck), steps, lastCheck);
      RunOfStamps(Timeline, tweets, n, old(lastCheck), steps, lastCheck);
    }

    /**
     * `monitor_account`: starts and logs in first when not logged in; loads
     * the profile; takes the tweets of the first container selector that
     * finds any, and handles them.
     */
    method MonitorAccount(session: Session, page: ProfileScript) returns (visit: Visit)
      requires Valid()
      modifies this
      ensures Valid()
      ensures old(isLoggedIn) ==> driverOpen == old(driverOpen) && isLoggedIn
      ensures !old(isLoggedIn) ==> (visit == StartFailed <==> !(session.driverOk && LoginGoesThrough(session.login)))
      ensures old(isLoggedIn) ==> visit != StartFailed
      ensures visit == StartFailed ==> !driverOpen && !isLoggedIn
      ensures visit == NotLoaded <==> visit != StartFailed && !page.loads
      ensures visit == NoTweetsFound <==> visit != StartFailed && page.loads && FirstFound(page.containerReads, 0) == []
      ensures !visit.Visited? ==> lastCheck == old(lastCheck)
      ensures visit.Visited? ==> var tweets := FirstFound(page.containerReads, 0);
                                 |visit.steps| == Capped(|tweets|, MaxTweets)
                                 && PostsPassedGate(Texts(Timeline, tweets), tweets, visit.steps)
                                 && ChangesFromSent(lastCheck, old(lastCheck), tweets, visit.steps)
                                 && Run(visit.steps, lastCheck) == RunOf(Timeline, tweets[..Capped(|tweets|, MaxTweets)], old(lastCheck))
    {
      if !isLoggedIn {
        var started := Start(session);
        if !started {
          return StartFailed;
        }
      }
      if !page.loads {
        return NotLoaded;
      }
      var tweets := FirstNonEmpty(page.containerReads);
      if tweets == [] {
        return NoTweetsFound;
      }
      var steps := HandleTweets(tweets);
      return Visited(steps);
    }

    /**
     * The mention loop of `check_notifications`: the first five mentions at
     * most, in order; a mention without a text element is passed over, and
     * an empty text is analysed like any other.
     */
    method HandleMentions(mentions: seq<TweetElement>) returns (steps: seq<TweetStep>)
      modifies this
      ensures driverOpen == old(driverOpen) && isLoggedIn == old(isLoggedIn)
      ensures |steps| == Capped(|mentions|, MaxMentions)
      ensures forall i :: 0 <= i < |steps| ==> (steps[i] == TextRaised <==> Texts(Mentions, mentions)[i].None?)
      ensures PostsPassedGate(Texts(Mentions, mentions), mentions, steps)
      ensures ChangesFromSent(lastCheck, old(lastCheck), mentions, steps)
      ensures Run(steps, lastCheck) == RunOf(Mentions, mentions[..Capped(|mentions|, MaxMentions)], old(lastCheck))
    {
      var n := Capped(|mentions|, MaxMentions);
      steps := [];
      while |steps| < n
        invariant |steps| <= n
        invariant driverOpen == old(driverOpen) && isLoggedIn == old(isLoggedIn)
        invariant Run(steps, lastCheck) == RunOf(Mentions, mentions[..|steps|], old(lastCheck))
      {
        var mention := mentions[|steps|];
        ghost var before := lastCheck;
        var step := HandleMention(mention);
        RunOfNext(Mentions, mentions, |steps|, old(lastCheck), steps, before, step);
        steps := steps + [step];
      }
      RunOfPassedOver(Mentions, mentions, n, old(lastCheck), steps, lastCheck);
      RunOfGated(Mentions, mentions, n, old(lastCheck), steps, lastCheck);
      RunOfStamps(Mentions, mentions, n, old(lastCheck), steps, lastCheck);
    }

    /**
     * `check_notifications`: starts and logs in first when not logged in;
     * loads the mentions page and handles the mentions.
     */
    method CheckNotifications(session: Session, page: MentionsScript) returns (visit: Visit)
      requires Valid()
      modifies this
      ensures Valid()
      ensures old(isLoggedIn) ==> driverOpen == old(driverOpen) && isLoggedIn
      ensures !old(isLoggedIn) ==> (visit == StartFailed <==> !(session.driverOk && LoginGoesThrough(session.login)))
      ensures old(isLoggedIn) ==> visit != StartFailed
      ensures visit == StartFailed ==> !driverOpen && !isLoggedIn
      ensures visit == NotLoaded <==> visit != StartFailed && !page.loads
      ensures visit != NoTweetsFound
      ensures !visit.Visited? ==> lastCheck == old(lastCheck)
      ensures visit.Visited? ==> |visit.steps| == Capped(|page.mentions|, MaxMentions)
                                 && PostsPassedGate(Texts(Mentions, page.mentions), page.mentions, visit.steps)
                                 && ChangesFromSent(lastCheck, old(lastCheck), page.mentions, visit.steps)
                                 && Run(visit.steps, lastCheck)
                                    == RunOf(Mentions, page.mentions[..Capped(|page.mentions|, MaxMentions)], old(lastCheck))
    {
      if !isLoggedIn {
        var started := Start(session);
        if !started {
          return StartFailed;
        }
      }
      if !page.loads {
        return NotLoaded;
      }
      var steps := HandleMentions(page.mentions);
      return Visited(steps);
    }
  }

  /**
   * `TwitterMonitor()`: refuses (raises) unless both credentials are set
   * and non-empty in the environment; otherwise a fresh monitor with no
   * driver, no login and an empty `last_check`.
   */
  method NewMonitor(envUser: Option<string>, envPass: Option<string>) returns (m: Option<TwitterMonitor>)
    ensures m.Some? <==> Truthy(envUser) && Truthy(envPass)
    ensures m.Some? ==> fresh(m.value) && m.value.Valid() && !m.value.driverOpen && !m.value.isLoggedIn
                        && m.value.lastCheck == map[]
                        && m.value.twitterUsername == envUser.value && m.value.twitterPassword == envPass.value
  {
    if !Truthy(envUser) || !Truthy(envPass) {
      return None;
    }
    var monitor := new TwitterMonitor(envUser.value, envPass.value);
    return Some(monitor);
  }

  /** `items[:cap]` keeps this many items. */
  function Capped(n: nat, cap: nat): (m: nat)
    ensures m <= n && m <= cap && (m == n || m == cap)
  {
    if n < cap then n else cap
  }

  /** The text read for each element of the list. */
  function Texts(feed: Feed, els: seq<TweetElement>): (texts: seq<Option<string>>)
    ensures |texts| == |els|
    ensures forall i :: 0 <= i < |els| ==> texts[i] == TextOf(feed, els[i])
  {
    seq(|els|, i requires 0 <= i < |els| => TextOf(feed, els[i]))
  }

  /** One more handled tweet keeps every post behind the gate. */
  lemma GatePassedAppend(texts: seq<Option<string>>, tweets: seq<TweetElement>, steps: seq<TweetStep>, step: TweetStep)
    requires |steps| < |tweets| && |steps| < |texts|
    requires PostsPassedGate(texts, tweets, steps)
    requires StepAllowed(texts[|steps|], tweets[|steps|], step)
    ensures PostsPassedGate(texts, tweets, steps + [step])
  {
    var steps' := steps + [step];
    assert steps'[..|steps|] == steps;
    assert steps'[|steps|] == step;
  }

  /** One more handled tweet keeps every change to `last_check` traced to a sent reply. */
  lemma SentStampsLink(lastCheck: map<Option<string>, int>, mid: map<Option<string>, int>,
                       before: map<Option<string>, int>, tweets: seq<TweetElement>, steps: seq<TweetStep>, step: TweetStep)
    requires |steps| < |tweets|
    requires ChangesFromSent(mid, before, tweets, steps)
    requires lastCheck == Stamped(mid, tweets[|steps|], step)
    ensures ChangesFromSent(lastCheck, before, tweets, steps + [step])
  {
    var steps' := steps + [step];
    assert steps'[|steps|] == step;
    forall u | u in lastCheck && (u !in before || lastCheck[u] != before[u])
      ensures exists i :: 0 <= i < |steps'| && steps'[i].Posted? && steps'[i].sent
                          && tweets[i].link == Some(u) && lastCheck[u] == tweets[i].postedAt
    {
      if step.Posted? && step.sent && tweets[|steps|].link == Some(u) {
        assert steps'[|steps|].Posted? && steps'[|steps|].sent;
      } else {
        var i :| 0 <= i < |steps| && steps[i].Posted? && steps[i].sent
                 && tweets[i].link == Some(u) && mid[u] == tweets[i].postedAt;
        assert steps'[i] == steps[i];
      }
    }
  }
}
