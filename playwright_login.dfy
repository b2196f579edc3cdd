/**
 * Logging the Playwright monitor into X (bot/twitter_monitor_playwright.py,
 * `_wait_for_element`, `_login`, `_handle_verification_screens`). The browser
 * is an oracle: `present(sel)` says whether an element matching `sel` shows
 * up within its wait at that point of the attempt, and a few booleans say
 * whether navigation and clicks went through.
 */
module PlaywrightLogin {
  import opened Wrappers
  import opened Fallback

  const UsernameInput: string := "input[autocomplete=\"username\"]"
  const PasswordInput: string := "input[type=\"password\"]"
  const NextButton: string := "div[role=\"button\"]:has-text(\"Next\")"
  const LogInButton: string := "div[role=\"button\"]:has-text(\"Log in\")"
  const PrimaryColumn: string := "div[data-testid=\"primaryColumn\"]"

  /** The fallback selectors `_wait_for_element` tries, in order, when the primary one times out. */
  const Alternatives: map<string, seq<string>> := map[
    UsernameInput := ["input[name=\"text\"]", "input[type=\"text\"]"],
    PasswordInput := ["input[name=\"password\"]"],
    NextButton := ["div[data-testid=\"Button\"]", "div[role=\"button\"]"],
    LogInButton := ["div[data-testid=\"LoginButton\"]"]
  ]

  /** The screens X may show after the password, checked in this order. */
  const VerificationSelectors: seq<string> := [
    "input[name=\"verfication_code\"]",
    "input[name=\"challenge_response\"]",
    "div[role=\"button\"]:has-text(\"Skip for now\")",
    "div[role=\"button\"]:has-text(\"Not now\")"
  ]

  /** The number of login attempts before `_login` gives up. */
  const MaxLoginAttempts: nat := 3

  /**
   * Whether the handler clicks the element it found: the source clicks when
   * the selector mentions `Skip` or `Not now`, which holds for the last two.
   */
  predicate NeedsClick(i: nat) {
    i == 2 || i == 3
  }

  /** `_wait_for_element` finds something: the primary selector, or one of its alternatives. */
  predicate Findable(selector: string, present: string -> bool) {
    present(selector)
    || (selector in Alternatives
        && exists i :: 0 <= i < |Alternatives[selector]| && present(Alternatives[selector][i]))
  }

  /**
   * `_wait_for_element`: the primary selector when it shows up; otherwise
   * the first of its alternatives, in list order, that shows up; `None` when
   * the selector has no alternatives or none shows up.
   */
  method WaitForElement(selector: string, present: string -> bool) returns (found: Option<string>)
    ensures found.Some? <==> Findable(selector, present)
    ensures present(selector) ==> found == Some(selector)
    ensures !present(selector) && found.Some? ==>
              selector in Alternatives
              && exists i :: 0 <= i < |Alternatives[selector]| && Alternatives[selector][i] == found.value
                             && present(found.value)
                             && forall j :: 0 <= j < i ==> !present(Alternatives[selector][j])
  {
    if present(selector) {
      return Some(selector);
    }
    if selector in Alternatives {
      found := FirstPresent(Alternatives[selector], present);
    } else {
      found := None;
    }
  }

  /** The page as one login attempt meets it. */
  datatype LoginPage = LoginPage(
    opens: bool,                // the login page loads (otherwise `goto` raises)
    present: string -> bool,    // which selectors show up within their wait
    nextClicks: bool,           // clicking the Next button goes through (otherwise `click` raises)
    logInClicks: bool,          // clicking the Log in button goes through
    reachesHome: bool,          // the URL becomes the home timeline in time
    dismissOk: bool             // clicking "Skip for now" / "Not now" goes through
  )

  /** The first verification screen shown is handled: found, and clicked when it is a button. */
  predicate VerificationPasses(present: string -> bool, dismissOk: bool) {
    exists i :: 0 <= i < |VerificationSelectors| && present(VerificationSelectors[i])
                && (forall j :: 0 <= j < i ==> !present(VerificationSelectors[j]))
                && (NeedsClick(i) ==> dismissOk)
  }

  /**
   * `_handle_verification_screens`: checks the four selectors in order and
   * answers true at the first one found, after clicking it when it is the
   * "Skip for now" or "Not now" button; a click that raises, or no screen at
   * all, answers false. `screen` is the index of the screen found.
   */
  method HandleVerificationScreens(present: string -> bool, dismissOk: bool) returns (handled: bool, screen: Option<nat>)
    ensures screen.Some? ==> screen.value < |VerificationSelectors| && present(VerificationSelectors[screen.value])
                             && forall j :: 0 <= j < screen.value ==> !present(VerificationSelectors[j])
    ensures screen.None? ==> forall j :: 0 <= j < |VerificationSelectors| ==> !present(VerificationSelectors[j])
    ensures handled <==> screen.Some? && (NeedsClick(screen.value) ==> dismissOk)
    ensures handled <==> VerificationPasses(present, dismissOk)
  {
    var i := 0;
    while i < |VerificationSelectors|
      invariant 0 <= i <= |VerificationSelectors|
      invariant forall j :: 0 <= j < i ==> !present(VerificationSelectors[j])
    {
      var sel := VerificationSelectors[i];
      assert sel !in Alternatives;
      var element := WaitForElement(sel, present);
      if element.Some? {
        if NeedsClick(i) && !dismissOk {
          return false, Some(i);
        }
        return true, Some(i);
      }
      i := i + 1;
    }
    return false, None;
  }

  /** How an attempt moved on from a filled field: its button, or the Enter key when no button was found. */
  datatype Submit = Clicked(selector: string) | PressedEnter

  datatype AttemptOutcome =
    | PageFailed         // the login page did not load
    | NoUsernameField
    | NoPasswordField
    | ClickFailed        // clicking a Next or Log in button that was found raised
    | ReachedHome        // home URL and the timeline column appeared
    | PassedVerification // a verification screen was handled
    | Incomplete         // neither: the attempt raises "did not complete"
  {
    predicate Succeeded() { this == ReachedHome || this == PassedVerification }
  }

  /** What one attempt did: how it submitted each field it filled, and how it ended. */
  datatype AttemptResult = AttemptResult(outcome: AttemptOutcome, submits: seq<Submit>)

  /** Clicking the button after a field, when one is found, goes through. */
  predicate SubmitGoesThrough(button: string, page: LoginPage) {
    Findable(button, page.present) ==> if button == NextButton then page.nextClicks else page.logInClicks
  }

  /**
   * One attempt succeeds: both fields are found, each button found after a
   * field takes its click, and the home timeline or a handled screen follows.
   */
  predicate AttemptSucceeds(page: LoginPage) {
    page.opens && Findable(UsernameInput, page.present) && SubmitGoesThrough(NextButton, page)
    && Findable(PasswordInput, page.present) && SubmitGoesThrough(LogInButton, page)
    && ((page.reachesHome && page.present(PrimaryColumn)) || VerificationPasses(page.present, page.dismissOk))
  }

  /**
   * One pass of the body of `_login`'s retry loop: fill the username, click
   * Next or press Enter, fill the password, click Log in or press Enter, then
   * wait for the home timeline and fall back to the verification screens.
   */
  method LoginAttempt(page: LoginPage) returns (r: AttemptResult)
    ensures r.outcome.Succeeded() <==> AttemptSucceeds(page)
    ensures r.outcome == PageFailed <==> !page.opens
    ensures page.opens && !Findable(UsernameInput, page.present) ==> r == AttemptResult(NoUsernameField, [])
    ensures page.opens && Findable(UsernameInput, page.present) ==>
              1 <= |r.submits| && (r.submits[0] == PressedEnter <==> !Findable(NextButton, page.present))
    ensures page.opens && Findable(UsernameInput, page.present) && !SubmitGoesThrough(NextButton, page) ==>
              r.outcome == ClickFailed && |r.submits| == 1
    ensures page.opens && Findable(UsernameInput, page.present) && SubmitGoesThrough(NextButton, page)
            && !Findable(PasswordInput, page.present) ==>
              r.outcome == NoPasswordField && |r.submits| == 1
    ensures page.opens && Findable(UsernameInput, page.present) && SubmitGoesThrough(NextButton, page)
            && Findable(PasswordInput, page.present) ==>
              |r.submits| == 2 && (r.submits[1] == PressedEnter <==> !Findable(LogInButton, page.present))
              && (r.outcome == ClickFailed <==> !SubmitGoesThrough(LogInButton, page))
  {
    if !page.opens {
      return AttemptResult(PageFailed, []);
    }
    var username := WaitForElement(UsernameInput, page.present);
    if username.None? {
      return AttemptResult(NoUsernameField, []);
    }
    var next := WaitForElement(NextButton, page.present);
    var first := if next.Some? then Clicked(next.value) else PressedEnter;
    if next.Some? && !page.nextClicks {
      return AttemptResult(ClickFailed, [first]);
    }
    var password := WaitForElement(PasswordInput, page.present);
    if password.None? {
      return AttemptResult(NoPasswordField, [first]);
    }
    var logIn := WaitForElement(LogInButton, page.present);
    var submits := [first, if logIn.Some? then Clicked(logIn.value) else PressedEnter];
    if logIn.Some? && !page.logInClicks {
      return AttemptResult(ClickFailed, submits);
    }
    if page.reachesHome {
      assert PrimaryColumn !in Alternatives;
      var timeline := WaitForElement(PrimaryColumn, page.present);
      if timeline.Some? {
        return AttemptResult(ReachedHome, submits);
      }
    }
    var handled, _ := HandleVerificationScreens(page.present, page.dismissOk);
    return AttemptResult(if handled then PassedVerification else Incomplete, submits);
  }

  datatype LoginResult =
    | MissingCredentials   // ValueError before any attempt
    | LoggedIn(attempt: nat)
    | LoginFailed          // the last attempt's exception is raised again

  /**
   * `_login`: refuses at once when either credential is missing or empty;
   * otherwise makes up to three attempts, `pages(k)` being the page attempt
   * `k` meets, and stops at the first that succeeds.
   */
  method Login(user: Option<string>, pass: Option<string>, pages: nat -> LoginPage) returns (r: LoginResult)
    ensures r == MissingCredentials <==> !Truthy(user) || !Truthy(pass)
    ensures r.LoggedIn? ==> r.attempt < MaxLoginAttempts && AttemptSucceeds(pages(r.attempt))
                            && forall k :: 0 <= k < r.attempt ==> !AttemptSucceeds(pages(k))
    ensures r == LoginFailed ==> forall k :: 0 <= k < MaxLoginAttempts ==> !AttemptSucceeds(pages(k))
  {
    if !Truthy(user) || !Truthy(pass) {
      return MissingCredentials;
    }
    var retryCount := 0;
    while retryCount < MaxLoginAttempts
      invariant 0 <= retryCount <= MaxLoginAttempts
      invariant forall k :: 0 <= k < retryCount ==> !AttemptSucceeds(pages(k))
    {
      var attempt := LoginAttempt(pages(retryCount));
      if attempt.outcome.Succeeded() {
        return LoggedIn(retryCount);
      }
      retryCount := retryCount + 1;
    }
    return LoginFailed;
  }
}
