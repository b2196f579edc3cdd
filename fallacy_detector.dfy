/**
 * The detector's side of the bot (bot/fallacy_detector.py): it asks a chat
 * service to find fallacies in a text, normalises whatever comes back into a
 * list of findings, and builds replies from the two most confident findings.
 * The chat service is an oracle: each function takes the answer the service
 * gives to the one request it sends, and returns, with its result, the list
 * of requests it sent (empty when a guard returns early).
 */
module FallacyDetector {
  import opened Wrappers
  import opened Strings

  /** One finding: a fallacy type such as `ad_hominem`, why it applies, and how sure the service is. */
  datatype Finding = Finding(kind: string, explanation: string, confidence: real)

  /**
   * A request sent to the chat service. The fixed prompt wording is not
   * modelled; each request keeps the parts that depend on the input.
   */
  datatype ChatCall =
    | DetectCall(text: string)
    | ResponseCall(descriptions: string, original: string)
    | TweetCall(descriptions: string, original: string)
    | ExplainCall(name: string)

  /** The message content the service answered with, or a request that raised. */
  datatype ChatReply = Answered(content: string) | RequestFailed

  /** What `json.loads` made of the (stripped) detection answer. */
  datatype Parsed = NotJson | NotAList | FindingList(findings: seq<Finding>)

  /** The detection request's outcome: an answer and how it parsed, or a request that raised. */
  datatype DetectReply = DetectAnswered(parsed: Parsed) | DetectFailed

  /** A result together with the requests sent to the chat service to compute it. */
  datatype Called<T> = Called(value: T, calls: seq<ChatCall>)

  /** The fallacy types the detector knows, with their one-line descriptions. */
  const KnownFallacies: map<string, string> := map[
    "ad_hominem" := "Attacking the person instead of their argument",
    "false_dichotomy" := "Presenting only two options when more exist",
    "appeal_to_authority" := "Claiming something is true because an authority said so",
    "strawman" := "Misrepresenting an opponent's argument",
    "slippery_slope" := "Arguing that a small first step will lead to significant negative consequences",
    "appeal_to_emotion" := "Using emotions rather than facts to win an argument",
    "hasty_generalization" := "Drawing conclusions from insufficient evidence",
    "circular_reasoning" := "Using the conclusion as a premise",
    "bandwagon" := "Arguing that something is true because many people believe it",
    "anecdotal" := "Using a personal experience or isolated example instead of sound reasoning or evidence"
  ]

  /** The fixed answer `explain_fallacy` gives when its request fails. */
  const Apology: string := "Sorry, I couldn't generate an explanation at this time."

  // ---------------------------------------------------------------------------
  // Detection

  /**
   * `detect_fallacies`: one request for the text; the parsed list is returned
   * unchanged, and every failure (request raised, answer not JSON, JSON that
   * is not a list) becomes the empty list.
   */
  function DetectFallacies(text: string, reply: DetectReply): (r: Called<seq<Finding>>)
    ensures r.calls == [DetectCall(text)]
    ensures reply.DetectAnswered? && reply.parsed.FindingList? ==> r.value == reply.parsed.findings
    ensures reply.DetectFailed? || reply.parsed.NotJson? || reply.parsed.NotAList? ==> r.value == []
  {
    match reply
    case DetectFailed => Called([], [DetectCall(text)])
    case DetectAnswered(NotJson) => Called([], [DetectCall(text)])
    case DetectAnswered(NotAList) => Called([], [DetectCall(text)])
    case DetectAnswered(FindingList(fs)) => Called(fs, [DetectCall(text)])
  }

  // ---------------------------------------------------------------------------
  // Top-two selection: `sorted(fallacies, key=confidence, reverse=True)[:2]`

  /** Confidences never increase along `fs`. */
  ghost predicate Descending(fs: seq<Finding>) {
    forall i, j :: 0 <= i < j < |fs| ==> fs[j].confidence <= fs[i].confidence
  }

  /** The findings of `fs` whose confidence is exactly `c`, in their order in `fs`. */
  function WithConfidence(fs: seq<Finding>, c: real): seq<Finding> {
    if fs == [] then []
    else (if fs[0].confidence == c then [fs[0]] else []) + WithConfidence(fs[1..], c)
  }

  /**
   * Puts `f` into the descending list `s` ahead of every finding that is not
   * more confident than it, so that `f` precedes its ties.
   */
  function Insert(f: Finding, s: seq<Finding>): (r: seq<Finding>)
    requires Descending(s)
    ensures forall x :: x in r ==> x == f || x in s
    ensures Descending(r)
    ensures multiset(r) == multiset(s) + multiset{f}
  {
    if s == [] || s[0].confidence <= f.confidence then
      [f] + s
    else
      var rest := Insert(f, s[1..]);
      assert s == [s[0]] + s[1..];
      HeadLeads(s[0], s[1..], f, rest);
      [s[0]] + rest
  }

  /** Putting `x` in front keeps the list descending when `x` beats everything after it. */
  lemma HeadLeads(x: Finding, tail: seq<Finding>, f: Finding, rest: seq<Finding>)
    requires Descending([x] + tail) && f.confidence < x.confidence && Descending(rest)
    requires forall y :: y in rest ==> y == f || y in tail
    ensures Descending([x] + rest)
  {
    forall j | 0 <= j < |rest| ensures rest[j].confidence <= x.confidence {
      assert rest[j] in rest;
      if rest[j] != f {
        var k :| 0 <= k < |tail| && tail[k] == rest[j];
        assert ([x] + tail)[0] == x && ([x] + tail)[k + 1] == tail[k];
      }
    }
    var r := [x] + rest;
    forall i, j | 0 <= i < j < |r| ensures r[j].confidence <= r[i].confidence {
      assert r[j] == rest[j - 1];
      if i > 0 {
        assert r[i] == rest[i - 1];
      }
    }
  }

  /**
   * Python's `sorted(..., key=confidence, reverse=True)`: a stable insertion
   * sort, most confident first.
   */
  function SortByConfidence(fs: seq<Finding>): (r: seq<Finding>)
    ensures Descending(r)
    ensures multiset(r) == multiset(fs)
    ensures |r| == |fs|
  {
    if fs == [] then []
    else
      assert fs == [fs[0]] + fs[1..];
      Insert(fs[0], SortByConfidence(fs[1..]))
  }

  lemma {:induction false} WithConfidenceAppend(a: seq<Finding>, b: seq<Finding>, c: real)
    ensures WithConfidence(a + b, c) == WithConfidence(a, c) + WithConfidence(b, c)
    decreases |a|
  {
    if a != [] {
      assert (a + b)[1..] == a[1..] + b;
      WithConfidenceAppend(a[1..], b, c);
    } else {
      assert a + b == b;
    }
  }

  /** Inserting `f` adds it in front of its ties and leaves every other confidence class as it was. */
  lemma {:induction false} InsertKeepsTies(f: Finding, s: seq<Finding>, c: real)
    requires Descending(s)
    ensures WithConfidence(Insert(f, s), c)
            == if c == f.confidence then [f] + WithConfidence(s, c) else WithConfidence(s, c)
    decreases |s|
  {
    if s == [] || s[0].confidence <= f.confidence {
      assert ([f] + s)[1..] == s;
    } else {
      InsertKeepsTies(f, s[1..], c);
      assert ([s[0]] + Insert(f, s[1..]))[1..] == Insert(f, s[1..]);
    }
  }

  /** The sort is stable: findings of equal confidence keep their input order. */
  lemma {:induction false} SortKeepsTieOrder(fs: seq<Finding>, c: real)
    ensures WithConfidence(SortByConfidence(fs), c) == WithConfidence(fs, c)
    decreases |fs|
  {
    if fs != [] {
      SortKeepsTieOrder(fs[1..], c);
      InsertKeepsTies(fs[0], SortByConfidence(fs[1..]), c);
    }
  }

  /** `sorted(...)[:2]`: the first `min(2, n)` findings of the sorted list. */
  function TopTwo(fs: seq<Finding>): (r: seq<Finding>)
    ensures |r| == if |fs| < 2 then |fs| else 2
  {
    var m := if |fs| < 2 then |fs| else 2;
    SortByConfidence(fs)[..m]
  }

  /**
   * The top two are the most confident findings, most confident first;
   * every finding left out is at most as confident as every one kept, and
   * among equally confident findings the earlier ones in the input are the
   * ones kept, in input order.
   */
  lemma TopTwoSelects(fs: seq<Finding>)
    ensures Descending(TopTwo(fs))
    ensures multiset(TopTwo(fs)) <= multiset(fs)
    ensures forall d, k :: d in multiset(fs) - multiset(TopTwo(fs)) && k in TopTwo(fs) ==> d.confidence <= k.confidence
    ensures forall c :: WithConfidence(TopTwo(fs), c) <= WithConfidence(fs, c)
  {
    TopOfSorted(fs, if |fs| < 2 then |fs| else 2);
  }

  /** The facts `TopTwo` promises, for any prefix of the sorted findings. */
  lemma TopOfSorted(fs: seq<Finding>, m: nat)
    requires m <= |fs|
    ensures |SortByConfidence(fs)| == |fs|
    ensures var top := SortByConfidence(fs)[..m];
            && Descending(top)
            && multiset(top) <= multiset(fs)
            && (forall d, k :: d in multiset(fs) - multiset(top) && k in top ==> d.confidence <= k.confidence)
            && (forall c :: WithConfidence(top, c) <= WithConfidence(fs, c))
  {
    var sorted := SortByConfidence(fs);
    assert |sorted| == |fs| by { assert |multiset(sorted)| == |multiset(fs)|; }
    KeptPrefix(sorted, m);
    DroppedAreNotMoreConfident(sorted, m);
    SortedPrefixTies(fs, m);
  }

  /** Each confidence class of a prefix of the sorted findings is a prefix of that class in the input. */
  lemma SortedPrefixTies(fs: seq<Finding>, m: nat)
    requires m <= |SortByConfidence(fs)|
    ensures forall c :: WithConfidence(SortByConfidence(fs)[..m], c) <= WithConfidence(fs, c)
  {
    forall c ensures WithConfidence(SortByConfidence(fs)[..m], c) <= WithConfidence(fs, c) {
      SortedPrefixTiesAt(fs, m, c);
    }
  }

  /** `SortedPrefixTies` for one confidence. */
  lemma SortedPrefixTiesAt(fs: seq<Finding>, m: nat, c: real)
    requires m <= |SortByConfidence(fs)|
    ensures WithConfidence(SortByConfidence(fs)[..m], c) <= WithConfidence(fs, c)
  {
    var sorted := SortByConfidence(fs);
    SortKeepsTieOrder(fs, c);
    assert sorted == sorted[..m] + sorted[m..];
    WithConfidenceAppend(sorted[..m], sorted[m..], c);
    var kept := WithConfidence(sorted[..m], c);
    assert WithConfidence(fs, c) == kept + WithConfidence(sorted[m..], c);
    assert WithConfidence(fs, c)[..|kept|] == kept;
  }

  /** A prefix of a descending sequence is descending, and what is cut off is the rest. */
  lemma KeptPrefix(sorted: seq<Finding>, m: nat)
    requires Descending(sorted) && m <= |sorted|
    ensures Descending(sorted[..m])
    ensures multiset(sorted) - multiset(sorted[..m]) == multiset(sorted[m..])
    ensures multiset(sorted[..m]) <= multiset(sorted)
  {
    assert sorted == sorted[..m] + sorted[m..];
  }

  /** In a descending sequence nothing after position `m` beats anything before it. */
  lemma DroppedAreNotMoreConfident(sorted: seq<Finding>, m: nat)
    requires Descending(sorted) && m <= |sorted|
    ensures forall d, k :: d in multiset(sorted[m..]) && k in sorted[..m] ==> d.confidence <= k.confidence
  {
    forall d, k | d in multiset(sorted[m..]) && k in sorted[..m]
      ensures d.confidence <= k.confidence
    {
      assert d in sorted[m..];
      var j :| 0 <= j < |sorted[m..]| && sorted[m..][j] == d;
      var i :| 0 <= i < m && sorted[..m][i] == k;
      assert sorted[m + j] == d && sorted[i] == k;
    }
  }

  // ---------------------------------------------------------------------------
  // Formatting a fallacy type: `kind.replace('_', ' ').title()`

  /** A letter that `str.title()` changes the case of (ASCII letters only in this model). */
  predicate IsCased(c: char) {
    'a' <= c <= 'z' || 'A' <= c <= 'Z'
  }

  function Upper(c: char): (r: char)
    ensures IsCased(r) == IsCased(c)
    ensures !('a' <= r <= 'z')
  {
    if 'a' <= c <= 'z' then (c as int - 32) as char else c
  }

  function Lower(c: char): (r: char)
    ensures IsCased(r) == IsCased(c)
    ensures !('A' <= r <= 'Z')
  {
    if 'A' <= c <= 'Z' then (c as int + 32) as char else c
  }

  /** `str.title()` on one character, given whether the character before it is a letter. */
  function TitleChar(c: char, afterLetter: bool): (r: char)
    ensures IsCased(r) == IsCased(c)
    ensures !IsCased(c) ==> r == c
  {
    if !IsCased(c) then c else if afterLetter then Lower(c) else Upper(c)
  }

  /** `s.replace(a, b)` for single characters. */
  function ReplaceChar(s: string, a: char, b: char): (r: string)
    ensures |r| == |s|
    ensures forall i :: 0 <= i < |s| ==> r[i] == if s[i] == a then b else s[i]
  {
    if s == [] then [] else [if s[0] == a then b else s[0]] + ReplaceChar(s[1..], a, b)
  }

  /**
   * `str.title()` on `s`, where `afterLetter` says whether a letter came just
   * before `s`: a letter that starts a word is upper-cased, every other
   * letter lower-cased, and everything else kept.
   */
  function TitleFrom(s: string, afterLetter: bool): (r: string)
    ensures |r| == |s|
    ensures forall i {:trigger r[i]} :: 0 <= i < |s| ==> r[i] == TitleChar(s[i], if i == 0 then afterLetter else IsCased(s[i - 1]))
  {
    if s == [] then [] else [TitleChar(s[0], afterLetter)] + TitleFrom(s[1..], IsCased(s[0]))
  }

  /**
   * How a fallacy type is shown to the chat service:
   * `kind.replace('_', ' ').title()`.
   */
  function FormatType(kind: string): string {
    TitleFrom(ReplaceChar(kind, '_', ' '), false)
  }

  /**
   * Underscores become spaces, each word starts with a capital and the rest of
   * it is lower case, and nothing else changes.
   */
  lemma FormatTypeAt(kind: string)
    ensures |FormatType(kind)| == |kind|
    ensures '_' !in FormatType(kind)
    ensures forall i :: 0 <= i < |kind| && kind[i] == '_' ==> FormatType(kind)[i] == ' '
    ensures forall i :: 0 <= i < |kind| && IsCased(kind[i]) ==>
              FormatType(kind)[i] == if i > 0 && IsCased(kind[i - 1]) then Lower(kind[i]) else Upper(kind[i])
    ensures forall i :: 0 <= i < |kind| && !IsCased(kind[i]) && kind[i] != '_' ==> FormatType(kind)[i] == kind[i]
  {
    var r := FormatType(kind);
    forall i | 0 <= i < |kind|
      ensures r[i] != '_'
      ensures kind[i] == '_' ==> r[i] == ' '
      ensures IsCased(kind[i]) ==> r[i] == if i > 0 && IsCased(kind[i - 1]) then Lower(kind[i]) else Upper(kind[i])
      ensures !IsCased(kind[i]) && kind[i] != '_' ==> r[i] == kind[i]
    {
      FormatTypeCharAt(kind, i);
    }
  }

  /** `FormatTypeAt` at one position. */
  lemma FormatTypeCharAt(kind: string, i: nat)
    requires i < |kind|
    ensures |FormatType(kind)| == |kind|
    ensures FormatType(kind)[i] != '_'
    ensures kind[i] == '_' ==> FormatType(kind)[i] == ' '
    ensures IsCased(kind[i]) ==> FormatType(kind)[i] == if i > 0 && IsCased(kind[i - 1]) then Lower(kind[i]) else Upper(kind[i])
    ensures !IsCased(kind[i]) && kind[i] != '_' ==> FormatType(kind)[i] == kind[i]
  {
    var spaced := ReplaceChar(kind, '_', ' ');
    assert spaced[i] == if kind[i] == '_' then ' ' else kind[i];
    if i > 0 {
      assert spaced[i - 1] == if kind[i - 1] == '_' then ' ' else kind[i - 1];
    }
  }

  /** Formatting introduces no line break: a type without one stays on one line. */
  lemma FormatTypeOneLine(kind: string)
    requires '\n' !in kind
    ensures '\n' !in FormatType(kind)
  {
    var r := FormatType(kind);
    FormatTypeAt(kind);
    forall i | 0 <= i < |r| ensures r[i] != '\n' {
      assert kind[i] != '\n';
      if IsCased(kind[i]) {
        assert IsCased(Upper(kind[i])) && IsCased(Lower(kind[i]));
      }
    }
  }

  // ---------------------------------------------------------------------------
  // Building the reply requests

  /** The bullet lines `- <Type>` of the tweet-reply request, one per finding, in order. */
  function TweetLines(fs: seq<Finding>): (r: seq<string>)
    ensures |r| == |fs|
    ensures forall i :: 0 <= i < |fs| ==> r[i] == "- " + FormatType(fs[i].kind)
  {
    if fs == [] then [] else ["- " + FormatType(fs[0].kind)] + TweetLines(fs[1..])
  }

  /** The bullet lines `- <Type>: <explanation>` of the long-reply request. */
  function ResponseLines(fs: seq<Finding>): (r: seq<string>)
    ensures |r| == |fs|
    ensures forall i :: 0 <= i < |fs| ==> r[i] == "- " + FormatType(fs[i].kind) + ": " + fs[i].explanation
  {
    if fs == [] then [] else ["- " + FormatType(fs[0].kind) + ": " + fs[0].explanation] + ResponseLines(fs[1..])
  }

  /** The fallacy list the tweet-reply request carries: the top two, one bullet per line. */
  function TweetDescriptions(fs: seq<Finding>): string {
    Join(TweetLines(TopTwo(fs)), '\n')
  }

  /**
   * The description block of the tweet-reply request reads back as exactly
   * one `- <Type>` line per selected finding, in selection order: at most two
   * lines, provided no fallacy type holds a line break.
   */
  lemma TweetDescriptionsLines(fs: seq<Finding>)
    requires fs != []
    requires forall f :: f in fs ==> '\n' !in f.kind
    ensures var top := TopTwo(fs);
            SplitOn(TweetDescriptions(fs), '\n') == TweetLines(top)
            && 1 <= |TweetLines(top)| <= 2
  {
    var top := TopTwo(fs);
    var lines := TweetLines(top);
    forall i | 0 <= i < |lines| ensures '\n' !in lines[i] {
      assert top[i] in multiset(fs);
      FormatTypeOneLine(top[i].kind);
      assert lines[i] == "- " + FormatType(top[i].kind);
    }
    SplitJoin(lines, '\n');
  }

  /**
   * `generate_twitter_response`: with no findings it answers `None` before
   * building any request; otherwise it sends one request listing the top two
   * findings and answers the stripped reply, or `None` when the request fails.
   */
  function GenerateTwitterResponse(fs: seq<Finding>, original: string, reply: ChatReply): (r: Called<Option<string>>)
    ensures fs == [] ==> r == Called(None, [])
    ensures fs != [] ==> r.calls == [TweetCall(TweetDescriptions(fs), original)]
    ensures r.value.Some? <==> fs != [] && reply.Answered?
    ensures r.value.Some? ==> r.value.value == StripSpace(reply.content)
  {
    if fs == [] then Called(None, [])
    else
      var call := TweetCall(TweetDescriptions(fs), original);
      match reply
      case Answered(content) => Called(Some(StripSpace(content)), [call])
      case RequestFailed => Called(None, [call])
  }

  /**
   * `generate_response`: like the tweet reply, but every finding is listed,
   * with its explanation.
   */
  function GenerateResponse(fs: seq<Finding>, original: string, reply: ChatReply): (r: Called<Option<string>>)
    ensures fs == [] ==> r == Called(None, [])
    ensures fs != [] ==> r.calls == [ResponseCall(Join(ResponseLines(fs), '\n'), original)]
    ensures r.value.Some? <==> fs != [] && reply.Answered?
    ensures r.value.Some? ==> r.value.value == StripSpace(reply.content)
  {
    if fs == [] then Called(None, [])
    else
      var call := ResponseCall(Join(ResponseLines(fs), '\n'), original);
      match reply
      case Answered(content) => Called(Some(StripSpace(content)), [call])
      case RequestFailed => Called(None, [call])
  }

  /**
   * `explain_fallacy`: an unknown name gives `None` with no request; a known
   * one gives the stripped answer, or the fixed apology when the request fails.
   */
  function ExplainFallacy(name: string, reply: ChatReply): (r: Called<Option<string>>)
    ensures name !in KnownFallacies <==> r == Called(None, [])
    ensures name in KnownFallacies ==> r.calls == [ExplainCall(name)] && r.value.Some?
    ensures name in KnownFallacies && reply.RequestFailed? ==> r.value == Some(Apology)
    ensures name in KnownFallacies && reply.Answered? ==> r.value == Some(StripSpace(reply.content))
  {
    if name !in KnownFallacies then Called(None, [])
    else
      match reply
      case Answered(content) => Called(Some(StripSpace(content)), [ExplainCall(name)])
      case RequestFailed => Called(Some(Apology), [ExplainCall(name)])
  }
}
