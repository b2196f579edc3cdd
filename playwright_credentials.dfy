/**
 * How the Playwright monitor finds its X login (bot/twitter_monitor_playwright.py,
 * `__init__`): the two variables from the environment, and only when one of
 * them is missing or empty, the `KEY=value` lines of `bot/.env` and then of
 * the root `.env`, where every matching line overrides what came before.
 * A file is its list of lines as Python's `for line in f` yields them
 * (line breaks kept), or `None` when it does not exist.
 */
module PlaywrightCredentials {
  import opened Wrappers
  import opened Strings

  const UsernameKey: string := "TWITTER_USERNAME"
  const PasswordKey: string := "TWITTER_PASSWORD"

  /** The files are read when either credential is missing from the environment. */
  predicate ReadsFiles(envUser: Option<string>, envPass: Option<string>) {
    !Truthy(envUser) || !Truthy(envPass)
  }

  /** `line.startswith(key + '=')`. */
  predicate IsAssignment(line: string, key: string) {
    StartsWith(line, key + "=")
  }

  predicate IsSingleQuote(c: char) { c == '\'' }
  predicate IsDoubleQuote(c: char) { c == '"' }

  /**
   * `line.strip().split('=', 1)[1].strip("'").strip('"')`: the whole line is
   * stripped of white space, the text after its first `=` is taken, and
   * single and then double quotes are stripped from both ends of it.
   */
  function ParseValue(line: string, key: string): (r: string)
    requires IsAssignment(line, key)
    ensures |r| < |line|
    ensures r != [] ==> !IsDoubleQuote(r[0]) && !IsDoubleQuote(r[|r| - 1])
  {
    assert line[|key|] == '=';
    StripKeeps(line, IsSpace, |key|);
    var rest := AfterFirst(StripSpace(line), '=');
    Strip(Strip(rest, IsSingleQuote), IsDoubleQuote)
  }

  /** `value` may be written bare or inside a pair of `quote`s and read back unchanged. */
  predicate Quotable(value: string, quote: string) {
    (quote == "" || quote == "'" || quote == "\"")
    && (value == [] || (quote == "" ==> !IsSpace(value[|value| - 1])))
    && (value != [] ==> !IsSingleQuote(value[0]) && !IsSingleQuote(value[|value| - 1])
                        && !IsDoubleQuote(value[0]) && !IsDoubleQuote(value[|value| - 1]))
  }

  /**
   * Reading back a written assignment: `KEY=value`, `KEY='value'` or
   * `KEY="value"` followed by any white space (the line break) parses to
   * `value`, provided the value does not itself start or end with a quote
   * and, written bare, does not end in white space. White space right after
   * the `=` is kept, since only the whole line is stripped.
   */
  lemma ParseValueRoundTrip(key: string, value: string, quote: string, eol: string)
    requires key != [] && !IsSpace(key[0]) && '=' !in key
    requires forall k :: 0 <= k < |eol| ==> IsSpace(eol[k])
    requires Quotable(value, quote)
    ensures IsAssignment(key + "=" + quote + value + quote + eol, key)
    ensures ParseValue(key + "=" + quote + value + quote + eol, key) == value
  {
    var quoted := quote + value + quote;
    var line := key + "=" + quoted + eol;
    assert line == key + "=" + quote + value + quote + eol;
    WrittenLine(key, quoted, eol);
    AfterKey(key, quoted);
    UnquoteValue(value, quote);
    ParseValueSteps(line, key, key + "=" + quoted, quoted);
  }

  lemma WrittenLine(key: string, quoted: string, eol: string)
    requires key != [] && !IsSpace(key[0])
    requires forall k :: 0 <= k < |eol| ==> IsSpace(eol[k])
    requires quoted != [] ==> !IsSpace(quoted[|quoted| - 1])
    ensures IsAssignment(key + "=" + quoted + eol, key)
    ensures StripSpace(key + "=" + quoted + eol) == key + "=" + quoted
  {
    var line := key + "=" + quoted + eol;
    assert line[..|key + "="|] == key + "=";
    StripLine(key, quoted, eol);
  }

  /** `ParseValue` in three steps: the stripped line, the text after `=`, the unquoted value. */
  lemma ParseValueSteps(line: string, key: string, stripped: string, rest: string)
    requires IsAssignment(line, key)
    requires StripSpace(line) == stripped && '=' in stripped && AfterFirst(stripped, '=') == rest
    ensures ParseValue(line, key) == Strip(Strip(rest, IsSingleQuote), IsDoubleQuote)
  {
  }

  /** The text after the first `=` of `key=rest` is `rest` when the key has no `=`. */
  lemma AfterKey(key: string, rest: string)
    requires '=' !in key
    ensures '=' in key + "=" + rest
    ensures AfterFirst(key + "=" + rest, '=') == rest
  {
    UntilCharStops(key, '=', "=" + rest);
    assert key + "=" + rest == key + ("=" + rest);
    assert (key + "=" + rest)[|key|] == '=';
  }

  /** Stripping a written line removes only the white space after the quoted value. */
  lemma StripLine(key: string, quoted: string, eol: string)
    requires key != [] && !IsSpace(key[0])
    requires forall k :: 0 <= k < |eol| ==> IsSpace(eol[k])
    requires quoted != [] ==> !IsSpace(quoted[|quoted| - 1])
    ensures StripSpace(key + "=" + quoted + eol) == key + "=" + quoted
  {
    var body := key + "=" + quoted;
    assert body[0] == key[0];
    assert body[|body| - 1] == if quoted != [] then quoted[|quoted| - 1] else '=';
    StripExact([], body, eol, IsSpace);
    assert [] + body + eol == body + eol;
  }

  /** Stripping single and then double quotes from a quoted value gives the value. */
  lemma UnquoteValue(value: string, quote: string)
    requires Quotable(value, quote)
    ensures Strip(Strip(quote + value + quote, IsSingleQuote), IsDoubleQuote) == value
  {
    if quote == "'" {
      UnquoteSingle(value);
    } else if quote == "\"" {
      UnquoteDouble(value);
    } else {
      assert quote + value + quote == value;
      UnquoteBare(value);
    }
  }

  lemma UnquoteSingle(value: string)
    requires Quotable(value, "'")
    ensures Strip(Strip("'" + value + "'", IsSingleQuote), IsDoubleQuote) == value
  {
    StripExact("'", value, "'", IsSingleQuote);
    StripNothing(value, IsDoubleQuote);
  }

  lemma UnquoteDouble(value: string)
    requires Quotable(value, "\"")
    ensures Strip(Strip("\"" + value + "\"", IsSingleQuote), IsDoubleQuote) == value
  {
    var quoted := "\"" + value + "\"";
    assert quoted[0] == '"' && quoted[|quoted| - 1] == '"';
    StripNothing(quoted, IsSingleQuote);
    StripExact("\"", value, "\"", IsDoubleQuote);
  }

  lemma UnquoteBare(value: string)
    requires Quotable(value, "")
    ensures Strip(Strip(value, IsSingleQuote), IsDoubleQuote) == value
  {
    StripNothing(value, IsSingleQuote);
    StripNothing(value, IsDoubleQuote);
  }

  /** One line's effect on the value held for `key`. */
  function Apply(cur: Option<string>, line: string, key: string): Option<string> {
    if IsAssignment(line, key) then Some(ParseValue(line, key)) else cur
  }

  /** The value held for `key` after reading `lines` in order, starting from `cur`. */
  function Assigned(lines: seq<string>, key: string, cur: Option<string>): Option<string>
    decreases |lines|
  {
    if lines == [] then cur else Assigned(lines[1..], key, Apply(cur, lines[0], key))
  }

  /** The lines of the files that exist, in file order. */
  function AllLines(files: seq<Option<seq<string>>>): seq<string> {
    if files == [] then [] else files[0].GetOr([]) + AllLines(files[1..])
  }

  /** Reading `a` and then `b` is reading `b` from where `a` left off. */
  lemma {:induction false} AssignedAppend(a: seq<string>, b: seq<string>, key: string, cur: Option<string>)
    ensures Assigned(a + b, key, cur) == Assigned(b, key, Assigned(a, key, cur))
    decreases |a|
  {
    if a == [] {
      assert a + b == b;
    } else {
      assert (a + b)[1..] == a[1..] + b;
      AssignedAppend(a[1..], b, key, Apply(cur, a[0], key));
    }
  }

  /** Lines without an assignment to `key` leave its value alone. */
  lemma {:induction false} AssignedNoMatch(lines: seq<string>, key: string, cur: Option<string>)
    requires forall j :: 0 <= j < |lines| ==> !IsAssignment(lines[j], key)
    ensures Assigned(lines, key, cur) == cur
    decreases |lines|
  {
    if lines != [] {
      AssignedNoMatch(lines[1..], key, cur);
    }
  }

  /** Once a line assigns `key`, what it held before those lines no longer matters. */
  lemma {:induction false} AssignedForgetsStart(lines: seq<string>, key: string, c1: Option<string>, c2: Option<string>)
    requires exists i :: 0 <= i < |lines| && IsAssignment(lines[i], key)
    ensures Assigned(lines, key, c1) == Assigned(lines, key, c2)
    decreases |lines|
  {
    if !IsAssignment(lines[0], key) {
      var i :| 0 <= i < |lines| && IsAssignment(lines[i], key);
      assert lines[1..][i - 1] == lines[i];
      AssignedForgetsStart(lines[1..], key, c1, c2);
    }
  }

  /** Reading `lines` is reading those before line `i`, then line `i`, then the rest. */
  lemma AssignedSplit(lines: seq<string>, key: string, cur: Option<string>, i: nat)
    requires i < |lines|
    ensures Assigned(lines, key, cur) == Assigned(lines[i + 1..], key, Apply(Assigned(lines[..i], key, cur), lines[i], key))
  {
    assert lines == lines[..i] + lines[i..];
    AssignedAppend(lines[..i], lines[i..], key, cur);
    assert lines[i..][1..] == lines[i + 1..];
  }

  /** The last assignment to `key` decides its value, whatever came before it. */
  lemma LastMatchWins(lines: seq<string>, key: string, cur: Option<string>, i: nat)
    requires i < |lines| && IsAssignment(lines[i], key)
    requires forall j :: i < j < |lines| ==> !IsAssignment(lines[j], key)
    ensures Assigned(lines, key, cur) == Some(ParseValue(lines[i], key))
  {
    var before := Assigned(lines[..i], key, cur);
    AssignedSplit(lines, key, cur, i);
    var rest := lines[i + 1..];
    forall j | 0 <= j < |rest| ensures !IsAssignment(rest[j], key) {
      assert rest[j] == lines[i + 1 + j];
    }
    AssignedNoMatch(rest, key, Apply(before, lines[i], key));
    assert Apply(before, lines[i], key) == Some(ParseValue(lines[i], key));
  }

  /**
   * An assignment in the root `.env` beats whatever `bot/.env` or the
   * environment held, because the root file is read last.
   */
  lemma RootOverridesBot(bot: Option<seq<string>>, root: seq<string>, key: string, cur: Option<string>)
    requires exists i :: 0 <= i < |root| && IsAssignment(root[i], key)
    ensures Assigned(AllLines([bot, Some(root)]), key, cur) == Assigned(root, key, cur)
  {
    var botLines := bot.GetOr([]);
    assert AllLines([bot, Some(root)]) == botLines + root by {
      assert [bot, Some(root)][1..] == [Some(root)];
      assert [Some(root)][1..] == [];
      assert AllLines([Some(root)]) == root + [];
    }
    AssignedAppend(botLines, root, key, cur);
    AssignedForgetsStart(root, key, Assigned(botLines, key, cur), cur);
  }

  /** The two usernames' prefixes differ, so a line assigns at most one of them. */
  lemma KeysExclusive(line: string)
    ensures !(IsAssignment(line, UsernameKey) && IsAssignment(line, PasswordKey))
  {
    if IsAssignment(line, UsernameKey) {
      assert (UsernameKey + "=")[..16] == UsernameKey;
      assert (PasswordKey + "=")[..16] == PasswordKey;
      assert UsernameKey != PasswordKey;
    }
  }

  /**
   * The credential lookup of `__init__`: the environment's values, and when
   * either is missing or empty, the values after reading every line of the
   * existing files in order, each `TWITTER_USERNAME=` or `TWITTER_PASSWORD=`
   * line replacing the value held so far (also one that came from the
   * environment).
   */
  method LoadCredentials(envUser: Option<string>, envPass: Option<string>, files: seq<Option<seq<string>>>)
    returns (user: Option<string>, pass: Option<string>)
    ensures !ReadsFiles(envUser, envPass) ==> user == envUser && pass == envPass
    ensures ReadsFiles(envUser, envPass) ==>
              user == Assigned(AllLines(files), UsernameKey, envUser)
              && pass == Assigned(AllLines(files), PasswordKey, envPass)
  {
    user, pass := envUser, envPass;
    if !ReadsFiles(envUser, envPass) {
      return;
    }
    var f := 0;
    while f < |files|
      invariant 0 <= f <= |files|
      invariant Assigned(AllLines(files[f..]), UsernameKey, user) == Assigned(AllLines(files), UsernameKey, envUser)
      invariant Assigned(AllLines(files[f..]), PasswordKey, pass) == Assigned(AllLines(files), PasswordKey, envPass)
    {
      assert AllLines(files[f..]) == files[f].GetOr([]) + AllLines(files[f + 1..]) by {
        assert files[f..][1..] == files[f + 1..];
      }
      if files[f].Some? {
        var lines := files[f].value;
        var later := AllLines(files[f + 1..]);
        var j := 0;
        assert lines[j..] + later == AllLines(files[f..]);
        while j < |lines|
          invariant 0 <= j <= |lines|
          invariant Assigned(lines[j..] + later, UsernameKey, user) == Assigned(AllLines(files), UsernameKey, envUser)
          invariant Assigned(lines[j..] + later, PasswordKey, pass) == Assigned(AllLines(files), PasswordKey, envPass)
        {
          var line := lines[j];
          assert (lines[j..] + later)[0] == line;
          assert (lines[j..] + later)[1..] == lines[j + 1..] + later;
          KeysExclusive(line);
          if IsAssignment(line, UsernameKey) {
            user := Some(ParseValue(line, UsernameKey));
          } else if IsAssignment(line, PasswordKey) {
            pass := Some(ParseValue(line, PasswordKey));
          }
          j := j + 1;
        }
        assert lines[j..] + later == later;
      } else {
        assert AllLines(files[f..]) == AllLines(files[f + 1..]);
      }
      f := f + 1;
    }
  }
}
