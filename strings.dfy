/**
 * The handful of Python `str` operations the bot relies on, written over
 * `seq<char>`: `strip`, `startswith`, the `in` test, `split(sep)[0]`,
 * `split(sep)[-1]` and `"\n".join(...)`.
 */
module Strings {
  import opened Wrappers

  /** The characters Python's `str.isspace()` accepts, which `strip()` removes. */
  predicate IsSpace(c: char) {
    c == ' ' || ('\t' <= c <= '\r') || ('\U{1C}' <= c <= '\U{1F}') || c == '\U{85}' || c == '\U{A0}'
    || c == '\U{1680}' || ('\U{2000}' <= c <= '\U{200A}') || c == '\U{2028}' || c == '\U{2029}'
    || c == '\U{202F}' || c == '\U{205F}' || c == '\U{3000}'
  }

  /** Drops the leading characters that satisfy `drop`. */
  function TrimStart(s: string, drop: char -> bool): (r: string)
    ensures |r| <= |s| && r == s[|s| - |r|..]
    ensures forall k :: 0 <= k < |s| - |r| ==> drop(s[k])
    ensures r != [] ==> !drop(r[0])
  {
    if s != [] && drop(s[0]) then
      var r := TrimStart(s[1..], drop);
      assert s[1..][|s| - 1 - |r|..] == s[|s| - |r|..];
      assert forall k :: 1 <= k < |s| - |r| ==> s[k] == s[1..][k - 1];
      r
    else s
  }

  /** Drops the trailing characters that satisfy `drop`. */
  function TrimEnd(s: string, drop: char -> bool): (r: string)
    ensures |r| <= |s| && r == s[..|r|]
    ensures forall k :: |r| <= k < |s| ==> drop(s[k])
    ensures r != [] ==> !drop(r[|r| - 1])
  {
    if s != [] && drop(s[|s| - 1]) then TrimEnd(s[..|s| - 1], drop) else s
  }

  /**
   * Python's `s.strip(chars)`: the longest middle slice of `s` that neither
   * starts nor ends with a character satisfying `drop` (`StripMiddle`).
   */
  function Strip(s: string, drop: char -> bool): (r: string)
    ensures |r| <= |s|
    ensures r != [] ==> !drop(r[0]) && !drop(r[|r| - 1])
  {
    TrimEnd(TrimStart(s, drop), drop)
  }

  /** What `strip` leaves is a slice of the input, and all it cuts off is dropped characters. */
  lemma StripMiddle(s: string, drop: char -> bool)
    ensures exists i, j :: 0 <= i <= j <= |s| && Strip(s, drop) == s[i..j]
                           && (forall k :: 0 <= k < i ==> drop(s[k]))
                           && (forall k :: j <= k < |s| ==> drop(s[k]))
  {
    var t := TrimStart(s, drop);
    var r := TrimEnd(t, drop);
    var i := |s| - |t|;
    assert r == s[i..i + |r|];
    forall k | i + |r| <= k < |s| ensures drop(s[k]) {
      assert s[k] == t[k - i];
    }
  }

  /** Stripping keeps every character that `drop` does not accept. */
  lemma StripKeeps(s: string, drop: char -> bool, p: nat)
    requires p < |s| && !drop(s[p])
    ensures s[p] in Strip(s, drop)
  {
    var t := TrimStart(s, drop);
    var cut := |s| - |t|;
    assert p >= cut;
    var r := TrimEnd(t, drop);
    assert t[p - cut] == s[p];
    assert p - cut < |r|;
    assert r[p - cut] == s[p];
  }

  lemma {:induction false} TrimStartExact(p: string, m: string, drop: char -> bool)
    requires forall k :: 0 <= k < |p| ==> drop(p[k])
    requires m == [] || !drop(m[0])
    ensures TrimStart(p + m, drop) == m
    decreases |p|
  {
    if p == [] {
      assert p + m == m;
    } else {
      assert (p + m)[1..] == p[1..] + m;
      TrimStartExact(p[1..], m, drop);
    }
  }

  /** `TrimEnd` removes exactly a trailing run of dropped characters. */
  lemma {:induction false} TrimEndExact(m: string, t: string, drop: char -> bool)
    requires forall k :: 0 <= k < |t| ==> drop(t[k])
    requires m == [] || !drop(m[|m| - 1])
    ensures TrimEnd(m + t, drop) == m
    decreases |t|
  {
    if t == [] {
      assert m + t == m;
    } else {
      assert (m + t)[..|m + t| - 1] == m + t[..|t| - 1];
      TrimEndExact(m, t[..|t| - 1], drop);
    }
  }

  /**
   * Stripping `p + m + t`, where `p` and `t` consist of dropped characters
   * and `m` neither starts nor ends with one, gives `m`.
   */
  lemma StripExact(p: string, m: string, t: string, drop: char -> bool)
    requires forall k :: 0 <= k < |p| ==> drop(p[k])
    requires forall k :: 0 <= k < |t| ==> drop(t[k])
    requires m == [] || (!drop(m[0]) && !drop(m[|m| - 1]))
    ensures Strip(p + m + t, drop) == m
  {
    if m == [] {
      assert p + m + t == p + t;
      TrimStartExact(p + t, [], drop);
      assert p + t + [] == p + t;
    } else {
      assert p + m + t == p + (m + t);
      TrimStartExact(p, m + t, drop);
      TrimEndExact(m, t, drop);
    }
  }

  /** A text that neither starts nor ends with a dropped character is left as it is. */
  lemma StripNothing(s: string, drop: char -> bool)
    requires s == [] || (!drop(s[0]) && !drop(s[|s| - 1]))
    ensures Strip(s, drop) == s
  {
    assert [] + s + [] == s;
    StripExact([], s, [], drop);
  }

  /** Python's `s.strip()` with no argument. */
  function StripSpace(s: string): string {
    Strip(s, IsSpace)
  }

  predicate StartsWith(s: string, prefix: string) {
    |prefix| <= |s| && s[..|prefix|] == prefix
  }

  predicate EndsWith(s: string, suffix: string) {
    |suffix| <= |s| && s[|s| - |suffix|..] == suffix
  }

  /** `needle` occurs in `hay` starting at position `i`. */
  predicate OccursAt(hay: string, needle: string, i: int) {
    0 <= i && i + |needle| <= |hay| && hay[i..i + |needle|] == needle
  }

  /** Python's `needle in hay` for strings. */
  predicate Contains(hay: string, needle: string) {
    exists i :: 0 <= i <= |hay| - |needle| && OccursAt(hay, needle, i)
  }

  /** The first position at or after `from` where `sep` occurs in `s`. */
  function IndexFrom(s: string, sep: string, from: nat): (r: Option<nat>)
    requires from <= |s|
    ensures r.Some? ==> from <= r.value && OccursAt(s, sep, r.value)
    ensures r.Some? ==> forall i :: from <= i < r.value ==> !OccursAt(s, sep, i)
    ensures r.None? ==> forall i :: from <= i ==> !OccursAt(s, sep, i)
    decreases |s| - from
  {
    if from + |sep| > |s| then None
    else if s[from..from + |sep|] == sep then Some(from)
    else IndexFrom(s, sep, from + 1)
  }

  /** Python's `s.find(sep)`, with `None` for -1. */
  function IndexOf(s: string, sep: string): (r: Option<nat>)
    ensures r.Some? ==> OccursAt(s, sep, r.value)
    ensures r.Some? ==> forall i :: 0 <= i < r.value ==> !OccursAt(s, sep, i)
    ensures r.None? <==> !Contains(s, sep)
  {
    IndexFrom(s, sep, 0)
  }

  /** An occurrence in a suffix is an occurrence in the whole text, shifted. */
  lemma OccursInSuffix(s: string, sep: string, k: nat, j: nat)
    requires k <= |s|
    ensures OccursAt(s[k..], sep, j) <==> OccursAt(s, sep, k + j)
  {
    if k + j + |sep| <= |s| {
      assert s[k..][j..j + |sep|] == s[k + j..k + j + |sep|];
    }
  }

  /**
   * Where the piece after the last cut starts, `split` being at `pos` with
   * its latest cut ending at `cut`: an occurrence at `pos` is cut and the
   * search goes on right after it; otherwise the search moves one on.
   */
  function CutScan(s: string, sep: string, cut: nat, pos: nat): (k: nat)
    requires |sep| > 0 && cut <= pos <= |s|
    ensures cut <= k <= |s|
    decreases |s| - pos
  {
    if pos + |sep| > |s| then cut
    else if s[pos..pos + |sep|] == sep then CutScan(s, sep, pos + |sep|, pos + |sep|)
    else CutScan(s, sep, cut, pos + 1)
  }

  /** No occurrence starts at or after both the scan position and the last cut. */
  lemma {:induction false} CutScanClear(s: string, sep: string, cut: nat, pos: nat)
    requires |sep| > 0 && cut <= pos <= |s|
    ensures forall i :: pos <= i && CutScan(s, sep, cut, pos) <= i ==> !OccursAt(s, sep, i)
    decreases |s| - pos
  {
    if pos + |sep| <= |s| {
      if s[pos..pos + |sep|] == sep {
        CutScanClear(s, sep, pos + |sep|, pos + |sep|);
      } else {
        CutScanClear(s, sep, cut, pos + 1);
      }
    }
  }

  /** With nothing left to cut, the cut stays where it is. */
  lemma {:induction false} CutScanStays(s: string, sep: string, cut: nat, pos: nat)
    requires |sep| > 0 && cut <= pos <= |s|
    requires forall i :: pos <= i ==> !OccursAt(s, sep, i)
    ensures CutScan(s, sep, cut, pos) == cut
    decreases |s| - pos
  {
    if pos + |sep| <= |s| {
      assert !OccursAt(s, sep, pos);
      CutScanStays(s, sep, cut, pos + 1);
    }
  }

  /** An occurrence ahead of the scan moves the cut. */
  lemma {:induction false} CutScanMoves(s: string, sep: string, cut: nat, pos: nat, i: nat)
    requires |sep| > 0 && cut <= pos <= i && OccursAt(s, sep, i)
    ensures CutScan(s, sep, cut, pos) > cut
    decreases |s| - pos
  {
    if s[pos..pos + |sep|] != sep {
      CutScanMoves(s, sep, cut, pos + 1, i);
    }
  }

  /** A cut that moved sits right after an occurrence. */
  lemma {:induction false} CutScanAfterOccurrence(s: string, sep: string, cut: nat, pos: nat)
    requires |sep| > 0 && cut <= pos <= |s|
    ensures CutScan(s, sep, cut, pos) > cut ==> OccursAt(s, sep, CutScan(s, sep, cut, pos) - |sep|)
    decreases |s| - pos
  {
    if pos + |sep| <= |s| {
      if s[pos..pos + |sep|] == sep {
        CutScanAfterOccurrence(s, sep, pos + |sep|, pos + |sep|);
      } else {
        CutScanAfterOccurrence(s, sep, cut, pos + 1);
      }
    }
  }

  /** Up to the first occurrence nothing is cut; the search goes on right after it. */
  lemma {:induction false} CutScanFirst(s: string, sep: string, cut: nat, pos: nat, i: nat)
    requires |sep| > 0 && cut <= pos <= i && OccursAt(s, sep, i)
    requires forall j :: pos <= j < i ==> !OccursAt(s, sep, j)
    ensures CutScan(s, sep, cut, pos) == CutScan(s, sep, i + |sep|, i + |sep|)
    decreases i - pos
  {
    if pos < i {
      assert !OccursAt(s, sep, pos);
      CutScanFirst(s, sep, cut, pos + 1, i);
    }
  }

  /**
   * Python's `s.split(sep)[-1]`: the piece after the last cut, all of `s`
   * when `sep` does not occur. What the piece is follows in
   * `LastPieceHasNoSep`, `LastPieceWhole` and `LastPieceAfterCut`.
   */
  function LastPiece(s: string, sep: string): (r: string)
    requires |sep| > 0
    ensures |r| <= |s| && r == s[|s| - |r|..]
  {
    s[CutScan(s, sep, 0, 0)..]
  }

  /** The last piece holds no separator. */
  lemma LastPieceHasNoSep(s: string, sep: string)
    requires |sep| > 0
    ensures !Contains(LastPiece(s, sep), sep)
  {
    var k := CutScan(s, sep, 0, 0);
    CutScanClear(s, sep, 0, 0);
    forall j | 0 <= j <= |s[k..]| - |sep| ensures !OccursAt(s[k..], sep, j) {
      OccursInSuffix(s, sep, k, j);
    }
  }

  /** Without a separator nothing is cut. */
  lemma LastPieceWhole(s: string, sep: string)
    requires |sep| > 0 && !Contains(s, sep)
    ensures LastPiece(s, sep) == s
  {
    CutScanStays(s, sep, 0, 0);
    assert s[0..] == s;
  }

  /** With a separator, the text before the last piece ends with the separator of the last cut. */
  lemma LastPieceAfterCut(s: string, sep: string)
    requires |sep| > 0 && Contains(s, sep)
    ensures EndsWith(s[..|s| - |LastPiece(s, sep)|], sep)
  {
    var k := CutScan(s, sep, 0, 0);
    var i :| 0 <= i <= |s| - |sep| && OccursAt(s, sep, i);
    CutScanMoves(s, sep, 0, 0, i);
    CutScanAfterOccurrence(s, sep, 0, 0);
    assert |s| - |LastPiece(s, sep)| == k;
    assert s[..k][k - |sep|..] == s[k - |sep|..k];
  }

  /** When the first cut is the only one, the last piece is everything after it. */
  lemma LastPieceAfterOnlyCut(s: string, sep: string, i: nat)
    requires |sep| > 0 && IndexOf(s, sep) == Some(i)
    requires !Contains(s[i + |sep|..], sep)
    ensures LastPiece(s, sep) == s[i + |sep|..]
  {
    CutScanFirst(s, sep, 0, 0, i);
    SuffixUncut(s, sep, i + |sep|);
  }

  /** A suffix without the separator is not cut. */
  lemma SuffixUncut(s: string, sep: string, off: nat)
    requires |sep| > 0 && off <= |s| && !Contains(s[off..], sep)
    ensures CutScan(s, sep, off, off) == off
  {
    forall j | off <= j ensures !OccursAt(s, sep, j) {
      OccursInSuffix(s, sep, off, j - off);
    }
    CutScanStays(s, sep, off, off);
  }

  /**
   * The scan always comes to an occurrence at `q` when no occurrence
   * between `pos` and `q` runs into it: every cut before `q` then ends at
   * or before `q`, and the occurrence at `q` is cut.
   */
  lemma {:induction false} CutScanReaches(s: string, sep: string, cut: nat, pos: nat, q: nat)
    requires |sep| > 0 && cut <= pos <= q && OccursAt(s, sep, q)
    requires forall j :: pos <= j < q && q < j + |sep| ==> !OccursAt(s, sep, j)
    ensures CutScan(s, sep, cut, pos) == CutScan(s, sep, q + |sep|, q + |sep|)
    decreases q - pos
  {
    if pos < q {
      if OccursAt(s, sep, pos) {
        CutScanReaches(s, sep, pos + |sep|, pos + |sep|, q);
      } else {
        CutScanReaches(s, sep, cut, pos + 1, q);
      }
    }
  }

  /**
   * An occurrence that no earlier occurrence runs into, with no separator
   * after it, is the last cut: the last piece is everything after it,
   * whatever occurrences come before.
   */
  lemma LastPieceAfterLastCut(s: string, sep: string, q: nat)
    requires |sep| > 0 && OccursAt(s, sep, q)
    requires forall j :: 0 <= j < q && q < j + |sep| ==> !OccursAt(s, sep, j)
    requires !Contains(s[q + |sep|..], sep)
    ensures LastPiece(s, sep) == s[q + |sep|..]
  {
    CutScanReaches(s, sep, 0, 0, q);
    SuffixUncut(s, sep, q + |sep|);
  }

  /** Python's `s.split(c)[0]`: everything before the first `c`. */
  function UntilChar(s: string, c: char): (r: string)
    ensures |r| <= |s| && r == s[..|r|]
    ensures c !in r
    ensures |r| < |s| ==> s[|r|] == c
  {
    if s == [] || s[0] == c then [] else [s[0]] + UntilChar(s[1..], c)
  }

  /** Python's `s.split(c, 1)[1]`: everything after the first `c`, which must occur. */
  function AfterFirst(s: string, c: char): (r: string)
    requires c in s
    ensures |r| < |s| && r == s[|s| - |r|..]
    ensures s == UntilChar(s, c) + [c] + r
  {
    var head := UntilChar(s, c);
    assert s == head + [c] + s[|head| + 1..];
    s[|head| + 1..]
  }

  /** Python's `sep.join(lines)` for a one-character separator. */
  function Join(lines: seq<string>, sep: char): string {
    if |lines| == 0 then ""
    else if |lines| == 1 then lines[0]
    else lines[0] + [sep] + Join(lines[1..], sep)
  }

  /** Python's `s.split(sep)` for a one-character separator. */
  function SplitOn(s: string, sep: char): (r: seq<string>)
    ensures |r| > 0
    decreases |s|
  {
    var head := UntilChar(s, sep);
    if |head| == |s| then [s] else [head] + SplitOn(s[|head| + 1..], sep)
  }

  /**
   * Splitting a joined text at the separator gives the lines back, as long
   * as no line holds the separator itself.
   */
  lemma {:induction false} SplitJoin(lines: seq<string>, sep: char)
    requires |lines| > 0
    requires forall i :: 0 <= i < |lines| ==> sep !in lines[i]
    ensures SplitOn(Join(lines, sep), sep) == lines
    decreases |lines|
  {
    UntilCharStops(lines[0], sep, if |lines| == 1 then "" else [sep] + Join(lines[1..], sep));
    if |lines| > 1 {
      var s := Join(lines, sep);
      assert s == lines[0] + ([sep] + Join(lines[1..], sep));
      assert s[|lines[0]| + 1..] == Join(lines[1..], sep);
      SplitJoin(lines[1..], sep);
    } else {
      assert lines[0] + "" == lines[0];
    }
  }

  /** `UntilChar` stops exactly where the separator-free head ends. */
  lemma {:induction false} UntilCharStops(head: string, c: char, tail: string)
    requires c !in head
    requires tail == [] || tail[0] == c
    ensures UntilChar(head + tail, c) == head
    decreases |head|
  {
    if head != [] {
      assert (head + tail)[1..] == head[1..] + tail;
      UntilCharStops(head[1..], c, tail);
    } else {
      assert head + tail == tail;
    }
  }
}
