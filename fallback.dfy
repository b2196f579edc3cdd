/**
 * The "try each candidate in order until one works" loop that both monitors
 * repeat for every lookup and every click: a list of selectors or of click
 * methods is tried front to back, a candidate that fails (times out, finds
 * nothing, raises) is passed over, and the first one that works is used.
 * Candidates are numbered; `works(i)` is what trying candidate `i` gave on
 * the page at that moment.
 */
module Fallback {
  import opened Wrappers

  /** `i` is the first of the candidates `0 .. n-1` that works. */
  ghost predicate IsFirstWorking(n: nat, works: nat -> bool, i: nat) {
    i < n && works(i) && forall j :: 0 <= j < i ==> !works(j)
  }

  /**
   * Tries candidates `0 .. n-1` in order and answers the first that works,
   * or `None` when every one fails.
   */
  method FirstWorking(n: nat, works: nat -> bool) returns (r: Option<nat>)
    ensures r.Some? ==> IsFirstWorking(n, works, r.value)
    ensures r.None? ==> forall j :: 0 <= j < n ==> !works(j)
  {
    var i := 0;
    while i < n
      invariant 0 <= i <= n
      invariant forall j :: 0 <= j < i ==> !works(j)
    {
      if works(i) {
        return Some(i);
      }
      i := i + 1;
    }
    return None;
  }

  /** The first candidate that works, as a value, for use in specifications. */
  function FirstOf(n: nat, works: nat -> bool): (r: Option<nat>)
    ensures r.Some? ==> r.value < n && works(r.value) && forall j :: 0 <= j < r.value ==> !works(j)
    ensures r.None? ==> forall j :: 0 <= j < n ==> !works(j)
    decreases n
  {
    if n == 0 then None
    else match FirstOf(n - 1, works)
      case Some(i) => Some(i)
      case None => if works(n - 1) then Some(n - 1) else None
  }

  /** The loop and the specification agree: there is only one first candidate. */
  lemma FirstIsUnique(n: nat, works: nat -> bool, i: nat)
    requires IsFirstWorking(n, works, i)
    ensures FirstOf(n, works) == Some(i)
  {
  }

  /**
   * Tries the selectors of `candidates` in list order against `present`
   * (which selectors the page shows within their wait) and answers the first
   * that is present.
   */
  method FirstPresent(candidates: seq<string>, present: string -> bool) returns (r: Option<string>)
    ensures r.Some? ==> exists i :: 0 <= i < |candidates| && candidates[i] == r.value && present(r.value)
                                   && forall j :: 0 <= j < i ==> !present(candidates[j])
    ensures r.None? ==> forall j :: 0 <= j < |candidates| ==> !present(candidates[j])
  {
    var i := 0;
    while i < |candidates|
      invariant 0 <= i <= |candidates|
      invariant forall j :: 0 <= j < i ==> !present(candidates[j])
    {
      if present(candidates[i]) {
        return Some(candidates[i]);
      }
      i := i + 1;
    }
    return None;
  }
}
