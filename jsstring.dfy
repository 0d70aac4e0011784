/** The part of JavaScript's `String.prototype` semantics the scaffolder
    relies on: `indexOf` from a position within the string, and `replace`
    with a string (not a RegExp) pattern and a replacement without `$`
    patterns. */
module JsString {
  import opened Wrappers

  /** `pat` occurs in `s` starting at index `i`. */
  predicate OccursAt(s: string, pat: string, i: nat)
  {
    i + |pat| <= |s| && s[i..i + |pat|] == pat
  }

  /** `i` is where the first (leftmost) occurrence of `pat` in `s` starts. */
  predicate FirstOccurrence(s: string, pat: string, i: nat)
  {
    OccursAt(s, pat, i) && forall j: nat :: j < i ==> !OccursAt(s, pat, j)
  }

  /** `s.indexOf(pat, from)` for `from <= |s|`, with "not found" as `None`
      instead of -1. */
  function IndexOf(s: string, pat: string, from: nat): (r: Option<nat>)
    ensures r.Some? ==> from <= r.value && OccursAt(s, pat, r.value)
    ensures r.Some? ==> forall j: nat :: from <= j < r.value ==> !OccursAt(s, pat, j)
    ensures r.None? ==> forall j: nat :: from <= j ==> !OccursAt(s, pat, j)
    decreases |s| - from
  {
    if from + |pat| > |s| then None
    else if s[from..from + |pat|] == pat then Some(from)
    else IndexOf(s, pat, from + 1)
  }

  /** `s.replace(pat, rep)` for a string `pat` and a `rep` without `$`
      patterns: only the first occurrence of `pat` is replaced; without one,
      `s` comes back unchanged. As in JavaScript, an empty `pat` occurs at
      index 0, so `rep` is prepended. */
  function ReplaceFirst(s: string, pat: string, rep: string): (r: string)
    ensures (forall j: nat :: !OccursAt(s, pat, j)) ==> r == s
    ensures forall i: nat :: FirstOccurrence(s, pat, i) ==> r == s[..i] + rep + s[i + |pat|..]
    ensures |r| == if exists j: nat :: OccursAt(s, pat, j) then |s| - |pat| + |rep| else |s|
  {
    match IndexOf(s, pat, 0)
    case None => s
    case Some(i) => s[..i] + rep + s[i + |pat|..]
  }
}
