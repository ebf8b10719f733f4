/**
  The JavaScript string built-in that the catalog client relies on:
  `String.prototype.replace` with a string pattern, and the first-occurrence
  search it performs. Only the first occurrence of the pattern is rewritten.
*/
module JsString {
  import opened Wrappers

  /** `pat` occurs in `s` starting at index `i`. */
  predicate OccursAt(s: string, pat: string, i: nat) {
    i + |pat| <= |s| && s[i..i + |pat|] == pat
  }

  /** Dropping the first character of `s` shifts every occurrence one place to the left. */
  lemma OccursShift(s: string, pat: string)
    requires |s| > 0
    ensures OccursAt(s, pat, 0) <==> |pat| <= |s| && s[..|pat|] == pat
    ensures forall j: nat :: 0 < j ==> (OccursAt(s, pat, j) <==> OccursAt(s[1..], pat, j - 1))
  {
    forall j: nat | 0 < j
      ensures OccursAt(s, pat, j) <==> OccursAt(s[1..], pat, j - 1)
    {
      if j + |pat| <= |s| {
        assert s[1..][j - 1..j - 1 + |pat|] == s[j..j + |pat|];
      }
    }
  }

  /**
    The search that `s.replace(pat, ...)` performs: the least index at which
    `pat` occurs in `s`, or None when it occurs nowhere. The empty pattern
    occurs at index 0.
  */
  function IndexOf(s: string, pat: string): (r: Option<nat>)
    ensures r.Some? ==> OccursAt(s, pat, r.value)
    ensures r.Some? ==> forall j: nat :: j < r.value ==> !OccursAt(s, pat, j)
    ensures r.None? ==> forall j: nat :: !OccursAt(s, pat, j)
    decreases |s|
  {
    if |s| < |pat| then None
    else if s[..|pat|] == pat then Some(0)
    else
      OccursShift(s, pat);
      match IndexOf(s[1..], pat)
      case None => None
      case Some(i) => Some(i + 1)
  }

  /**
    `s.replace(pat, rep)` for a string pattern: the first occurrence of `pat`
    is replaced by `rep`; later occurrences are kept; without an occurrence the
    string is returned as it is.
  */
  function ReplaceFirst(s: string, pat: string, rep: string): string {
    match IndexOf(s, pat)
    case None => s
    case Some(i) => s[..i] + rep + s[i + |pat|..]
  }

  /** Without an occurrence of the pattern, ReplaceFirst leaves the string as it is. */
  lemma ReplaceFirstAbsent(s: string, pat: string, rep: string)
    requires forall j: nat :: !OccursAt(s, pat, j)
    ensures ReplaceFirst(s, pat, rep) == s
  {
  }

  /** ReplaceFirst rewrites the first occurrence of the pattern, and that one only. */
  lemma ReplaceFirstAt(s: string, pat: string, rep: string, i: nat)
    requires OccursAt(s, pat, i)
    requires forall j: nat :: j < i ==> !OccursAt(s, pat, j)
    ensures ReplaceFirst(s, pat, rep) == s[..i] + rep + s[i + |pat|..]
  {
    var k := IndexOf(s, pat).value;
    assert OccursAt(s, pat, k);
    assert k == i;
  }

  /** Replacing by a string of the pattern's length keeps the length. */
  lemma ReplaceFirstLength(s: string, pat: string, rep: string)
    requires |pat| == |rep|
    ensures |ReplaceFirst(s, pat, rep)| == |s|
  {
  }

}
