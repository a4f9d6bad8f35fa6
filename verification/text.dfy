/** Substring search, used to take apart the strings the request assembly builds. */
module Text {
  import opened Wrappers

  /** `pat` occurs in `s` starting at position `j`. */
  predicate MatchesAt(s: string, pat: string, j: int) {
    0 <= j && j + |pat| <= |s| && s[j..j + |pat|] == pat
  }

  /** Position of the first occurrence of `pat` in `s` at or after `from`, if there is one. */
  function IndexOf(s: string, pat: string, from: nat): (r: Option<nat>)
    ensures r.Some? ==> from <= r.value && MatchesAt(s, pat, r.value)
    ensures r.Some? ==> forall j :: from <= j < r.value ==> !MatchesAt(s, pat, j)
    ensures r.None? ==> forall j :: from <= j ==> !MatchesAt(s, pat, j)
    decreases |s| - from
  {
    if from + |pat| > |s| then None
    else if s[from..from + |pat|] == pat then Some(from)
    else IndexOf(s, pat, from + 1)
  }

  /** When the first character of `pat` does not occur in `prefix`, the first
      occurrence of `pat` in `prefix + pat + suffix` is the one right after `prefix`. */
  lemma FirstMatchAfterPrefix(prefix: string, pat: string, suffix: string)
    requires |pat| > 0 && pat[0] !in prefix
    ensures IndexOf(prefix + pat + suffix, pat, 0) == Some(|prefix|)
  {
    var s := prefix + pat + suffix;
    assert s[|prefix|..|prefix| + |pat|] == pat;
    assert MatchesAt(s, pat, |prefix|);
    forall j | 0 <= j < |prefix|
      ensures !MatchesAt(s, pat, j)
    {
      assert s[j] == prefix[j];
    }
  }

  /** A match inside the suffix `s[n..]` is the same match in `s`, shifted by `n`. */
  lemma MatchesAtSuffix(s: string, pat: string, n: nat, j: nat)
    requires n <= |s|
    ensures MatchesAt(s, pat, n + j) <==> MatchesAt(s[n..], pat, j)
  {
    if n + j + |pat| <= |s| {
      assert s[n + j..n + j + |pat|] == s[n..][j..j + |pat|];
    }
  }
}
