/**
 The three string operations the documentation parser relies on: JavaScript's
 `s || null`, `String.prototype.replace` with a plain-string pattern (which
 removes only the first occurrence), and `replace(/=$/, '')`.
 */
module Text {
  import opened Results

  /** `s || null`: the empty string is falsy and becomes `null`. */
  function OrNull(s: string): (r: Option<string>)
    ensures r.None? <==> s == ""
    ensures r.Some? ==> r.value == s
  {
    if s == "" then None else Some(s)
  }

  /** `pat` occurs in `s` starting at index `i`. */
  predicate OccursAt(s: string, pat: string, i: nat) {
    i + |pat| <= |s| && s[i..i + |pat|] == pat
  }

  /** The first index at or after `from` where `pat` occurs in `s`. */
  function IndexFrom(s: string, pat: string, from: nat): (r: Option<nat>)
    ensures r.Some? ==>
              && from <= r.value
              && OccursAt(s, pat, r.value)
              && forall j: nat :: from <= j < r.value ==> !OccursAt(s, pat, j)
    ensures r.None? ==> forall j: nat :: from <= j ==> !OccursAt(s, pat, j)
    decreases |s| - from
  {
    if |s| < from + |pat| then None
    else if s[from..from + |pat|] == pat then Some(from)
    else IndexFrom(s, pat, from + 1)
  }

  /** `s.indexOf(pat)`, with `None` for -1. */
  function IndexOf(s: string, pat: string): (r: Option<nat>)
    ensures r.Some? ==> OccursAt(s, pat, r.value)
    ensures r.Some? ==> forall j: nat :: j < r.value ==> !OccursAt(s, pat, j)
    ensures r.None? <==> forall j: nat :: !OccursAt(s, pat, j)
  {
    IndexFrom(s, pat, 0)
  }

  /** `s.replace(pat, '')` for a string `pat`: the first occurrence of `pat` is cut
      out; without one, `s` is returned unchanged. */
  function RemoveFirst(s: string, pat: string): (r: string)
    ensures IndexOf(s, pat).None? ==> r == s
    ensures IndexOf(s, pat).Some? ==> |r| == |s| - |pat|
  {
    match IndexOf(s, pat)
    case None => s
    case Some(i) => s[..i] + s[i + |pat|..]
  }

  /** Putting `pat` back where it was cut out restores the original string. */
  lemma RemoveFirstReinsert(s: string, pat: string)
    requires IndexOf(s, pat).Some?
    ensures var i := IndexOf(s, pat).value;
            i <= |RemoveFirst(s, pat)| && RemoveFirst(s, pat)[..i] + pat + RemoveFirst(s, pat)[i..] == s
  {
    var i := IndexOf(s, pat).value;
    var r := RemoveFirst(s, pat);
    assert r[..i] == s[..i];
    assert r[i..] == s[i + |pat|..];
    assert s == s[..i] + s[i..i + |pat|] + s[i + |pat|..];
  }

  /** A string that starts with `pat` loses exactly that prefix. */
  lemma RemoveFirstPrefix(pat: string, rest: string)
    ensures RemoveFirst(pat + rest, pat) == rest
  {
    assert OccursAt(pat + rest, pat, 0) by {
      assert (pat + rest)[0..|pat|] == pat;
    }
    assert (pat + rest)[|pat|..] == rest;
  }

  /** `s.replace(/=$/, '')`: one trailing `=` is dropped, if there is one. */
  function StripOptionalMarker(s: string): (r: string)
    ensures |s| > 0 && s[|s| - 1] == '=' ==> r + "=" == s
    ensures !(|s| > 0 && s[|s| - 1] == '=') ==> r == s
  {
    if |s| > 0 && s[|s| - 1] == '=' then s[..|s| - 1] else s
  }

  /** Stripping undoes appending the marker, and strips only one `=`. */
  lemma StripOptionalMarkerAppended(t: string)
    ensures StripOptionalMarker(t + "=") == t
    ensures StripOptionalMarker(t + "==") == t + "="
  {
    assert (t + "=")[..|t|] == t;
    assert (t + "==")[..|t| + 1] == t + "=";
  }
}
