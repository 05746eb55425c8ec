/**
 * The pieces of JavaScript string semantics the pages rely on:
 * `String.prototype.indexOf` and `String.prototype.includes` on a non-empty
 * pattern, and `String(n)` of an integer.
 */
module JsText {
  import opened Common
  import PyText

  /** The pattern occurs in s starting at position i. */
  predicate OccursAt(s: string, pat: string, i: int) {
    0 <= i && i + |pat| <= |s| && s[i..i + |pat|] == pat
  }

  /** `s.indexOf(pat)`: the first position where pat occurs, if any. */
  function IndexOf(s: string, pat: string): (r: Option<nat>)
    requires |pat| > 0
    ensures r.Some? ==> OccursAt(s, pat, r.value) && forall i :: 0 <= i < r.value ==> !OccursAt(s, pat, i)
    ensures r.None? ==> forall i :: !OccursAt(s, pat, i)
    decreases |s|
  {
    if |s| < |pat| then None
    else if s[..|pat|] == pat then Some(0)
    else
      assert forall i :: 1 <= i ==> (OccursAt(s, pat, i) <==> OccursAt(s[1..], pat, i - 1)) by {
        forall i | 1 <= i
          ensures OccursAt(s, pat, i) <==> OccursAt(s[1..], pat, i - 1)
        {
          if i + |pat| <= |s| {
            assert s[1..][i - 1..i - 1 + |pat|] == s[i..i + |pat|];
          }
        }
      }
      assert !OccursAt(s, pat, 0);
      match IndexOf(s[1..], pat)
      case None => None
      case Some(i) => Some(i + 1)
  }

  /** `s.includes(pat)`: whether pat occurs anywhere in s. */
  function Includes(s: string, pat: string): (b: bool)
    requires |pat| > 0
    ensures b <==> exists i :: OccursAt(s, pat, i)
  {
    IndexOf(s, pat).Some?
  }

  /** `String(n)` of an integer: the decimal form Python's `str(n)` also writes. */
  function ShowInt(n: int): (r: string)
    ensures |r| > 0
  {
    PyText.ShowInt(n)
  }
}
