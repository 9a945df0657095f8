/** Small string helpers shared by the modules: Python's `startswith`,
    a pattern occurrence at an index, slicing `s[:n]`, and stripping a
    class of characters from either end. */
module Strings {

  predicate StartsWith(s: string, prefix: string)
  {
    |prefix| <= |s| && s[..|prefix|] == prefix
  }

  /** `pat` occurs in `s` starting at index `i`. */
  predicate OccursAt(s: string, pat: string, i: nat)
  {
    i + |pat| <= |s| && s[i..i + |pat|] == pat
  }

  /** One differing character rules an occurrence out. */
  lemma NotOccursAt(s: string, pat: string, i: nat, d: nat)
    requires d < |pat| && i + d < |s| && s[i + d] != pat[d]
    ensures !OccursAt(s, pat, i)
  {
    if i + |pat| <= |s| {
      assert s[i..i + |pat|][d] == s[i + d];
    }
  }

  /** Python's `s[:n]` for a non-negative `n`. */
  function Take(s: string, n: nat): (r: string)
    ensures |r| <= n && |r| <= |s|
    ensures |r| == n || r == s
    ensures StartsWith(s, r)
  {
    if |s| <= n then s else s[..n]
  }

  /** The length of the longest prefix of `s` whose characters all satisfy `p`. */
  function LeadingCount(s: string, p: char -> bool): (n: nat)
    ensures n <= |s|
    ensures forall k :: 0 <= k < n ==> p(s[k])
    ensures n == |s| || !p(s[n])
  {
    if s != [] && p(s[0]) then
      assert forall k :: 1 <= k < |s| ==> s[k] == s[1..][k - 1];
      1 + LeadingCount(s[1..], p)
    else 0
  }

  /** The length of the longest suffix of `s` whose characters all satisfy `p`. */
  function TrailingCount(s: string, p: char -> bool): (n: nat)
    ensures n <= |s|
    ensures forall k :: |s| - n <= k < |s| ==> p(s[k])
    ensures n == |s| || !p(s[|s| - 1 - n])
  {
    if s != [] && p(s[|s| - 1]) then
      assert forall k :: 0 <= k < |s| - 1 ==> s[k] == s[..|s| - 1][k];
      1 + TrailingCount(s[..|s| - 1], p)
    else 0
  }

  /** Python's `strip`: drop the characters satisfying `p` from both ends. */
  function Strip(s: string, p: char -> bool): (r: string)
    ensures r == [] || (!p(r[0]) && !p(r[|r| - 1]))
    ensures exists i, j :: (0 <= i <= j <= |s| && r == s[i..j]
      && (forall k :: 0 <= k < i ==> p(s[k])) && (forall k :: j <= k < |s| ==> p(s[k])))
  {
    var i := LeadingCount(s, p);
    var lead := s[i..];
    var n := |lead| - TrailingCount(lead, p);
    assert lead[..n] == s[i..i + n];
    assert forall k :: i + n <= k < |s| ==> s[k] == lead[k - i];
    assert forall k :: 0 <= k < i ==> p(s[k]);
    assert forall k :: i + n <= k < |s| ==> p(s[k]);
    lead[..n]
  }

  /** The bounds of the slice `strip` keeps. */
  lemma StripBounds(s: string, p: char -> bool) returns (i: int, j: int)
    ensures 0 <= i <= j <= |s| && Strip(s, p) == s[i..j]
    ensures forall k :: 0 <= k < i ==> p(s[k])
    ensures forall k :: j <= k < |s| ==> p(s[k])
  {
    i, j :| 0 <= i <= j <= |s| && Strip(s, p) == s[i..j]
      && (forall k :: 0 <= k < i ==> p(s[k])) && (forall k :: j <= k < |s| ==> p(s[k]));
  }
}
