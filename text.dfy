/**
 * The two string normalisations the handlers apply to form input:
 * Python's `str.strip()` (drop leading and trailing whitespace) and
 * `str.lower()` (user names are stored and compared lowercased).
 */
module Text {

  /** The code points Python's `str.isspace()` accepts, which are what `strip()` removes. */
  predicate IsSpace(c: char) {
    c == ' ' || ('\t' <= c <= '\r') || ('\U{1c}' <= c <= '\U{1f}')
    || c == '\U{85}' || c == '\U{a0}' || c == '\U{1680}'
    || ('\U{2000}' <= c <= '\U{200a}') || c == '\U{2028}' || c == '\U{2029}'
    || c == '\U{202f}' || c == '\U{205f}' || c == '\U{3000}'
  }

  /** Every character of s is whitespace. */
  predicate AllSpace(s: string) {
    forall k :: 0 <= k < |s| ==> IsSpace(s[k])
  }

  /** Number of whitespace characters at the front of s. */
  function LeadingSpace(s: string): (n: nat)
    ensures n <= |s|
    ensures AllSpace(s[..n])
    ensures n < |s| ==> !IsSpace(s[n])
  {
    if s == [] || !IsSpace(s[0]) then 0
    else
      var m := LeadingSpace(s[1..]);
      assert s[..m + 1] == [s[0]] + s[1..][..m];
      m + 1
  }

  /** Number of whitespace characters at the back of s. */
  function TrailingSpace(s: string): (n: nat)
    ensures n <= |s|
    ensures AllSpace(s[|s| - n..])
    ensures n < |s| ==> !IsSpace(s[|s| - 1 - n])
  {
    if s == [] || !IsSpace(s[|s| - 1]) then 0
    else
      var t := s[..|s| - 1];
      var m := TrailingSpace(t);
      assert s[|s| - (m + 1)..] == t[|t| - m..] + [s[|s| - 1]];
      m + 1
  }

  /**
   * Python's `str.strip()`: s with a whitespace-only prefix and suffix cut
   * off, empty exactly when s is all whitespace, and otherwise starting and
   * ending with a non-whitespace character (so the cut is the longest one).
   */
  function Strip(s: string): (r: string)
    ensures exists i, j :: 0 <= i <= j <= |s| && r == s[i..j] && AllSpace(s[..i]) && AllSpace(s[j..])
    ensures r == [] <==> AllSpace(s)
    ensures r != [] ==> !IsSpace(r[0]) && !IsSpace(r[|r| - 1])
  {
    var i := LeadingSpace(s);
    var rest := s[i..];
    var t := TrailingSpace(rest);
    var j := i + |rest| - t;
    var r := rest[..|rest| - t];
    assert i == |s| ==> s[..i] == s;
    assert r == s[i..j];
    assert s[j..] == rest[|rest| - t..];
    r
  }

  /** Stripping is idempotent. */
  lemma StripIdempotent(s: string)
    ensures Strip(Strip(s)) == Strip(s)
  {
    var r := Strip(s);
    if r != [] {
      assert LeadingSpace(r) == 0;
      assert TrailingSpace(r[0..]) == 0 by { assert r[0..] == r; }
      assert r[0..][..|r|] == r;
    }
  }

  /** Python's `str.lower()` on one character (ASCII letters only). */
  function LowerChar(c: char): char {
    if 'A' <= c <= 'Z' then (c as int + 32) as char else c
  }

  /** Python's `str.lower()`, character by character. */
  function Lower(s: string): (r: string)
    ensures |r| == |s|
    ensures forall k :: 0 <= k < |s| ==> r[k] == LowerChar(s[k])
  {
    if s == [] then [] else [LowerChar(s[0])] + Lower(s[1..])
  }

  /** Lowercasing a lowercased string changes nothing. */
  lemma LowerIdempotent(s: string)
    ensures Lower(Lower(s)) == Lower(s)
  {
    var a := Lower(Lower(s));
    assert forall k :: 0 <= k < |s| ==> a[k] == Lower(s)[k];
  }
}
