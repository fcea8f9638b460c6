/** Character classes and small string operations that the substitution engine
    relies on: JavaScript's `\d`, the Hangul syllable block, `String.prototype.trim`,
    `String.prototype.indexOf`, and literal matching under a case fold. */
module Text {

  datatype Option<+T> = None | Some(value: T)

  /** `\d` in a JavaScript regular expression: the ASCII digits only. */
  predicate IsDigit(c: char) {
    '0' <= c <= '9'
  }

  /** The class `[가-힯]` used for the parenthetical of a name. */
  predicate IsHangul(c: char) {
    '\U{AC00}' <= c <= '\U{D7AF}'
  }

  /** WhiteSpace and LineTerminator of ECMAScript: what `trim()` removes. */
  predicate IsSpace(c: char) {
    c == '\t' || c == '\n' || c == '\U{B}' || c == '\U{C}' || c == '\r' || c == ' '
    || c == '\U{A0}' || c == '\U{1680}' || ('\U{2000}' <= c <= '\U{200A}')
    || c == '\U{2028}' || c == '\U{2029}' || c == '\U{202F}' || c == '\U{205F}'
    || c == '\U{3000}' || c == '\U{FEFF}'
  }

  /** Number of white-space characters at the start of `s`. */
  function LeadingSpaces(s: string): (n: nat)
    ensures n <= |s|
    ensures forall k :: 0 <= k < n ==> IsSpace(s[k])
    ensures n == |s| || !IsSpace(s[n])
  {
    if s == [] || !IsSpace(s[0]) then 0 else 1 + LeadingSpaces(s[1..])
  }

  /** Number of white-space characters at the end of `s[lo..hi]`. */
  function TrailingSpaces(s: string, lo: nat, hi: nat): (n: nat)
    requires lo <= hi <= |s|
    ensures n <= hi - lo
    ensures forall k :: hi - n <= k < hi ==> IsSpace(s[k])
    ensures n == hi - lo || !IsSpace(s[hi - n - 1])
    decreases hi - lo
  {
    if hi == lo || !IsSpace(s[hi - 1]) then 0 else 1 + TrailingSpaces(s, lo, hi - 1)
  }

  /** `String.prototype.trim`: `s` without its leading and trailing white space.
      The result is the slice of `s` that starts after the leading white space;
      only white space follows it, and it neither starts nor ends with white space. */
  function Trim(s: string): (r: string)
    ensures LeadingSpaces(s) + |r| <= |s|
    ensures r == s[LeadingSpaces(s)..LeadingSpaces(s) + |r|]
    ensures forall k :: LeadingSpaces(s) + |r| <= k < |s| ==> IsSpace(s[k])
    ensures r == [] || (!IsSpace(r[0]) && !IsSpace(r[|r| - 1]))
  {
    var lo := LeadingSpaces(s);
    var n := TrailingSpaces(s, lo, |s|);
    s[lo..|s| - n]
  }

  /** `pat` occurs in `s` at position `p`. */
  predicate OccursAt(s: string, p: nat, pat: string) {
    p + |pat| <= |s| && s[p..p + |pat|] == pat
  }

  /** `String.prototype.indexOf`: the first position of `pat` in `s`, if any. */
  function IndexOf(s: string, pat: string, from: nat := 0): (r: Option<nat>)
    requires from <= |s|
    ensures r.Some? ==> from <= r.value && OccursAt(s, r.value, pat)
    ensures r.Some? ==> forall q :: from <= q < r.value ==> !OccursAt(s, q, pat)
    ensures r.None? ==> forall q :: from <= q <= |s| ==> !OccursAt(s, q, pat)
    decreases |s| - from
  {
    if OccursAt(s, from, pat) then Some(from)
    else if from == |s| then None
    else IndexOf(s, pat, from + 1)
  }

  /** The literal `key` occurs in `s` at position `i` when both are compared
      character by character under the case fold `fold` (the `i` flag). */
  predicate FoldMatchAt(s: string, i: nat, key: string, fold: char -> char) {
    i + |key| <= |s| && forall j :: 0 <= j < |key| ==> fold(s[i + j]) == fold(key[j])
  }
}
