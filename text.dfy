/** String helpers the calculator shares: JavaScript's `String.prototype.trim`. */
module Text {

  /** The characters `trim` removes: ECMAScript WhiteSpace and LineTerminator. */
  predicate IsSpace(c: char) {
    c == '\t' || c == '\n' || c == '\U{B}' || c == '\U{C}' || c == '\r' || c == ' ' ||
    c == '\U{A0}' || c == '\U{1680}' || ('\U{2000}' <= c <= '\U{200A}') ||
    c == '\U{2028}' || c == '\U{2029}' || c == '\U{202F}' || c == '\U{205F}' ||
    c == '\U{3000}' || c == '\U{FEFF}'
  }

  /** The first index at or after `i` that does not hold white space (`|s|` if none). */
  function SkipSpaceForward(s: string, i: nat): (k: nat)
    requires i <= |s|
    ensures i <= k <= |s|
    ensures forall j :: i <= j < k ==> IsSpace(s[j])
    ensures k < |s| ==> !IsSpace(s[k])
    decreases |s| - i
  {
    if i < |s| && IsSpace(s[i]) then SkipSpaceForward(s, i + 1) else i
  }

  /** The least index `e` in `lo..hi` such that `s[e..hi]` is all white space. */
  function SkipSpaceBackward(s: string, lo: nat, hi: nat): (e: nat)
    requires lo <= hi <= |s|
    ensures lo <= e <= hi
    ensures forall j :: e <= j < hi ==> IsSpace(s[j])
    ensures e > lo ==> !IsSpace(s[e - 1])
    decreases hi - lo
  {
    if hi > lo && IsSpace(s[hi - 1]) then SkipSpaceBackward(s, lo, hi - 1) else hi
  }

  /** Where the trimmed text starts in `s`. */
  function TrimStartIndex(s: string): (k: nat)
    ensures k <= |s|
  {
    SkipSpaceForward(s, 0)
  }

  /** Where the trimmed text ends in `s`. */
  function TrimEndIndex(s: string): (e: nat)
    ensures TrimStartIndex(s) <= e <= |s|
  {
    SkipSpaceBackward(s, TrimStartIndex(s), |s|)
  }

  /** `s.trim()`: `s` without the white space at either end. */
  function Trim(s: string): (r: string)
    ensures |r| <= |s|
    ensures r != [] ==> !IsSpace(r[0]) && !IsSpace(r[|r| - 1])
  {
    s[TrimStartIndex(s)..TrimEndIndex(s)]
  }

  /** Trimming cuts only white space, and only at the two ends. */
  lemma TrimInfix(s: string)
    ensures var (k, e) := (TrimStartIndex(s), TrimEndIndex(s));
      Trim(s) == s[k..e] &&
      (forall j :: 0 <= j < k ==> IsSpace(s[j])) &&
      (forall j :: e <= j < |s| ==> IsSpace(s[j]))
  {
  }

  /** Trimming twice is trimming once. */
  lemma TrimIdempotent(s: string)
    ensures Trim(Trim(s)) == Trim(s)
  {
    var r := Trim(s);
    TrimEdgeFree(r);
  }

  /** A string with no white space at either end is left as it is. */
  lemma TrimEdgeFree(s: string)
    requires s == [] || (!IsSpace(s[0]) && !IsSpace(s[|s| - 1]))
    ensures Trim(s) == s
  {
    assert TrimStartIndex(s) == 0;
    assert TrimEndIndex(s) == |s|;
  }
}
