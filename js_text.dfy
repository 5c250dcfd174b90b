/**
 * The parts of ECMAScript string semantics that the markdown helpers rely on:
 * the whitespace set shared by `String.prototype.trim` and the regular
 * expression class `\s`, the class `\d`, and `trim` itself.
 */
module JsText {

  /** ECMAScript WhiteSpace and LineTerminator code points: TAB, LF, VT, FF,
      CR, SPACE, NBSP, the Unicode "Zs" spaces, LS, PS and the BOM. `trim`
      strips exactly these, and `\s` matches exactly these. */
  predicate IsWhitespace(c: char) {
    c == '\t' || c == '\n' || c == '\U{B}' || c == '\U{C}' || c == '\r' || c == ' '
    || c == '\U{A0}' || c == '\U{1680}' || ('\U{2000}' <= c <= '\U{200A}')
    || c == '\U{2028}' || c == '\U{2029}' || c == '\U{202F}' || c == '\U{205F}'
    || c == '\U{3000}' || c == '\U{FEFF}'
  }

  /** The regular expression class `\d` (without the `u` flag): ASCII 0-9 only. */
  predicate IsAsciiDigit(c: char) {
    '0' <= c <= '9'
  }

  /** The end of the whitespace run that starts at `i`. */
  function SkipWhitespace(s: string, i: nat): (k: nat)
    requires i <= |s|
    ensures i <= k <= |s|
    ensures forall j :: i <= j < k ==> IsWhitespace(s[j])
    ensures k < |s| ==> !IsWhitespace(s[k])
    decreases |s| - i
  {
    if i < |s| && IsWhitespace(s[i]) then SkipWhitespace(s, i + 1) else i
  }

  /** The whitespace run that starts at `i` ends at `k` when `s[i..k]` is
      all whitespace and `s[k]` is not. */
  lemma {:induction false} SkipWhitespaceStops(s: string, i: nat, k: nat)
    requires i <= k < |s|
    requires forall j :: i <= j < k ==> IsWhitespace(s[j])
    requires !IsWhitespace(s[k])
    ensures SkipWhitespace(s, i) == k
    decreases k - i
  {
    if i < k {
      SkipWhitespaceStops(s, i + 1, k);
    }
  }

  /** The start of the whitespace run that ends at `j`, not going below `lo`. */
  function SkipWhitespaceBack(s: string, lo: nat, j: nat): (k: nat)
    requires lo <= j <= |s|
    ensures lo <= k <= j
    ensures forall m :: k <= m < j ==> IsWhitespace(s[m])
    ensures k > lo ==> !IsWhitespace(s[k - 1])
    decreases j
  {
    if j > lo && IsWhitespace(s[j - 1]) then SkipWhitespaceBack(s, lo, j - 1) else j
  }

  /** The whitespace run that ends at `j` starts at `k` when `s[k..j]` is
      all whitespace and `s[k - 1]` is not. */
  lemma {:induction false} SkipWhitespaceBackStops(s: string, lo: nat, k: nat, j: nat)
    requires lo < k <= j <= |s|
    requires forall m :: k <= m < j ==> IsWhitespace(s[m])
    requires !IsWhitespace(s[k - 1])
    ensures SkipWhitespaceBack(s, lo, j) == k
    decreases j - k
  {
    if k < j {
      SkipWhitespaceBackStops(s, lo, k, j - 1);
    }
  }

  /** `String.prototype.trim`: `s` without its leading and trailing whitespace. */
  function Trim(s: string): (r: string)
    ensures |r| <= |s|
    ensures r == [] || (!IsWhitespace(r[0]) && !IsWhitespace(r[|r| - 1]))
  {
    var a := SkipWhitespace(s, 0);
    s[a..SkipWhitespaceBack(s, a, |s|)]
  }

  /** `trim` keeps an infix of `s` and removes only whitespace around it. */
  lemma TrimIsInfix(s: string)
    ensures exists a, b ::
      && 0 <= a <= b <= |s| && Trim(s) == s[a..b]
      && (forall i :: 0 <= i < a ==> IsWhitespace(s[i]))
      && (forall i :: b <= i < |s| ==> IsWhitespace(s[i]))
  {
    var a := SkipWhitespace(s, 0);
    var b := SkipWhitespaceBack(s, a, |s|);
    assert Trim(s) == s[a..b];
  }

  /** A string that neither starts nor ends with whitespace is left as it is. */
  lemma TrimKeepsTrimmed(s: string)
    requires s == [] || (!IsWhitespace(s[0]) && !IsWhitespace(s[|s| - 1]))
    ensures Trim(s) == s
  {
  }

  /** `trim` removes exactly the whitespace around a core that neither
      starts nor ends with whitespace. */
  lemma TrimStripsSurrounding(pre: string, core: string, post: string)
    requires forall i :: 0 <= i < |pre| ==> IsWhitespace(pre[i])
    requires forall i :: 0 <= i < |post| ==> IsWhitespace(post[i])
    requires core != [] && !IsWhitespace(core[0]) && !IsWhitespace(core[|core| - 1])
    ensures Trim(pre + core + post) == core
  {
    var s := pre + core + post;
    var a, b := |pre|, |pre| + |core|;
    assert forall i :: 0 <= i < a ==> s[i] == pre[i];
    assert forall i :: b <= i < |s| ==> s[i] == post[i - b];
    assert s[a] == core[0] && s[b - 1] == core[|core| - 1];
    SkipWhitespaceStops(s, 0, a);
    SkipWhitespaceBackStops(s, a, b, |s|);
    assert s[a..b] == core;
  }

  /** Trimming twice is trimming once. */
  lemma TrimIdempotent(s: string)
    ensures Trim(Trim(s)) == Trim(s)
  {
    TrimKeepsTrimmed(Trim(s));
  }
}
