/**
 * `isPageNumberLine`: whether a line of the System Reference Document text
 * is a page footer such as "104 System Reference Document 5.2.1". The line
 * is trimmed and then tested against the regular expression
 * `^\d+\s+System Reference Document`, which is anchored at the start only.
 */
module PageNumber {
  import opened JsText

  const Marker: string := "System Reference Document"

  /** The end of the run of ASCII digits that starts at `i`. */
  function SkipDigits(s: string, i: nat): (k: nat)
    requires i <= |s|
    ensures i <= k <= |s|
    ensures forall j :: i <= j < k ==> IsAsciiDigit(s[j])
    ensures k < |s| ==> !IsAsciiDigit(s[k])
    decreases |s| - i
  {
    if i < |s| && IsAsciiDigit(s[i]) then SkipDigits(s, i + 1) else i
  }

  /** The run of digits that starts at `i` ends at `k` when `s[i..k]` is all
      digits and `s[k]` is not a digit. */
  lemma {:induction false} SkipDigitsStops(s: string, i: nat, k: nat)
    requires i <= k < |s|
    requires forall j :: i <= j < k ==> IsAsciiDigit(s[j])
    requires !IsAsciiDigit(s[k])
    ensures SkipDigits(s, i) == k
    decreases k - i
  {
    if i < k {
      SkipDigitsStops(s, i + 1, k);
    }
  }

  /** The regular expression, scanned greedily: the longest run of digits
      from the start, then the longest run of whitespace, then the marker.
      Digits, whitespace and the marker's first letter are pairwise
      distinct, so backtracking could never find another match. */
  predicate MatchesPageNumber(s: string) {
    var d := SkipDigits(s, 0);
    var w := SkipWhitespace(s, d);
    0 < d < w && w + |Marker| <= |s| && s[w..w + |Marker|] == Marker
  }

  /** `isPageNumberLine`. */
  predicate IsPageNumberLine(text: string) {
    MatchesPageNumber(Trim(text))
  }

  /** The regular expression matches `s` with digits in `s[..d]`,
      whitespace in `s[d..w]` and the marker starting at `w`. */
  ghost predicate MatchAt(s: string, d: nat, w: nat) {
    && 0 < d < w && w + |Marker| <= |s|
    && (forall j :: 0 <= j < d ==> IsAsciiDigit(s[j]))
    && (forall j :: d <= j < w ==> IsWhitespace(s[j]))
    && s[w..w + |Marker|] == Marker
  }

  /** The greedy scan accepts exactly the strings the regular expression matches. */
  lemma MatchesPageNumberIff(s: string)
    ensures MatchesPageNumber(s) <==> exists d, w :: MatchAt(s, d, w)
  {
    var d := SkipDigits(s, 0);
    var w := SkipWhitespace(s, d);
    if MatchesPageNumber(s) {
      assert MatchAt(s, d, w);
    }
    if d': nat, w': nat :| MatchAt(s, d', w') {
      assert s[w'] == Marker[0];
      SkipDigitsStops(s, 0, d');
      SkipWhitespaceStops(s, d', w');
    }
  }

  /** A line is a page-number line exactly when, once trimmed, it starts
      with one or more ASCII digits, then one or more whitespace characters,
      then "System Reference Document"; anything may follow. */
  lemma IsPageNumberLineIff(text: string)
    ensures IsPageNumberLine(text) <==> exists d, w :: MatchAt(Trim(text), d, w)
  {
    MatchesPageNumberIff(Trim(text));
  }

  /** Surrounding whitespace never changes the answer. */
  lemma IsPageNumberLineTrimInvariant(text: string)
    ensures IsPageNumberLine(Trim(text)) == IsPageNumberLine(text)
  {
    TrimIdempotent(text);
  }

  /** On one or more digits followed by one or more whitespace characters
      and then a non-whitespace character or the end, the greedy scan stops
      at the end of each run. */
  lemma ScanStopsAfterNumber(digits: string, sep: string, rest: string)
    requires |digits| > 0 && forall j :: 0 <= j < |digits| ==> IsAsciiDigit(digits[j])
    requires |sep| > 0 && forall j :: 0 <= j < |sep| ==> IsWhitespace(sep[j])
    requires rest == [] || !IsWhitespace(rest[0])
    ensures SkipDigits(digits + sep + rest, 0) == |digits|
    ensures SkipWhitespace(digits + sep + rest, |digits|) == |digits| + |sep|
  {
    var s := digits + sep + rest;
    var d, w := |digits|, |digits| + |sep|;
    assert forall j :: 0 <= j < d ==> s[j] == digits[j];
    assert forall j :: d <= j < w ==> s[j] == sep[j - d];
    assert s[d] == sep[0];
    SkipDigitsStops(s, 0, d);
    if rest != [] {
      assert s[w] == rest[0];
      SkipWhitespaceStops(s, d, w);
    }
  }

  /** After one or more digits and one or more whitespace characters, the
      line matches exactly when what follows starts with the marker; a line
      that ends right after the whitespace does not match. */
  lemma MatchesAfterNumber(digits: string, sep: string, rest: string)
    requires |digits| > 0 && forall j :: 0 <= j < |digits| ==> IsAsciiDigit(digits[j])
    requires |sep| > 0 && forall j :: 0 <= j < |sep| ==> IsWhitespace(sep[j])
    requires rest == [] || !IsWhitespace(rest[0])
    ensures MatchesPageNumber(digits + sep + rest) <==> |Marker| <= |rest| && rest[..|Marker|] == Marker
  {
    ScanStopsAfterNumber(digits, sep, rest);
    var s, w := digits + sep + rest, |digits| + |sep|;
    if |Marker| <= |rest| {
      assert s[w..] == rest;
      assert s[w..w + |Marker|] == rest[..|Marker|];
    }
  }

  /** The footer quoted in the source's doc comment is a page-number line. */
  lemma FooterIsPageNumberLine()
    ensures IsPageNumberLine("104 " + Marker + " 5.2.1")
  {
    var s := "104 " + Marker + " 5.2.1";
    var rest := Marker + " 5.2.1";
    assert s == "104" + " " + rest;
    TrimKeepsTrimmed(s);
    assert rest[..|Marker|] == Marker;
    MatchesAfterNumber("104", " ", rest);
  }

  /** So is the same footer indented and separated by a tab. */
  lemma IndentedFooterIsPageNumberLine()
    ensures IsPageNumberLine("  " + "12" + "\t" + Marker)
  {
    var u := "12" + "\t" + Marker;
    assert "  " + "12" + "\t" + Marker == "  " + u + [];
    TrimStripsSurrounding("  ", u, []);
    assert Marker[..|Marker|] == Marker;
    MatchesAfterNumber("12", "\t", Marker);
  }

  /** A line without a leading number is not a page-number line: neither
      the marker followed by the number nor a word before the number. */
  lemma NumberMustComeFirst()
    ensures !IsPageNumberLine("System Reference Document 104")
    ensures !IsPageNumberLine("Page 104 System Reference Document")
  {
    TrimKeepsTrimmed("System Reference Document 104");
    TrimKeepsTrimmed("Page 104 System Reference Document");
  }

  /** Nor is one without whitespace between the number and the marker. */
  lemma SeparatorRequired()
    ensures !IsPageNumberLine("104System Reference Document")
  {
    var b := "104System Reference Document";
    TrimKeepsTrimmed(b);
    SkipDigitsStops(b, 0, 3);
  }

  /** The marker is matched case-sensitively. */
  lemma MarkerIsCaseSensitive()
    ensures !IsPageNumberLine("104" + " " + "system reference document")
  {
    var rest := "system reference document";
    TrimKeepsTrimmed("104" + " " + rest);
    assert rest[0] != Marker[0];
    MatchesAfterNumber("104", " ", rest);
  }
}
