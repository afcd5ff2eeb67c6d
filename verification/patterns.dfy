/**
 * The regular expressions `ask_question` applies to the user's query, as
 * leftmost-match searches over strings:
 *   - `\b(w1|w2|...)\b` with IGNORECASE (keyword detection), and
 *   - `page\s+(\d+)` with IGNORECASE (page-number extraction).
 * Each search is specified against a declarative "matches at position i"
 * predicate, so the result is the leftmost match `re.search` reports.
 */
module Patterns {
  import opened Util

  /** `\b` at position `p`: exactly one of the neighbouring characters is a
      word character (positions outside the string count as non-word). */
  predicate WordBoundary(s: string, p: int)
    requires 0 <= p <= |s|
  {
    (p > 0 && IsWordChar(s[p - 1])) != (p < |s| && IsWordChar(s[p]))
  }

  /** The lower-case alternative `w` matches `\bw\b` case-insensitively at `i`. */
  predicate WordAt(s: string, w: string, i: int) {
    && 0 <= i <= |s| - |w|
    && Lower(s[i..i + |w|]) == w
    && WordBoundary(s, i)
    && WordBoundary(s, i + |w|)
  }

  /** Some alternative of `\b(w1|w2|...)\b` matches at `i`. */
  predicate AnyWordAt(s: string, ws: seq<string>, i: int) {
    exists k :: 0 <= k < |ws| && WordAt(s, ws[k], i)
  }

  /** Leftmost position at or after `from` where the alternation matches. */
  function LeftmostWord(s: string, ws: seq<string>, from: nat): (r: Option<nat>)
    requires from <= |s|
    ensures r.Some? ==> from <= r.value <= |s| && AnyWordAt(s, ws, r.value)
    ensures r.Some? ==> forall j :: from <= j < r.value ==> !AnyWordAt(s, ws, j)
    ensures r.None? ==> forall j :: from <= j <= |s| ==> !AnyWordAt(s, ws, j)
    decreases |s| - from
  {
    if AnyWordAt(s, ws, from) then Some(from)
    else if from == |s| then None
    else LeftmostWord(s, ws, from + 1)
  }

  /** `re.search(r"\b(w1|w2|...)\b", s, re.IGNORECASE)` is truthy. */
  function SearchWords(s: string, ws: seq<string>): (found: bool)
    ensures found <==> exists i :: 0 <= i <= |s| && AnyWordAt(s, ws, i)
  {
    LeftmostWord(s, ws, 0).Some?
  }

  /** Searching for an alternation succeeds when searching for any one of
      its alternatives does. */
  lemma SearchWordsSubset(s: string, ws: seq<string>, vs: seq<string>)
    requires forall k :: 0 <= k < |ws| ==> ws[k] in vs
    requires SearchWords(s, ws)
    ensures SearchWords(s, vs)
  {
    var i :| 0 <= i <= |s| && AnyWordAt(s, ws, i);
    var k :| 0 <= k < |ws| && WordAt(s, ws[k], i);
    var m :| 0 <= m < |vs| && vs[m] == ws[k];
    assert AnyWordAt(s, vs, i);
  }

  // ---------------------------------------------------------------------
  // page\s+(\d+)
  // ---------------------------------------------------------------------

  /** Length of the run of ASCII digits at the start of `s`. */
  function DigitRun(s: string): (n: nat)
    ensures n <= |s| && AllDigits(s[..n])
    ensures n < |s| ==> !IsDigit(s[n])
  {
    if s == [] || !IsDigit(s[0]) then 0
    else
      var n := 1 + DigitRun(s[1..]);
      assert s[..n] == [s[0]] + s[1..][..n - 1];
      n
  }

  /** Where the digits start when "page" is matched at `i`: after the
      maximal whitespace run (greedy `\s+`). */
  function DigitsStart(s: string, i: nat): (j: nat)
    requires i + 4 <= |s|
    ensures i + 4 <= j <= |s|
  {
    i + 4 + LeadingSpaces(s[i + 4..])
  }

  /** `page\s+(\d+)` matches case-insensitively at `i`: "page", at least one
      whitespace character, then a digit. Backtracking the greedy `\s+`
      cannot help, since it would leave a whitespace character where a digit
      is required. */
  predicate PageAt(s: string, i: int) {
    && 0 <= i
    && i + 4 <= |s|
    && Lower(s[i..i + 4]) == "page"
    && DigitsStart(s, i) > i + 4
    && DigitsStart(s, i) < |s|
    && IsDigit(s[DigitsStart(s, i)])
  }

  /** The integer value of group 1 (the greedy `\d+`) of a match at `i`. */
  function PageValueAt(s: string, i: nat): nat
    requires PageAt(s, i)
  {
    var j := DigitsStart(s, i);
    var n := DigitRun(s[j..]);
    assert s[j..][..n] == s[j..j + n];
    DigitsValue(s[j..j + n])
  }

  /** Leftmost `page\s+(\d+)` match at or after `from`, as its number. */
  function FirstPageFrom(s: string, from: nat): (r: Option<nat>)
    requires from <= |s|
    ensures r.None? <==> forall i :: from <= i <= |s| ==> !PageAt(s, i)
    ensures r.Some? ==> exists i :: from <= i <= |s| && PageAt(s, i) && r.value == PageValueAt(s, i)
                           && forall j :: from <= j < i ==> !PageAt(s, j)
    decreases |s| - from
  {
    if PageAt(s, from) then Some(PageValueAt(s, from))
    else if from == |s| then None
    else FirstPageFrom(s, from + 1)
  }
}
