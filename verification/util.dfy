/**
 * Shared vocabulary for the model: an Option type, Python-compatible
 * character classes, and the handful of `str` operations the application
 * relies on (strip, lower, split, join, startswith, int/str conversion),
 * each stated by what it computes rather than by how.
 */
module Util {

  /** Python's `None`-or-value. */
  datatype Option<+T> = None | Some(value: T) {
    /** `x if x is not None else default` */
    function GetOr(default: T): T {
      if Some? then value else default
    }
  }

  /** Python truthiness of an optional string: present and non-empty. */
  predicate Truthy(o: Option<string>) {
    o.Some? && o.value != ""
  }

  /** A value or the error a route raises instead of returning. */
  datatype Result<+T, +E> = Ok(value: T) | Err(error: E)

  /** `HTTPException(status_code, detail)` */
  datatype HttpError = HttpError(status: nat, detail: string)

  // ---------------------------------------------------------------------
  // Character classes
  // ---------------------------------------------------------------------

  /** Exactly the characters for which Python's `str.isspace()` holds; the
      same set is used by `str.strip()` and by `\s` in a `str` pattern. */
  predicate IsSpace(c: char) {
    || c == ' '
    || ('\t' <= c <= '\r')
    || ('\U{1C}' <= c <= '\U{1F}')
    || c == '\U{85}' || c == '\U{A0}' || c == '\U{1680}'
    || ('\U{2000}' <= c <= '\U{200A}')
    || c == '\U{2028}' || c == '\U{2029}' || c == '\U{202F}'
    || c == '\U{205F}' || c == '\U{3000}'
  }

  predicate IsDigit(c: char) { '0' <= c <= '9' }

  predicate IsAsciiLetter(c: char) { ('a' <= c <= 'z') || ('A' <= c <= 'Z') }

  /** ASCII word characters: letters, digits and underscore. */
  predicate IsWordChar(c: char) { IsAsciiLetter(c) || IsDigit(c) || c == '_' }

  predicate AllSpace(s: string) {
    forall i :: 0 <= i < |s| ==> IsSpace(s[i])
  }

  predicate AllDigits(s: string) {
    forall i :: 0 <= i < |s| ==> IsDigit(s[i])
  }

  function LowerChar(c: char): (r: char)
    ensures IsAsciiLetter(c) ==> 'a' <= r <= 'z'
    ensures !('A' <= c <= 'Z') ==> r == c
  {
    if 'A' <= c <= 'Z' then (c as int + 32) as char else c
  }

  // ---------------------------------------------------------------------
  // Case mapping, prefixes, infixes
  // ---------------------------------------------------------------------

  /** `s.lower()` restricted to the ASCII case mapping. */
  function Lower(s: string): (r: string)
    ensures |r| == |s|
    ensures forall i :: 0 <= i < |s| ==> r[i] == LowerChar(s[i])
  {
    if s == [] then [] else [LowerChar(s[0])] + Lower(s[1..])
  }

  predicate StartsWith(s: string, prefix: string) {
    |prefix| <= |s| && s[..|prefix|] == prefix
  }

  predicate EndsWith(s: string, suffix: string) {
    |suffix| <= |s| && s[|s| - |suffix|..] == suffix
  }

  /** `a` occurs in `s` starting at index `i`. */
  predicate InfixAt(a: string, s: string, i: int) {
    0 <= i <= |s| - |a| && s[i..i + |a|] == a
  }

  /** `a in s` for strings: `a` occurs contiguously in `s`. */
  predicate IsInfix(a: string, s: string) {
    exists i :: 0 <= i <= |s| - |a| && InfixAt(a, s, i)
  }

  lemma InfixOfConcat(a: string, s: string, t: string)
    requires IsInfix(a, s) || IsInfix(a, t)
    ensures IsInfix(a, s + t)
  {
    if IsInfix(a, s) {
      var i: int :| 0 <= i <= |s| - |a| && InfixAt(a, s, i);
      assert (s + t)[i..i + |a|] == a;
      assert InfixAt(a, s + t, i);
    } else {
      var i: int :| 0 <= i <= |t| - |a| && InfixAt(a, t, i);
      assert 0 <= i <= |t| - |a| && t[i..i + |a|] == a;
      assert (s + t)[|s|..] == t;
      assert (s + t)[|s| + i..|s| + i + |a|] == t[i..i + |a|];
      assert InfixAt(a, s + t, |s| + i);
    }
  }

  lemma InfixTrans(a: string, b: string, c: string)
    requires IsInfix(a, b) && IsInfix(b, c)
    ensures IsInfix(a, c)
  {
    var i: int :| 0 <= i <= |b| - |a| && InfixAt(a, b, i);
    var j: int :| 0 <= j <= |c| - |b| && InfixAt(b, c, j);
    forall k | 0 <= k < |a| ensures c[j + i + k] == a[k] {
      assert a[k] == b[i..i + |a|][k] == b[i + k];
      assert b[i + k] == c[j..j + |b|][i + k] == c[j + i + k];
    }
    assert c[j + i..j + i + |a|] == a;
    assert InfixAt(a, c, j + i);
  }

  lemma InfixSelf(a: string)
    ensures IsInfix(a, a)
  {
    assert a[0..|a|] == a;
    assert InfixAt(a, a, 0);
  }

  // ---------------------------------------------------------------------
  // strip
  // ---------------------------------------------------------------------

  function LeadingSpaces(s: string): (n: nat)
    ensures n <= |s|
    ensures forall i :: 0 <= i < n ==> IsSpace(s[i])
    ensures n < |s| ==> !IsSpace(s[n])
  {
    if s == [] || !IsSpace(s[0]) then 0 else 1 + LeadingSpaces(s[1..])
  }

  function TrailingStart(s: string): (n: nat)
    ensures n <= |s|
    ensures forall i :: n <= i < |s| ==> IsSpace(s[i])
    ensures n > 0 ==> !IsSpace(s[n - 1])
  {
    if s == [] || !IsSpace(s[|s| - 1]) then |s| else TrailingStart(s[..|s| - 1])
  }

  /** `s.strip()`: the infix of `s` left after removing leading and trailing
      whitespace. The result is empty exactly when `s` is all whitespace. */
  function Strip(s: string): (r: string)
    ensures |r| <= |s|
    ensures r == [] || (!IsSpace(r[0]) && !IsSpace(r[|r| - 1]))
    ensures exists i :: InfixAt(r, s, i) && AllSpace(s[..i]) && AllSpace(s[i + |r|..])
    ensures r == [] <==> AllSpace(s)
  {
    var a := LeadingSpaces(s);
    if a == |s| then
      assert s[0..0] == [] && s[..0] == [] && s[0..] == s;
      assert InfixAt([], s, 0);
      []
    else
      var b := TrailingStart(s);
      assert a < b;
      var r := s[a..b];
      assert InfixAt(r, s, a);
      r
  }

  lemma StripOfAllSpace(s: string)
    requires AllSpace(s)
    ensures Strip(s) == []
  {
  }

  // ---------------------------------------------------------------------
  // join and split
  // ---------------------------------------------------------------------

  /** `sep.join(parts)` */
  function Join(parts: seq<string>, sep: string): (r: string)
    ensures |parts| == 1 ==> r == parts[0]
  {
    if |parts| == 0 then ""
    else if |parts| == 1 then parts[0]
    else parts[0] + sep + Join(parts[1..], sep)
  }

  lemma JoinAppend(parts: seq<string>, x: string, sep: string)
    ensures Join(parts + [x], sep) == if parts == [] then x else Join(parts, sep) + sep + x
  {
    if |parts| <= 1 {
    } else {
      assert (parts + [x])[1..] == parts[1..] + [x];
      JoinAppend(parts[1..], x, sep);
    }
  }

  /** Every joined part occurs in the joined string. */
  lemma {:induction false} JoinContainsPart(parts: seq<string>, sep: string, k: nat)
    requires k < |parts|
    ensures IsInfix(parts[k], Join(parts, sep))
  {
    if |parts| == 1 {
      InfixSelf(parts[0]);
    } else if k == 0 {
      InfixSelf(parts[0]);
      InfixOfConcat(parts[0], parts[0], sep);
      InfixOfConcat(parts[0], parts[0] + sep, Join(parts[1..], sep));
    } else {
      JoinContainsPart(parts[1..], sep, k - 1);
      InfixOfConcat(parts[k], parts[0] + sep, Join(parts[1..], sep));
    }
  }

  /** `s.split(sep)` for a one-character separator: the pieces between
      separators, none of which contains the separator, whose join is `s`. */
  function Split(s: string, sep: char): (parts: seq<string>)
    ensures |parts| >= 1
    ensures forall k :: 0 <= k < |parts| ==> sep !in parts[k]
    ensures Join(parts, [sep]) == s
  {
    if s == [] then [""]
    else if s[0] == sep then
      var rest := Split(s[1..], sep);
      assert [s[0]] + s[1..] == s;
      [""] + rest
    else
      var rest := Split(s[1..], sep);
      var head := [s[0]] + rest[0];
      assert sep !in head;
      if |rest| == 1 then
        assert [s[0]] + s[1..] == s;
        [head]
      else
        assert ([head] + rest[1..])[1..] == rest[1..];
        assert [s[0]] + s[1..] == s;
        [head] + rest[1..]
  }

  lemma SplitNoSep(p: string, sep: char)
    requires sep !in p
    ensures Split(p, sep) == [p]
  {
    if p != [] {
      SplitNoSep(p[1..], sep);
    }
  }

  lemma {:induction false} SplitPieceThenSep(p: string, sep: char, t: string)
    requires sep !in p
    ensures Split(p + [sep] + t, sep) == [p] + Split(t, sep)
  {
    if p == [] {
      assert p + [sep] + t == [sep] + t;
      assert ([sep] + t)[1..] == t;
    } else {
      var s := p + [sep] + t;
      assert s[0] == p[0] && s[1..] == p[1..] + [sep] + t;
      SplitPieceThenSep(p[1..], sep, t);
      assert [p[0]] + p[1..] == p;
    }
  }

  /** Splitting undoes joining when no piece contains the separator. */
  lemma {:induction false} SplitJoin(parts: seq<string>, sep: char)
    requires |parts| >= 1
    requires forall k :: 0 <= k < |parts| ==> sep !in parts[k]
    ensures Split(Join(parts, [sep]), sep) == parts
  {
    if |parts| == 1 {
      SplitNoSep(parts[0], sep);
    } else {
      SplitJoin(parts[1..], sep);
      SplitPieceThenSep(parts[0], sep, Join(parts[1..], [sep]));
      assert [parts[0]] + parts[1..] == parts;
    }
  }

  // ---------------------------------------------------------------------
  // Order-preserving filtering and de-duplication
  // ---------------------------------------------------------------------

  /** Index of the first occurrence of `x` in `s`. */
  function FirstIndex<T(==)>(s: seq<T>, x: T): (i: nat)
    requires x in s
    ensures i < |s| && s[i] == x
    ensures forall k :: 0 <= k < i ==> s[k] != x
  {
    if s[0] == x then 0 else 1 + FirstIndex(s[1..], x)
  }

  lemma FirstIndexAt<T>(s: seq<T>, x: T, i: nat)
    requires i < |s| && s[i] == x && forall k :: 0 <= k < i ==> s[k] != x
    ensures FirstIndex(s, x) == i
  {
  }

  lemma FirstIndexPrefix<T>(s: seq<T>, t: seq<T>, x: T)
    requires x in s
    ensures x in s + t && FirstIndex(s + t, x) == FirstIndex(s, x)
  {
    var i := FirstIndex(s, x);
    var j := FirstIndex(s + t, x);
    assert (s + t)[i] == x;
    assert forall k :: 0 <= k < |s| ==> (s + t)[k] == s[k];
  }

  /** `[f(x) for x in xs]` */
  function Map<T, U>(xs: seq<T>, f: T -> U): (ys: seq<U>)
    ensures |ys| == |xs|
    ensures forall i :: 0 <= i < |xs| ==> ys[i] == f(xs[i])
  {
    seq(|xs|, i requires 0 <= i < |xs| => f(xs[i]))
  }

  predicate NoDuplicates<T(==)>(s: seq<T>) {
    forall i, j :: 0 <= i < j < |s| ==> s[i] != s[j]
  }

  /** Distinct elements of `s`, each kept at its first appearance — what a
      Python loop builds when it appends to a list guarded by a `seen` set,
      or the key order of a dict filled by a loop. */
  function Dedup<T(==,!new)>(s: seq<T>): (r: seq<T>)
    ensures forall x :: x in r <==> x in s
    ensures NoDuplicates(r)
    ensures forall i, j :: 0 <= i < j < |r| ==> FirstIndex(s, r[i]) < FirstIndex(s, r[j])
    ensures |r| <= |s|
  {
    if s == [] then []
    else
      var init := s[..|s| - 1];
      var x := s[|s| - 1];
      var d := Dedup(init);
      assert init + [x] == s;
      forall y | y in init
        ensures FirstIndex(s, y) == FirstIndex(init, y)
      {
        FirstIndexPrefix(init, [x], y);
      }
      if x in d then d
      else
        assert FirstIndex(s, x) == |s| - 1;
        d + [x]
  }

  lemma DedupAppendNew<T(!new)>(s: seq<T>, x: T)
    requires x !in s
    ensures Dedup(s + [x]) == Dedup(s) + [x]
  {
    assert (s + [x])[..|s|] == s;
  }

  lemma DedupAppendOld<T(!new)>(s: seq<T>, x: T)
    requires x in s
    ensures Dedup(s + [x]) == Dedup(s)
  {
    assert (s + [x])[..|s|] == s;
  }

  // ---------------------------------------------------------------------
  // Decimal integers: str(n) and int(s)
  // ---------------------------------------------------------------------

  function DigitChar(d: nat): (c: char)
    requires d < 10
    ensures IsDigit(c)
  {
    ('0' as int + d) as char
  }

  function DigitValue(c: char): (d: nat)
    requires IsDigit(c)
    ensures d < 10
  {
    c as int - '0' as int
  }

  /** Value of a run of decimal digits, most significant first. */
  function DigitsValue(s: string): nat
    requires AllDigits(s)
  {
    if s == [] then 0 else DigitsValue(s[..|s| - 1]) * 10 + DigitValue(s[|s| - 1])
  }

  /** `str(n)` for a natural number: canonical decimal digits (no leading
      zero) that read back as `n`. */
  function NatToString(n: nat): (r: string)
    ensures |r| >= 1 && AllDigits(r)
    ensures DigitsValue(r) == n
    ensures r[0] == '0' ==> n == 0
  {
    if n < 10 then
      [DigitChar(n)]
    else
      var p := NatToString(n / 10);
      var r := p + [DigitChar(n % 10)];
      assert r[..|r| - 1] == p;
      r
  }

  /** `str(i)` for an integer. */
  function IntToString(i: int): (r: string)
    ensures |r| >= 1
    ensures i >= 0 ==> AllDigits(r) && DigitsValue(r) == i
    ensures i < 0 ==> r[0] == '-' && AllDigits(r[1..]) && DigitsValue(r[1..]) == -i
  {
    if i >= 0 then NatToString(i)
    else
      var r := "-" + NatToString(-i);
      assert r[1..] == NatToString(-i);
      r
  }

  /** `int(s)` for a string: surrounding whitespace, an optional sign and one
      or more ASCII digits; anything else is the `ValueError` branch (None). */
  function ParseInt(s: string): (r: Option<int>)
    ensures r.Some? ==> exists t :: t == Strip(s) && |t| >= 1
  {
    var t := Strip(s);
    if t == [] then None
    else if t[0] == '-' || t[0] == '+' then
      var ds := t[1..];
      if ds != [] && AllDigits(ds) then
        Some(if t[0] == '-' then -(DigitsValue(ds) as int) else DigitsValue(ds))
      else None
    else if AllDigits(t) then Some(DigitsValue(t))
    else None
  }

  /** `int(str(i)) == i` */
  lemma ParseIntToString(i: int)
    ensures ParseInt(IntToString(i)) == Some(i)
  {
    var r := IntToString(i);
    if i >= 0 {
      assert IsDigit(r[0]) && IsDigit(r[|r| - 1]);
      StripNoSpaceEnds(r);
    } else {
      var ds := r[1..];
      assert ds == NatToString(-i);
      assert r[|r| - 1] == ds[|ds| - 1];
      assert IsDigit(r[|r| - 1]);
      StripNoSpaceEnds(r);
    }
  }

  lemma {:induction false} LowerConcat(a: string, b: string)
    ensures Lower(a + b) == Lower(a) + Lower(b)
    decreases |a|
  {
    if a != [] {
      assert (a + b)[0] == a[0];
      assert (a + b)[1..] == a[1..] + b;
      LowerConcat(a[1..], b);
    } else {
      assert a + b == b;
    }
  }

  /** Trailing whitespace of `p + t` lies within `t` when `t` is not blank. */
  lemma {:induction false} TrailingStartConcat(p: string, t: string)
    requires !AllSpace(t)
    ensures TrailingStart(p + t) == |p| + TrailingStart(t)
    decreases |t|
  {
    var s := p + t;
    assert s[|s| - 1] == t[|t| - 1];
    if IsSpace(t[|t| - 1]) {
      var t' := t[..|t| - 1];
      assert s[..|s| - 1] == p + t';
      assert !AllSpace(t') by {
        var k :| 0 <= k < |t| && !IsSpace(t[k]);
        assert k < |t| - 1 && t'[k] == t[k];
      }
      TrailingStartConcat(p, t');
    }
  }

  /** With no leading whitespace, `strip()` only cuts the tail. */
  lemma StripFromNonSpaceHead(s: string)
    requires s != [] && !IsSpace(s[0])
    ensures Strip(s) == s[..TrailingStart(s)]
  {
    assert LeadingSpaces(s) == 0;
    assert TrailingStart(s) > 0;
  }

  lemma StripNoSpaceEnds(s: string)
    requires s != [] && !IsSpace(s[0]) && !IsSpace(s[|s| - 1])
    ensures Strip(s) == s
  {
    assert LeadingSpaces(s) == 0;
    assert TrailingStart(s) == |s|;
    assert s[0..|s|] == s;
  }
}
