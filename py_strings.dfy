/** The few Python `str` operations the JSON-recovery path uses, restricted to ASCII
    where Python consults Unicode tables (whitespace, lower-casing). */
module PyStrings {

  /** The characters below 128 for which Python's `str.isspace()` holds: the usual
      six, plus the four separators U+001C..U+001F. These are what `str.strip()`
      with no argument removes. */
  const Whitespace: set<char> :=
    {' ', '\t', '\n', '\r', '\U{000B}', '\U{000C}', '\U{001C}', '\U{001D}', '\U{001E}', '\U{001F}'}

  /** The argument of `str.strip("`")`. */
  const Backtick: set<char> := {'`'}

  /** `s.startswith(prefix)`: `prefix` occurs in `s` at index 0. */
  predicate StartsWith(s: string, prefix: string)
    ensures StartsWith(s, prefix) <==> OccursAt(prefix, s, 0)
  {
    |prefix| <= |s| && s[..|prefix|] == prefix
  }

  /** `sub in s` for two strings: `sub` occurs in `s` as a contiguous run. */
  predicate IsSubstring(sub: string, s: string) {
    exists i :: 0 <= i <= |s| && OccursAt(sub, s, i)
  }

  /** The empty string and every prefix of `s` occur in it; nothing longer does. */
  lemma PrefixIsSubstring(sub: string, s: string)
    ensures sub == [] ==> IsSubstring(sub, s)
    ensures StartsWith(s, sub) ==> IsSubstring(sub, s)
    ensures IsSubstring(sub, s) ==> |sub| <= |s|
  {
    if sub == [] || StartsWith(s, sub) {
      assert OccursAt(sub, s, 0);
    }
  }

  /** `sub` occurs in `s` starting at index `i`. */
  predicate OccursAt(sub: string, s: string, i: int) {
    0 <= i <= |s| - |sub| && s[i..i + |sub|] == sub
  }

  /** Length of the longest prefix of `s` made of characters in `cs`. */
  function LeadingRun(s: string, cs: set<char>): (n: nat)
    ensures n <= |s|
    ensures forall k :: 0 <= k < n ==> s[k] in cs
    ensures n < |s| ==> s[n] !in cs
    decreases |s|
  {
    if s == [] || s[0] !in cs then 0 else 1 + LeadingRun(s[1..], cs)
  }

  /** Length of the longest suffix of `s` made of characters in `cs`. */
  function TrailingRun(s: string, cs: set<char>): (n: nat)
    ensures n <= |s|
    ensures forall k :: |s| - n <= k < |s| ==> s[k] in cs
    ensures n < |s| ==> s[|s| - 1 - n] !in cs
    decreases |s|
  {
    if s == [] || s[|s| - 1] !in cs then 0 else 1 + TrailingRun(s[..|s| - 1], cs)
  }

  /** `s.strip(chars)`: remove the maximal prefix, then the maximal suffix, of
      characters in `cs`. The result is the slice of `s` starting after the leading
      run; everything cut on either side is in `cs`; what is left neither starts nor
      ends with a character of `cs`. */
  function Strip(s: string, cs: set<char>): (r: string)
    ensures |r| <= |s|
    ensures LeadingRun(s, cs) + |r| <= |s| && r == s[LeadingRun(s, cs)..LeadingRun(s, cs) + |r|]
    ensures forall k :: 0 <= k < |s| && !(LeadingRun(s, cs) <= k < LeadingRun(s, cs) + |r|) ==> s[k] in cs
    ensures r != [] ==> r[0] !in cs && r[|r| - 1] !in cs
    ensures IsSubstring(r, s)
  {
    var i := LeadingRun(s, cs);
    var t := s[i..];
    var r := t[..|t| - TrailingRun(t, cs)];
    assert r == s[i..i + |r|];
    assert OccursAt(r, s, i);
    r
  }

  /** Neither end of `s` is a character of `cs`. */
  predicate NoEdge(s: string, cs: set<char>) {
    s == [] || (s[0] !in cs && s[|s| - 1] !in cs)
  }

  /** `strip` changes a string exactly when one of its ends is in the stripped set;
      otherwise it shortens it. */
  lemma StripFixedPoint(s: string, cs: set<char>)
    ensures Strip(s, cs) == s <==> NoEdge(s, cs)
    ensures !NoEdge(s, cs) ==> |Strip(s, cs)| < |s|
  {
    var r := Strip(s, cs);
    if NoEdge(s, cs) && s != [] {
      assert LeadingRun(s, cs) == 0;
      var t := s[0..];
      assert t == s;
      assert TrailingRun(t, cs) == 0;
    }
  }

  /** `strip` is pinned down by its cut points: if everything before `i` and from `j`
      on is in `cs`, and the slice between them neither starts nor ends with a
      character of `cs`, that slice is the stripped string. */
  lemma StripBetween(s: string, cs: set<char>, i: nat, j: nat)
    requires i < j <= |s|
    requires forall k :: 0 <= k < i ==> s[k] in cs
    requires forall k :: j <= k < |s| ==> s[k] in cs
    requires s[i] !in cs && s[j - 1] !in cs
    ensures Strip(s, cs) == s[i..j]
  {
    var n := LeadingRun(s, cs);
    assert n == i;
    var t := s[i..];
    var m := TrailingRun(t, cs);
    assert t[|t| - 1 - (|s| - j)] == s[j - 1];
    assert m == |s| - j;
  }

  /** Padding made only of stripped characters is exactly what `strip` removes
      from around a non-empty string whose ends are kept. */
  lemma StripPadded(x: string, u: string, y: string, cs: set<char>)
    requires u != [] && NoEdge(u, cs)
    requires forall k :: 0 <= k < |x| ==> x[k] in cs
    requires forall k :: 0 <= k < |y| ==> y[k] in cs
    ensures Strip(x + u + y, cs) == u
  {
    var s := x + u + y;
    var i, j := |x|, |x| + |u|;
    assert forall k :: 0 <= k < i ==> s[k] == x[k];
    assert forall k :: j <= k < |s| ==> s[k] == y[k - j];
    assert s[i] == u[0] && s[j - 1] == u[|u| - 1];
    StripBetween(s, cs, i, j);
    assert s[i..j] == u;
  }

  /** Stripping twice is stripping once. */
  lemma StripIdempotent(s: string, cs: set<char>)
    ensures Strip(Strip(s, cs), cs) == Strip(s, cs)
  {
    StripFixedPoint(Strip(s, cs), cs);
  }

  /** A substring of a substring is a substring. */
  lemma SubstringTransitive(a: string, b: string, c: string)
    requires IsSubstring(a, b) && IsSubstring(b, c)
    ensures IsSubstring(a, c)
  {
    var i :| 0 <= i <= |b| && OccursAt(a, b, i);
    var j :| 0 <= j <= |c| && OccursAt(b, c, j);
    assert i + |a| <= |b| && j + |b| <= |c|;
    forall k | 0 <= k < |a| ensures c[j + i + k] == a[k] {
      assert a[k] == b[i + k] == c[j + i + k];
    }
    assert c[j + i..j + i + |a|] == a;
    assert OccursAt(a, c, j + i);
  }

  /** A tail of a string is a substring of it. */
  lemma DropIsSubstring(s: string, n: nat)
    requires n <= |s|
    ensures IsSubstring(s[n..], s)
  {
    assert OccursAt(s[n..], s, n);
  }

  function LowerChar(c: char): char {
    if 'A' <= c <= 'Z' then (c as int + 32) as char else c
  }

  predicate IsAsciiUpper(c: char) {
    'A' <= c <= 'Z'
  }

  /** `s.lower()` on ASCII letters; every other character is left as it is. */
  function Lower(s: string): (r: string)
    ensures |r| == |s|
    ensures forall i :: 0 <= i < |r| ==> !IsAsciiUpper(r[i])
    ensures forall i :: 0 <= i < |s| && !IsAsciiUpper(s[i]) ==> r[i] == s[i]
    ensures forall i :: 0 <= i < |s| && IsAsciiUpper(s[i]) ==> r[i] as int == s[i] as int + 32
  {
    seq(|s|, i requires 0 <= i < |s| => LowerChar(s[i]))
  }

  /** `s.replace(a, b)` for single-character `a` and `b`. */
  function ReplaceChar(s: string, a: char, b: char): (r: string)
    ensures |r| == |s|
    ensures a != b ==> forall i :: 0 <= i < |r| ==> r[i] != a
    ensures forall i :: 0 <= i < |s| && s[i] != a ==> r[i] == s[i]
    ensures forall i :: 0 <= i < |s| && s[i] == a ==> r[i] == b
  {
    seq(|s|, i requires 0 <= i < |s| => if s[i] == a then b else s[i])
  }
}
