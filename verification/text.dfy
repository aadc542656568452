/** The java.lang.String operations the read side relies on: blank tests,
    trimming, lower-casing and substring search. Strings are `seq<char>`. */
module Text {

  /** Character.isWhitespace: the ASCII controls it accepts plus the Unicode
      space, line and paragraph separators other than the no-break spaces. */
  predicate IsWhitespace(c: char) {
    || c == ' ' || c == '\t' || c == '\n' || c == '\U{0B}' || c == '\U{0C}' || c == '\r'
    || ('\U{1C}' <= c <= '\U{1F}')
    || c == '\U{1680}'
    || ('\U{2000}' <= c <= '\U{2006}') || ('\U{2008}' <= c <= '\U{200A}')
    || c == '\U{2028}' || c == '\U{2029}' || c == '\U{205F}' || c == '\U{3000}'
  }

  /** String.isBlank: empty, or whitespace only. */
  predicate IsBlank(s: string) {
    forall i :: 0 <= i < |s| ==> IsWhitespace(s[i])
  }

  /** The characters String.trim strips: everything up to and including U+0020. */
  predicate IsTrimmable(c: char) {
    c <= ' '
  }

  /** `r` is the slice `s[a..b]`, and everything cut off on either side is
      trimmable. */
  predicate TrimmedTo(s: string, r: string, a: int, b: int) {
    && 0 <= a <= b <= |s| && r == s[a..b]
    && (forall i :: 0 <= i < a ==> IsTrimmable(s[i]))
    && (forall i :: b <= i < |s| ==> IsTrimmable(s[i]))
  }

  /** String.trim: drops trimmable characters from both ends. */
  function Trim(s: string): (r: string)
    ensures |r| <= |s|
    ensures |r| > 0 ==> !IsTrimmable(r[0]) && !IsTrimmable(r[|r| - 1])
    ensures (forall i :: 0 <= i < |s| ==> !IsTrimmable(s[i])) ==> r == s
  {
    UntrimmableIsFixed(s);
    TrimEnd(TrimStart(s))
  }

  /** The trimmed text is one contiguous slice of the original: what is cut
      off at either end is trimmable, and nothing inside is removed. */
  lemma TrimIsSlice(s: string)
    ensures exists a, b :: TrimmedTo(s, Trim(s), a, b)
  {
    var front := TrimStart(s);
    var r := TrimEnd(front);
    assert front == s[|s| - |front|..];
    assert r == front[..|r|];
    SliceBetweenRuns(s, front, r);
    assert TrimmedTo(s, Trim(s), |s| - |front|, |s| - |front| + |r|);
  }

  /** A back-trimmed suffix of a front-trimmed text is the slice between the
      two trimmed runs. */
  lemma SliceBetweenRuns(s: string, front: string, r: string)
    requires |front| <= |s| && front == s[|s| - |front|..]
    requires forall i :: 0 <= i < |s| - |front| ==> IsTrimmable(s[i])
    requires |r| <= |front| && r == front[..|r|]
    requires forall i :: |r| <= i < |front| ==> IsTrimmable(front[i])
    ensures TrimmedTo(s, r, |s| - |front|, |s| - |front| + |r|)
  {
    var a := |s| - |front|;
    var b := a + |r|;
    assert r == s[a..b];
    forall i | b <= i < |s|
      ensures IsTrimmable(s[i])
    {
      assert s[i] == front[i - a];
    }
  }

  /** Neither end of a text without trimmable characters is cut. */
  lemma UntrimmableIsFixed(s: string)
    ensures (forall i :: 0 <= i < |s| ==> !IsTrimmable(s[i])) ==> TrimStart(s) == s && TrimEnd(s) == s
  {
  }

  function TrimStart(s: string): (r: string)
    ensures |r| <= |s| && r == s[|s| - |r|..]
    ensures |r| > 0 ==> !IsTrimmable(r[0])
    ensures forall i :: 0 <= i < |s| - |r| ==> IsTrimmable(s[i])
  {
    if |s| > 0 && IsTrimmable(s[0]) then TrimStart(s[1..]) else s
  }

  function TrimEnd(s: string): (r: string)
    ensures |r| <= |s| && r == s[..|r|]
    ensures |r| > 0 ==> !IsTrimmable(r[|r| - 1])
    ensures forall i :: |r| <= i < |s| ==> IsTrimmable(s[i])
  {
    if |s| > 0 && IsTrimmable(s[|s| - 1]) then TrimEnd(s[..|s| - 1]) else s
  }

  /** Character.toLowerCase restricted to ASCII letters. */
  function LowerChar(c: char): char {
    if 'A' <= c <= 'Z' then (c as int - 'A' as int + 'a' as int) as char else c
  }

  /** String.toLowerCase on the ASCII range; other characters are kept. */
  function ToLower(s: string): (r: string)
    ensures |r| == |s|
    ensures forall i :: 0 <= i < |s| ==> r[i] == LowerChar(s[i])
  {
    seq(|s|, i requires 0 <= i < |s| => LowerChar(s[i]))
  }

  /** `pat` occurs in `s` starting at index `i`. */
  predicate OccursAt(s: string, pat: string, i: int) {
    0 <= i && i + |pat| <= |s| && s[i..i + |pat|] == pat
  }

  /** String.indexOf: the first index at which `pat` occurs, or -1. */
  function IndexOf(s: string, pat: string): (r: int)
    ensures r == -1 || OccursAt(s, pat, r)
    ensures forall j :: 0 <= j && (r == -1 || j < r) ==> !OccursAt(s, pat, j)
  {
    IndexFrom(s, pat, 0)
  }

  function IndexFrom(s: string, pat: string, i: nat): (r: int)
    ensures r == -1 || (i <= r && OccursAt(s, pat, r))
    ensures forall j :: i <= j && (r == -1 || j < r) ==> !OccursAt(s, pat, j)
    decreases |s| - i
  {
    if i + |pat| > |s| then -1
    else if s[i..i + |pat|] == pat then i
    else IndexFrom(s, pat, i + 1)
  }

  /** String.lastIndexOf: the last index at which `pat` occurs, or -1. */
  function LastIndexOf(s: string, pat: string): (r: int)
    ensures r == -1 || OccursAt(s, pat, r)
    ensures forall j :: j > r ==> !OccursAt(s, pat, j)
  {
    LastIndexFrom(s, pat, |s| - |pat|)
  }

  function LastIndexFrom(s: string, pat: string, i: int): (r: int)
    requires i <= |s| - |pat|
    ensures r == -1 || (r <= i && OccursAt(s, pat, r))
    ensures forall j :: r < j <= i ==> !OccursAt(s, pat, j)
    decreases i + 1
  {
    if i < 0 then -1
    else if s[i..i + |pat|] == pat then i
    else LastIndexFrom(s, pat, i - 1)
  }

  /** A string that ends with `pat` has its last occurrence of `pat` at the end. */
  lemma LastIndexOfSuffix(prefix: string, pat: string)
    ensures LastIndexOf(prefix + pat, pat) == |prefix|
  {
    var s := prefix + pat;
    assert s[|prefix|..|prefix| + |pat|] == pat;
  }
}
