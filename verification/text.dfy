/** Character-level text operations the asset system relies on: Python's
    `str.strip()` applied to every form field, the ASCII-only case folding of
    SQLite's default LIKE, and case-insensitive substring containment. */
module Text {

  /** Python's `str.isspace()` for one character: the ASCII controls
      TAB..CR and FS..US, the space, NEL, NBSP and the Unicode space
      separators and line/paragraph separators. */
  predicate IsSpace(c: char) {
    || c == ' '
    || ('\t' <= c <= '\r')
    || ('\U{1c}' <= c <= '\U{1f}')
    || c == '\U{85}'
    || c == '\U{a0}'
    || c == '\U{1680}'
    || ('\U{2000}' <= c <= '\U{200a}')
    || c == '\U{2028}'
    || c == '\U{2029}'
    || c == '\U{202f}'
    || c == '\U{205f}'
    || c == '\U{3000}'
  }

  predicate AllSpace(s: string) {
    forall i :: 0 <= i < |s| ==> IsSpace(s[i])
  }

  /** Every character of `s` at a position in `lo..hi` is whitespace. */
  predicate SpaceBetween(s: string, lo: int, hi: int) {
    forall i :: lo <= i < hi && 0 <= i < |s| ==> IsSpace(s[i])
  }

  /** Neither the first nor the last character is whitespace. */
  predicate Stripped(s: string) {
    |s| > 0 ==> !IsSpace(s[0]) && !IsSpace(s[|s| - 1])
  }

  /** The first position at or after `i` that does not hold whitespace. */
  function SkipLeading(s: string, i: nat): (j: nat)
    requires i <= |s|
    ensures i <= j <= |s|
    ensures SpaceBetween(s, i, j)
    ensures j < |s| ==> !IsSpace(s[j])
    decreases |s| - i
  {
    if i < |s| && IsSpace(s[i]) then SkipLeading(s, i + 1) else i
  }

  /** The end of `s[lo..hi]` once trailing whitespace is dropped. */
  function SkipTrailing(s: string, lo: nat, hi: nat): (j: nat)
    requires lo <= hi <= |s|
    ensures lo <= j <= hi
    ensures SpaceBetween(s, j, hi)
    ensures j > lo ==> !IsSpace(s[j - 1])
  {
    if hi > lo && IsSpace(s[hi - 1]) then SkipTrailing(s, lo, hi - 1) else hi
  }

  /** `r` is what stripping `s` leaves: a middle slice of `s` that neither
      starts nor ends with whitespace, everything cut off on either side
      being whitespace. */
  ghost predicate StripOf(s: string, r: string) {
    Stripped(r) && exists lo :: CutAt(s, r, lo)
  }

  /** `r` is the slice of `s` starting at `lo`, and only whitespace lies
      outside it. */
  ghost predicate CutAt(s: string, r: string, lo: int) {
    && 0 <= lo <= |s| - |r|
    && r == s[lo..lo + |r|]
    && SpaceBetween(s, 0, lo)
    && SpaceBetween(s, lo + |r|, |s|)
  }

  /** Python's `str.strip()` with no argument. */
  function Strip(s: string): (r: string)
    ensures StripOf(s, r)
  {
    var lo := SkipLeading(s, 0);
    var hi := SkipTrailing(s, lo, |s|);
    assert hi > lo ==> SpaceBetween(s, hi, |s|) && !IsSpace(s[lo]);
    assert CutAt(s, s[lo..hi], lo);
    s[lo..hi]
  }

  /** Whatever stripping leaves is empty exactly when the input is all
      whitespace. */
  lemma StripOfEmptyIff(s: string, r: string)
    requires StripOf(s, r)
    ensures r == [] <==> AllSpace(s)
  {
    var lo :| CutAt(s, r, lo);
    if r != [] {
      assert s[lo] == r[0];
    }
  }

  /** Stripping gives the empty string exactly when the input is all
      whitespace: this is when a required form field counts as missing. */
  lemma StripEmptyIff(s: string)
    ensures Strip(s) == [] <==> AllSpace(s)
  {
    StripOfEmptyIff(s, Strip(s));
  }

  /** The first non-whitespace position is unique. */
  lemma FirstNonSpaceUnique(s: string, a: int, b: int)
    requires 0 <= a < |s| && SpaceBetween(s, 0, a) && !IsSpace(s[a])
    requires 0 <= b < |s| && SpaceBetween(s, 0, b) && !IsSpace(s[b])
    ensures a == b
  {
  }

  /** The position after the last non-whitespace character is unique. */
  lemma EndOfTextUnique(s: string, a: int, b: int)
    requires 0 < a <= |s| && SpaceBetween(s, a, |s|) && !IsSpace(s[a - 1])
    requires 0 < b <= |s| && SpaceBetween(s, b, |s|) && !IsSpace(s[b - 1])
    ensures a == b
  {
  }

  /** Two non-empty cuts of `s` that neither start nor end with whitespace
      are the same cut. */
  lemma CutUnique(s: string, r: string, lo: int, r': string, lo': int)
    requires CutAt(s, r, lo) && CutAt(s, r', lo')
    requires Stripped(r) && Stripped(r') && r != [] && r' != []
    ensures r == r'
  {
    assert s[lo] == r[0] && s[lo'] == r'[0];
    FirstNonSpaceUnique(s, lo, lo');
    assert s[lo + |r| - 1] == r[|r| - 1] && s[lo' + |r'| - 1] == r'[|r'| - 1];
    EndOfTextUnique(s, lo + |r|, lo' + |r'|);
  }

  /** The description of stripping determines its result: any `r` that is
      `s` with only surrounding whitespace cut off is `Strip(s)`. */
  lemma StripUnique(s: string, r: string)
    requires StripOf(s, r)
    ensures r == Strip(s)
  {
    var r' := Strip(s);
    StripOfEmptyIff(s, r);
    StripOfEmptyIff(s, r');
    if !AllSpace(s) {
      var lo :| CutAt(s, r, lo);
      var lo' :| CutAt(s, r', lo');
      CutUnique(s, r, lo, r', lo');
    }
  }

  /** A string that already has no surrounding whitespace is left alone. */
  lemma StripOfStripped(s: string)
    requires Stripped(s)
    ensures Strip(s) == s
  {
    if |s| > 0 {
      assert SkipLeading(s, 0) == 0;
      assert SkipTrailing(s, 0, |s|) == |s|;
    }
  }

  /** Stripping twice is stripping once. */
  lemma StripIdempotent(s: string)
    ensures Strip(Strip(s)) == Strip(s)
  {
    StripOfStripped(Strip(s));
  }

  /** SQLite's `sqlite3Tolower` restricted to what LIKE uses: maps 'A'..'Z'
      to 'a'..'z' and leaves every other character alone. */
  function AsciiLower(c: char): (r: char)
    ensures 'A' <= c <= 'Z' ==> 'a' <= r <= 'z' && r as int - c as int == 32
    ensures !('A' <= c <= 'Z') ==> r == c
  {
    if 'A' <= c <= 'Z' then (c as int + 32) as char else c
  }

  /** Character equality as SQLite's default LIKE sees it: equal, or both
      ASCII and equal after lower-casing. Non-ASCII letters are not folded. */
  predicate FoldEq(a: char, b: char) {
    a == b || (a < '\U{80}' && b < '\U{80}' && AsciiLower(a) == AsciiLower(b))
  }

  /** `f` occurs in `t` at offset `i`, up to ASCII case. */
  predicate MatchesAt(t: string, i: nat, f: string)
    requires i + |f| <= |t|
  {
    forall k :: 0 <= k < |f| ==> FoldEq(f[k], t[i + k])
  }

  /** `t` contains `f` as a substring, ASCII letters compared without case. */
  predicate ContainsFolded(t: string, f: string) {
    exists i: nat :: i + |f| <= |t| && MatchesAt(t, i, f)
  }
}
