/**
 `sanitize_filename` from utils.py: keep only alphanumerics and the four
 characters `.`, `_`, `-` and space, then `strip()` the result.
 */
module Sanitizer {
  import opened Text

  /** The characters the filter keeps. */
  predicate IsSafeChar(c: char) {
    IsAsciiAlnum(c) || c == '.' || c == '_' || c == '-' || c == ' '
  }

  predicate AllSafe(s: string) {
    forall i :: 0 <= i < |s| ==> IsSafeChar(s[i])
  }

  /** Every character of `s` in `[lo, hi)` is whitespace. */
  predicate SpacesBetween(s: string, lo: int, hi: int)
    requires 0 <= lo && hi <= |s|
  {
    forall i :: lo <= i < hi ==> IsSpace(s[i])
  }

  /** Neither end of `s` is whitespace. */
  predicate Unpadded(s: string) {
    s == [] || (!IsSpace(s[0]) && !IsSpace(s[|s| - 1]))
  }

  /** `s` is `r` with `k` whitespace characters before it and only whitespace after it. */
  predicate PaddedAt(s: string, r: string, k: nat) {
    && k + |r| <= |s|
    && s[k..k + |r|] == r
    && SpacesBetween(s, 0, k)
    && SpacesBetween(s, k + |r|, |s|)
  }

  /** The generator expression in `sanitize_filename`: the safe characters of `s`, in order. */
  function Filter(s: string): (r: string)
    ensures AllSafe(r)
    ensures IsSubsequence(r, s)
  {
    if s == [] then []
    else if IsSafeChar(s[0]) then [s[0]] + Filter(s[1..])
    else Filter(s[1..])
  }

  /** The number of whitespace characters `lstrip()` removes: the index of the first non-whitespace. */
  function LeadingSpaces(s: string): (n: nat)
    ensures n <= |s|
    ensures SpacesBetween(s, 0, n)
    ensures n == |s| || !IsSpace(s[n])
  {
    if s != [] && IsSpace(s[0]) then
      var n := 1 + LeadingSpaces(s[1..]);
      assert forall i :: 1 <= i < n ==> s[i] == s[1..][i - 1];
      n
    else
      0
  }

  /** The number of whitespace characters `rstrip()` removes. */
  function TrailingSpaces(s: string): (n: nat)
    ensures n <= |s|
    ensures SpacesBetween(s, |s| - n, |s|)
    ensures n == |s| || !IsSpace(s[|s| - n - 1])
  {
    if s != [] && IsSpace(s[|s| - 1]) then
      var n := 1 + TrailingSpaces(s[..|s| - 1]);
      assert forall i :: |s| - n <= i < |s| - 1 ==> s[i] == s[..|s| - 1][i];
      n
    else
      0
  }

  /** `strip()`: drop whitespace at both ends; only whitespace is removed. */
  function Strip(s: string): (r: string)
    ensures Unpadded(r)
    ensures PaddedAt(s, r, LeadingSpaces(s))
    ensures IsSubsequence(r, s)
  {
    var k := LeadingSpaces(s);
    var t := s[k..];
    var r := t[..|t| - TrailingSpaces(t)];
    assert r == s[k..k + |r|];
    assert forall i :: k + |r| <= i < |s| ==> s[i] == t[i - k];
    SliceIsSubsequence(s, k, k + |r|);
    r
  }

  /** A contiguous slice is a subsequence. */
  lemma SliceIsSubsequence(s: string, i: nat, j: nat)
    requires i <= j <= |s|
    ensures IsSubsequence(s[i..j], s)
  {
    PrefixIsSubsequence(s[i..], j - i);
    assert s[i..][..j - i] == s[i..j];
    SuffixIsSubsequence(s, i);
    SubsequenceTransitive(s[i..j], s[i..], s);
  }

  lemma {:induction false} PrefixIsSubsequence(s: string, j: nat)
    requires j <= |s|
    ensures IsSubsequence(s[..j], s)
    decreases j
  {
    if j > 0 {
      PrefixIsSubsequence(s[1..], j - 1);
      assert s[..j][1..] == s[1..][..j - 1];
    }
  }

  lemma {:induction false} SuffixIsSubsequence(s: string, i: nat)
    requires i <= |s|
    ensures IsSubsequence(s[i..], s)
    decreases i
  {
    if i == 0 {
      SubsequenceReflexive(s);
    } else {
      SuffixIsSubsequence(s[1..], i - 1);
      assert s[1..][i - 1..] == s[i..];
    }
  }

  /** `sanitize_filename`. */
  function SanitizeFilename(filename: string): (r: string)
    ensures AllSafe(r)
    ensures '/' !in r && '\\' !in r
    ensures Unpadded(r)
    ensures IsSubsequence(r, filename) && |r| <= |filename|
  {
    var r := Strip(Filter(filename));
    SanitizeParts(filename, Filter(filename), r);
    r
  }

  /** The sanitized name inherits safety and the subsequence relation from the filter. */
  lemma SanitizeParts(filename: string, f: string, r: string)
    requires f == Filter(filename) && r == Strip(f)
    ensures AllSafe(r)
    ensures IsSubsequence(r, filename) && |r| <= |filename|
  {
    SubsequenceElements(r, f);
    forall i | 0 <= i < |r|
      ensures IsSafeChar(r[i])
    {
      var j :| 0 <= j < |f| && f[j] == r[i];
    }
    SubsequenceTransitive(r, f, filename);
    SubsequenceLength(r, filename);
  }

  /** The filter is a homomorphism on concatenation. */
  lemma {:induction false} FilterAppend(a: string, b: string)
    ensures Filter(a + b) == Filter(a) + Filter(b)
    decreases |a|
  {
    if a == [] {
      assert a + b == b;
    } else {
      var ab := a + b;
      assert ab[0] == a[0] && ab[1..] == a[1..] + b;
      FilterAppend(a[1..], b);
      if IsSafeChar(a[0]) {
        calc {
          Filter(ab);
          [a[0]] + Filter(a[1..] + b);
          [a[0]] + (Filter(a[1..]) + Filter(b));
          ([a[0]] + Filter(a[1..])) + Filter(b);
        }
      }
    }
  }

  /** The filter keeps a single character exactly when it is safe. */
  lemma FilterSingle(c: char)
    ensures Filter([c]) == (if IsSafeChar(c) then [c] else [])
  {
    assert [c][1..] == [];
  }

  /** The filter leaves a string of safe characters as it is. */
  lemma {:induction false} FilterIdentity(s: string)
    requires AllSafe(s)
    ensures Filter(s) == s
    decreases |s|
  {
    if s != [] {
      FilterIdentity(s[1..]);
    }
  }

  /** The filter drops a string with no safe character entirely. */
  lemma {:induction false} FilterDropsUnsafe(s: string)
    requires forall i :: 0 <= i < |s| ==> !IsSafeChar(s[i])
    ensures Filter(s) == []
    decreases |s|
  {
    if s != [] {
      FilterDropsUnsafe(s[1..]);
    }
  }

  /** `strip()` is determined by its contract: the one unpadded string that `s` pads. */
  lemma StripUnique(s: string, r: string, k: nat)
    requires PaddedAt(s, r, k) && Unpadded(r)
    ensures Strip(s) == r
  {
    var n := LeadingSpaces(s);
    if r == [] {
      assert n == |s|;
    } else {
      assert s[k] == r[0];
      assert n == k;
      var t := s[k..];
      var m := TrailingSpaces(t);
      assert m == |t| - |r| by {
        assert t[|r| - 1] == r[|r| - 1];
        assert forall i :: |r| <= i < |t| ==> t[i] == s[k + i];
      }
    }
  }

  /** Stripping a string that is already unpadded changes nothing. */
  lemma StripUnpadded(s: string)
    requires Unpadded(s)
    ensures Strip(s) == s
  {
    StripUnique(s, s, 0);
  }

  /** A suffix that starts and ends with non-whitespace survives `strip()`; only leading whitespace before it goes. */
  lemma StripKeepsSuffix(x: string, e: string)
    requires e != [] && !IsSpace(e[0]) && !IsSpace(e[|e| - 1])
    ensures Strip(x + e) == x[LeadingSpaces(x)..] + e
  {
    var k := LeadingSpaces(x);
    var r := x[k..] + e;
    assert (x + e)[k..k + |r|] == r;
    assert forall i :: 0 <= i < k ==> (x + e)[i] == x[i];
    if k < |x| {
      assert r[0] == x[k];
    }
    StripUnique(x + e, r, k);
  }

  /** A trailing part of safe characters that starts and ends with non-whitespace survives sanitizing. */
  lemma SanitizeKeepsSuffix(s: string, e: string)
    requires e != [] && AllSafe(e) && !IsSpace(e[0]) && !IsSpace(e[|e| - 1])
    requires EndsWith(s, e)
    ensures EndsWith(SanitizeFilename(s), e)
  {
    var x := s[..|s| - |e|];
    assert s == x + e;
    FilterAppend(x, e);
    FilterIdentity(e);
    var f := Filter(x);
    StripKeepsSuffix(f, e);
    assert SanitizeFilename(s) == f[LeadingSpaces(f)..] + e;
  }

  /** When nothing before an unpadded suffix of safe characters is safe, sanitizing leaves exactly that suffix. */
  lemma SanitizeDropsPrefix(s: string, e: string)
    requires AllSafe(e) && Unpadded(e)
    requires EndsWith(s, e)
    requires forall i :: 0 <= i < |s| - |e| ==> !IsSafeChar(s[i])
    ensures SanitizeFilename(s) == e
  {
    var x := s[..|s| - |e|];
    assert s == x + e;
    FilterDropsUnsafe(x);
    FilterAppend(x, e);
    FilterIdentity(e);
    StripUnpadded(e);
  }

  /** Sanitizing is idempotent. */
  lemma SanitizeIdempotent(s: string)
    ensures SanitizeFilename(SanitizeFilename(s)) == SanitizeFilename(s)
  {
    var r := SanitizeFilename(s);
    FilterIdentity(r);
    StripUnpadded(r);
  }

  /** The names sanitizing leaves unchanged are exactly the unpadded strings of safe characters. */
  lemma SanitizeFixedPoints(s: string)
    ensures SanitizeFilename(s) == s <==> AllSafe(s) && Unpadded(s)
  {
    if AllSafe(s) && Unpadded(s) {
      FilterIdentity(s);
      StripUnpadded(s);
    }
  }

  /** A dot-dot name passes through sanitizing unchanged: the filter alone does not remove traversal names. */
  lemma DotDotSurvives()
    ensures SanitizeFilename("..") == ".."
  {
    SanitizeFixedPoints("..");
  }
}
