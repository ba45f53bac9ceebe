/**
 * The .NET string primitives the core is built on (`IndexOf`, `Contains`,
 * `Substring`, `Equals` and `IsNullOrWhiteSpace`), on strings as sequences of
 * characters. `StringComparison.Ordinal` compares characters exactly;
 * `StringComparison.OrdinalIgnoreCase` is modelled with ASCII case folding.
 */
module Strings {
  import opened Runtime

  type String = seq<char>

  function ToLowerAscii(c: char): char {
    if 'A' <= c <= 'Z' then (c as int + 32) as char else c
  }

  predicate IsAsciiLetter(c: char) {
    'A' <= c <= 'Z' || 'a' <= c <= 'z'
  }

  /** Character comparison under `Ordinal` (exact) or `OrdinalIgnoreCase`. */
  predicate CharEquals(a: char, b: char, ignoreCase: bool) {
    if ignoreCase then ToLowerAscii(a) == ToLowerAscii(b) else a == b
  }

  /** `pat` occurs in `s` starting at index `i`. */
  predicate MatchesAt(s: String, pat: String, i: nat, ignoreCase: bool) {
    i + |pat| <= |s| &&
    forall k :: 0 <= k < |pat| ==> CharEquals(s[i + k], pat[k], ignoreCase)
  }

  /**
   * `s.IndexOf(pat, from, comparison)`: the least index at or after `from` where
   * `pat` occurs, or -1 when there is none.
   */
  function IndexOf(s: String, pat: String, from: nat, ignoreCase: bool): (r: int)
    requires from <= |s|
    ensures r == -1 || (from <= r && MatchesAt(s, pat, r, ignoreCase))
    ensures r >= 0 ==> forall i :: from <= i < r ==> !MatchesAt(s, pat, i, ignoreCase)
    ensures r == -1 ==> forall i :: from <= i ==> !MatchesAt(s, pat, i, ignoreCase)
    decreases |s| - from
  {
    if |s| < from + |pat| then -1
    else if MatchesAt(s, pat, from, ignoreCase) then from
    else IndexOf(s, pat, from + 1, ignoreCase)
  }

  /** `s.Contains(pat, comparison)`. */
  predicate Contains(s: String, pat: String, ignoreCase: bool) {
    IndexOf(s, pat, 0, ignoreCase) >= 0
  }

  /** `s` with every ASCII capital letter lowered. */
  function LowerAscii(s: String): (t: String)
    ensures |t| == |s| && forall k :: 0 <= k < |s| ==> t[k] == ToLowerAscii(s[k])
  {
    seq(|s|, k requires 0 <= k < |s| => ToLowerAscii(s[k]))
  }

  /**
   * `a.Equals(b, comparison)`: under `Ordinal` the strings are identical; under
   * `OrdinalIgnoreCase` they are identical once both are lowered.
   */
  predicate Equals(a: String, b: String, ignoreCase: bool)
    ensures Equals(a, b, ignoreCase) ==> |a| == |b|
    ensures !ignoreCase ==> (Equals(a, b, ignoreCase) <==> a == b)
    ensures ignoreCase ==> (Equals(a, b, ignoreCase) <==> LowerAscii(a) == LowerAscii(b))
  {
    if |a| != |b| then false
    else
      assert LowerAscii(a) == LowerAscii(b) <==> forall k :: 0 <= k < |a| ==> ToLowerAscii(a[k]) == ToLowerAscii(b[k]) by {
        if forall k :: 0 <= k < |a| ==> ToLowerAscii(a[k]) == ToLowerAscii(b[k]) {
          assert LowerAscii(a) == LowerAscii(b);
        }
      }
      MatchesAt(a, b, 0, ignoreCase)
  }

  /** `s.Substring(start, length)`, which throws when the range runs past the end. */
  function Substring(s: String, start: nat, length: nat): (r: Result<String>)
    ensures r.Ok? <==> start + length <= |s|
    ensures r.Ok? ==> |r.value| == length && forall k :: 0 <= k < length ==> r.value[k] == s[start + k]
    ensures r.Err? ==> r.error == ArgumentOutOfRange
  {
    if start + length <= |s| then Ok(s[start..start + length]) else Err(ArgumentOutOfRange)
  }

  /** The characters `char.IsWhiteSpace` accepts, one by one. */
  const WhiteSpaceChars: set<char> := {
    '\t', '\n', '\U{B}', '\U{C}', '\r', ' ', '\U{85}', '\U{A0}', '\U{1680}',
    '\U{2000}', '\U{2001}', '\U{2002}', '\U{2003}', '\U{2004}', '\U{2005}',
    '\U{2006}', '\U{2007}', '\U{2008}', '\U{2009}', '\U{200A}',
    '\U{2028}', '\U{2029}', '\U{202F}', '\U{205F}', '\U{3000}'
  }

  /** `char.IsWhiteSpace`: the Unicode separators and the listed control characters. */
  predicate IsWhiteSpace(c: char)
    ensures IsWhiteSpace(c) <==> c in WhiteSpaceChars
    ensures IsWhiteSpace(c) ==> !IsAsciiLetter(c) && c != '`'
  {
    ('\t' <= c <= '\r') || c == ' ' || c == '\U{85}' || c == '\U{A0}' || c == '\U{1680}'
    || ('\U{2000}' <= c <= '\U{200A}') || c == '\U{2028}' || c == '\U{2029}'
    || c == '\U{202F}' || c == '\U{205F}' || c == '\U{3000}'
  }

  /** `s.TrimStart()`: `s` without its leading white space. */
  function TrimStart(s: String): (t: String)
    ensures |t| <= |s| && t == s[|s| - |t|..]
    ensures |t| > 0 ==> !IsWhiteSpace(t[0])
    decreases |s|
  {
    if |s| > 0 && IsWhiteSpace(s[0]) then TrimStart(s[1..]) else s
  }

  /** Trimming leaves nothing exactly when every character is white space. */
  lemma {:induction false} TrimStartEmpty(s: String)
    ensures TrimStart(s) == [] <==> forall k :: 0 <= k < |s| ==> IsWhiteSpace(s[k])
    decreases |s|
  {
    if |s| > 0 && IsWhiteSpace(s[0]) {
      TrimStartEmpty(s[1..]);
      assert forall k :: 1 <= k < |s| ==> s[k] == s[1..][k - 1];
    }
  }

  /**
   * `string.IsNullOrWhiteSpace`: null, empty, or white space only; that is,
   * null or empty once trimmed.
   */
  predicate IsNullOrWhiteSpace(s: Option<String>)
    ensures IsNullOrWhiteSpace(s) <==> s.None? || TrimStart(s.value) == []
  {
    if s.None? then true
    else
      TrimStartEmpty(s.value);
      forall k :: 0 <= k < |s.value| ==> IsWhiteSpace(s.value[k])
  }

  /** `Contains` holds exactly when the pattern occurs somewhere. */
  lemma ContainsIff(s: String, pat: String, ignoreCase: bool)
    ensures Contains(s, pat, ignoreCase) <==> exists i: nat :: MatchesAt(s, pat, i, ignoreCase)
  {
  }

  /** `IndexOf` returns `j` whenever `j` is a match and nothing before it from `from` on is. */
  lemma IndexOfIsLeast(s: String, pat: String, from: nat, j: nat, ignoreCase: bool)
    requires from <= j && MatchesAt(s, pat, j, ignoreCase)
    requires forall i :: from <= i < j ==> !MatchesAt(s, pat, i, ignoreCase)
    ensures from <= |s| && IndexOf(s, pat, from, ignoreCase) == j
  {
  }

  /** Case folding cannot make a character equal to one that is not a letter. */
  lemma FoldNonLetter(a: char, p: char)
    requires !IsAsciiLetter(p)
    ensures CharEquals(a, p, true) <==> a == p
  {
  }

  /**
   * For a pattern without letters, a search that ignores case finds exactly what
   * an ordinal search finds.
   */
  lemma IgnoreCaseIrrelevant(s: String, pat: String, from: nat)
    requires from <= |s|
    requires forall k :: 0 <= k < |pat| ==> !IsAsciiLetter(pat[k])
    ensures IndexOf(s, pat, from, true) == IndexOf(s, pat, from, false)
  {
    forall i: nat ensures MatchesAt(s, pat, i, true) <==> MatchesAt(s, pat, i, false) {
      if i + |pat| <= |s| {
        forall k | 0 <= k < |pat| ensures CharEquals(s[i + k], pat[k], true) <==> CharEquals(s[i + k], pat[k], false) {
          FoldNonLetter(s[i + k], pat[k]);
        }
      }
    }
  }

  /** An occurrence inside a slice is an occurrence in the whole string. */
  lemma MatchInSlice(s: String, lo: nat, hi: nat, pat: String, i: nat, ignoreCase: bool)
    requires lo <= hi <= |s| && MatchesAt(s[lo..hi], pat, i, ignoreCase)
    ensures MatchesAt(s, pat, lo + i, ignoreCase)
  {
    forall k | 0 <= k < |pat| ensures CharEquals(s[lo + i + k], pat[k], ignoreCase) {
      assert s[lo..hi][i + k] == s[lo + i + k];
    }
  }

  /** Occurrences in a suffix are the occurrences in the whole string, shifted. */
  lemma MatchesAtSuffix(s: String, lo: nat, pat: String, i: nat, ignoreCase: bool)
    requires lo <= |s|
    ensures MatchesAt(s[lo..], pat, i, ignoreCase) <==> MatchesAt(s, pat, lo + i, ignoreCase)
  {
    if lo + i + |pat| <= |s| {
      forall k | 0 <= k < |pat|
        ensures CharEquals(s[lo..][i + k], pat[k], ignoreCase) == CharEquals(s[lo + i + k], pat[k], ignoreCase)
      {
      }
    }
  }

  /** Strings that agree from `lo` on agree on every slice starting there. */
  lemma SameSuffixSlice(s: String, t: String, lo: nat, hi: nat)
    requires lo <= hi <= |s| && lo <= |t| && s[lo..] == t[lo..]
    ensures hi <= |t| && s[lo..hi] == t[lo..hi]
  {
    assert s[lo..hi] == s[lo..][..hi - lo] == t[lo..][..hi - lo] == t[lo..hi];
  }
}
