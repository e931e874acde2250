/**
 * The parts of Python's `str` behaviour that the service relies on:
 * `str.isspace` on one character, `str.strip()` with no argument, and
 * searching for a fixed pattern from a given position.
 */
module Text {
  import opened Wrappers

  /** Python's `str.isspace` on a single character: the Unicode whitespace
      characters, including the ASCII separators U+001C..U+001F. */
  predicate IsSpace(c: char) {
    c == ' ' || ('\t' <= c <= '\r') || ('\U{001C}' <= c <= '\U{001F}')
    || c == '\U{0085}' || c == '\U{00A0}' || c == '\U{1680}'
    || ('\U{2000}' <= c <= '\U{200A}') || c == '\U{2028}' || c == '\U{2029}'
    || c == '\U{202F}' || c == '\U{205F}' || c == '\U{3000}'
  }

  /** Every character is whitespace (this includes the empty string). */
  predicate IsBlank(s: string) {
    forall i :: 0 <= i < |s| ==> IsSpace(s[i])
  }

  /** Neither the first nor the last character is whitespace. */
  predicate IsTrimmed(s: string) {
    s == [] || (!IsSpace(s[0]) && !IsSpace(s[|s| - 1]))
  }

  /** The length of the longest all-whitespace prefix. */
  function LeadingSpaces(s: string): (n: nat)
    ensures n <= |s|
    ensures IsBlank(s[..n])
    ensures n < |s| ==> !IsSpace(s[n])
  {
    if s == [] || !IsSpace(s[0]) then 0
    else
      var n := 1 + LeadingSpaces(s[1..]);
      assert s[..n] == [s[0]] + s[1..][..n - 1];
      n
  }

  /** The length of the longest all-whitespace suffix. */
  function TrailingSpaces(s: string): (n: nat)
    ensures n <= |s|
    ensures IsBlank(s[|s| - n..])
    ensures n < |s| ==> !IsSpace(s[|s| - 1 - n])
  {
    if s == [] || !IsSpace(s[|s| - 1]) then 0
    else
      var init := s[..|s| - 1];
      var n := 1 + TrailingSpaces(init);
      assert s[|s| - n..] == init[|init| - (n - 1)..] + [s[|s| - 1]];
      n
  }

  /** Python's `str.strip()`: the string without its leading and trailing
      whitespace. StripInfix states what is removed and what is kept. */
  function Strip(s: string): (r: string)
    ensures IsTrimmed(r)
  {
    var lead := LeadingSpaces(s);
    if lead == |s| then []
    else
      var trail := TrailingSpaces(s);
      SpacesDoNotMeet(s);
      s[lead..|s| - trail]
  }

  /** Unless the string is all whitespace, its leading and trailing
      whitespace leave something between them. */
  lemma SpacesDoNotMeet(s: string)
    requires LeadingSpaces(s) < |s|
    ensures LeadingSpaces(s) < |s| - TrailingSpaces(s)
  {
    var t := |s| - TrailingSpaces(s);
    forall i | t <= i < |s| ensures IsSpace(s[i]) {
      assert s[t..][i - t] == s[i];
    }
  }

  /** What `strip` removes is whitespace, and what it keeps is the piece of
      the input that starts right after the leading whitespace. */
  lemma StripInfix(s: string)
    ensures LeadingSpaces(s) + |Strip(s)| <= |s|
    ensures Strip(s) == s[LeadingSpaces(s)..LeadingSpaces(s) + |Strip(s)|]
    ensures IsBlank(s[..LeadingSpaces(s)]) && IsBlank(s[LeadingSpaces(s) + |Strip(s)|..])
  {
    var lead := LeadingSpaces(s);
    if lead < |s| {
      SpacesDoNotMeet(s);
      assert s[lead + |Strip(s)|..] == s[|s| - TrailingSpaces(s)..];
    }
  }

  /** `not s.strip()` holds exactly when `s` is all whitespace. */
  lemma StripEmptyIffBlank(s: string)
    ensures Strip(s) == [] <==> IsBlank(s)
  {
    var lead := LeadingSpaces(s);
    if lead == |s| {
      assert s[..lead] == s;
    } else {
      SpacesDoNotMeet(s);
    }
  }

  /** Stripping a string that has no whitespace at either end changes nothing. */
  lemma StripTrimmed(s: string)
    requires IsTrimmed(s)
    ensures Strip(s) == s
  {
    if s != [] {
      assert LeadingSpaces(s) == 0 && TrailingSpaces(s) == 0;
      assert s[0..|s|] == s;
    }
  }

  /** `s.strip().strip() == s.strip()`. */
  lemma StripIdempotent(s: string)
    ensures Strip(Strip(s)) == Strip(s)
  {
    StripTrimmed(Strip(s));
  }

  /** `pat` occurs in `s` starting at index `i`. */
  predicate OccursAt(s: string, pat: string, i: int) {
    0 <= i && i + |pat| <= |s| && s[i..i + |pat|] == pat
  }

  /** The least index at or after `from` where `pat` occurs in `s`, or None
      when it occurs nowhere from `from` on (the search a regular expression
      engine makes for a literal). FindLeast states that nothing is skipped. */
  function Find(s: string, pat: string, from: nat): (r: Option<nat>)
    ensures r.Some? ==> from <= r.value && r.value + |pat| <= |s|
    decreases |s| - from
  {
    if from + |pat| > |s| then None
    else if s[from..from + |pat|] == pat then Some(from)
    else Find(s, pat, from + 1)
  }

  /** Find skips no occurrence: none lies between `from` and what it finds,
      and when it finds nothing there is none at all from `from` on. */
  lemma {:induction false} FindLeast(s: string, pat: string, from: nat)
    ensures Find(s, pat, from).Some? ==> OccursAt(s, pat, Find(s, pat, from).value)
    ensures Find(s, pat, from).Some? ==>
              forall j :: from <= j < Find(s, pat, from).value ==> !OccursAt(s, pat, j)
    ensures Find(s, pat, from).None? ==> forall j :: from <= j ==> !OccursAt(s, pat, j)
    decreases |s| - from
  {
    if from + |pat| <= |s| && s[from..from + |pat|] != pat {
      FindLeast(s, pat, from + 1);
    }
  }

  /** An occurrence with none before it, from `from` on, is the one Find
      returns. */
  lemma FindFirstOccurrence(s: string, pat: string, from: nat, i: nat)
    requires from <= i && OccursAt(s, pat, i)
    requires forall j :: from <= j < i ==> !OccursAt(s, pat, j)
    ensures Find(s, pat, from) == Some(i)
  {
    FindLeast(s, pat, from);
  }

  /** An occurrence in a suffix is an occurrence in the whole, shifted. */
  lemma OccursAtShift(s: string, pat: string, m: nat, x: nat)
    requires m <= |s|
    ensures OccursAt(s[m..], pat, x) <==> OccursAt(s, pat, m + x)
  {
    if x + |pat| <= |s| - m {
      assert s[m..][x..x + |pat|] == s[m + x..m + x + |pat|];
    }
  }

  /** A pattern whose first character does not recur in it is first found
      right after a prefix that does not contain it. */
  lemma FirstOccurrence(x: string, pat: string, y: string)
    requires |pat| > 0 && pat[0] !in pat[1..]
    requires forall j :: !OccursAt(x, pat, j)
    ensures Find(x + pat + y, pat, 0) == Some(|x|)
  {
    var s := x + pat + y;
    assert s[|x|..|x| + |pat|] == pat;
    assert OccursAt(s, pat, |x|);
    forall j | 0 <= j < |x| ensures !OccursAt(s, pat, j) {
      NotStraddled(x, pat, y, j);
    }
    FindFirstOccurrence(s, pat, 0, |x|);
  }

  /** A pattern whose first character does not recur in it cannot start inside
      `x` and end inside a copy of itself placed right after `x`. */
  lemma NotStraddled(x: string, pat: string, y: string, j: int)
    requires |pat| > 0 && pat[0] !in pat[1..]
    requires forall j :: !OccursAt(x, pat, j)
    requires 0 <= j < |x|
    ensures !OccursAt(x + pat + y, pat, j)
  {
    var s := x + pat + y;
    if j + |pat| <= |x| {
      assert x[j..j + |pat|] == s[j..j + |pat|];
      assert !OccursAt(x, pat, j);
    } else if j + |pat| <= |s| {
      var d := |x| - j;
      assert pat[d] == pat[1..][d - 1];
      assert s[j..j + |pat|][d] == s[|x|] == pat[0];
    }
  }

  /** Searching `s` from `o` finds what searching the suffix from its start finds, shifted by `o`. */
  lemma FindFrom(s: string, pat: string, o: nat, k: nat)
    requires o <= |s| && Find(s[o..], pat, 0) == Some(k)
    ensures Find(s, pat, o) == Some(o + k)
  {
    FindLeast(s[o..], pat, 0);
    OccursAtShift(s, pat, o, k);
    forall j | o <= j < o + k ensures !OccursAt(s, pat, j) {
      OccursAtShift(s, pat, o, j - o);
    }
    FindFirstOccurrence(s, pat, o, o + k);
  }

  /** A search from `o` finds the first occurrence in what follows `o`. */
  lemma FoundAfter(s: string, pat: string, o: nat, b: string, c: string)
    requires |pat| > 0 && pat[0] !in pat[1..]
    requires o <= |s| && s[o..] == b + pat + c
    requires forall k :: !OccursAt(b, pat, k)
    ensures Find(s, pat, o) == Some(o + |b|)
  {
    FirstOccurrence(b, pat, c);
    FindFrom(s, pat, o, |b|);
  }

  /** `r` can be obtained from `s` by deleting characters: the characters of
      `r` appear in `s` in the same relative order. */
  predicate IsSubsequence(r: string, s: string)
    decreases |s|
  {
    r == [] || (s != [] && ((r[0] == s[0] && IsSubsequence(r[1..], s[1..])) || IsSubsequence(r, s[1..])))
  }

  lemma {:induction false} SubsequenceRefl(s: string)
    ensures IsSubsequence(s, s)
    decreases |s|
  {
    if s != [] { SubsequenceRefl(s[1..]); }
  }

  /** Characters in front of the longer string may be skipped. */
  lemma {:induction false} SubsequenceSkip(r: string, z: string, s: string)
    requires IsSubsequence(r, s)
    ensures IsSubsequence(r, z + s)
    decreases |z|
  {
    if z != [] {
      SubsequenceSkip(r, z[1..], s);
      assert (z + s)[1..] == z[1..] + s;
      assert IsSubsequence(r, (z + s)[1..]);
    } else {
      assert z + s == s;
    }
  }

  /** A common prefix may be kept. */
  lemma {:induction false} SubsequenceKeep(a: string, r: string, s: string)
    requires IsSubsequence(r, s)
    ensures IsSubsequence(a + r, a + s)
    decreases |a|
  {
    if a != [] {
      SubsequenceKeep(a[1..], r, s);
      assert (a + r)[1..] == a[1..] + r;
      assert (a + s)[1..] == a[1..] + s;
      assert (a + r)[0] == (a + s)[0] && IsSubsequence((a + r)[1..], (a + s)[1..]);
    } else {
      assert a + r == r && a + s == s;
    }
  }

  /** A subsequence is never longer than the string it is taken from. */
  lemma {:induction false} SubsequenceLength(r: string, s: string)
    requires IsSubsequence(r, s)
    ensures |r| <= |s|
    decreases |s|
  {
    if r != [] {
      if r[0] == s[0] && IsSubsequence(r[1..], s[1..]) {
        SubsequenceLength(r[1..], s[1..]);
      } else {
        SubsequenceLength(r, s[1..]);
      }
    }
  }

  /** Characters after the end of the longer string may be skipped. */
  lemma {:induction false} SubsequenceAppend(r: string, s: string, y: string)
    requires IsSubsequence(r, s)
    ensures IsSubsequence(r, s + y)
    decreases |s|
  {
    if r != [] {
      assert (s + y)[1..] == s[1..] + y;
      if r[0] == s[0] && IsSubsequence(r[1..], s[1..]) {
        SubsequenceAppend(r[1..], s[1..], y);
      } else {
        SubsequenceAppend(r, s[1..], y);
      }
    }
  }

  lemma {:induction false} SubsequenceTrans(r: string, t: string, s: string)
    requires IsSubsequence(r, t) && IsSubsequence(t, s)
    ensures IsSubsequence(r, s)
    decreases |s|
  {
    if r != [] {
      if t[0] == s[0] && IsSubsequence(t[1..], s[1..]) {
        if r[0] == t[0] && IsSubsequence(r[1..], t[1..]) {
          SubsequenceTrans(r[1..], t[1..], s[1..]);
        } else {
          SubsequenceTrans(r, t[1..], s[1..]);
        }
      } else {
        SubsequenceTrans(r, t, s[1..]);
      }
    }
  }

  /** A contiguous piece of a string is a subsequence of it. */
  lemma InfixSubsequence(s: string, lo: nat, hi: nat)
    requires lo <= hi <= |s|
    ensures IsSubsequence(s[lo..hi], s)
  {
    SubsequenceRefl(s[lo..hi]);
    SubsequenceAppend(s[lo..hi], s[lo..hi], s[hi..]);
    SubsequenceSkip(s[lo..hi], s[..lo], s[lo..hi] + s[hi..]);
    Rejoin(s, lo, hi);
  }

  /** Cutting a string in three places and joining the pieces gives it back. */
  lemma Rejoin(s: string, lo: nat, hi: nat)
    requires lo <= hi <= |s|
    ensures s[..lo] + (s[lo..hi] + s[hi..]) == s
  {
  }

  /** What `strip` keeps is a subsequence of its input. */
  lemma StripSubsequence(s: string)
    ensures IsSubsequence(Strip(s), s)
  {
    StripInfix(s);
    InfixSubsequence(s, LeadingSpaces(s), LeadingSpaces(s) + |Strip(s)|);
  }

  /** Leading whitespace is counted up to the first other character. */
  lemma {:induction false} LeadingSpacesOfBlankPrefix(p: string, t: string)
    requires IsBlank(p)
    requires t == [] || !IsSpace(t[0])
    ensures LeadingSpaces(p + t) == |p|
    decreases |p|
  {
    if p == [] {
      assert p + t == t;
    } else {
      assert (p + t)[0] == p[0];
      assert (p + t)[1..] == p[1..] + t;
      LeadingSpacesOfBlankPrefix(p[1..], t);
    }
  }

  /** Trailing whitespace is counted back to the last other character. */
  lemma {:induction false} TrailingSpacesOfBlankSuffix(t: string, q: string)
    requires IsBlank(q)
    requires t == [] || !IsSpace(t[|t| - 1])
    ensures TrailingSpaces(t + q) == |q|
    decreases |q|
  {
    if q == [] {
      assert t + q == t;
    } else {
      var q' := q[..|q| - 1];
      assert (t + q)[|t + q| - 1] == q[|q| - 1];
      assert (t + q)[..|t + q| - 1] == t + q';
      TrailingSpacesOfBlankSuffix(t, q');
    }
  }

  /** `strip` removes exactly the whitespace around a piece that neither
      starts nor ends with whitespace. */
  lemma StripSurrounded(p: string, m: string, q: string)
    requires IsBlank(p) && IsBlank(q)
    requires m != [] && IsTrimmed(m)
    ensures Strip(p + m + q) == m
  {
    assert p + m + q == p + (m + q);
    LeadingSpacesOfBlankPrefix(p, m + q);
    TrailingSpacesOfBlankSuffix(p + m, q);
    assert (p + m + q)[|p|..|p + m + q| - |q|] == m;
  }
}
