/** The handful of Python `str` operations the pipeline relies on, restricted
    to ASCII: `isspace`, `strip`, `lower`, `isalnum`, the `in` substring test
    and `replace(pat, "")`. */
module Text {

  /** `str.isspace` on one character, ASCII part: tab, line feed, vertical tab,
      form feed, carriage return, the four information separators and space. */
  predicate IsSpace(c: char) {
    9 <= c as int <= 13 || 28 <= c as int <= 32
  }

  /** Empty, or whitespace throughout: the span texts the pipeline skips. */
  predicate IsBlank(s: string) {
    forall i :: 0 <= i < |s| ==> IsSpace(s[i])
  }

  /** `str.isalnum` on one character, ASCII part. */
  predicate IsAlnum(c: char) {
    'a' <= c <= 'z' || 'A' <= c <= 'Z' || '0' <= c <= '9'
  }

  predicate IsUpper(c: char) {
    'A' <= c <= 'Z'
  }

  function LowerChar(c: char): (d: char)
    ensures !IsUpper(d)
    ensures IsUpper(c) ==> d as int == c as int + 32
    ensures !IsUpper(c) ==> d == c
  {
    if IsUpper(c) then (c as int + 32) as char else c
  }

  /** `str.lower`, ASCII part: every upper-case letter is replaced by its
      lower-case partner, everything else is kept. */
  function Lower(s: string): (r: string)
    ensures |r| == |s|
    ensures forall i :: 0 <= i < |s| ==> r[i] == LowerChar(s[i])
  {
    if |s| == 0 then [] else [LowerChar(s[0])] + Lower(s[1..])
  }

  /** Lowering twice is lowering once. */
  lemma LowerIdempotent(s: string)
    ensures Lower(Lower(s)) == Lower(s)
  {
    var l := Lower(s);
    assert forall i :: 0 <= i < |l| ==> Lower(l)[i] == l[i];
  }

  // ---------------------------------------------------------------------
  // Whitespace stripping

  /** The first index at or after `i` that does not hold whitespace, or
      `|s|`: where the leading-whitespace scan of `str.strip` stops. */
  function SkipSpaces(s: string, i: nat): (k: nat)
    requires i <= |s|
    ensures i <= k <= |s|
    ensures forall j :: i <= j < k ==> IsSpace(s[j])
    ensures k < |s| ==> !IsSpace(s[k])
    decreases |s| - i
  {
    if i < |s| && IsSpace(s[i]) then SkipSpaces(s, i + 1) else i
  }

  /** Scanning back from `j`, no further than `lo`, over whitespace: where
      the trailing-whitespace scan of `str.strip` stops. */
  function SkipSpacesBack(s: string, lo: nat, j: nat): (k: nat)
    requires lo <= j <= |s|
    ensures lo <= k <= j
    ensures forall i :: k <= i < j ==> IsSpace(s[i])
    ensures k > lo ==> !IsSpace(s[k - 1])
    decreases j
  {
    if j > lo && IsSpace(s[j - 1]) then SkipSpacesBack(s, lo, j - 1) else j
  }

  /** A string with no whitespace at either end. */
  predicate IsTrimmed(s: string) {
    s == [] || (!IsSpace(s[0]) && !IsSpace(s[|s| - 1]))
  }

  /** `str.strip()` with no argument: drop leading, then trailing whitespace. */
  function Strip(s: string): (r: string)
    ensures |r| <= |s|
    ensures IsTrimmed(r)
  {
    var lo := SkipSpaces(s, 0);
    var hi := SkipSpacesBack(s, lo, |s|);
    assert hi > lo ==> s[lo..hi][0] == s[lo] && s[lo..hi][hi - lo - 1] == s[hi - 1];
    s[lo..hi]
  }

  /** `r` is `s[lo..lo+|r|]` and everything outside that window is whitespace. */
  ghost predicate StrippedAt(s: string, r: string, lo: int) {
    && 0 <= lo <= lo + |r| <= |s|
    && r == s[lo..lo + |r|]
    && (forall i :: 0 <= i < lo ==> IsSpace(s[i]))
    && (forall i :: lo + |r| <= i < |s| ==> IsSpace(s[i]))
  }

  /** What `Strip` returns: the infix of `s` left after removing whitespace
      from both ends, and nothing but whitespace was removed. */
  lemma StripIsTrimmedInfix(s: string) returns (lo: nat)
    ensures IsTrimmed(Strip(s))
    ensures StrippedAt(s, Strip(s), lo)
  {
    lo := SkipSpaces(s, 0);
    var hi := SkipSpacesBack(s, lo, |s|);
    var r := s[lo..hi];
    if r != [] {
      assert r[0] == s[lo];
      assert r[|r| - 1] == s[hi - 1];
    }
  }

  /** `strip` leaves a string unchanged exactly when it has no whitespace at
      either end. */
  lemma StripFixedIff(s: string)
    ensures Strip(s) == s <==> IsTrimmed(s)
  {
    var _ := StripIsTrimmedInfix(s);
    if IsTrimmed(s) {
      if s != [] {
        assert SkipSpaces(s, 0) == 0;
        assert SkipSpacesBack(s, 0, |s|) == |s|;
      }
    }
  }

  /** Stripping twice is stripping once. */
  lemma StripIdempotent(s: string)
    ensures Strip(Strip(s)) == Strip(s)
  {
    var _ := StripIsTrimmedInfix(s);
    StripFixedIff(Strip(s));
  }

  /** Stripping leaves nothing exactly when `s` is empty or all whitespace. */
  lemma StripEmptyIffBlank(s: string)
    ensures Strip(s) == [] <==> IsBlank(s)
  {
    var lo := SkipSpaces(s, 0);
    assert Strip(s) == [] <==> SkipSpacesBack(s, lo, |s|) == lo;
  }

  /** A non-empty trimmed window with only whitespace around it is what
      `strip` returns: the window is unique. */
  lemma StripUnique(s: string, r: string, lo: int)
    requires StrippedAt(s, r, lo) && r != [] && IsTrimmed(r)
    ensures Strip(s) == r
  {
    var lo2 := StripIsTrimmedInfix(s);
    var r2 := Strip(s);
    assert s[lo] == r[0] && s[lo + |r| - 1] == r[|r| - 1];
    StripEmptyIffBlank(s);
    assert r2 != [];
    assert s[lo2] == r2[0] && s[lo2 + |r2| - 1] == r2[|r2| - 1];
    assert lo2 == lo;
    assert lo2 + |r2| == lo + |r|;
  }

  /** Whitespace added around a string is stripped away with its own. */
  lemma StripPadded(p: string, m: string, q: string)
    requires IsBlank(p) && IsBlank(q)
    ensures Strip(p + m + q) == Strip(m)
  {
    var s := p + m + q;
    StripEmptyIffBlank(m);
    if IsBlank(m) {
      forall i | 0 <= i < |s| ensures IsSpace(s[i]) {
        if i < |p| {
          assert s[i] == p[i];
        } else if i < |p| + |m| {
          assert s[i] == m[i - |p|];
        } else {
          assert s[i] == q[i - |p| - |m|];
        }
      }
      StripEmptyIffBlank(s);
    } else {
      var lo := StripIsTrimmedInfix(m);
      var r := Strip(m);
      PaddedWindow(p, m, q, r, lo);
      StripUnique(s, r, |p| + lo);
    }
  }

  lemma PaddedWindow(p: string, m: string, q: string, r: string, lo: int)
    requires IsBlank(p) && IsBlank(q) && StrippedAt(m, r, lo)
    ensures StrippedAt(p + m + q, r, |p| + lo)
  {
    var s := p + m + q;
    assert s[|p| + lo..|p| + lo + |r|] == m[lo..lo + |r|];
    forall i | 0 <= i < |p| + lo ensures IsSpace(s[i]) {
      if i < |p| {
        assert s[i] == p[i];
      } else {
        assert s[i] == m[i - |p|];
      }
    }
    forall i | |p| + lo + |r| <= i < |s| ensures IsSpace(s[i]) {
      if i < |p| + |m| {
        assert s[i] == m[i - |p|];
      } else {
        assert s[i] == q[i - |p| - |m|];
      }
    }
  }

  // ---------------------------------------------------------------------
  // Substrings

  /** `sub` occurs in `s` starting at index `i`. */
  predicate OccursAt(s: string, sub: string, i: int) {
    0 <= i && i + |sub| <= |s| && s[i..i + |sub|] == sub
  }

  /** Python's `sub in s`: `sub` starts here, or somewhere further on. */
  function Contains(s: string, sub: string): (b: bool)
    ensures OccursAt(s, sub, 0) ==> b
    ensures b ==> |sub| <= |s|
    decreases |s|
  {
    OccursAt(s, sub, 0) || (|s| > 0 && Contains(s[1..], sub))
  }

  /** `Contains` holds exactly when `sub` occurs at some index of `s`. */
  lemma {:induction false} ContainsIffOccurs(s: string, sub: string)
    ensures Contains(s, sub) <==> exists i :: OccursAt(s, sub, i)
    decreases |s|
  {
    if |s| > 0 {
      ContainsIffOccurs(s[1..], sub);
      forall i | OccursAt(s[1..], sub, i)
        ensures OccursAt(s, sub, i + 1)
      {
        assert s[1..][i..i + |sub|] == s[i + 1..i + 1 + |sub|];
      }
      forall i | OccursAt(s, sub, i) && i > 0
        ensures OccursAt(s[1..], sub, i - 1)
      {
        assert s[1..][i - 1..i - 1 + |sub|] == s[i..i + |sub|];
      }
    }
  }

  /** A string none of whose characters is `pat[k]` does not contain `pat`. */
  lemma {:induction false} AvoidingCharAvoidsPattern(s: string, pat: string, k: nat)
    requires k < |pat|
    requires forall i :: 0 <= i < |s| ==> s[i] != pat[k]
    ensures !Contains(s, pat)
    decreases |s|
  {
    if |pat| <= |s| {
      assert s[..|pat|][k] != pat[k];
    }
    if |s| > 0 {
      AvoidingCharAvoidsPattern(s[1..], pat, k);
    }
  }

  /** `s.replace(pat, "")`: scan left to right and delete every
      non-overlapping occurrence of `pat`, leftmost first. */
  function RemoveAll(s: string, pat: string): (r: string)
    requires |pat| > 0
    ensures |r| <= |s|
    ensures !Contains(s, pat) ==> r == s
    ensures Contains(s, pat) ==> |r| <= |s| - |pat|
    decreases |s|
  {
    if |s| == 0 then []
    else if OccursAt(s, pat, 0) then RemoveAll(s[|pat|..], pat)
    else
      assert Contains(s, pat) == Contains(s[1..], pat);
      [s[0]] + RemoveAll(s[1..], pat)
  }

  /** `replace` deletes the first occurrence of `pat` and carries on after
      it: when `a + pat` holds no occurrence before the one that ends it,
      everything in `a` is kept, that occurrence goes, and the rest is
      treated on its own. With `RemoveAll(s, pat) == s` for `s` free of
      `pat`, this fixes the result on every input. */
  lemma {:induction false} RemoveAllSplice(a: string, pat: string, b: string)
    requires |pat| > 0
    requires !Contains(a + pat[..|pat| - 1], pat)
    ensures RemoveAll(a + pat + b, pat) == a + RemoveAll(b, pat)
    decreases |a|
  {
    if |a| == 0 {
      assert a + pat + b == pat + b;
      RemoveAllLeading(pat, b);
    } else {
      SpliceFrontFree(a, pat, b);
      RemoveAllSplice(a[1..], pat, b);
      SpliceCombine(a, pat, b);
    }
  }

  /** Before the occurrence that ends `a + pat`, `pat` does not start at the
      front, and the same holds one character further on. */
  lemma SpliceFrontFree(a: string, pat: string, b: string)
    requires |pat| > 0 && |a| > 0
    requires !Contains(a + pat[..|pat| - 1], pat)
    ensures !OccursAt(a + pat + b, pat, 0)
    ensures !Contains(a[1..] + pat[..|pat| - 1], pat)
  {
    var x := a + pat[..|pat| - 1];
    assert (a + pat + b)[..|pat|] == x[..|pat|];
    assert !OccursAt(x, pat, 0);
    assert x[1..] == a[1..] + pat[..|pat| - 1];
    TailAvoids(x, pat);
  }

  /** An occurrence at the front is deleted and the scan resumes after it. */
  lemma RemoveAllLeading(pat: string, b: string)
    requires |pat| > 0
    ensures RemoveAll(pat + b, pat) == RemoveAll(b, pat)
  {
    var s := pat + b;
    assert s[..|pat|] == pat;
    assert s[|pat|..] == b;
  }

  lemma SpliceCombine(a: string, pat: string, b: string)
    requires |pat| > 0 && |a| > 0
    requires !OccursAt(a + pat + b, pat, 0)
    requires RemoveAll(a[1..] + pat + b, pat) == a[1..] + RemoveAll(b, pat)
    ensures RemoveAll(a + pat + b, pat) == a + RemoveAll(b, pat)
  {
    SpliceStep(a, pat, b);
    ConsTail(a, RemoveAll(b, pat));
  }

  lemma SpliceStep(a: string, pat: string, b: string)
    requires |pat| > 0 && |a| > 0
    requires !OccursAt(a + pat + b, pat, 0)
    ensures RemoveAll(a + pat + b, pat) == [a[0]] + RemoveAll(a[1..] + pat + b, pat)
  {
    assert a + pat + b == a + (pat + b);
    assert a[1..] + pat + b == a[1..] + (pat + b);
    RemoveAllKeepsHead(a + (pat + b), pat);
    ConsTail(a, pat + b);
  }

  /** Splitting off the head of a non-empty prefix. */
  lemma ConsTail<T>(a: seq<T>, c: seq<T>)
    requires |a| > 0
    ensures (a + c)[1..] == a[1..] + c
    ensures [a[0]] + (a[1..] + c) == a + c
  {
  }

  /** No proper prefix of `pat` is also a suffix of it, so two occurrences
      of `pat` can never overlap. */
  predicate BorderFree(pat: string) {
    forall k :: 0 < k < |pat| ==> pat[k..] != pat[..|pat| - k]
  }

  /** Appending a border-free pattern to a string free of it creates no
      occurrence at the front, unless the string is empty. */
  lemma NoEarlyMatch(x: string, pat: string)
    requires |pat| > 0 && BorderFree(pat)
    requires !Contains(x, pat)
    requires |x| > 0
    ensures !OccursAt(x + pat, pat, 0)
  {
    var s := x + pat;
    if |x| >= |pat| {
      assert s[..|pat|] == x[..|pat|];
      assert !OccursAt(x, pat, 0);
    } else {
      var k := |x|;
      assert s[k..|pat|] == pat[..|pat| - k];
      assert pat[k..] != pat[..|pat| - k];
      assert s[..|pat|][k..] == s[k..|pat|];
    }
  }

  /** A suffix of a string without `pat` is still without `pat`. */
  lemma TailAvoids(x: string, pat: string)
    requires |x| > 0
    requires !Contains(x, pat)
    ensures !Contains(x[1..], pat)
  {
  }

  /** Where `pat` does not start, `replace` keeps the first character. */
  lemma RemoveAllKeepsHead(s: string, pat: string)
    requires |pat| > 0 && |s| > 0 && !OccursAt(s, pat, 0)
    ensures RemoveAll(s, pat) == [s[0]] + RemoveAll(s[1..], pat)
  {
  }

  /** The pattern on its own is removed entirely. */
  lemma RemoveAllOfPattern(pat: string)
    requires |pat| > 0
    ensures RemoveAll(pat, pat) == []
  {
    assert OccursAt(pat, pat, 0);
    assert pat[|pat|..] == [];
  }

  /** For a border-free pattern, `replace` undoes appending the pattern to a
      string that does not already contain it: only the suffix is removed. */
  lemma {:induction false} RemoveAppended(x: string, pat: string)
    requires |pat| > 0 && BorderFree(pat)
    requires !Contains(x, pat)
    ensures RemoveAll(x + pat, pat) == x
    decreases |x|
  {
    if |x| == 0 {
      assert x + pat == pat;
      RemoveAllOfPattern(pat);
    } else {
      TailAvoids(x, pat);
      RemoveAppended(x[1..], pat);
      NoEarlyMatch(x, pat);
      RemoveAppendedStep(x, pat);
      assert [x[0]] + x[1..] == x;
    }
  }

  /** One step of `RemoveAppended`: the head of `x` is kept, and the rest is
      handled as `x[1..]`. */
  lemma RemoveAppendedStep(x: string, pat: string)
    requires |pat| > 0 && |x| > 0
    requires !OccursAt(x + pat, pat, 0)
    ensures RemoveAll(x + pat, pat) == [x[0]] + RemoveAll(x[1..] + pat, pat)
  {
    var s := x + pat;
    RemoveAllKeepsHead(s, pat);
    assert s[1..] == x[1..] + pat;
  }
}
