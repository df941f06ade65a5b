/**
 The string operations the download handler relies on: Python's `str.strip()`
 with no argument, and the substring test behind the `in` operator on strings.
 */
module Text {

  /** Python's `str.isspace` for one character: the code points that
      `str.strip()` removes when called without an argument. */
  predicate IsSpace(c: char) {
    var n := c as int;
    || (0x09 <= n <= 0x0D)
    || (0x1C <= n <= 0x20)
    || n == 0x85
    || n == 0xA0
    || n == 0x1680
    || (0x2000 <= n <= 0x200A)
    || n == 0x2028
    || n == 0x2029
    || n == 0x202F
    || n == 0x205F
    || n == 0x3000
  }

  predicate AllSpace(s: string) {
    forall i :: 0 <= i < |s| ==> IsSpace(s[i])
  }

  /** Neither the first nor the last character of `s` is whitespace. */
  predicate NoEdgeSpace(s: string) {
    |s| == 0 || (!IsSpace(s[0]) && !IsSpace(s[|s| - 1]))
  }

  /** `r` sits at offset `i` of `s` and only whitespace surrounds it. */
  ghost predicate PaddedAt(s: string, r: string, i: int) {
    && 0 <= i && i + |r| <= |s|
    && s[i..i + |r|] == r
    && AllSpace(s[..i])
    && AllSpace(s[i + |r|..])
  }

  /** Reference meaning of `s.strip() == r`: `r` is `s` with whitespace-only
      borders removed, and `r` itself starts and ends with a non-space. */
  ghost predicate StripsTo(s: string, r: string) {
    NoEdgeSpace(r) && exists i :: PaddedAt(s, r, i)
  }

  /** Count of the leading whitespace characters of `s`. */
  function LeadingSpace(s: string): (k: nat)
    ensures k <= |s|
    ensures AllSpace(s[..k])
    ensures k < |s| ==> !IsSpace(s[k])
  {
    if |s| == 0 || !IsSpace(s[0]) then 0
    else
      var k' := LeadingSpace(s[1..]);
      assert s[..1 + k'] == [s[0]] + s[1..][..k'];
      1 + k'
  }

  /** Index at which the trailing whitespace of `s` begins. */
  function TrailingStart(s: string): (k: nat)
    ensures k <= |s|
    ensures AllSpace(s[k..])
    ensures 0 < k ==> !IsSpace(s[k - 1])
  {
    if |s| == 0 || !IsSpace(s[|s| - 1]) then |s|
    else
      var k := TrailingStart(s[..|s| - 1]);
      assert forall i :: k <= i < |s| - 1 ==> s[i] == s[..|s| - 1][k..][i - k];
      k
  }

  /** Python's `s.strip()`. */
  function Strip(s: string): (r: string)
    ensures StripsTo(s, r)
    ensures |r| == 0 <==> AllSpace(s)
  {
    var i := LeadingSpace(s);
    var t := s[i..];
    var j := TrailingStart(t);
    var r := t[..j];
    assert s[i..i + |r|] == r;
    assert s[i + |r|..] == t[j..];
    assert PaddedAt(s, r, i);
    if |r| == 0 then
      assert s == s[..i] + s[i..];
      r
    else
      assert !IsSpace(s[i]);
      r
  }

  /** A string that is all whitespace is the only kind with an empty strip. */
  lemma PaddedEmptyAllSpace(s: string, i: int)
    requires PaddedAt(s, "", i)
    ensures AllSpace(s)
  {
    assert s == s[..i] + s[i..];
  }

  /** Where a non-empty stripped core sits inside `s` is fixed by `s`. */
  lemma PaddedSameOffset(s: string, r: string, i: int, r': string, i': int)
    requires NoEdgeSpace(r) && PaddedAt(s, r, i) && |r| > 0
    requires NoEdgeSpace(r') && PaddedAt(s, r', i') && |r'| > 0
    ensures i == i' && |r| == |r'|
  {
    var e, e' := i + |r|, i' + |r'|;
    assert s[i] == r[0] && s[i'] == r'[0];
    assert s[e - 1] == r[|r| - 1] && s[e' - 1] == r'[|r'| - 1];
    assert forall k :: 0 <= k < i' ==> s[..i'][k] == s[k];
    assert forall k :: 0 <= k < i ==> s[..i][k] == s[k];
    assert forall k :: e <= k < |s| ==> s[e..][k - e] == s[k];
    assert forall k :: e' <= k < |s| ==> s[e'..][k - e'] == s[k];
  }

  /** `StripsTo(s, _)` has at most one solution. */
  lemma StripsToUnique(s: string, r: string, r': string)
    requires StripsTo(s, r) && StripsTo(s, r')
    ensures r == r'
  {
    var i :| PaddedAt(s, r, i);
    var i' :| PaddedAt(s, r', i');
    assert |r| > 0 ==> s[i] == r[0];
    assert |r'| > 0 ==> s[i'] == r'[0];
    if |r| == 0 {
      PaddedEmptyAllSpace(s, i);
    } else if |r'| == 0 {
      PaddedEmptyAllSpace(s, i');
    } else {
      PaddedSameOffset(s, r, i, r', i');
    }
  }

  /** `Strip` computes exactly the reference strip: no other string qualifies. */
  lemma StripMeetsReference(s: string, r: string)
    ensures StripsTo(s, r) <==> r == Strip(s)
  {
    if StripsTo(s, r) {
      StripsToUnique(s, r, Strip(s));
    }
  }

  /** Stripping twice is stripping once. */
  lemma StripIdempotent(s: string)
    ensures Strip(Strip(s)) == Strip(s)
  {
    var r := Strip(s);
    assert PaddedAt(r, r, 0);
    StripsToUnique(r, r, Strip(r));
  }

  /** Whitespace added on either side never changes the strip. */
  lemma StripIgnoresPadding(p: string, s: string, q: string)
    requires AllSpace(p) && AllSpace(q)
    ensures Strip(p + s + q) == Strip(s)
  {
    var r := Strip(s);
    var i :| PaddedAt(s, r, i);
    PaddedWiden(p, s, q, r, i);
    StripsToUnique(p + s + q, r, Strip(p + s + q));
  }

  lemma AllSpaceConcat(a: string, b: string)
    requires AllSpace(a) && AllSpace(b)
    ensures AllSpace(a + b)
  {
    assert forall k :: |a| <= k < |a + b| ==> (a + b)[k] == b[k - |a|];
  }

  /** Surrounding whitespace widens the padding but keeps the core. */
  lemma PaddedWiden(p: string, s: string, q: string, r: string, i: int)
    requires AllSpace(p) && AllSpace(q) && PaddedAt(s, r, i)
    ensures PaddedAt(p + s + q, r, |p| + i)
  {
    var t := p + s + q;
    var j := i + |r|;
    assert t[..|p| + i] == p + s[..i];
    assert t[|p| + j..] == s[j..] + q;
    AllSpaceConcat(p, s[..i]);
    AllSpaceConcat(s[j..], q);
    assert t[|p| + i..|p| + j] == s[i..j];
  }

  /** `needle` occurs in `hay` starting at index `i`. */
  ghost predicate OccursAt(hay: string, needle: string, i: int) {
    0 <= i && i + |needle| <= |hay| && hay[i..i + |needle|] == needle
  }

  /** Reference meaning of Python's `needle in hay`. */
  ghost predicate Occurs(hay: string, needle: string) {
    exists i :: OccursAt(hay, needle, i)
  }

  /** Dropping the first character of `hay` shifts every later occurrence by one. */
  lemma OccursAtShift(hay: string, needle: string)
    requires |hay| > 0
    ensures forall i :: 1 <= i ==> (OccursAt(hay, needle, i) <==> OccursAt(hay[1..], needle, i - 1))
  {
    forall i | 1 <= i
      ensures OccursAt(hay, needle, i) <==> OccursAt(hay[1..], needle, i - 1)
    {
      if i + |needle| <= |hay| {
        assert hay[1..][i - 1..i - 1 + |needle|] == hay[i..i + |needle|];
      }
    }
  }

  /** Python's `needle in hay` on strings: a case-sensitive search at every offset. */
  function Contains(hay: string, needle: string): (b: bool)
    ensures b <==> Occurs(hay, needle)
    decreases |hay|
  {
    if |needle| <= |hay| && hay[..|needle|] == needle then
      assert OccursAt(hay, needle, 0);
      true
    else if |hay| == 0 then
      false
    else
      OccursAtShift(hay, needle);
      var b := Contains(hay[1..], needle);
      assert b ==> exists i :: OccursAt(hay[1..], needle, i) && OccursAt(hay, needle, i + 1);
      b
  }

  /** Containment ignores whatever surrounds the occurrence: a string that
      contains `needle` still does after anything is added on either side. */
  lemma ContainsAnywhere(p: string, s: string, q: string, needle: string)
    requires Contains(s, needle)
    ensures Contains(p + s + q, needle)
  {
    var i :| OccursAt(s, needle, i);
    var t := p + s + q;
    assert t[|p| + i..|p| + i + |needle|] == s[i..i + |needle|];
    assert OccursAt(t, needle, |p| + i);
  }

  predicate NoSpaceIn(s: string) {
    forall i :: 0 <= i < |s| ==> !IsSpace(s[i])
  }

  /** An occurrence inside a slice is an occurrence in the whole string. */
  lemma OccursInSlice(s: string, lo: int, hi: int, needle: string, k: int)
    requires 0 <= lo <= hi <= |s| && OccursAt(s[lo..hi], needle, k)
    ensures OccursAt(s, needle, lo + k)
  {
    var n := |needle|;
    var x, y := s[lo..hi][k..k + n], s[lo + k..lo + k + n];
    forall j | 0 <= j < n
      ensures x[j] == y[j]
    {
      assert x[j] == s[lo..hi][k + j] == s[lo + k + j];
    }
    assert x == y;
  }

  /** A non-empty needle without whitespace cannot overlap the whitespace
      borders, so each of its occurrences lies inside the stripped core. */
  lemma OccursInCore(s: string, r: string, i: int, needle: string, k: int)
    requires PaddedAt(s, r, i) && NoSpaceIn(needle) && |needle| > 0
    requires OccursAt(s, needle, k)
    ensures OccursAt(r, needle, k - i)
  {
    var e := i + |r|;
    assert s[k] == needle[0];
    assert s[k + |needle| - 1] == needle[|needle| - 1];
    assert forall j :: 0 <= j < i ==> s[..i][j] == s[j];
    assert forall j :: e <= j < |s| ==> s[e..][j - e] == s[j];
    assert i <= k;
    assert k + |needle| <= e;
    var n := |needle|;
    assert r == s[i..e];
    var x, y := r[k - i..k - i + n], s[k..k + n];
    assert forall j :: 0 <= j < n ==> x[j] == y[j];
    assert x == y;
  }

  /** A needle without whitespace occurs in the stripped string exactly when
      it occurs in the original. */
  lemma {:induction false} OccursStripped(s: string, needle: string)
    requires NoSpaceIn(needle)
    ensures Occurs(Strip(s), needle) <==> Occurs(s, needle)
  {
    var r := Strip(s);
    var i :| PaddedAt(s, r, i);
    if Occurs(r, needle) {
      var k :| OccursAt(r, needle, k);
      OccursInSlice(s, i, i + |r|, needle, k);
    }
    if Occurs(s, needle) {
      var k :| OccursAt(s, needle, k);
      if |needle| == 0 {
        assert OccursAt(r, needle, 0);
      } else {
        OccursInCore(s, r, i, needle, k);
      }
    }
  }
}
