/**
 * The parts of Go's `strings`, `unicode` and `sort` behaviour that the scraper
 * relies on, stated over `string` (a sequence of Unicode scalar values).
 *
 * Go strings are UTF-8 byte strings. For valid UTF-8, byte-wise lexicographic
 * order coincides with code-point-wise order, so `LexLe` on characters is the
 * order Go's `<` uses on strings.
 */
module Strings {
  import opened Wrappers

  /** Go's `unicode.IsSpace`: the Latin-1 spaces and the White_Space characters above Latin-1. */
  predicate IsSpace(c: char) {
    || c == ' '
    || ('\U{0009}' <= c <= '\U{000D}')
    || c == '\U{0085}' || c == '\U{00A0}' || c == '\U{1680}'
    || ('\U{2000}' <= c <= '\U{200A}')
    || c == '\U{2028}' || c == '\U{2029}' || c == '\U{202F}' || c == '\U{205F}' || c == '\U{3000}'
  }

  predicate AllSpace(s: string) {
    forall i :: 0 <= i < |s| ==> IsSpace(s[i])
  }

  predicate IsAsciiUpper(c: char) {
    'A' <= c <= 'Z'
  }

  function LowerChar(c: char): (d: char)
    ensures !IsAsciiUpper(d)
    ensures IsAsciiUpper(c) ==> d as int == c as int + 32
    ensures !IsAsciiUpper(c) ==> d == c
  {
    if IsAsciiUpper(c) then (c as int + 32) as char else c
  }

  /**
   * `strings.ToLower`, restricted to ASCII letters. Only two non-ASCII
   * characters lower-case to an ASCII letter in Go (KELVIN SIGN to 'k' and
   * U+0130 to 'i'), so for patterns without 'k' and 'i' the containment test
   * on the lowered text is the same as Go's.
   */
  function ToLower(s: string): (r: string)
    ensures |r| == |s|
    ensures NoAsciiUpper(r)
  {
    seq(|s|, i requires 0 <= i < |s| => LowerChar(s[i]))
  }

  /** Lowering changes nothing but the case of ASCII letters. */
  lemma ToLowerIgnoresCase(s: string)
    ensures SameIgnoringCase(ToLower(s), s)
  {
  }

  /** `a` and `b` differ at most in the case of ASCII letters. */
  predicate SameIgnoringCase(a: string, b: string) {
    |a| == |b| && forall i :: 0 <= i < |a| ==> LowerChar(a[i]) == LowerChar(b[i])
  }

  /** `pat` occurs in `s` at offset `k` when ASCII case is ignored. */
  predicate OccursIgnoringCaseAt(s: string, pat: string, k: int) {
    0 <= k <= |s| - |pat| && SameIgnoringCase(s[k..k + |pat|], pat)
  }

  predicate NoAsciiUpper(s: string) {
    forall i :: 0 <= i < |s| ==> !IsAsciiUpper(s[i])
  }

  /** At one offset, an occurrence in the lowered text is a case-blind occurrence in the text. */
  lemma OccursLoweredAt(s: string, pat: string, k: int)
    requires NoAsciiUpper(pat)
    ensures OccursAt(ToLower(s), pat, k) <==> OccursIgnoringCaseAt(s, pat, k)
  {
    var r := ToLower(s);
    ToLowerIgnoresCase(s);
    if 0 <= k <= |s| - |pat| {
      forall j | 0 <= j < |pat|
        ensures r[k..k + |pat|][j] == LowerChar(s[k..k + |pat|][j])
        ensures LowerChar(pat[j]) == pat[j]
      {
      }
      if OccursAt(r, pat, k) {
        assert forall j :: 0 <= j < |pat| ==> r[k..k + |pat|][j] == pat[j];
      }
      if OccursIgnoringCaseAt(s, pat, k) {
        assert r[k..k + |pat|] == pat;
      }
    }
  }

  /**
   * Matching a lower-case pattern against the lowered text finds exactly the
   * case-blind occurrences of the pattern in the original text.
   */
  lemma ContainsIgnoringCase(s: string, pat: string)
    requires NoAsciiUpper(pat)
    ensures Contains(ToLower(s), pat) <==> exists k :: OccursIgnoringCaseAt(s, pat, k)
  {
    ContainsIffOccurs(ToLower(s), pat);
    forall k
      ensures OccursAt(ToLower(s), pat, k) <==> OccursIgnoringCaseAt(s, pat, k)
    {
      OccursLoweredAt(s, pat, k);
    }
  }

  /** `strings.Contains`, and equally a regular expression made of the literal `pat`. */
  predicate Contains(s: string, pat: string)
    decreases |s|
  {
    |pat| <= |s| && (s[..|pat|] == pat || (|s| > 0 && Contains(s[1..], pat)))
  }

  /** `pat` occurs in `s` at offset `k`. */
  predicate OccursAt(s: string, pat: string, k: int) {
    0 <= k <= |s| - |pat| && s[k..k + |pat|] == pat
  }

  /** Containment means an occurrence at some offset. */
  lemma {:induction false} ContainsIffOccurs(s: string, pat: string)
    ensures Contains(s, pat) <==> exists k :: OccursAt(s, pat, k)
    decreases |s|
  {
    if Contains(s, pat) {
      if s[..|pat|] != pat {
        ContainsIffOccurs(s[1..], pat);
        var k :| OccursAt(s[1..], pat, k);
        assert s[k + 1..k + 1 + |pat|] == s[1..][k..k + |pat|];
        assert OccursAt(s, pat, k + 1);
      } else {
        assert OccursAt(s, pat, 0);
      }
    }
    if exists k :: OccursAt(s, pat, k) {
      var k :| OccursAt(s, pat, k);
      if k > 0 {
        assert s[1..][k - 1..k - 1 + |pat|] == s[k..k + |pat|];
        assert OccursAt(s[1..], pat, k - 1);
        ContainsIffOccurs(s[1..], pat);
      } else {
        assert s[..|pat|] == s[k..k + |pat|];
      }
    }
  }

  /** Index of the first occurrence of `c` in `s`. */
  function IndexOf(s: string, c: char): (r: Option<nat>)
    ensures r.None? <==> c !in s
    ensures r.Some? ==> r.value < |s| && s[r.value] == c && c !in s[..r.value]
  {
    if |s| == 0 then None
    else if s[0] == c then Some(0)
    else
      var rest := IndexOf(s[1..], c);
      if rest.None? then None
      else
        assert s[..rest.value + 1] == [s[0]] + s[1..][..rest.value];
        Some(rest.value + 1)
  }

  /** The inverse of `Split`: the parts with `sep` between consecutive ones. */
  function Join(parts: seq<string>, sep: char): string
    requires |parts| > 0
  {
    if |parts| == 1 then parts[0] else parts[0] + [sep] + Join(parts[1..], sep)
  }

  /**
   * `strings.Split` with a one-character separator: the maximal
   * separator-free pieces, one more than there are separators.
   */
  function Split(s: string, sep: char): (parts: seq<string>)
    ensures |parts| > 0
    ensures |parts| > 1 <==> sep in s
    ensures forall i :: 0 <= i < |parts| ==> sep !in parts[i]
    ensures Join(parts, sep) == s
    decreases |s|
  {
    match IndexOf(s, sep)
    case None => [s]
    case Some(i) =>
      var rest := Split(s[i + 1..], sep);
      assert ([s[..i]] + rest)[1..] == rest;
      assert s == s[..i] + [sep] + s[i + 1..];
      [s[..i]] + rest
  }

  /** Splitting undoes joining separator-free parts. */
  lemma {:induction false} SplitJoin(parts: seq<string>, sep: char)
    requires |parts| > 0
    requires forall i :: 0 <= i < |parts| ==> sep !in parts[i]
    ensures Split(Join(parts, sep), sep) == parts
    decreases |parts|
  {
    var s := Join(parts, sep);
    if |parts| > 1 {
      var head := parts[0];
      var tail := Join(parts[1..], sep);
      assert s == head + [sep] + tail;
      assert s[..|head|] == head;
      assert s[|head| + 1..] == tail;
      assert s[|head|] == sep;
      assert IndexOf(s, sep) == Some(|head|);
      SplitJoin(parts[1..], sep);
      assert parts == [head] + parts[1..];
    }
  }

  function TrimLeft(s: string): (r: string)
    ensures |r| <= |s| && r == s[|s| - |r|..]
    ensures AllSpace(s[..|s| - |r|])
    ensures |r| == 0 || !IsSpace(r[0])
  {
    if |s| > 0 && IsSpace(s[0]) then
      var r := TrimLeft(s[1..]);
      assert s[1..][|s| - 1 - |r|..] == s[|s| - |r|..];
      SpacePrefixGrows(s, |s| - |r|);
      r
    else s
  }

  /** A space followed by `n - 1` spaces is `n` spaces. */
  lemma SpacePrefixGrows(s: string, n: nat)
    requires 0 < n <= |s| && IsSpace(s[0]) && AllSpace(s[1..][..n - 1])
    ensures AllSpace(s[..n])
  {
    forall i | 0 <= i < n
      ensures IsSpace(s[..n][i])
    {
      if i > 0 { assert s[..n][i] == s[1..][..n - 1][i - 1]; }
    }
  }

  function TrimRight(s: string): (r: string)
    ensures |r| <= |s| && r == s[..|r|]
    ensures AllSpace(s[|r|..])
    ensures |r| == 0 || !IsSpace(r[|r| - 1])
  {
    if |s| > 0 && IsSpace(s[|s| - 1]) then
      var r := TrimRight(s[..|s| - 1]);
      assert s[|r|..] == s[..|s| - 1][|r|..] + [s[|s| - 1]];
      r
    else s
  }

  /** `s` is `r` at offset `lo` with only white space before and after it. */
  predicate SpaceAround(s: string, r: string, lo: int) {
    && 0 <= lo <= |s| - |r|
    && s[lo..lo + |r|] == r
    && AllSpace(s[..lo])
    && AllSpace(s[lo + |r|..])
  }

  /**
   * `strings.TrimSpace`: the text between the leading and the trailing
   * white space; it neither starts nor ends with white space.
   */
  function TrimSpace(s: string): (r: string)
    ensures |r| == 0 || (!IsSpace(r[0]) && !IsSpace(r[|r| - 1]))
    ensures exists lo :: SpaceAround(s, r, lo)
    ensures forall c :: c in r ==> c in s
  {
    TrimSpaceAround(s);
    TrimRight(TrimLeft(s))
  }

  /** Trimming left and then right cuts out a slice surrounded by white space. */
  lemma TrimSpaceAround(s: string)
    ensures SpaceAround(s, TrimRight(TrimLeft(s)), |s| - |TrimLeft(s)|)
    ensures forall c :: c in TrimRight(TrimLeft(s)) ==> c in s
  {
    var left := TrimLeft(s);
    var r := TrimRight(left);
    var lo := |s| - |left|;
    assert left == s[lo..];
    assert r == left[..|r|];
    assert AllSpace(s[..lo]);
    assert AllSpace(left[|r|..]);
    SliceOfSuffix(s, lo, |r|);
    assert s[lo + |r|..] == left[|r|..];
    assert s[lo..lo + |r|] == r;
    assert SpaceAround(s, r, lo);
    SliceElements(s, lo, r);
  }

  lemma SliceElements(s: string, lo: nat, r: string)
    requires lo + |r| <= |s| && s[lo..lo + |r|] == r
    ensures forall c :: c in r ==> c in s
  {
    forall c | c in r
      ensures c in s
    {
      var i :| 0 <= i < |r| && r[i] == c;
      assert s[lo + i] == c;
    }
  }

  lemma SliceOfSuffix(s: string, lo: nat, n: nat)
    requires lo + n <= |s|
    ensures s[lo..][n..] == s[lo + n..]
    ensures s[lo..][..n] == s[lo..lo + n]
  {
  }

  /** Trimming twice is trimming once. */
  lemma TrimSpaceIdempotent(s: string)
    ensures TrimSpace(TrimSpace(s)) == TrimSpace(s)
  {
    var t := TrimSpace(s);
    assert TrimLeft(t) == t;
    assert TrimRight(t) == t;
  }

  /**
   * The canonical member of a character's simple case-folding orbit, for
   * the orbits that contain an ASCII letter: besides the two ASCII cases,
   * 'k' folds with KELVIN SIGN and 's' with LATIN SMALL LETTER LONG S.
   */
  function FoldChar(c: char): char {
    if IsAsciiUpper(c) then LowerChar(c)
    else if c == '\U{212A}' then 'k'
    else if c == '\U{017F}' then 's'
    else c
  }

  /**
   * `strings.EqualFold`, exact whenever one side is ASCII text (the only
   * way the scraper uses it): equal length and equal folded characters.
   */
  predicate EqualFold(a: string, b: string) {
    |a| == |b| && forall i :: 0 <= i < |a| ==> FoldChar(a[i]) == FoldChar(b[i])
  }

  /**
   * Away from KELVIN SIGN and LATIN SMALL LETTER LONG S, the case-insensitive
   * comparison is equality up to the case of ASCII letters.
   */
  lemma EqualFoldIsSameIgnoringCase(a: string, b: string)
    requires '\U{212A}' !in a && '\U{017F}' !in a
    requires '\U{212A}' !in b && '\U{017F}' !in b
    ensures EqualFold(a, b) <==> SameIgnoringCase(a, b)
  {
  }

  /** Lexicographic order on strings, Go's `<=` on strings. */
  predicate LexLe(a: string, b: string)
    decreases |a|
  {
    |a| == 0 || (|b| > 0 && (a[0] < b[0] || (a[0] == b[0] && LexLe(a[1..], b[1..]))))
  }

  lemma {:induction false} LexLeReflexive(a: string)
    ensures LexLe(a, a)
    decreases |a|
  {
    if |a| > 0 {
      LexLeReflexive(a[1..]);
    }
  }

  lemma {:induction false} LexLeTotal(a: string, b: string)
    ensures LexLe(a, b) || LexLe(b, a)
    decreases |a|
  {
    if |a| > 0 && |b| > 0 && a[0] == b[0] {
      LexLeTotal(a[1..], b[1..]);
    }
  }

  lemma {:induction false} LexLeAntisymmetric(a: string, b: string)
    requires LexLe(a, b) && LexLe(b, a)
    ensures a == b
    decreases |a|
  {
    if |a| > 0 {
      LexLeAntisymmetric(a[1..], b[1..]);
      assert a == [a[0]] + a[1..];
      assert b == [b[0]] + b[1..];
    }
  }

  lemma {:induction false} LexLeTransitive(a: string, b: string, c: string)
    requires LexLe(a, b) && LexLe(b, c)
    ensures LexLe(a, c)
    decreases |a|
  {
    if |a| > 0 && a[0] == b[0] && b[0] == c[0] {
      LexLeTransitive(a[1..], b[1..], c[1..]);
    }
  }

  /** The empty string is the least string, and the only string below it. */
  lemma LexLeEmpty(a: string)
    ensures LexLe([], a)
    ensures LexLe(a, []) <==> a == []
  {
  }
}
