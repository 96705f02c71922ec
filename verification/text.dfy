/**
 * String operations the application applies to questions, answers and
 * model replies: Python's `str.strip()` and the lower-casing used by the
 * answer cache.
 */
module Text {

  /** Python's `str.isspace()` for a single character. */
  predicate IsSpace(c: char) {
    var n := c as int;
    n == 0x20 || 0x09 <= n <= 0x0D || 0x1C <= n <= 0x1F || n == 0x85 || n == 0xA0
    || n == 0x1680 || 0x2000 <= n <= 0x200A || n == 0x2028 || n == 0x2029
    || n == 0x202F || n == 0x205F || n == 0x3000
  }

  predicate AllSpace(s: string) {
    forall k :: 0 <= k < |s| ==> IsSpace(s[k])
  }

  /** Neither the first nor the last character is whitespace. */
  predicate IsStripped(s: string) {
    |s| == 0 || (!IsSpace(s[0]) && !IsSpace(s[|s| - 1]))
  }

  /** `r` is `s[i..j]`, everything cut away is whitespace, and `r` has none at its ends. */
  predicate TrimOf(s: string, r: string, i: nat, j: nat) {
    i <= j <= |s| && r == s[i..j] && AllSpace(s[..i]) && AllSpace(s[j..]) && IsStripped(r)
  }

  /** Number of whitespace characters at the start of `s`. */
  function LeadingSpaces(s: string): (n: nat)
    ensures n <= |s|
  {
    if |s| > 0 && IsSpace(s[0]) then 1 + LeadingSpaces(s[1..]) else 0
  }

  /** `LeadingSpaces` counts exactly the whitespace run at the start. */
  lemma {:induction false} LeadingSpacesRun(s: string)
    ensures AllSpace(s[..LeadingSpaces(s)])
    ensures LeadingSpaces(s) < |s| ==> !IsSpace(s[LeadingSpaces(s)])
  {
    if |s| > 0 && IsSpace(s[0]) {
      var m := LeadingSpaces(s[1..]);
      LeadingSpacesRun(s[1..]);
      assert s[..m + 1] == [s[0]] + s[1..][..m];
    }
  }

  /** Number of whitespace characters at the end of `s`. */
  function TrailingSpaces(s: string): (n: nat)
    ensures n <= |s|
  {
    if |s| > 0 && IsSpace(s[|s| - 1]) then 1 + TrailingSpaces(s[..|s| - 1]) else 0
  }

  /** `TrailingSpaces` counts exactly the whitespace run at the end. */
  lemma {:induction false} TrailingSpacesRun(s: string)
    ensures AllSpace(s[|s| - TrailingSpaces(s)..])
    ensures TrailingSpaces(s) < |s| ==> !IsSpace(s[|s| - 1 - TrailingSpaces(s)])
  {
    if |s| > 0 && IsSpace(s[|s| - 1]) {
      var init := s[..|s| - 1];
      var m := TrailingSpaces(init);
      TrailingSpacesRun(init);
      assert TrailingSpaces(s) == m + 1;
      var run := s[|s| - (m + 1)..];
      forall k | 0 <= k < |run| ensures IsSpace(run[k]) {
        if k < m {
          assert run[k] == init[|init| - m..][k];
        } else {
          assert run[k] == s[|s| - 1];
        }
      }
      if m + 1 < |s| {
        assert s[|s| - 1 - (m + 1)] == init[|init| - 1 - m];
      }
    }
  }

  /** Python's `s.strip()`: leading and trailing whitespace removed. */
  function Strip(s: string): (r: string)
    ensures |r| <= |s|
  {
    var lo := LeadingSpaces(s);
    var rest := s[lo..];
    var cut := TrailingSpaces(rest);
    rest[..|rest| - cut]
  }

  /** `Strip` cuts only whitespace, from both ends, and leaves none at either end. */
  lemma StripIsTrim(s: string)
    ensures exists i: nat, j: nat :: TrimOf(s, Strip(s), i, j)
  {
    var lo := LeadingSpaces(s);
    var rest := s[lo..];
    var cut := TrailingSpaces(rest);
    var r := rest[..|rest| - cut];
    LeadingSpacesRun(s);
    TrailingSpacesRun(rest);
    assert r == Strip(s);
    assert s[lo + |r|..] == rest[|rest| - cut..];
    assert TrimOf(s, r, lo, lo + |r|);
  }

  /** The trim of a string is unique: any way of cutting whitespace off both
      ends that leaves no whitespace at the ends gives `Strip(s)`. */
  lemma TrimIsUnique(s: string, r: string, i: nat, j: nat)
    requires TrimOf(s, r, i, j)
    ensures r == Strip(s)
  {
    StripIsTrim(s);
    var r': string, i': nat, j': nat :| TrimOf(s, r', i', j') && r' == Strip(s);
    EmptyTrimIffAllSpace(s, r, i, j);
    EmptyTrimIffAllSpace(s, r', i', j');
    if |r| > 0 {
      SameCut(s, r, i, j, r', i', j');
    }
  }

  /** A trim is empty exactly when the whole string is whitespace. */
  lemma EmptyTrimIffAllSpace(s: string, r: string, i: nat, j: nat)
    requires TrimOf(s, r, i, j)
    ensures |r| == 0 <==> AllSpace(s)
  {
    assert |r| > 0 ==> r[0] == s[i];
    if |r| == 0 {
      forall k | 0 <= k < |s| ensures IsSpace(s[k]) {
        if k < i { assert s[..i][k] == s[k]; } else { assert s[j..][k - j] == s[k]; }
      }
    }
  }

  /** Two non-empty trims of the same string cut at the same places. */
  lemma SameCut(s: string, r: string, i: nat, j: nat, r': string, i': nat, j': nat)
    requires TrimOf(s, r, i, j) && TrimOf(s, r', i', j') && |r| > 0 && |r'| > 0
    ensures i == i' && j == j'
  {
    CutBounds(s, r, i, j);
    CutBounds(s, r', i', j');
  }

  /** In a non-empty trim `s[i..j]`, `i` is the first and `j - 1` the last non-space index. */
  lemma CutBounds(s: string, r: string, i: nat, j: nat)
    requires TrimOf(s, r, i, j) && |r| > 0
    ensures i < j && !IsSpace(s[i]) && !IsSpace(s[j - 1])
    ensures forall k :: 0 <= k < i ==> IsSpace(s[k])
    ensures forall k :: j <= k < |s| ==> IsSpace(s[k])
  {
    assert r[0] == s[i] && r[|r| - 1] == s[j - 1];
    forall k | 0 <= k < i ensures IsSpace(s[k]) { assert s[..i][k] == s[k]; }
    forall k | j <= k < |s| ensures IsSpace(s[k]) { assert s[j..][k - j] == s[k]; }
  }

  /** Stripping twice is stripping once. */
  lemma StripIdempotent(s: string)
    ensures Strip(Strip(s)) == Strip(s)
  {
    var r := Strip(s);
    assert r[..0] == [] && r[|r|..] == [];
    assert TrimOf(r, r, 0, |r|) by {
      StripIsTrim(s);
      var i, j :| TrimOf(s, r, i, j);
      assert r[0..|r|] == r;
    }
    TrimIsUnique(r, r, 0, |r|);
  }

  /** The result of `Strip` has no whitespace at either end. */
  lemma StripIsStripped(s: string)
    ensures IsStripped(Strip(s))
  {
    StripIsTrim(s);
    var i, j :| TrimOf(s, Strip(s), i, j);
  }

  /**
   * Lower-casing of one character: ASCII and Latin-1 capitals, and the
   * Cyrillic capitals U+0400..U+042F, map to their small letters; every
   * other character is left as it is.
   */
  function LowerChar(c: char): char {
    var n := c as int;
    if 'A' <= c <= 'Z' then (n + 0x20) as char
    else if 0xC0 <= n <= 0xDE && n != 0xD7 then (n + 0x20) as char
    else if 0x400 <= n <= 0x40F then (n + 0x50) as char
    else if 0x410 <= n <= 0x42F then (n + 0x20) as char
    else c
  }

  /** `str.lower()` / SQL `lower()`: character-wise, length-preserving. */
  function Lower(s: string): (r: string)
    ensures |r| == |s|
    ensures forall k :: 0 <= k < |s| ==> r[k] == LowerChar(s[k])
  {
    seq(|s|, k requires 0 <= k < |s| => LowerChar(s[k]))
  }

  /** Lower-casing a lower-cased string changes nothing. */
  lemma LowerIdempotent(s: string)
    ensures Lower(Lower(s)) == Lower(s)
  {
  }
}
