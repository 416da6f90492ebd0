/**
 * The pieces of Python's `str` that the pipeline relies on: the whitespace
 * class used by `strip()`/`rstrip()`, and `lower()` as far as it matters for
 * membership in sets of ASCII extensions.
 */
module Text {

  /** Python's `str.isspace()`: the characters that `strip()` and `rstrip()` remove. */
  predicate IsSpace(c: char) {
    || ('\t' <= c <= '\r')
    || ('\U{1C}' <= c <= ' ')
    || c == '\U{85}' || c == '\U{A0}' || c == '\U{1680}'
    || ('\U{2000}' <= c <= '\U{200A}')
    || c == '\U{2028}' || c == '\U{2029}' || c == '\U{202F}'
    || c == '\U{205F}' || c == '\U{3000}'
  }

  /** Concatenation regroups freely. */
  lemma ConcatAssoc<T>(x: seq<T>, y: seq<T>, z: seq<T>)
    ensures (x + y) + z == x + (y + z)
  {
  }

  /** Every character of `s` is whitespace (the empty string included). */
  predicate Blank(s: string) {
    forall i :: 0 <= i < |s| ==> IsSpace(s[i])
  }

  lemma BlankConcat(a: string, b: string)
    ensures Blank(a + b) <==> Blank(a) && Blank(b)
  {
    if Blank(a) && Blank(b) {
      forall i | 0 <= i < |a + b| ensures IsSpace((a + b)[i]) {
        if i >= |a| { assert (a + b)[i] == b[i - |a|]; }
      }
    }
    if Blank(a + b) {
      forall i | 0 <= i < |a| ensures IsSpace(a[i]) {
        assert (a + b)[i] == a[i];
      }
      forall i | 0 <= i < |b| ensures IsSpace(b[i]) {
        assert (a + b)[|a| + i] == b[i];
      }
    }
  }

  /** The first index at or after `i` that does not hold whitespace, or |s|. */
  function SkipSpaces(s: string, i: nat): (j: nat)
    requires i <= |s|
    ensures i <= j <= |s|
    ensures forall k :: i <= k < j ==> IsSpace(s[k])
    ensures j < |s| ==> !IsSpace(s[j])
    decreases |s| - i
  {
    if i == |s| || !IsSpace(s[i]) then i else SkipSpaces(s, i + 1)
  }

  /** The end of `s[lo..hi]` once its trailing whitespace is cut off. */
  function TrimEnd(s: string, lo: nat, hi: nat): (j: nat)
    requires lo <= hi <= |s|
    ensures lo <= j <= hi
    ensures forall k :: j <= k < hi ==> IsSpace(s[k])
    ensures j > lo ==> !IsSpace(s[j - 1])
    decreases hi
  {
    if hi == lo || !IsSpace(s[hi - 1]) then hi else TrimEnd(s, lo, hi - 1)
  }

  /** `s.rstrip()`: the longest prefix of `s` that does not end in whitespace. */
  function RStrip(s: string): (r: string)
    ensures |r| <= |s| && r == s[..|r|]
    ensures r != [] ==> !IsSpace(r[|r| - 1])
    ensures forall k :: |r| <= k < |s| ==> IsSpace(s[k])
  {
    s[..TrimEnd(s, 0, |s|)]
  }

  /**
   * `s.strip()`: `s` without its leading and trailing whitespace. The result
   * is a slice of `s` with only whitespace outside it; it neither starts nor
   * ends with whitespace; and it is empty exactly when `s` is blank.
   */
  function Strip(s: string): (r: string)
    ensures var lo := SkipSpaces(s, 0);
      && lo + |r| <= |s| && r == s[lo..lo + |r|]
      && (forall k :: 0 <= k < lo ==> IsSpace(s[k]))
      && (forall k :: lo + |r| <= k < |s| ==> IsSpace(s[k]))
    ensures r != [] ==> !IsSpace(r[0]) && !IsSpace(r[|r| - 1])
    ensures r == [] <==> Blank(s)
  {
    var lo := SkipSpaces(s, 0);
    var hi := TrimEnd(s, lo, |s|);
    assert lo < |s| ==> hi > lo;
    var r := s[lo..hi];
    assert r == s[lo..lo + |r|];
    r
  }

  /**
   * One character of `str.lower()`. ASCII capitals map to small letters; the
   * Kelvin sign U+212A is the one non-ASCII character whose lower case is a
   * single ASCII letter ('k'). Every other character is left alone: its
   * Python lower case is either itself or contains a non-ASCII character, so
   * membership of the lowered string in a set of ASCII words is decided the
   * same way.
   */
  function LowerChar(c: char): char {
    if 'A' <= c <= 'Z' then (c as int + 32) as char
    else if c == '\U{212A}' then 'k'
    else c
  }

  /**
   * `s.lower()`, character by character (see LowerChar): no ASCII capital
   * and no Kelvin sign is left, and every other character stays in place.
   */
  function Lower(s: string): (r: string)
    ensures |r| == |s|
    ensures forall i :: 0 <= i < |r| ==> !('A' <= r[i] <= 'Z') && r[i] != '\U{212A}'
    ensures forall i :: 0 <= i < |s| && !('A' <= s[i] <= 'Z') && s[i] != '\U{212A}' ==> r[i] == s[i]
    ensures forall i :: 0 <= i < |s| ==> r[i] == LowerChar(s[i])
  {
    seq(|s|, i requires 0 <= i < |s| => LowerChar(s[i]))
  }

  /** Lower-casing twice is lower-casing once. */
  lemma LowerIdempotent(s: string)
    ensures Lower(Lower(s)) == Lower(s)
  {
    var r := Lower(s);
    assert forall i :: 0 <= i < |r| ==> Lower(r)[i] == r[i];
  }

  /** A character that lower-casing leaves alone: ASCII small letters, digits and '.'. */
  predicate LowerWordChar(d: char) {
    'a' <= d <= 'z' || '0' <= d <= '9' || d == '.'
  }

  /** The characters that lower-case to `d`: `d`, its capital, and the Kelvin sign for 'k'. */
  predicate LowersTo(c: char, d: char) {
    c == d || ('a' <= d <= 'z' && c as int == d as int - 32) || (d == 'k' && c == '\U{212A}')
  }

  lemma LowerCharIs(c: char, d: char)
    requires LowerWordChar(d)
    ensures LowerChar(c) == d <==> LowersTo(c, d)
  {
  }

  /**
   * A string lower-cases to a word of small letters, digits and dots exactly
   * when it spells that word with any mix of capitals (and the Kelvin sign
   * for 'k').
   */
  lemma LowerMatches(s: string, w: string)
    requires forall i :: 0 <= i < |w| ==> LowerWordChar(w[i])
    ensures Lower(s) == w <==> |s| == |w| && forall i :: 0 <= i < |s| ==> LowersTo(s[i], w[i])
  {
    forall i | 0 <= i < |s| && i < |w| {
      LowerCharIs(s[i], w[i]);
    }
    if |s| == |w| && forall i :: 0 <= i < |s| ==> LowersTo(s[i], w[i]) {
      assert forall i :: 0 <= i < |s| ==> Lower(s)[i] == w[i];
    }
  }
}
