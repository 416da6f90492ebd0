/**
 * How output files are named: the base-name sanitiser shared by
 * `split_audio_file` and `convert_to_mp3_mono_22050`, the `%03d` index
 * format, and the paths of segments and of the converted file.
 */
module Naming {
  import opened Text
  import opened Paths

  /**
   * A character the sanitiser keeps: alphanumeric, space, '-' or '_'.
   * `isAlnum` is Python's `str.isalnum`, whose Unicode table is a parameter.
   */
  predicate Kept(isAlnum: char -> bool, c: char) {
    isAlnum(c) || c == ' ' || c == '-' || c == '_'
  }

  /** All characters of `s` are kept ones. */
  predicate AllKept(isAlnum: char -> bool, s: string) {
    forall i :: 0 <= i < |s| ==> Kept(isAlnum, s[i])
  }

  /** `"".join(c for c in s if <kept>)`: the kept characters of `s`, in order. */
  function KeepAllowed(isAlnum: char -> bool, s: string): (r: string)
    ensures |r| <= |s|
    ensures forall c :: c in r <==> c in s && Kept(isAlnum, c)
    ensures AllKept(isAlnum, s) ==> r == s
  {
    if s == [] then []
    else
      var rest := KeepAllowed(isAlnum, s[1..]);
      assert forall c :: c in s <==> c == s[0] || c in s[1..];
      if Kept(isAlnum, s[0]) then [s[0]] + rest else rest
  }

  /** The filter works piece by piece, so it keeps order and repeats. */
  lemma {:induction false} KeepAllowedAppend(isAlnum: char -> bool, s: string, t: string)
    ensures KeepAllowed(isAlnum, s + t) == KeepAllowed(isAlnum, s) + KeepAllowed(isAlnum, t)
  {
    if s == [] {
      assert s + t == t;
    } else {
      assert (s + t)[0] == s[0];
      assert (s + t)[1..] == s[1..] + t;
      KeepAllowedAppend(isAlnum, s[1..], t);
    }
  }

  /** One character is kept exactly when it is a kept character. */
  lemma KeepAllowedOne(isAlnum: char -> bool, c: char)
    ensures KeepAllowed(isAlnum, [c]) == if Kept(isAlnum, c) then [c] else []
  {
    assert [c][1..] == [];
  }

  /**
   * The sanitised base name: the kept characters, then `rstrip()`. The
   * result is the kept characters up to the trailing whitespace, holds only
   * kept characters and does not end in whitespace.
   */
  function SanitiseBaseName(isAlnum: char -> bool, s: string): (r: string)
    ensures |r| <= |KeepAllowed(isAlnum, s)| && r == KeepAllowed(isAlnum, s)[..|r|]
    ensures forall k :: |r| <= k < |KeepAllowed(isAlnum, s)| ==> IsSpace(KeepAllowed(isAlnum, s)[k])
    ensures AllKept(isAlnum, r)
    ensures r != [] ==> !IsSpace(r[|r| - 1])
    ensures forall c :: c in r ==> c in s
  {
    var kept := KeepAllowed(isAlnum, s);
    var r := RStrip(kept);
    assert forall i :: 0 <= i < |r| ==> r[i] in kept by {
      forall i | 0 <= i < |r| ensures r[i] in kept { assert r[i] == kept[i]; }
    }
    r
  }

  /** Sanitising a sanitised name changes nothing. */
  lemma SanitiseIdempotent(isAlnum: char -> bool, s: string)
    ensures SanitiseBaseName(isAlnum, SanitiseBaseName(isAlnum, s)) == SanitiseBaseName(isAlnum, s)
  {
    var r := SanitiseBaseName(isAlnum, s);
    assert KeepAllowed(isAlnum, r) == r;
    assert r == [] || !IsSpace(r[|r| - 1]);
  }

  /** A name of kept characters that does not end in whitespace comes back unchanged. */
  lemma SanitiseKeepsCleanName(isAlnum: char -> bool, s: string)
    requires AllKept(isAlnum, s)
    requires s != [] ==> !IsSpace(s[|s| - 1])
    ensures SanitiseBaseName(isAlnum, s) == s
  {
    assert KeepAllowed(isAlnum, s) == s;
  }

  /** `os.path.splitext(os.path.basename(path))[0]`, sanitised. */
  function BaseNameOf(isAlnum: char -> bool, path: string): (r: string)
    ensures AllKept(isAlnum, r)
    ensures '/' !in r
  {
    var b := Basename(path);
    var stem := SplitExt(b).0;
    assert forall c :: c in stem ==> c in b;
    SanitiseBaseName(isAlnum, stem)
  }

  /** The decimal digit character for `d`. */
  function DigitChar(d: nat): char
    requires d < 10
  {
    ('0' as int + d) as char
  }

  /** A string of decimal digits. */
  predicate IsDigits(s: string) {
    forall i :: 0 <= i < |s| ==> '0' <= s[i] <= '9'
  }

  /** `str(n)` for a natural number: its decimal digits, without leading zeros. */
  function Decimal(n: nat): (s: string)
    ensures |s| >= 1 && IsDigits(s)
    ensures n < 10 ==> |s| == 1
    ensures 10 <= n < 100 ==> |s| == 2
    ensures 100 <= n < 1000 ==> |s| == 3
    ensures n >= 1000 ==> |s| > 3
  {
    if n < 10 then [DigitChar(n)] else Decimal(n / 10) + [DigitChar(n % 10)]
  }

  /** `f"{n:03d}"`: the decimal digits of `n`, padded on the left with zeros to width 3. */
  function ZeroPad3(n: nat): (s: string)
    ensures IsDigits(s)
    ensures n < 1000 <==> |s| == 3
  {
    var d := Decimal(n);
    if |d| < 3 then seq(3 - |d|, _ => '0') + d else d
  }

  /** The number a string of decimal digits denotes (leading zeros allowed). */
  function DecimalValue(s: string): nat
    requires IsDigits(s)
  {
    if s == [] then 0
    else DecimalValue(s[..|s| - 1]) * 10 + (s[|s| - 1] as int - '0' as int)
  }

  /** Reading back the digits `str(n)` writes gives `n`. */
  lemma {:induction false} DecimalRoundTrip(n: nat)
    ensures DecimalValue(Decimal(n)) == n
  {
    if n >= 10 {
      var s := Decimal(n);
      assert s[..|s| - 1] == Decimal(n / 10);
      DecimalRoundTrip(n / 10);
    }
  }

  /** Leading zeros do not change the value. */
  lemma {:induction false} LeadingZeros(k: nat, d: string)
    requires IsDigits(d)
    ensures IsDigits(seq(k, _ => '0') + d)
    ensures DecimalValue(seq(k, _ => '0') + d) == DecimalValue(d)
  {
    var z: string := seq(k, _ => '0');
    if d == [] {
      assert z + d == z;
      if k > 0 {
        assert z[..k - 1] == seq(k - 1, _ => '0');
        LeadingZeros(k - 1, []);
        assert seq(k - 1, _ => '0') + [] == seq(k - 1, _ => '0');
      }
    } else {
      assert (z + d)[..|z + d| - 1] == z + d[..|d| - 1];
      assert (z + d)[|z + d| - 1] == d[|d| - 1];
      LeadingZeros(k, d[..|d| - 1]);
    }
  }

  /** The three-digit index reads back as the index, so distinct indices get distinct names. */
  lemma ZeroPad3RoundTrip(n: nat)
    ensures DecimalValue(ZeroPad3(n)) == n
  {
    var d := Decimal(n);
    DecimalRoundTrip(n);
    if |d| < 3 {
      LeadingZeros(3 - |d|, d);
    }
  }

  /** `f"{base}_part_{i:03d}.mp3"`. */
  function SegmentFileName(base: string, i: nat): string {
    base + "_part_" + ZeroPad3(i) + ".mp3"
  }

  /** `os.path.join(output_dir, f"{base}_part_{i:03d}.mp3")`: where segment `i` is looked for. */
  function SegmentPath(dir: string, base: string, i: nat): string {
    Join(dir, SegmentFileName(base, i))
  }

  /** The `-f segment` output pattern handed to ffmpeg: `<dir>/<base>_part_%03d.mp3`. */
  function SegmentPattern(dir: string, base: string): string {
    Join(dir, base + "_part_%03d.mp3")
  }

  /** `os.path.join(output_dir, f"{base}_converted.mp3")`. */
  function ConvertedPath(dir: string, base: string): string {
    Join(dir, base + "_converted.mp3")
  }

  /** The converted file is written in the output directory under `<base>_converted.mp3`. */
  lemma ConvertedPathName(dir: string, base: string)
    requires '/' !in base
    ensures Basename(ConvertedPath(dir, base)) == base + "_converted.mp3"
  {
    var name := base + "_converted.mp3";
    assert forall k :: 0 <= k < |name| ==> name[k] != '/' by {
      forall k | 0 <= k < |name| ensures name[k] != '/' {
        if k < |base| { assert name[k] == base[k]; }
      }
    }
    JoinBasename(dir, name);
  }

  /**
   * ffmpeg fills the `%03d` of the output pattern with the segment number:
   * the pattern and segment `i`'s path agree except that `%03d` becomes the
   * three-digit index.
   */
  lemma SegmentPatternFilledIn(dir: string, base: string, i: nat)
    requires '/' !in base
    ensures var before := JoinPrefix(dir) + base + "_part_";
      && SegmentPattern(dir, base) == before + "%03d" + ".mp3"
      && SegmentPath(dir, base, i) == before + ZeroPad3(i) + ".mp3"
  {
    PatternShape(dir, base);
    PathShape(dir, base, i);
  }

  lemma PatternShape(dir: string, base: string)
    requires '/' !in base
    ensures SegmentPattern(dir, base) == JoinPrefix(dir) + base + "_part_" + "%03d" + ".mp3"
  {
    var pattern := base + "_part_%03d.mp3";
    assert pattern[0] != '/' by {
      if base != [] { assert pattern[0] == base[0]; }
    }
    assert "_part_%03d.mp3" == "_part_" + "%03d" + ".mp3";
    assert JoinPrefix(dir) + pattern == JoinPrefix(dir) + base + "_part_" + "%03d" + ".mp3";
  }

  lemma PathShape(dir: string, base: string, i: nat)
    requires '/' !in base
    ensures SegmentPath(dir, base, i) == JoinPrefix(dir) + base + "_part_" + ZeroPad3(i) + ".mp3"
  {
    var name := SegmentFileName(base, i);
    assert name[0] != '/' by {
      if base != [] { assert name[0] == base[0]; }
    }
    assert JoinPrefix(dir) + name == JoinPrefix(dir) + base + "_part_" + ZeroPad3(i) + ".mp3";
  }

  /** Two indices give the same segment path only if they are the same index. */
  lemma SegmentPathInjective(dir: string, base: string, i: nat, j: nat)
    requires SegmentPath(dir, base, i) == SegmentPath(dir, base, j)
    ensures i == j
  {
    var a, b := SegmentFileName(base, i), SegmentFileName(base, j);
    assert |a| > 0 && |b| > 0 && a[0] == b[0] by {
      if base != [] { assert a[0] == base[0] == b[0]; }
    }
    if a[0] != '/' {
      assert JoinPrefix(dir) + a == JoinPrefix(dir) + b;
      assert a == (JoinPrefix(dir) + a)[|JoinPrefix(dir)|..];
      assert b == (JoinPrefix(dir) + b)[|JoinPrefix(dir)|..];
    }
    assert a == b;
    var lo := |base| + 6;
    assert |ZeroPad3(i)| == |ZeroPad3(j)|;
    assert ZeroPad3(i) == a[lo..lo + |ZeroPad3(i)|];
    assert ZeroPad3(j) == b[lo..lo + |ZeroPad3(j)|];
    ZeroPad3RoundTrip(i);
    ZeroPad3RoundTrip(j);
  }

  /** Worked cases of the name format. */
  lemma ZeroPad3Examples()
    ensures ZeroPad3(7) == "007" && ZeroPad3(42) == "042"
  {
    assert Decimal(7) == "7";
    assert Decimal(42) == "42";
  }

  /** Segment 42 of "talk" in directory "tmp". */
  lemma SegmentPathExample()
    ensures SegmentPath("tmp", "talk", 42) == "tmp/talk_part_042.mp3"
  {
    ZeroPad3Examples();
  }
}
