/**
 * The POSIX path helpers of Python's `os.path` that the pipeline uses to
 * derive extensions, base names and output paths (`posixpath`).
 */
module Paths {

  /** `s.rfind(c)`: the index of the last `c` in `s`, or -1 when there is none. */
  function RFind(s: string, c: char): (r: int)
    ensures -1 <= r < |s|
    ensures r >= 0 ==> s[r] == c
    ensures forall j :: r < j < |s| ==> s[j] != c
  {
    if s == [] then -1
    else if s[|s| - 1] == c then |s| - 1
    else RFind(s[..|s| - 1], c)
  }

  /** `os.path.basename(p)`: what follows the last '/'. */
  function Basename(p: string): (r: string)
    ensures '/' !in r
    ensures |r| <= |p| && r == p[|p| - |r|..]
    ensures |r| == |p| || p[|p| - |r| - 1] == '/'
  {
    p[RFind(p, '/') + 1..]
  }

  /** `i` is the position of the last dot of `s`. */
  predicate LastDotAt(s: string, i: int) {
    0 <= i < |s| && s[i] == '.' && forall j :: i < j < |s| ==> s[j] != '.'
  }

  /** Some character of `p[lo..hi]` is not a dot. */
  predicate HasNonDot(p: string, lo: nat, hi: nat)
    requires lo <= hi <= |p|
  {
    exists k :: lo <= k < hi && p[k] != '.'
  }

  /**
   * `os.path.splitext(p)` as (root, ext). The extension starts at the last
   * dot of the last path component, unless everything before that dot in the
   * component is dots (so ".ogg" and "..ogg" have no extension).
   */
  function SplitExt(p: string): (parts: (string, string))
    ensures parts.0 + parts.1 == p
    ensures parts.1 != [] ==> parts.1[0] == '.' && '.' !in parts.1[1..] && '/' !in parts.1
    ensures parts.1 != [] ==>
      var comp := |p| - |Basename(p)|;
      comp < |parts.0| && HasNonDot(p, comp, |parts.0|)
  {
    var sepIndex := RFind(p, '/');
    var dotIndex := RFind(p, '.');
    if dotIndex > sepIndex && HasNonDot(p, sepIndex + 1, dotIndex) then
      assert p[dotIndex..][1..] == p[dotIndex + 1..];
      (p[..dotIndex], p[dotIndex..])
    else
      (p, [])
  }

  /**
   * `i` is where `splitext` cuts `p`: the last dot, inside the last path
   * component, with a character other than a dot before it in that component.
   */
  predicate ExtensionDotAt(p: string, i: int) {
    var comp := |p| - |Basename(p)|;
    LastDotAt(p, i) && comp <= i && HasNonDot(p, comp, i)
  }

  /** The last dot is the one RFind finds. */
  lemma LastDotIsRFind(s: string, i: int)
    requires LastDotAt(s, i)
    ensures RFind(s, '.') == i
  {
  }

  /**
   * `splitext` finds an extension exactly when the path has a place to cut
   * it, and then it cuts there.
   */
  lemma SplitExtCutsAtExtensionDot(p: string)
    ensures SplitExt(p).1 != [] <==> exists i :: ExtensionDotAt(p, i)
    ensures SplitExt(p).1 != [] ==> ExtensionDotAt(p, |SplitExt(p).0|)
  {
    var (root, ext) := SplitExt(p);
    var sepIndex := RFind(p, '/');
    var comp := |p| - |Basename(p)|;
    assert comp == sepIndex + 1;
    if ext != [] {
      var i := |root|;
      assert ext == p[i..];
      forall j | i < j < |p| ensures p[j] != '.' {
        assert p[j] == ext[1..][j - i - 1];
      }
      assert ExtensionDotAt(p, i);
    } else if i :| ExtensionDotAt(p, i) {
      LastDotIsRFind(p, i);
      assert false;
    }
  }

  /** `os.path.join(dir, name)` for two components. */
  function Join(dir: string, name: string): (r: string)
    ensures |name| > 0 && name[0] == '/' ==> r == name
    ensures !(|name| > 0 && name[0] == '/') ==> r == JoinPrefix(dir) + name
  {
    if |name| > 0 && name[0] == '/' then name
    else if dir == [] || dir[|dir| - 1] == '/' then dir + name
    else dir + "/" + name
  }

  /** Joining a name without '/' under a directory gives a path whose basename is that name. */
  lemma JoinBasename(dir: string, name: string)
    requires '/' !in name
    ensures Basename(Join(dir, name)) == name
  {
    var prefix := JoinPrefix(dir);
    var r := prefix + name;
    assert Join(dir, name) == r;
    var k := RFind(r, '/');
    forall j | |prefix| <= j < |r| ensures r[j] != '/' {
      assert r[j] == name[j - |prefix|];
    }
    if prefix != [] {
      assert r[|prefix| - 1] == '/';
    }
    assert k == |prefix| - 1;
    assert r[k + 1..] == name;
  }

  /** What Join puts in front of a relative name. */
  function JoinPrefix(dir: string): string {
    if dir == [] || dir[|dir| - 1] == '/' then dir else dir + "/"
  }
}
