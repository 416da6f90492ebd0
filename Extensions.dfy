/**
 * The two extension tests: `allowed_file`, which gates uploads, and the test
 * in `process_audio_file` that decides whether a file is converted to mono
 * MP3 before anything else happens to it.
 */
module Extensions {
  import opened Text
  import opened Paths

  /** `ALLOWED_EXTENSIONS`: the eleven accepted suffixes, without the dot. */
  const AllowedExtensions: set<string> :=
    {"mp3", "wav", "flac", "m4a", "ogg", "wma", "aac", "mp4", "avi", "mov", "mkv"}

  /** Extensions (with the dot, as `os.path.splitext` returns them) that are converted first. */
  const ConvertedExtensions: set<string> :=
    {".mp4", ".avi", ".mov", ".mkv", ".wma", ".ogg"}

  /** A string has at most one last dot, so the gate looks only at the text after it. */
  lemma AllowedAtLastDot(s: string, i: int)
    requires LastDotAt(s, i)
    ensures (exists j :: LastDotAt(s, j) && AllowedExtension(s[j + 1..])) <==> AllowedExtension(s[i + 1..])
  {
    assert forall j :: LastDotAt(s, j) ==> j == i;
  }

  /** When RFind finds no dot, no position is the last dot. */
  lemma NoLastDot(s: string)
    requires RFind(s, '.') < 0
    ensures forall j :: !LastDotAt(s, j)
  {
  }

  /** The lower-cased suffix is one of ALLOWED_EXTENSIONS. */
  predicate AllowedExtension(suffix: string) {
    Lower(suffix) in AllowedExtensions
  }

  /**
   * `allowed_file(filename)`: the name has a dot, and the text after its last
   * dot, lower-cased, is an allowed extension.
   */
  function AllowedFile(filename: string): (ok: bool)
    ensures ok <==> exists i :: LastDotAt(filename, i) && AllowedExtension(filename[i + 1..])
  {
    var dot := RFind(filename, '.');
    if dot >= 0 then
      AllowedAtLastDot(filename, dot);
      AllowedExtension(filename[dot + 1..])
    else
      NoLastDot(filename);
      false
  }

  /**
   * The conversion test of `process_audio_file`: the lower-cased extension
   * that `os.path.splitext` finds is a video container, WMA or OGG.
   */
  predicate NeedsConversion(path: string) {
    Lower(SplitExt(path).1) in ConvertedExtensions
  }

  /** Each converted extension is an allowed extension behind a dot. */
  lemma ConvertedExtensionsAreAllowed(e: string)
    requires e in ConvertedExtensions
    ensures |e| > 0 && e[0] == '.' && e[1..] in AllowedExtensions
  {
    assert ".mp4"[1..] == "mp4" && ".avi"[1..] == "avi" && ".mov"[1..] == "mov";
    assert ".mkv"[1..] == "mkv" && ".wma"[1..] == "wma" && ".ogg"[1..] == "ogg";
  }

  /** The extension `splitext` finds starts at the last dot of the path. */
  lemma SplitExtAtLastDot(path: string)
    requires SplitExt(path).1 != []
    ensures LastDotAt(path, |SplitExt(path).0|)
    ensures SplitExt(path).1[1..] == path[|SplitExt(path).0| + 1..]
  {
    var (root, ext) := SplitExt(path);
    var i := |root|;
    assert ext == path[i..];
    forall j | i < j < |path| ensures path[j] != '.' {
      assert path[j] == ext[1..][j - i - 1];
    }
  }

  /**
   * The conversion test, stated without `splitext`: some dot is the last dot
   * of the path, lies in its last component after at least one character
   * that is not a dot, and the lower-cased text from it on is a converted
   * extension.
   */
  lemma NeedsConversionIff(path: string)
    ensures NeedsConversion(path) <==>
      exists i :: ExtensionDotAt(path, i) && Lower(path[i..]) in ConvertedExtensions
  {
    var (root, ext) := SplitExt(path);
    SplitExtCutsAtExtensionDot(path);
    if NeedsConversion(path) {
      assert ext != [] by {
        assert Lower(ext) in ConvertedExtensions;
      }
      assert ext == path[|root|..];
    }
    if i :| ExtensionDotAt(path, i) && Lower(path[i..]) in ConvertedExtensions {
      LastDotUnique(path, i, |root|);
      assert ext == path[i..];
    }
  }

  /** A string has one last dot at most. */
  lemma LastDotUnique(s: string, i: int, j: int)
    requires LastDotAt(s, i) && LastDotAt(s, j)
    ensures i == j
  {
  }

  /** Lower-casing commutes with dropping the first character. */
  lemma LowerTail(s: string)
    requires s != []
    ensures Lower(s)[1..] == Lower(s[1..])
  {
  }

  /**
   * Every file that is converted also passes the upload gate: a converted
   * extension is an allowed one with a dot in front, and the dot that
   * `splitext` finds is the last dot of the path.
   */
  lemma ConversionImpliesAllowed(path: string)
    requires NeedsConversion(path)
    ensures AllowedFile(path)
  {
    var ext := SplitExt(path).1;
    ConvertedExtensionsAreAllowed(Lower(ext));
    SplitExtAtLastDot(path);
    LowerTail(ext);
    LastDotIsRFind(path, |SplitExt(path).0|);
  }

  /** Accepted names: case is ignored, only the last dot counts, and the Kelvin sign lowers to 'k'. */
  lemma AllowedFileAccepts()
    ensures AllowedFile("lecture.MP3")
    ensures AllowedFile("clip.final.mkv")
    ensures AllowedFile("film.M\U{212A}V")
  {
    assert LastDotAt("lecture.MP3", 7) && "lecture.MP3"[8..] == "MP3";
    assert Lower("MP3") == "mp3";
    assert LastDotAt("clip.final.mkv", 10) && "clip.final.mkv"[11..] == "mkv";
    assert Lower("mkv") == "mkv";
    assert LastDotAt("film.M\U{212A}V", 4) && "film.M\U{212A}V"[5..] == "M\U{212A}V";
    assert Lower("M\U{212A}V") == "mkv";
  }

  /** Refused names: an allowed extension that is not the last one, and a name without a dot. */
  lemma AllowedFileRejects()
    ensures !AllowedFile("notes.mp3.txt")
    ensures !AllowedFile("mp3")
  {
    assert LastDotAt("notes.mp3.txt", 9) && "notes.mp3.txt"[10..] == "txt";
    LastDotIsRFind("notes.mp3.txt", 9);
    assert Lower("txt") == "txt";
    assert forall i :: !LastDotAt("mp3", i);
  }

  /** A dot-file has no extension for `splitext`, so ".ogg" passes the gate but is not converted. */
  lemma ConversionExamples()
    ensures AllowedFile(".ogg") && !NeedsConversion(".ogg")
  {
    assert LastDotAt(".ogg", 0) && ".ogg"[1..] == "ogg";
    assert Lower("ogg") == "ogg";
    OggHasNoExtension();
  }

  lemma OggHasNoExtension()
    ensures SplitExt(".ogg").1 == []
  {
    assert RFind(".ogg", '/') == -1;
    LastDotIsRFind(".ogg", 0);
    assert !HasNonDot(".ogg", 0, 0);
  }

  /** The extension is found in the last component and lower-cased: "uploads/talk.MOV" is converted. */
  lemma ConversionExampleMov()
    ensures NeedsConversion("uploads/talk.MOV")
  {
    var p := "uploads/talk.MOV";
    assert RFind(p, '/') == 7 by {
      assert p[7] == '/';
      assert forall j :: 7 < j < 16 ==> p[j] != '/';
    }
    assert LastDotAt(p, 12);
    LastDotIsRFind(p, 12);
    assert HasNonDot(p, 8, 12) by { assert p[8] != '.'; }
    assert p[12..] == ".MOV";
    assert Lower(".MOV") == ".mov";
  }
}
