# transcribe-whisper: the segmentation and transcription pipeline in Dafny

`app.py` of transcribe-whisper takes one uploaded audio or video file and
returns its transcript. It does this with ffmpeg, ffprobe and OpenAI's Whisper
service. This project models the decision logic between those calls and
proves what it promises:

- **Upload gate** (`allowed_file`). A name passes when it has a dot and the
  lower-cased text after its last dot is one of eleven extensions.
- **Conversion test.** Files whose `splitext` extension is `.mp4`, `.avi`,
  `.mov`, `.mkv`, `.wma` or `.ogg` are first converted to mono 22050 Hz MP3.
  The conversion is fail-open: if ffmpeg fails, the original path is used.
- **Size branch.** An upload of at most 20 MB is transcribed in one call. The
  size is that of the original upload, even when the file was converted.
- **Segment plan.** The segment duration is `total * 5 / size_mb`, measured on
  the file being split. It is 300 s when the duration is unknown, and it is
  clamped to [60, 600]. Its truncation is passed as `-segment_time`.
- **Naming.** The base name keeps only alphanumerics, space, `-` and `_`, then
  has its trailing whitespace removed. Segments are named
  `<base>_part_<NNN>.mp3`.
- **Discovery.** Indices 0, 1, 2, … are probed up to a cap of 1000. Discovery
  stops at the first missing segment.
- **Aggregation.** Segments are visited in order. Empty segments and failed
  transcriptions are skipped; each success adds its text and a blank line.
  The stripped result is returned, or the "No segments were transcribed"
  error if it is empty.

Every outside effect is a field of the `Environment.Tools` record. Each field
is a total function from the call's input to its outcome:

- `byteSize`: `os.path.getsize`.
- `probeDuration`: ffprobe; `None` stands for every failure.
- `runConverter`: ffmpeg's whole-file conversion; `true` when it exits with 0.
- `runSegmenter`: ffmpeg's segmenting run, given the command it receives.
- `pathExists`: `os.path.exists`, as the directory stands after segmenting.
- `transcribe`: Whisper; `None` for any error.
- `isAlnum`: Python's `str.isalnum`.

Transcription outcomes are a function of the path. This is faithful because
no path is sent to the service twice (`Orchestrator.SplitPathCalls` proves that the
calls are distinct). The functions describe the world during one call of
`process_audio_file`.

Modules:

- `Wrappers`: `Option`.
- `Text`: Python's whitespace class, `strip`/`rstrip`, and `lower`.
- `Paths`: `rfind`, `basename`, `splitext` and `join` of `posixpath`.
- `Extensions`: the two extension tests.
- `Naming`: the sanitiser, `%03d` and the output paths.
- `Planner`: the duration plan.
- `Environment`: the tool outcomes.
- `Segmenter`: `split_audio_file` and its discovery loop, written as methods.
- `Orchestrator`: `process_audio_file` and its aggregation loop, written as
  methods, with the `Pipeline` function they are proved against.

The direct (at most 20 MB) path returns the service's text unchanged. It does
not strip it, although one might expect a trimmed result there. The model
follows the code (app.py:132-135).

## Model

| member | source | states |
|---|---|---|
| `Text.RStrip` | app.py:55 | `rstrip()` gives the longest prefix that does not end in whitespace; everything cut off is whitespace |
| `Text.Strip` | app.py:152-155 | `strip()` gives a slice with only whitespace outside it; the slice neither starts nor ends with whitespace; it is empty exactly when the input is blank |
| `Text.Lower` | app.py:25 | `lower()` keeps the length, leaves no ASCII capital and no Kelvin sign, and leaves every other character in place |
| `Text.LowerIdempotent` | app.py:25 | lower-casing twice is lower-casing once |
| `Text.LowerMatches` | app.py:25 | a string lower-cases to a word of small letters, digits and dots exactly when it has the same length and each character is the word's character, its capital, or the Kelvin sign for 'k' |
| `Paths.Basename` | app.py:54 | the basename is the suffix that starts right after a '/' (or is the whole path) and contains no '/', so it begins after the last '/' |
| `Paths.JoinBasename` | app.py:90 | `os.path.join(dir, name)` with a name without '/' is a path whose basename is that name |
| `Paths.SplitExt` | app.py:126 | root + ext is the path; a non-empty ext starts with the last dot and holds no other dot or '/'; the component before it is not all dots |
| `Paths.SplitExtCutsAtExtensionDot` | app.py:126 | `splitext` finds an extension exactly when some position is the last dot, inside the last component, after a character that is not a dot; it then cuts there |
| `Extensions.AllowedFile` | app.py:22-25 | true exactly when some dot is the last dot of the name and the lower-cased text after it is one of the 11 extensions |
| `Extensions.AllowedAtLastDot` | app.py:25 | only the text after the last dot decides the gate |
| `Extensions.ConvertedExtensionsAreAllowed` | app.py:128 | each of the six converted extensions is an allowed extension with a leading dot |
| `Extensions.NeedsConversionIff` | app.py:126-128 | the conversion test holds exactly when the path has a `splitext` cut whose lower-cased suffix is one of the six converted extensions |
| `Extensions.ConversionImpliesAllowed` | app.py:126-129 | every path the conversion test selects also passes `allowed_file` |
| `Extensions.AllowedFileAccepts` | app.py:22-25 | "lecture.MP3", "clip.final.mkv" and "film.M\u212AV" (Kelvin sign) pass |
| `Extensions.AllowedFileRejects` | app.py:22-25 | "notes.mp3.txt" and "mp3" are refused |
| `Extensions.ConversionExamples` | app.py:126-128 | ".ogg" passes the gate but is not converted |
| `Extensions.ConversionExampleMov` | app.py:126-128 | "uploads/talk.MOV" is converted |
| `Naming.KeepAllowed` | app.py:55 | keeps exactly the alphanumeric, space, '-' and '_' characters; a string of such characters is unchanged |
| `Naming.KeepAllowedAppend` | app.py:55 | filtering a concatenation is concatenating the filtered parts, so order and repeats are kept |
| `Naming.KeepAllowedOne` | app.py:55 | one character is kept exactly when it is alphanumeric, space, '-' or '_' |
| `Naming.SanitiseBaseName` | app.py:55 | the sanitised name is the filtered name up to its trailing whitespace, all of which is cut; it holds only allowed characters and does not end in whitespace |
| `Naming.SanitiseKeepsCleanName` | app.py:55 | a name of allowed characters that does not end in whitespace comes back unchanged |
| `Naming.SanitiseIdempotent` | app.py:89 | sanitising twice gives the same name as sanitising once |
| `Naming.BaseNameOf` | app.py:54-55 | the base name used for output files holds only allowed characters and no '/' |
| `Naming.Decimal` | app.py:76 | the decimal digits of n: 1, 2 or 3 digits below 10, 100 and 1000 |
| `Naming.ZeroPad3` | app.py:76 | `{i:03d}` is all digits, and exactly 3 long precisely when i < 1000 |
| `Naming.ZeroPad3RoundTrip` | app.py:76 | reading the padded index back gives the index |
| `Naming.ConvertedPathName` | app.py:90 | the converted file sits in the output directory under the name `<base>_converted.mp3` |
| `Naming.SegmentPatternFilledIn` | app.py:56-76 | the ffmpeg output pattern and segment i's path are the same text except that `%03d` becomes the three-digit index |
| `Naming.SegmentPathInjective` | app.py:76 | two indices with the same segment path are equal |
| `Naming.ZeroPad3Examples` | app.py:76 | index 7 is written "007" and 42 is written "042" |
| `Naming.SegmentPathExample` | app.py:76 | segment 42 of "talk" in "tmp" is "tmp/talk_part_042.mp3" |
| `Planner.FileSizeMb` | app.py:27-28 | the size in MB is non-negative and zero only for an empty file |
| `Planner.Clamp` | app.py:51 | `max(60, min(600, d))` is in [60, 600], is d inside that range, and is the nearer bound outside it |
| `Planner.PlanSegmentDuration` | app.py:44-51 | 300 when the duration is unknown; otherwise `total*5/size_mb` clamped to [60, 600]; always in [60, 600]; no plan (the caught ZeroDivisionError) exactly when a known duration meets a zero size |
| `Planner.SegmentTimeArg` | app.py:62 | `int(d)` of a planned duration is in [60, 600] and is d truncated |
| `Planner.PlanExamples` | app.py:44-51 | 3000 s over 50 MB plans 300 s; 100 s plans 60 s; 36000 s plans 600 s; unknown plans 300 s |
| `Segmenter.FirstGap` | app.py:75-80 | the first missing index at or after `from`, or 1000 when none up to the cap is missing; every index before it exists |
| `Segmenter.SegmentPaths` | app.py:76 | the paths of segments 0..count-1 in index order |
| `Segmenter.DiscoveryStopsAtFirstGap` | app.py:74-81 | discovery returns the paths of indices 0..k-1 in ascending order, all existing; k is the first gap or 1000; no index at or after a gap is included; at most 1000 paths |
| `Segmenter.DiscoveredDistinct` | app.py:74-81 | no path is discovered twice |
| `Segmenter.DiscoverSegments` | app.py:74-81 | the loop returns exactly the discovered segments |
| `Segmenter.SegmentCommandFor` | app.py:44-66 | the ffmpeg command runs on the input with `-segment_time` in [60, 600], and with 300 when the duration is unknown; no command only when planning raised |
| `Segmenter.SegmentCommandFollowsPlan` | app.py:49-66 | the command's `-segment_time` is `int()` of the planned duration and its output pattern is `<dir>/<base>_part_%03d.mp3` for the sanitised base name |
| `Segmenter.SegmentCommandExample` | app.py:44-62 | 3000 s of audio in a 50 MB file gives `-segment_time 300` |
| `Segmenter.SplitAudioFile` | app.py:42-85 | returns the discovered segments when planning and ffmpeg succeed and [] otherwise; at most 1000 paths, each existing and named by its index |
| `Orchestrator.ConvertToMp3Mono` | app.py:87-104 | the converted path when ffmpeg succeeds; the input when ffmpeg fails (fail-open) |
| `Orchestrator.TranscribedInput` | app.py:126-129 | the file transcribed is the converted one when the extension asks for it and ffmpeg succeeds, and the upload otherwise |
| `Orchestrator.TranscribedWholeBytes` | app.py:131 | the whole-file branch is taken exactly for uploads of at most 20971520 bytes |
| `Orchestrator.Attempted` | app.py:143-146 | the paths sent to the service are exactly the non-empty segments |
| `Orchestrator.AttemptedSnoc` | app.py:143-146 | one more segment is called after the others exactly when it is not empty |
| `Orchestrator.AttemptedAppend` | app.py:143-146 | the calls for two runs of segments are those of the first run followed by those of the second: segment order is kept |
| `Orchestrator.Aggregate` | app.py:142-150 | the loop builds `Collected` (each success's text plus a blank line, in order) and calls the service on `Attempted` |
| `Orchestrator.ProcessAudioFile` | app.py:120-155 | the outcome and the transcription calls are those of `Pipeline` |
| `Orchestrator.CollectedAppend` | app.py:142-150 | aggregating two runs of segments concatenates their transcripts |
| `Orchestrator.CollectedSnoc` | app.py:142-150 | visiting one more segment appends that segment's contribution |
| `Orchestrator.CollectedSplit` | app.py:142-150 | each segment's contribution sits between those of the earlier and the later segments |
| `Orchestrator.CollectedAt` | app.py:146-150 | a transcribed non-empty segment's text and blank line sit between the earlier and the later segments' text |
| `Orchestrator.CollectedSkips` | app.py:143-149 | an empty or failed segment contributes nothing |
| `Orchestrator.CollectedBlankIff` | app.py:150-152 | the accumulated text is blank exactly when every segment's text is blank or missing |
| `Orchestrator.StrippedCollected` | app.py:150-153 | the stripped transcript is empty exactly when every segment gave blank text or none; otherwise it neither starts nor ends with whitespace |
| `Orchestrator.AttemptedDistinct` | app.py:143-146 | with distinct segments, no path is sent to the service twice |
| `Orchestrator.WholeFilePath` | app.py:126-135 | at most 20 MB by the upload's size: exactly one call, on the conversion's result (the upload when ffmpeg fails) for the six extensions and on the upload otherwise; None is the error "Transcription failed", text is returned as it is |
| `Orchestrator.SplitFailureTranscribesNothing` | app.py:137-140 | over 20 MB with no segments: the error "Could not split the audio file" and no call |
| `Orchestrator.SplitBranch` | app.py:150-155 | over 20 MB with segments: the error "No segments were transcribed" when the stripped transcript is empty, that transcript otherwise |
| `Orchestrator.SplitPathOutcome` | app.py:137-155 | over 20 MB with segments: the error "No segments were transcribed" exactly when no segment gave non-blank text; otherwise the stripped in-order concatenation, non-empty and with no whitespace at either end |
| `Orchestrator.SplitPathCalls` | app.py:138-146 | over 20 MB with segments: the service is called on the non-empty segments in order, never twice on one path |
| `Orchestrator.AllFailuresAreAnError` | app.py:137-153 | over 20 MB, if every segment sent to the service fails, the result is "Could not split" or "No segments were transcribed", never an empty success |

## Left out

- The Flask app, its routes, `secure_filename`, and saving and removing the
  upload (app.py:12-18, 160-194). These are HTTP and file-system I/O.
- The ffprobe and ffmpeg processes: their arguments other than the segment
  time and output pattern, their timeouts, and the parsing of ffprobe's
  output (app.py:30-40, 59-71, 92-99). Only their outcomes are modelled, as
  `Tools` fields. A failing `os.makedirs` inside the `try` of
  `split_audio_file` is folded into `runSegmenter` returning false.
- The OpenAI client (app.py:20, 106-118) becomes `Tools.transcribe`.
- `tempfile.mkdtemp` and the `shutil.rmtree` in `finally` (app.py:124,
  157-158). The temporary directory is a parameter, and its removal is not
  modelled.
- Exceptions that escape `process_audio_file` are not modelled. These come
  from `getsize` on a missing file or from the conversion's
  `subprocess.run` raising; such calls are treated as always returning.
- Floating point: durations and sizes are exact reals. ffprobe outputs that
  parse to `inf` or `nan` have no counterpart. Bytes / 2^20 is exact in IEEE
  arithmetic, so the 20 MB threshold is modelled exactly.
- Unicode tables. `str.isalnum` is a parameter. `str.isspace` is written out
  in full. `lower()` is modelled for ASCII letters and the Kelvin sign only.
  This decides membership in the all-ASCII extension sets exactly, but it is
  not Python's `lower()` on other text.
- Logging through `print`, and loading `.env`.
