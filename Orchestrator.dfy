/**
 * `process_audio_file` and the aggregation loop inside it: convert when the
 * extension asks for it, then either transcribe the whole file once (at most
 * 20 MB by the original upload's size) or split it and transcribe the
 * segments in order, skipping empty segments and failed calls.
 */
module Orchestrator {
  import opened Wrappers
  import opened Text
  import opened Extensions
  import opened Naming
  import opened Planner
  import opened Environment
  import opened Segmenter

  /** The three error dictionaries `process_audio_file` can return. */
  datatype PipelineError = TranscriptionFailed | SplitFailed | NoSegmentsTranscribed

  /** The `"error"` text of each failure. */
  function ErrorMessage(e: PipelineError): string {
    match e
    case TranscriptionFailed => "Transcription failed"
    case SplitFailed => "Could not split the audio file"
    case NoSegmentsTranscribed => "No segments were transcribed"
  }

  datatype Outcome = Transcript(text: string) | Failed(error: PipelineError)

  /** What one call returns, with the paths sent to the speech-to-text service, in call order. */
  datatype Run = Run(outcome: Outcome, calls: seq<string>)

  /** Files up to this size (in MB of the original upload) are transcribed in one call. */
  const SizeThresholdMb: real := 20.0

  predicate TranscribedWhole(uploadBytes: nat) {
    FileSizeMb(uploadBytes) <= SizeThresholdMb
  }

  /** The 20 MB threshold in bytes: 20 * 2^20 = 20971520 bytes and no more go in one call. */
  lemma TranscribedWholeBytes(uploadBytes: nat)
    ensures TranscribedWhole(uploadBytes) <==> uploadBytes <= 20971520
  {
    var mb := FileSizeMb(uploadBytes);
    assert mb * 1048576.0 == uploadBytes as real;
  }

  /**
   * `convert_to_mp3_mono_22050`: the converted file's path when ffmpeg
   * succeeds, otherwise the input itself (fail-open).
   */
  function ConvertToMp3Mono(tools: Tools, input: string, outputDir: string): (out: string)
    ensures out == input || out == ConvertedPath(outputDir, BaseNameOf(tools.isAlnum, input))
    ensures out != input ==> tools.runConverter(input, out)
    ensures !tools.runConverter(input, ConvertedPath(outputDir, BaseNameOf(tools.isAlnum, input))) ==> out == input
    ensures tools.runConverter(input, ConvertedPath(outputDir, BaseNameOf(tools.isAlnum, input))) ==>
      out == ConvertedPath(outputDir, BaseNameOf(tools.isAlnum, input))
  {
    var outputFile := ConvertedPath(outputDir, BaseNameOf(tools.isAlnum, input));
    if tools.runConverter(input, outputFile) then outputFile else input
  }

  /** `input_for_transcription`: converted for the listed extensions, the upload otherwise. */
  function InputForTranscription(tools: Tools, filePath: string, tempDir: string): string {
    if NeedsConversion(filePath) then ConvertToMp3Mono(tools, filePath, tempDir) else filePath
  }

  /**
   * The file that is transcribed: the converted one when the extension asks
   * for conversion and ffmpeg succeeds, the upload itself in every other case.
   */
  lemma TranscribedInput(tools: Tools, filePath: string, tempDir: string)
    ensures var converted := ConvertedPath(tempDir, BaseNameOf(tools.isAlnum, filePath));
      var input := InputForTranscription(tools, filePath, tempDir);
      && (NeedsConversion(filePath) && tools.runConverter(filePath, converted) ==> input == converted)
      && (!(NeedsConversion(filePath) && tools.runConverter(filePath, converted)) ==> input == filePath)
  {
  }

  /** What one segment adds to `full_transcript`. */
  function Piece(tools: Tools, segment: string): string {
    if tools.byteSize(segment) == 0 then ""
    else match tools.transcribe(segment)
      case None => ""
      case Some(text) => text + "\n\n"
  }

  /** `full_transcript` after the loop has visited `segments`. */
  function Collected(tools: Tools, segments: seq<string>): string {
    if segments == [] then ""
    else Collected(tools, segments[..|segments| - 1]) + Piece(tools, segments[|segments| - 1])
  }

  /** The segments the loop sends to the service: the non-empty ones, in order. */
  function Attempted(tools: Tools, segments: seq<string>): (calls: seq<string>)
    ensures |calls| <= |segments|
    ensures forall s :: s in calls <==> s in segments && tools.byteSize(s) != 0
  {
    if segments == [] then []
    else
      var last := segments[|segments| - 1];
      var prefix := segments[..|segments| - 1];
      assert forall s :: s in segments <==> s in prefix || s == last;
      Attempted(tools, prefix) + (if tools.byteSize(last) == 0 then [] else [last])
  }

  /** The loop over the segments in `process_audio_file`. */
  method Aggregate(tools: Tools, segments: seq<string>) returns (fullTranscript: string, calls: seq<string>)
    ensures fullTranscript == Collected(tools, segments)
    ensures calls == Attempted(tools, segments)
  {
    fullTranscript := "";
    calls := [];
    for i := 0 to |segments|
      invariant fullTranscript == Collected(tools, segments[..i])
      invariant calls == Attempted(tools, segments[..i])
    {
      var seg := segments[i];
      assert segments[..i + 1][..i] == segments[..i];
      if tools.byteSize(seg) == 0 {
        continue;
      }
      calls := calls + [seg];
      var segmentTranscript := tools.transcribe(seg);
      if segmentTranscript.None? {
        continue;
      }
      ConcatAssoc(fullTranscript, segmentTranscript.value, "\n\n");
      fullTranscript := fullTranscript + segmentTranscript.value + "\n\n";
    }
    assert segments[..|segments|] == segments;
  }

  /** What `process_audio_file(filePath)` returns, with its transcription calls. */
  function Pipeline(tools: Tools, filePath: string, tempDir: string): Run {
    var input := InputForTranscription(tools, filePath, tempDir);
    if TranscribedWhole(tools.byteSize(filePath)) then
      match tools.transcribe(input)
      case None => Run(Failed(TranscriptionFailed), [input])
      case Some(text) => Run(Transcript(text), [input])
    else
      var segments := SplitOutcome(tools, input, tempDir);
      if segments == [] then Run(Failed(SplitFailed), [])
      else
        var result := Strip(Collected(tools, segments));
        Run(if result == [] then Failed(NoSegmentsTranscribed) else Transcript(result),
            Attempted(tools, segments))
  }

  /** `process_audio_file`. The temporary directory is the parameter `tempDir`. */
  method ProcessAudioFile(tools: Tools, filePath: string, tempDir: string) returns (outcome: Outcome, calls: seq<string>)
    ensures Run(outcome, calls) == Pipeline(tools, filePath, tempDir)
  {
    var fileSize := tools.byteSize(filePath);
    var inputForTranscription := filePath;
    if NeedsConversion(filePath) {
      inputForTranscription := ConvertToMp3Mono(tools, filePath, tempDir);
    }
    if TranscribedWhole(fileSize) {
      var transcript := tools.transcribe(inputForTranscription);
      calls := [inputForTranscription];
      if transcript.None? {
        return Failed(TranscriptionFailed), calls;
      }
      return Transcript(transcript.value), calls;
    }
    var segments := SplitAudioFile(tools, inputForTranscription, tempDir);
    if segments == [] {
      return Failed(SplitFailed), [];
    }
    var fullTranscript;
    fullTranscript, calls := Aggregate(tools, segments);
    var stripped := Strip(fullTranscript);
    if stripped == [] {
      return Failed(NoSegmentsTranscribed), calls;
    }
    outcome := Transcript(stripped);
  }

  // ---------------------------------------------------------------------
  // Properties of the aggregation

  /** Aggregating two runs of segments one after the other concatenates their transcripts. */
  lemma {:induction false} CollectedAppend(tools: Tools, a: seq<string>, b: seq<string>)
    ensures Collected(tools, a + b) == Collected(tools, a) + Collected(tools, b)
  {
    if b == [] {
      assert a + b == a;
    } else {
      var b', y := b[..|b| - 1], b[|b| - 1];
      assert b == b' + [y];
      CollectedAppend(tools, a, b');
      CollectedAppendStep(tools, a, b', y);
    }
  }

  /** The inductive step of `CollectedAppend`: one more segment at the end of `b`. */
  lemma CollectedAppendStep(tools: Tools, a: seq<string>, b: seq<string>, y: string)
    requires Collected(tools, a + b) == Collected(tools, a) + Collected(tools, b)
    ensures Collected(tools, a + (b + [y])) == Collected(tools, a) + Collected(tools, b + [y])
  {
    ConcatAssoc(a, b, [y]);
    CollectedSnoc(tools, a + b, y);
    CollectedSnoc(tools, b, y);
    ConcatAssoc(Collected(tools, a), Collected(tools, b), Piece(tools, y));
  }

  /** One more segment adds its piece at the end. */
  lemma CollectedSnoc(tools: Tools, segments: seq<string>, segment: string)
    ensures Collected(tools, segments + [segment]) == Collected(tools, segments) + Piece(tools, segment)
  {
    assert (segments + [segment])[..|segments|] == segments;
  }

  /** One more segment is sent to the service after the others exactly when it is not empty. */
  lemma AttemptedSnoc(tools: Tools, segments: seq<string>, segment: string)
    ensures Attempted(tools, segments + [segment]) ==
      Attempted(tools, segments) + (if tools.byteSize(segment) == 0 then [] else [segment])
  {
    assert (segments + [segment])[..|segments|] == segments;
  }

  /** The calls for two runs of segments are the first run's calls followed by the second's: order is kept. */
  lemma {:induction false} AttemptedAppend(tools: Tools, a: seq<string>, b: seq<string>)
    ensures Attempted(tools, a + b) == Attempted(tools, a) + Attempted(tools, b)
  {
    if b == [] {
      assert a + b == a;
    } else {
      var b', y := b[..|b| - 1], b[|b| - 1];
      assert b == b' + [y];
      AttemptedAppend(tools, a, b');
      AttemptedAppendStep(tools, a, b', y);
    }
  }

  /** The inductive step of `AttemptedAppend`. */
  lemma AttemptedAppendStep(tools: Tools, a: seq<string>, b: seq<string>, y: string)
    requires Attempted(tools, a + b) == Attempted(tools, a) + Attempted(tools, b)
    ensures Attempted(tools, a + (b + [y])) == Attempted(tools, a) + Attempted(tools, b + [y])
  {
    ConcatAssoc(a, b, [y]);
    AttemptedSnoc(tools, a + b, y);
    AttemptedSnoc(tools, b, y);
    var last := if tools.byteSize(y) == 0 then [] else [y];
    ConcatAssoc(Attempted(tools, a), Attempted(tools, b), last);
  }

  /** Segment `i` contributes its piece between the earlier and the later segments. */
  lemma CollectedSplit(tools: Tools, segments: seq<string>, i: nat)
    requires i < |segments|
    ensures Collected(tools, segments) ==
      Collected(tools, segments[..i]) + Piece(tools, segments[i]) + Collected(tools, segments[i + 1..])
  {
    var before, x, after := segments[..i], segments[i], segments[i + 1..];
    assert segments == (before + [x]) + after;
    assert Collected(tools, [x]) == Piece(tools, x) by {
      assert [x][..0] == [];
    }
    CollectedAppend(tools, before, [x]);
    CollectedAppend(tools, before + [x], after);
  }

  /**
   * Order is kept: a segment that is non-empty and transcribed contributes
   * its text and a blank line exactly between what the earlier segments and
   * what the later segments contribute.
   */
  lemma CollectedAt(tools: Tools, segments: seq<string>, i: nat)
    requires i < |segments|
    requires tools.byteSize(segments[i]) != 0 && tools.transcribe(segments[i]).Some?
    ensures Collected(tools, segments) ==
      Collected(tools, segments[..i]) + tools.transcribe(segments[i]).value + "\n\n" + Collected(tools, segments[i + 1..])
  {
    CollectedSplit(tools, segments, i);
    ConcatAssoc(Collected(tools, segments[..i]), tools.transcribe(segments[i]).value, "\n\n");
  }

  /** A segment that is empty or whose transcription failed contributes nothing. */
  lemma CollectedSkips(tools: Tools, segments: seq<string>, i: nat)
    requires i < |segments|
    requires tools.byteSize(segments[i]) == 0 || tools.transcribe(segments[i]).None?
    ensures Collected(tools, segments) == Collected(tools, segments[..i]) + Collected(tools, segments[i + 1..])
  {
    CollectedSplit(tools, segments, i);
  }

  /** Segment `i` produced text that is all whitespace, or produced none. */
  predicate ContributesBlank(tools: Tools, segment: string) {
    tools.byteSize(segment) != 0 && tools.transcribe(segment).Some? ==> Blank(tools.transcribe(segment).value)
  }

  /** The collected text is blank exactly when every segment's text is blank or missing. */
  lemma {:induction false} CollectedBlankIff(tools: Tools, segments: seq<string>)
    ensures Blank(Collected(tools, segments)) <==>
      forall i :: 0 <= i < |segments| ==> ContributesBlank(tools, segments[i])
  {
    if segments != [] {
      var prefix := segments[..|segments| - 1];
      var last := segments[|segments| - 1];
      CollectedBlankIff(tools, prefix);
      BlankConcat(Collected(tools, prefix), Piece(tools, last));
      PieceBlank(tools, last);
      assert forall i :: 0 <= i < |prefix| ==> prefix[i] == segments[i];
    }
  }

  /** A segment's piece is blank exactly when the segment contributes blank text or none. */
  lemma PieceBlank(tools: Tools, segment: string)
    ensures Blank(Piece(tools, segment)) <==> ContributesBlank(tools, segment)
  {
    if tools.byteSize(segment) != 0 && tools.transcribe(segment).Some? {
      BlankConcat(tools.transcribe(segment).value, "\n\n");
    }
  }

  /** Each path is sent to the service at most once when the segments are distinct. */
  lemma {:induction false} AttemptedDistinct(tools: Tools, segments: seq<string>)
    requires forall i, j :: 0 <= i < j < |segments| ==> segments[i] != segments[j]
    ensures var calls := Attempted(tools, segments);
      forall i, j :: 0 <= i < j < |calls| ==> calls[i] != calls[j]
  {
    if segments != [] {
      var prefix := segments[..|segments| - 1];
      var last := segments[|segments| - 1];
      AttemptedDistinct(tools, prefix);
      assert last !in prefix;
      assert last !in Attempted(tools, prefix);
    }
  }

  // ---------------------------------------------------------------------
  // Properties of the pipeline

  /**
   * Up to 20 MB (by the original upload's size) exactly one transcription is
   * attempted, on the converted file for the listed extensions and on the
   * upload otherwise; its text is returned as it is, and a failed call is
   * the "Transcription failed" error.
   */
  lemma WholeFilePath(tools: Tools, filePath: string, tempDir: string)
    requires TranscribedWhole(tools.byteSize(filePath))
    ensures var input := if NeedsConversion(filePath) then ConvertToMp3Mono(tools, filePath, tempDir) else filePath;
      && Pipeline(tools, filePath, tempDir).calls == [input]
      && (tools.transcribe(input).None? <==> Pipeline(tools, filePath, tempDir).outcome == Failed(TranscriptionFailed))
      && (tools.transcribe(input).Some? ==> Pipeline(tools, filePath, tempDir).outcome == Transcript(tools.transcribe(input).value))
      && (tools.transcribe(input).None? ==> ErrorMessage(Pipeline(tools, filePath, tempDir).outcome.error) == "Transcription failed")
  {
  }

  /** Over 20 MB, a split that yields no segments is the "Could not split" error and nothing is transcribed. */
  lemma SplitFailureTranscribesNothing(tools: Tools, filePath: string, tempDir: string)
    requires !TranscribedWhole(tools.byteSize(filePath))
    requires SplitOutcome(tools, InputForTranscription(tools, filePath, tempDir), tempDir) == []
    ensures Pipeline(tools, filePath, tempDir) == Run(Failed(SplitFailed), [])
    ensures ErrorMessage(Pipeline(tools, filePath, tempDir).outcome.error) == "Could not split the audio file"
  {
  }

  /** Over 20 MB with at least one segment, the outcome is decided by the stripped collected text. */
  lemma SplitBranch(tools: Tools, filePath: string, tempDir: string)
    requires !TranscribedWhole(tools.byteSize(filePath))
    requires SplitOutcome(tools, InputForTranscription(tools, filePath, tempDir), tempDir) != []
    ensures var result := Strip(Collected(tools, SplitOutcome(tools, InputForTranscription(tools, filePath, tempDir), tempDir)));
      Pipeline(tools, filePath, tempDir).outcome == if result == [] then Failed(NoSegmentsTranscribed) else Transcript(result)
  {
  }

  /** The stripped transcript is empty exactly when every segment contributed blank text or none. */
  lemma StrippedCollected(tools: Tools, segments: seq<string>)
    ensures var result := Strip(Collected(tools, segments));
      && (result == [] <==> forall i :: 0 <= i < |segments| ==> ContributesBlank(tools, segments[i]))
      && (result != [] ==> !IsSpace(result[0]) && !IsSpace(result[|result| - 1]))
  {
    CollectedBlankIff(tools, segments);
  }

  /**
   * Over 20 MB with at least one segment: the result is the
   * "No segments were transcribed" error exactly when no segment produced
   * text other than whitespace; otherwise it is the stripped, in-order
   * concatenation, which neither starts nor ends with whitespace.
   */
  lemma SplitPathOutcome(tools: Tools, filePath: string, tempDir: string)
    requires !TranscribedWhole(tools.byteSize(filePath))
    requires SplitOutcome(tools, InputForTranscription(tools, filePath, tempDir), tempDir) != []
    ensures var segments := SplitOutcome(tools, InputForTranscription(tools, filePath, tempDir), tempDir);
      var outcome := Pipeline(tools, filePath, tempDir).outcome;
      var allBlank := forall i :: 0 <= i < |segments| ==> ContributesBlank(tools, segments[i]);
      && (outcome == Failed(NoSegmentsTranscribed) <==> allBlank)
      && (allBlank ==> ErrorMessage(outcome.error) == "No segments were transcribed")
      && (!allBlank ==>
            var text := Strip(Collected(tools, segments));
            outcome == Transcript(text) && text != [] && !IsSpace(text[0]) && !IsSpace(text[|text| - 1]))
  {
    var segments := SplitOutcome(tools, InputForTranscription(tools, filePath, tempDir), tempDir);
    SplitBranch(tools, filePath, tempDir);
    OutcomeOfSegments(tools, segments, Pipeline(tools, filePath, tempDir).outcome);
  }

  /** The split path's result, for the outcome that `SplitBranch` gives. */
  lemma OutcomeOfSegments(tools: Tools, segments: seq<string>, outcome: Outcome)
    requires var result := Strip(Collected(tools, segments));
      outcome == if result == [] then Failed(NoSegmentsTranscribed) else Transcript(result)
    ensures var allBlank := forall i :: 0 <= i < |segments| ==> ContributesBlank(tools, segments[i]);
      && (outcome == Failed(NoSegmentsTranscribed) <==> allBlank)
      && (allBlank ==> ErrorMessage(outcome.error) == "No segments were transcribed")
      && (!allBlank ==>
            var text := Strip(Collected(tools, segments));
            outcome == Transcript(text) && text != [] && !IsSpace(text[0]) && !IsSpace(text[|text| - 1]))
  {
    StrippedCollected(tools, segments);
  }

  /**
   * Over 20 MB with at least one segment, the service is called on the
   * non-empty segments in index order, and on no path twice.
   */
  lemma SplitPathCalls(tools: Tools, filePath: string, tempDir: string)
    requires !TranscribedWhole(tools.byteSize(filePath))
    requires SplitOutcome(tools, InputForTranscription(tools, filePath, tempDir), tempDir) != []
    ensures var segments := SplitOutcome(tools, InputForTranscription(tools, filePath, tempDir), tempDir);
      var calls := Pipeline(tools, filePath, tempDir).calls;
      && calls == Attempted(tools, segments)
      && (forall i, j :: 0 <= i < j < |calls| ==> calls[i] != calls[j])
  {
    var input := InputForTranscription(tools, filePath, tempDir);
    var segments := SplitOutcome(tools, input, tempDir);
    DiscoveredDistinct(tools.pathExists, tempDir, BaseNameOf(tools.isAlnum, input));
    AttemptedDistinct(tools, segments);
  }

  /**
   * Over 20 MB, if every segment sent to the service fails, the result is
   * one of the two split-path errors, never an empty success.
   */
  lemma AllFailuresAreAnError(tools: Tools, filePath: string, tempDir: string)
    requires !TranscribedWhole(tools.byteSize(filePath))
    requires forall s :: s in SplitOutcome(tools, InputForTranscription(tools, filePath, tempDir), tempDir) && tools.byteSize(s) != 0 ==>
      tools.transcribe(s).None?
    ensures Pipeline(tools, filePath, tempDir).outcome in {Failed(SplitFailed), Failed(NoSegmentsTranscribed)}
  {
    var segments := SplitOutcome(tools, InputForTranscription(tools, filePath, tempDir), tempDir);
    if segments == [] {
      SplitFailureTranscribesNothing(tools, filePath, tempDir);
    } else {
      assert forall i :: 0 <= i < |segments| ==> ContributesBlank(tools, segments[i]) by {
        forall i | 0 <= i < |segments| ensures ContributesBlank(tools, segments[i]) {
          assert segments[i] in segments;
        }
      }
      SplitPathOutcome(tools, filePath, tempDir);
    }
  }
}
