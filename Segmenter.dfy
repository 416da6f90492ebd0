/**
 * `split_audio_file`: plan a segment duration, run ffmpeg in segment mode,
 * then collect the segments it wrote by probing indices 0, 1, 2, ... and
 * stopping at the first missing one, looking at no more than 1000 indices.
 */
module Segmenter {
  import opened Wrappers
  import opened Paths
  import opened Naming
  import opened Planner
  import opened Environment

  /** `range(1000)`: the most segments discovery looks for. */
  const MaxSegments: nat := 1000

  /** Segment `i` of `base` exists in `dir`. */
  predicate Present(pathExists: string -> bool, dir: string, base: string, i: nat) {
    pathExists(SegmentPath(dir, base, i))
  }

  /**
   * The first index from `from` on whose segment is missing, or MaxSegments
   * when all up to the cap exist.
   */
  function FirstGap(pathExists: string -> bool, dir: string, base: string, from: nat): (k: nat)
    requires from <= MaxSegments
    ensures from <= k <= MaxSegments
    ensures forall j :: from <= j < k ==> Present(pathExists, dir, base, j)
    ensures k < MaxSegments ==> !Present(pathExists, dir, base, k)
    decreases MaxSegments - from
  {
    if from == MaxSegments || !Present(pathExists, dir, base, from) then from
    else FirstGap(pathExists, dir, base, from + 1)
  }

  /** The paths of segments 0 .. count-1, in index order. */
  function SegmentPaths(dir: string, base: string, count: nat): (paths: seq<string>)
    ensures |paths| == count
    ensures forall i :: 0 <= i < count ==> paths[i] == SegmentPath(dir, base, i)
  {
    if count == 0 then [] else SegmentPaths(dir, base, count - 1) + [SegmentPath(dir, base, count - 1)]
  }

  /** What discovery returns: the segments before the first gap. */
  function Discovered(pathExists: string -> bool, dir: string, base: string): seq<string> {
    SegmentPaths(dir, base, FirstGap(pathExists, dir, base, 0))
  }

  /**
   * Discovery returns segments 0 .. k-1 in ascending order, all of which
   * exist; k is the first missing index, or 1000 if none is missing; and
   * nothing at or after a missing index is returned.
   */
  lemma DiscoveryStopsAtFirstGap(pathExists: string -> bool, dir: string, base: string)
    ensures |Discovered(pathExists, dir, base)| <= MaxSegments
    ensures forall i :: 0 <= i < |Discovered(pathExists, dir, base)| ==>
      Discovered(pathExists, dir, base)[i] == SegmentPath(dir, base, i) && pathExists(SegmentPath(dir, base, i))
    ensures |Discovered(pathExists, dir, base)| < MaxSegments ==>
      !Present(pathExists, dir, base, |Discovered(pathExists, dir, base)|)
    ensures forall j :: 0 <= j < MaxSegments && !Present(pathExists, dir, base, j) ==>
      |Discovered(pathExists, dir, base)| <= j
  {
    var k := FirstGap(pathExists, dir, base, 0);
    forall i | 0 <= i < k ensures pathExists(SegmentPath(dir, base, i)) {
      assert Present(pathExists, dir, base, i);
    }
  }

  /** No segment path is discovered twice, so no segment is transcribed twice. */
  lemma DiscoveredDistinct(pathExists: string -> bool, dir: string, base: string)
    ensures forall i, j :: 0 <= i < j < |Discovered(pathExists, dir, base)| ==>
      Discovered(pathExists, dir, base)[i] != Discovered(pathExists, dir, base)[j]
  {
    var found := Discovered(pathExists, dir, base);
    forall i, j | 0 <= i < j < |found| ensures found[i] != found[j] {
      if found[i] == found[j] { SegmentPathInjective(dir, base, i, j); }
    }
  }

  /** The discovery loop of `split_audio_file`. */
  method DiscoverSegments(pathExists: string -> bool, dir: string, base: string) returns (segments: seq<string>)
    ensures segments == Discovered(pathExists, dir, base)
  {
    segments := [];
    var i := 0;
    while i < MaxSegments
      invariant i <= MaxSegments
      invariant segments == SegmentPaths(dir, base, i)
      invariant FirstGap(pathExists, dir, base, i) == FirstGap(pathExists, dir, base, 0)
      decreases MaxSegments - i
    {
      var segmentPath := SegmentPath(dir, base, i);
      if !pathExists(segmentPath) {
        break;
      }
      segments := segments + [segmentPath];
      i := i + 1;
    }
  }

  /**
   * The ffmpeg command `split_audio_file` runs on `input`, or None when
   * planning raised (a known duration over an empty file).
   */
  function SegmentCommandFor(tools: Tools, input: string, outputDir: string): (cmd: Option<SegmentCommand>)
    ensures cmd.Some? ==> 60 <= cmd.value.segmentTime <= 600 && cmd.value.input == input
    ensures tools.probeDuration(input).None? ==> cmd.Some? && cmd.value.segmentTime == 300
    ensures cmd.None? <==> tools.probeDuration(input).Some? && tools.byteSize(input) == 0
  {
    match PlanSegmentDuration(tools.probeDuration(input), tools.byteSize(input))
    case None => None
    case Some(planned) =>
      var base := BaseNameOf(tools.isAlnum, input);
      Some(SegmentCommand(input, SegmentTimeArg(planned), SegmentPattern(outputDir, base)))
  }

  /**
   * The command carries the plan: `-segment_time` is `int()` of the planned
   * duration and the output pattern is `<outputDir>/<base>_part_%03d.mp3`.
   */
  lemma SegmentCommandFollowsPlan(tools: Tools, input: string, outputDir: string)
    ensures var cmd := SegmentCommandFor(tools, input, outputDir);
      var plan := PlanSegmentDuration(tools.probeDuration(input), tools.byteSize(input));
      cmd.Some? ==>
        && plan.Some?
        && cmd.value.segmentTime == SegmentTimeArg(plan.value)
        && cmd.value.outputPattern == SegmentPattern(outputDir, BaseNameOf(tools.isAlnum, input))
  {
  }

  /** 3000 s of audio in 50 MB is cut into segments of 300 s. */
  lemma SegmentCommandExample(tools: Tools, input: string, outputDir: string)
    requires tools.probeDuration(input) == Some(3000.0) && tools.byteSize(input) == 50 * BytesPerMb
    ensures var cmd := SegmentCommandFor(tools, input, outputDir);
      cmd.Some? && cmd.value.segmentTime == 300
  {
    PlanExamples();
    SegmentCommandFollowsPlan(tools, input, outputDir);
    assert SegmentTimeArg(300.0) == 300;
  }

  /** What `split_audio_file(input, outputDir)` returns. */
  function SplitOutcome(tools: Tools, input: string, outputDir: string): seq<string> {
    match SegmentCommandFor(tools, input, outputDir)
    case None => []
    case Some(cmd) =>
      if !tools.runSegmenter(cmd) then []
      else Discovered(tools.pathExists, outputDir, BaseNameOf(tools.isAlnum, input))
  }

  /**
   * `split_audio_file`: plan, segment, discover. Every failure (planning
   * raised, ffmpeg failed) gives the empty list.
   */
  method SplitAudioFile(tools: Tools, input: string, outputDir: string) returns (segments: seq<string>)
    ensures segments == SplitOutcome(tools, input, outputDir)
    ensures |segments| <= MaxSegments
    ensures forall i :: 0 <= i < |segments| ==>
      segments[i] == SegmentPath(outputDir, BaseNameOf(tools.isAlnum, input), i) && tools.pathExists(segments[i])
  {
    var totalDuration := tools.probeDuration(input);
    var planned := PlanSegmentDuration(totalDuration, tools.byteSize(input));
    if planned.None? {
      return [];
    }
    var base := BaseNameOf(tools.isAlnum, input);
    var cmd := SegmentCommand(input, SegmentTimeArg(planned.value), SegmentPattern(outputDir, base));
    assert SegmentCommandFor(tools, input, outputDir) == Some(cmd);
    if !tools.runSegmenter(cmd) {
      return [];
    }
    segments := DiscoverSegments(tools.pathExists, outputDir, base);
    DiscoveryStopsAtFirstGap(tools.pathExists, outputDir, base);
  }
}
