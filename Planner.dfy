/**
 * The segment-duration plan of `split_audio_file`: aim for 5 MB segments by
 * assuming a constant bitrate, fall back to 300 seconds when the duration is
 * unknown, and keep the result between one and ten minutes. Arithmetic is on
 * exact reals, not IEEE doubles.
 */
module Planner {
  import opened Wrappers

  const FallbackSeconds: real := 300.0
  const MinSegmentSeconds: real := 60.0
  const MaxSegmentSeconds: real := 600.0
  /** `segment_size_mb`, as `process_audio_file` passes it. */
  const TargetSegmentMb: real := 5.0
  const BytesPerMb: nat := 1024 * 1024

  /**
   * `get_file_size_mb`: bytes over 2^20. Dividing by a power of two is exact
   * in IEEE arithmetic, so this real is the double Python computes.
   */
  function FileSizeMb(bytes: nat): (mb: real)
    ensures mb >= 0.0
    ensures mb == 0.0 <==> bytes == 0
  {
    bytes as real / BytesPerMb as real
  }

  /** `max(60, min(600, d))`. */
  function Clamp(d: real): (r: real)
    ensures MinSegmentSeconds <= r <= MaxSegmentSeconds
    ensures MinSegmentSeconds <= d <= MaxSegmentSeconds ==> r == d
    ensures d < MinSegmentSeconds ==> r == MinSegmentSeconds
    ensures d > MaxSegmentSeconds ==> r == MaxSegmentSeconds
  {
    var m := if MaxSegmentSeconds <= d then MaxSegmentSeconds else d;
    if MinSegmentSeconds >= m then MinSegmentSeconds else m
  }

  /**
   * The planned segment duration in seconds, from the probed total duration
   * and the byte size of the file being split. `None` stands for the
   * ZeroDivisionError that a known duration over an empty file raises inside
   * the `try` of `split_audio_file`, which then returns no segments.
   */
  function PlanSegmentDuration(totalDuration: Option<real>, sizeBytes: nat): (planned: Option<real>)
    ensures planned.None? <==> totalDuration.Some? && sizeBytes == 0
    ensures planned.Some? ==> MinSegmentSeconds <= planned.value <= MaxSegmentSeconds
    ensures totalDuration.None? ==> planned == Some(FallbackSeconds)
    ensures totalDuration.Some? && sizeBytes > 0 ==>
      var estimate := totalDuration.value * TargetSegmentMb / FileSizeMb(sizeBytes);
      && (MinSegmentSeconds <= estimate <= MaxSegmentSeconds ==> planned == Some(estimate))
      && (estimate < MinSegmentSeconds ==> planned == Some(MinSegmentSeconds))
      && (estimate > MaxSegmentSeconds ==> planned == Some(MaxSegmentSeconds))
  {
    match totalDuration
    case None => Some(Clamp(FallbackSeconds))
    case Some(total) =>
      if sizeBytes == 0 then None
      else Some(Clamp(total * TargetSegmentMb / FileSizeMb(sizeBytes)))
  }

  /**
   * `str(int(segment_duration))`'s number: the planned duration truncated to
   * whole seconds, which for a planned duration in range stays in range.
   */
  function SegmentTimeArg(planned: real): (seconds: int)
    requires MinSegmentSeconds <= planned <= MaxSegmentSeconds
    ensures 60 <= seconds <= 600
    ensures seconds as real <= planned < seconds as real + 1.0
  {
    planned.Floor
  }

  /** The worked cases: 3000 s over 50 MB plans 300 s; 100 s over 50 MB is clamped up to 60 s. */
  lemma PlanExamples()
    ensures PlanSegmentDuration(Some(3000.0), 50 * BytesPerMb) == Some(300.0)
    ensures PlanSegmentDuration(Some(100.0), 50 * BytesPerMb) == Some(60.0)
    ensures PlanSegmentDuration(Some(36000.0), 50 * BytesPerMb) == Some(600.0)
    ensures PlanSegmentDuration(None, 50 * BytesPerMb) == Some(300.0)
  {
    assert FileSizeMb(50 * BytesPerMb) == 50.0;
  }
}
