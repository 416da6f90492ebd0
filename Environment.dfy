/**
 * What the pipeline learns from outside: the file system, ffprobe, ffmpeg
 * and the speech-to-text service, each as a total function from its input
 * to its outcome. The functions describe the world as the pipeline sees it
 * during one call of `process_audio_file`.
 */
module Environment {
  import opened Wrappers

  /** The ffmpeg `-f segment` invocation: input file, `-segment_time` value and output pattern. */
  datatype SegmentCommand = SegmentCommand(input: string, segmentTime: int, outputPattern: string)

  datatype Tools = Tools(
    /** `os.path.getsize`. */
    byteSize: string -> nat,
    /** `get_audio_duration`: ffprobe's duration, or None on any failure. */
    probeDuration: string -> Option<real>,
    /** Whether ffmpeg's whole-file conversion of (input, output) exits with status 0. */
    runConverter: (string, string) -> bool,
    /** Whether ffmpeg's segmenting run exits with status 0 (and does not raise). */
    runSegmenter: SegmentCommand -> bool,
    /** `os.path.exists`, after the segmenting run. */
    pathExists: string -> bool,
    /** `transcribe_audio`: the service's text, or None on any error. */
    transcribe: string -> Option<string>,
    /** `str.isalnum`. */
    isAlnum: char -> bool
  )
}
