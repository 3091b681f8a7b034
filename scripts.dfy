/**
 * multi_language_support.py: the cue builder with chunks of 10 words, where
 * the one constant segment_length serves both as the chunk size and as the
 * seconds per cue.
 */
module MultiLanguageSupport {
  import opened Text
  import opened Srt

  /** segment_length: words per chunk and seconds per cue alike. */
  const SegmentLength: nat := 10

  /**
   * The subtitles produced from a recognised transcript: one cue per 10
   * words (the last may hold fewer), ceil(words / 10) of them.
   */
  method GenerateSubtitlesFromTranscript(text: string) returns (subtitles: seq<string>)
    ensures subtitles == Subtitles(text, 10, 10)
    ensures |subtitles| == (|Split(text)| + 9) / 10
  {
    subtitles := BuildCues(text, SegmentLength, SegmentLength);
    SubtitlesCount(text, SegmentLength, SegmentLength);
  }
}

/**
 * subtitle_generator.py: the same cue builder with chunks of 20 words and
 * segment_length = 10 seconds per cue.
 */
module SubtitleGenerator {
  import opened Text
  import opened Srt

  /** segment_length: the seconds each cue lasts. */
  const SegmentLength: nat := 10

  /** The hard-coded chunk size of the comprehension. */
  const WordsPerSegment: nat := 20

  /**
   * The subtitles produced from a recognised transcript: one cue per 20
   * words (the last may hold fewer), ceil(words / 20) of them, each lasting
   * 10 seconds.
   */
  method GenerateSubtitlesFromTranscript(text: string) returns (subtitles: seq<string>)
    ensures subtitles == Subtitles(text, 20, 10)
    ensures |subtitles| == (|Split(text)| + 19) / 20
  {
    subtitles := BuildCues(text, WordsPerSegment, SegmentLength);
    SubtitlesCount(text, WordsPerSegment, SegmentLength);
  }
}
