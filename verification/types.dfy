/** Shapes shared by the transcription pipeline: the recognizer's timed words,
    the recognizer's per-chunk result records, the subtitle cues built from
    them, and the two small failure-carrying wrappers the pipeline needs. */
module Types {

  /** A value that may be absent (a missing property, an `undefined`). */
  datatype Option<+T> = None | Some(value: T)

  /** Either a computed value or the error that aborted the computation. */
  datatype Result<+R, +E> = Success(value: R) | Failure(error: E)

  /** One recognized word with its time span, as the recognizer reports it.
      `start` and `end` are the recognizer's timestamps (seconds in the
      engine) kept as abstract integers; the conversion to milliseconds is a
      separate, order-preserving map supplied by the caller. The confidence
      field is never read by the pipeline and is not modelled. */
  datatype Word = Word(word: string, start: int, end: int)

  /** One record returned by the recognizer for one audio chunk. The
      `result` property is present only when the recognizer finalized an
      utterance with word timings; `None` models its absence. */
  datatype RecognizerResult = RecognizerResult(result: Option<seq<Word>>)

  /** One subtitle cue: start and end in milliseconds, and its text. */
  datatype Cue = Cue(start: int, end: int, text: string)

  /** Why a transcription request ended without subtitles. */
  datatype Error =
    | NoVideoUrl    // the request body had no (or an empty) `url`
    | EmptyResult   // a collected result had no words, so reading its first word failed

  /** A millisecond conversion that never reverses the order of two times. */
  ghost predicate Monotone(ms: int -> int)
  {
    forall a, b :: a <= b ==> ms(a) <= ms(b)
  }

  /** Every word ends no earlier than it starts. */
  predicate WellTimed(words: seq<Word>)
  {
    forall i :: 0 <= i < |words| ==> words[i].start <= words[i].end
  }

  /** Words are reported in time order: each starts no earlier than the previous one ends. */
  predicate InTimeOrder(words: seq<Word>)
  {
    forall i :: 0 <= i < |words| - 1 ==> words[i].end <= words[i + 1].start
  }
}
