# PikaLyrics subtitle pipeline — a Dafny model

PikaLyrics is a small HTTP service. It takes a YouTube URL, downloads the audio,
runs the Vosk speech recognizer over it and answers with SRT subtitles. This
project models the service's logic, all of it in `main.ts`:

- `types.dfy` (module `Types`) holds the shapes. A recognized word is its text,
  start time and end time. A recognizer record optionally carries a `result`
  list of words. A subtitle cue is a start, an end and a text.
- `video.dfy` (module `VideoPaths`) derives the video identifier as
  `url.split("?v=")[1]`, and from it the `.wav` and `.mono.wav` paths under
  `build/`. JavaScript's `split` is modelled as a left-to-right scan for
  non-overlapping separators. An absent element 1 reads as `undefined`.
- `collector.dfy` (module `Collector`) keeps, in arrival order, the recognizer
  records that carry a `result`.
- `segmenter.dfy` (module `Segmenter`) cuts one result's words into cues. It has:
  - `Segment`, a closed form that gives cue j directly;
  - `SegmentResult` / `CutLines`, the source's loop, proved to compute that
    closed form.
- `pipeline.dfy` (module `Pipeline`) does three things:
  - it segments every collected result and appends the cues in result order;
  - it mirrors that loop as a method;
  - it models a whole request.

Times stay abstract integers. The source's `* 1000` is a caller-supplied map
`ms: int -> int`. The ordering results assume only that `ms` preserves order
(`Types.Monotone`).

The code differs from a plain groups-of-seven reading in these ways, and the
model follows the code:

- The first cue of a result holds eight words, not seven. Word 0 is already in
  the buffer before the loop starts at index 1, and the first close is at
  index 7. Every later closed cue holds seven words. So 14 words give cues of
  8 and 6 words.
- A cue's start time is taken from `words[start_index]`. After a close that is
  the closing word, which belongs to the previous cue. Consecutive cues
  therefore overlap on that word's time span.
- Closed cues drop their final space. The trailing cue keeps it.
- Segmentation restarts for every collected result; words are not pooled
  across results.
- A collected result with no words makes the source read `words[0].word` of
  `undefined`. The subtitle promise then rejects. The model returns
  `Failure(EmptyResult)`.

## Model

| member | source | states |
|---|---|---|
| Segmenter.Segment | main.ts:88-127 | one result is cut into cues; it fails with EmptyResult exactly when the result has no words; otherwise it yields CueCount(n) >= 1 cues |
| Segmenter.SegmentResult | main.ts:89-127 | the source's per-result code (single-word shortcut, empty result, loop) produces exactly the closed-form segmentation |
| Segmenter.CutLines | main.ts:101-126 | the buffer-and-close loop over words 1..n-1, plus the trailing push, produces exactly the closed-form cues |
| Segmenter.CutStep | main.ts:103-116 | one loop turn appends word i and a space; when i % 7 == 0 it emits the next closed cue (trimmed text, start of words[start_index], end of words[i]) and restarts the buffer, keeping the loop invariant |
| Segmenter.CutDone | main.ts:118-126 | after the loop a trailing cue from words[start_index] to the last word, with the untrimmed buffer, is pushed exactly when start_index != n-1, and the cue list is then complete |
| Segmenter.Trim | main.ts:111 | text.slice(0, length-1) removes exactly the last character, and leaves empty text unchanged |
| Segmenter.SingleWordCue | main.ts:90-99 | a one-word result gives exactly one cue: that word's times and its text without a trailing space |
| Segmenter.ClosedCuesEndAtMultiples | main.ts:103-105 | cues close at exactly the indices 1 <= i < n with i % 7 == 0; closed cue j ends at index 7(j+1) |
| Segmenter.ClosedCueContents | main.ts:102-115 | closed cue 0 holds words 0..7 (eight words) and every later closed cue seven words; its text is those words space-joined without the last space; its times are the start of word 7j and the end of word 7(j+1) |
| Segmenter.TrailingCue | main.ts:118-126 | a trailing cue exists exactly when (n-1) % 7 != 0; it runs from word 7k's start to the last word's end and keeps its final space; otherwise 7k == n-1 and there are k cues |
| Segmenter.ConsecutiveCuesOverlap | main.ts:109-115 | cue j+1 starts at the start of the word that closed cue j, and cue j ends at that word's end; with well-timed words and an order-preserving ms, cue j+1 starts no later than cue j ends |
| Segmenter.CuesInTimeOrder | main.ts:109-124 | for time-ordered, well-timed words and an order-preserving ms, both cue starts and cue ends are non-decreasing |
| Segmenter.CuesCoverResult | main.ts:102-124 | every word of the result appears in the cue texts once and in order: put back each closed cue's removed space, concatenate the texts, and you get the whole result's buffer |
| Collector.Collected | main.ts:64-75 | the collection is never longer than the recognizer's output |
| Collector.CollectResults | main.ts:64-75 | the for-await loop that pushes records with a result computes the collection |
| Collector.CollectedIsFilter | main.ts:71-74 | the k-th kept word list is the result of the k-th record that carries one; kept indices strictly increase; every record with a result is kept |
| Collector.CollectedStep | main.ts:71-74 | a record without a result changes nothing; a record with one appends exactly its word list |
| Collector.CollectedAppend | main.ts:64-75 | collecting two runs of records gives the two collections one after the other |
| VideoPaths.FindFrom | main.ts:25 | finds the first occurrence of "?v=" at or after a position, or reports that there is none |
| VideoPaths.SplitFrom | main.ts:25 | splitting always yields at least one piece |
| VideoPaths.Split | main.ts:25 | url.split("?v=") yields at least one piece, and exactly one when the URL holds no "?v=" (partners: SplitJoin, SplitPiecesMarkerFree) |
| VideoPaths.VideoId | main.ts:25 | element 1 of the split is absent exactly when the URL holds no "?v=", and never contains "?v=" itself (partner: VideoIdIsBetweenMarkers) |
| VideoPaths.WavPath | main.ts:27 | the path reads as the working directory, "/build/", the identifier's text (or "undefined") and ".wav" (partners: WavPathInjective, MissingIdReadsUndefined) |
| VideoPaths.MonoWavPath | main.ts:28 | the path reads as the working directory, "/build/", the identifier's text (or "undefined") and ".mono.wav" (partner: MonoPathBesideWavPath) |
| VideoPaths.SplitJoin | main.ts:25 | joining the pieces of url.split("?v=") with "?v=" gives back the URL |
| VideoPaths.SplitPiecesMarkerFree | main.ts:25 | no piece of the split contains "?v=" |
| VideoPaths.VideoIdIsBetweenMarkers | main.ts:25 | the identifier is absent exactly when the URL has no "?v="; otherwise it is the marker-free text after the first "?v=", up to the next "?v=" or the end |
| VideoPaths.MonoPathBesideWavPath | main.ts:27-28 | the mono path is the wav path with ".wav" replaced by ".mono.wav" |
| VideoPaths.WavPathInjective | main.ts:27 | two identifiers give the same wav path exactly when they read the same |
| VideoPaths.MissingIdReadsUndefined | main.ts:25-28 | a URL without "?v=" yields build/undefined.wav and build/undefined.mono.wav, the same files as the identifier "undefined" |
| Pipeline.SegmentAll | main.ts:88-127 | the cue list of all collected results; a failure is always EmptyResult; a successful non-empty run yields at least one cue |
| Pipeline.SegmentAllFails | main.ts:88-102 | the cue list fails exactly when some collected result has no words |
| Pipeline.BuildSubs | main.ts:87-127 | the source's loop over collected results computes the cue list, stopping at the first empty result |
| Pipeline.FailureExtends | main.ts:101-102 | an empty result after a successful prefix makes the whole run fail with its error |
| Pipeline.SegmentAllAppend | main.ts:88-127 | the cue list of two runs of results is the first run's list followed by the second's, so cues never mix across results |
| Pipeline.SegmentAllOne | main.ts:88-127 | a single result's share of the list is exactly its own segmentation |
| Pipeline.SegmentAllIsConcat | main.ts:88-127 | result k's cues appear in the list as a contiguous block, after all earlier results' cues and before all later ones |
| Collector.CollectedHasEmpty | main.ts:71-74 | some kept word list is empty exactly when some recognizer record carries a result with no words (via CollectedIsFilter) |
| Pipeline.Transcribe | main.ts:64-127 | the collected results, segmented in order; it fails, always with EmptyResult, exactly when some recognizer record carries a result with no words (partners: CollectedHasEmpty, SegmentAllFails, SegmentAllIsConcat) |
| Pipeline.HandleRequest | main.ts:20-28 | a body whose url is missing or empty is answered with NoVideoUrl, and only then; otherwise the paths come from the URL's identifier and the cues from the collected results; it fails with EmptyResult exactly when some record has an empty result |

## Left out

- The Vosk recognizer is not modelled: the model, speaker model, `setWords`, `acceptWaveform` and the choice between `result()` and `finalResult()`. Its records are the input sequence.
- The recognizer's `free()` (main.ts:77) releases native memory and changes no value the model tracks. For the models' `free()` calls, see the Pipeline.HandleRequest lines below.
- Fastify, youtube-dl, the `existsSync` check, the ffmpeg conversion, the wav `Reader` and the file streams are I/O. The model takes the recognizer's records as a parameter. It does not check that they come from the computed paths.
- `stringifySync` SRT rendering is a library call whose source is not part of this model.
- Segmenter.Segment: cue times are `ms(t)` for an abstract, order-preserving `ms`, not the floating-point product `t * 1000`. Rounding of JavaScript doubles is not modelled.
- The recognizer's `conf` field is never read and is not modelled.
- Console logging is not modelled.
- Pipeline.Transcribe: `outputs` stands for the records pushed into `results` before the mono file's read stream fires 'end' (main.ts:83-84). Segmentation starts on that event, not when the `for await` loop (main.ts:64-78) finishes, and nothing orders the two. Audio still buffered in the wav `Reader` or `readerReadable` when 'end' fires never reaches `results`. The model assumes the loop has finished by then.
- Pipeline.HandleRequest: describes one request in a fresh process. After the first transcription `model.free()` and `speakerModel.free()` (main.ts:85-86) have freed the process-wide models (main.ts:16-17), and what later requests do with them is not modelled.
- Pipeline.HandleRequest: a POST with no body leaves `request.body` undefined. Reading `.url` (main.ts:22) then throws inside the `try`, and the `catch` (main.ts:140-141) only logs it, so no "No video URL provided" reply is sent. The model's `url` is the body's `url` property of a body that exists.
- Pipeline.HandleRequest: `Failure(NoVideoUrl)` stands for the plain-text reply "No video URL provided". `Failure(EmptyResult)` stands for the rejected promise, which the outer `catch` only logs, so no reply is sent. A `url` that is present but not a string is not modelled.
