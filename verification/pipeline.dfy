/** From collected recognition results to the subtitle cue list, and the request
    as a whole.

    Each collected result is segmented on its own (the line buffer and the
    opening word restart for every result) and its cues are appended to the list
    in result order. An empty result aborts the whole list. */
module Pipeline {
  import opened Types
  import opened Segmenter
  import opened Collector
  import opened VideoPaths

  /** The cues of a run of results, or the error of the first result that fails. */
  function SegmentAll(batches: seq<seq<Word>>, ms: int -> int): (r: Result<seq<Cue>, Error>)
    ensures r.Failure? ==> r.error == EmptyResult
    ensures r.Success? && |batches| > 0 ==> |r.value| > 0
  {
    if |batches| == 0 then Success([])
    else
      var n := |batches| - 1;
      var head := SegmentAll(batches[..n], ms);
      match head
      case Failure(e) => Failure(e)
      case Success(cues) =>
        match Segment(batches[n], ms)
        case Failure(e) => Failure(e)
        case Success(more) => Success(cues + more)
  }

  /** The run fails exactly when one of its results has no words. */
  lemma {:induction false} SegmentAllFails(batches: seq<seq<Word>>, ms: int -> int)
    ensures SegmentAll(batches, ms).Failure? <==> exists k :: 0 <= k < |batches| && |batches[k]| == 0
  {
    if |batches| > 0 {
      var n := |batches| - 1;
      SegmentAllFails(batches[..n], ms);
      assert forall k :: 0 <= k < n ==> batches[..n][k] == batches[k];
    }
  }

  /** The loop over the collected results, as the source writes it. */
  method BuildSubs(batches: seq<seq<Word>>, ms: int -> int) returns (r: Result<seq<Cue>, Error>)
    ensures r == SegmentAll(batches, ms)
  {
    var subs: seq<Cue> := [];
    var k := 0;
    while k < |batches|
      invariant 0 <= k <= |batches|
      invariant SegmentAll(batches[..k], ms) == Success(subs)
    {
      assert batches[..k + 1][..k] == batches[..k];
      var one := SegmentResult(batches[k], ms);
      if one.Failure? {
        FailureExtends(batches, ms, k);
        return one;
      }
      subs := subs + one.value;
      k := k + 1;
    }
    assert batches[..k] == batches;
    return Success(subs);
  }

  /** Once a prefix of the results fails, so does the whole run, with the same error. */
  lemma FailureExtends(batches: seq<seq<Word>>, ms: int -> int, k: nat)
    requires k < |batches| && SegmentAll(batches[..k], ms).Success?
    requires Segment(batches[k], ms).Failure?
    ensures SegmentAll(batches, ms) == Failure(Segment(batches[k], ms).error)
  {
    SegmentAllFails(batches, ms);
  }

  /** A successful run's cues are those of all but its last result, then the last result's. */
  lemma SegmentAllLast(batches: seq<seq<Word>>, ms: int -> int)
    requires |batches| > 0 && SegmentAll(batches, ms).Success?
    ensures var n := |batches| - 1;
      && SegmentAll(batches[..n], ms).Success? && Segment(batches[n], ms).Success?
      && SegmentAll(batches, ms).value == SegmentAll(batches[..n], ms).value + Segment(batches[n], ms).value
  {
  }

  /** The cue list of two runs of results is the first run's cues followed by the
      second run's: every result's cues stay together and in result order. */
  lemma {:induction false} SegmentAllAppend(a: seq<seq<Word>>, b: seq<seq<Word>>, ms: int -> int)
    requires SegmentAll(a + b, ms).Success?
    ensures SegmentAll(a, ms).Success? && SegmentAll(b, ms).Success?
    ensures SegmentAll(a + b, ms).value == SegmentAll(a, ms).value + SegmentAll(b, ms).value
    decreases |b|
  {
    if |b| == 0 {
      assert a + b == a;
    } else {
      var n := |b| - 1;
      var ab := a + b;
      assert ab[..|ab| - 1] == a + b[..n] && ab[|ab| - 1] == b[n];
      SegmentAllLast(ab, ms);
      SegmentAllAppend(a, b[..n], ms);
      SegmentAllLast(b, ms);
      AppendAssoc(SegmentAll(a, ms).value, SegmentAll(b[..n], ms).value, Segment(b[n], ms).value);
    }
  }

  lemma AppendAssoc<T>(x: seq<T>, y: seq<T>, z: seq<T>)
    ensures (x + y) + z == x + (y + z)
  {
  }

  /** A single result's cues in the list are exactly that result's own segmentation. */
  lemma SegmentAllOne(w: seq<Word>, ms: int -> int)
    ensures SegmentAll([w], ms) == Segment(w, ms)
  {
    assert [w][..0] == [];
    if Segment(w, ms).Success? {
      assert [] + Segment(w, ms).value == Segment(w, ms).value;
    }
  }

  /** The cue list is the concatenation, in order, of every result's own cues. Proved
      from SegmentAllAppend, not by Dafny's automatic induction on `batches`. */
  lemma {:induction false} SegmentAllIsConcat(batches: seq<seq<Word>>, ms: int -> int, k: nat)
    requires SegmentAll(batches, ms).Success? && k < |batches|
    ensures Segment(batches[k], ms).Success?
    ensures var pre := SegmentAll(batches[..k], ms); var here := Segment(batches[k], ms);
      var post := SegmentAll(batches[k + 1..], ms);
      && pre.Success? && here.Success? && post.Success?
      && SegmentAll(batches, ms).value == pre.value + here.value + post.value
  {
    var pre, post := batches[..k], batches[k + 1..];
    var rest := [batches[k]] + post;
    assert batches == pre + rest;
    SegmentAllAppend(pre, rest, ms);
    SegmentAllAppend([batches[k]], post, ms);
    SegmentAllOne(batches[k], ms);
    AppendAssoc(SegmentAll(pre, ms).value, Segment(batches[k], ms).value, SegmentAll(post, ms).value);
  }

  /** The recognizer's records turned into cues: the collected results, segmented.
      It fails, always with EmptyResult, exactly when some record carries a result
      with no words. */
  function Transcribe(outputs: seq<RecognizerResult>, ms: int -> int): (r: Result<seq<Cue>, Error>)
    ensures r.Failure? <==> exists i :: 0 <= i < |outputs| && outputs[i].result == Some([])
    ensures r.Failure? ==> r.error == EmptyResult
  {
    CollectedHasEmpty(outputs);
    SegmentAllFails(Collected(outputs), ms);
    SegmentAll(Collected(outputs), ms)
  }

  /** What a handled request produces: the two audio paths and the cues. */
  datatype Subtitles = Subtitles(wavPath: string, monoWavPath: string, cues: seq<Cue>)

  /** One transcription request, in a process that has not served one before. A
      request body whose `url` is missing or empty is answered without any work.
      Otherwise the paths come from the URL's video identifier; the recognizer's
      records for the audio at those paths, as far as they were pushed before the
      file stream ended, are the parameter `outputs`. */
  function HandleRequest(url: Option<string>, cwd: string, outputs: seq<RecognizerResult>, ms: int -> int)
    : (r: Result<Subtitles, Error>)
    ensures r == Failure(NoVideoUrl) <==> url.None? || url.value == ""
    ensures r.Success? ==>
      && url.Some? && url.value != ""
      && r.value.wavPath == WavPath(cwd, VideoId(url.value))
      && r.value.monoWavPath == MonoWavPath(cwd, VideoId(url.value))
      && Success(r.value.cues) == Transcribe(outputs, ms)
    ensures r.Failure? && r.error == EmptyResult <==>
      url.Some? && url.value != "" && exists i :: 0 <= i < |outputs| && outputs[i].result == Some([])
  {
    if url.None? || url.value == "" then Failure(NoVideoUrl)
    else
      var id := VideoId(url.value);
      match Transcribe(outputs, ms)
      case Failure(e) => Failure(e)
      case Success(cues) => Success(Subtitles(WavPath(cwd, id), MonoWavPath(cwd, id), cues))
  }
}
