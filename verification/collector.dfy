/** Collecting the recognizer's output while the audio is read.

    For every chunk of audio the recognizer returns one record; a record is kept
    only when it carries the `result` property (an utterance with word timings),
    and kept records are appended in the order they arrive. The recognizer itself
    is outside the model: its records are the input sequence `outputs`, standing
    for the records pushed before the file stream's 'end' event starts the
    segmentation. The model takes the chunk loop to have finished by then; the
    source does not order the two. Only the word lists of the kept records are
    read afterwards, so that is what is kept. */
module Collector {
  import opened Types

  /** The word lists of the records that carry a result, in arrival order. */
  function Collected(outputs: seq<RecognizerResult>): (r: seq<seq<Word>>)
    ensures |r| <= |outputs|
  {
    if |outputs| == 0 then []
    else
      var last := outputs[|outputs| - 1];
      Collected(outputs[..|outputs| - 1]) + (match last.result case Some(ws) => [ws] case None => [])
  }

  /** The `for await` loop over the audio chunks: push each record that has a result. */
  method CollectResults(outputs: seq<RecognizerResult>) returns (results: seq<seq<Word>>)
    ensures results == Collected(outputs)
  {
    results := [];
    var i := 0;
    while i < |outputs|
      invariant 0 <= i <= |outputs|
      invariant results == Collected(outputs[..i])
    {
      assert outputs[..i + 1][..i] == outputs[..i];
      var result := outputs[i];
      if result.result.Some? {
        results := results + [result.result.value];
      }
      i := i + 1;
    }
    assert outputs[..i] == outputs;
  }

  /** Indices of the records that carry a result, in increasing order. */
  function KeptIndices(outputs: seq<RecognizerResult>): (idx: seq<nat>)
    ensures forall k :: 0 <= k < |idx| ==> idx[k] < |outputs|
  {
    if |outputs| == 0 then []
    else
      var n := |outputs| - 1;
      KeptIndices(outputs[..n]) + (if outputs[n].result.Some? then [n] else [])
  }

  /** The filter keeps exactly the records with a result, in their original order:
      the k-th kept word list is the result of the k-th record that has one, the kept
      indices increase strictly, and every record with a result is among them. */
  lemma {:induction false} CollectedIsFilter(outputs: seq<RecognizerResult>)
    ensures var r, idx := Collected(outputs), KeptIndices(outputs);
      && |r| == |idx|
      && (forall k :: 0 <= k < |idx| ==> outputs[idx[k]].result == Some(r[k]))
      && (forall k, l :: 0 <= k < l < |idx| ==> idx[k] < idx[l])
      && (forall i :: 0 <= i < |outputs| && outputs[i].result.Some? ==> i in idx)
  {
    if |outputs| > 0 {
      var n := |outputs| - 1;
      var pre := outputs[..n];
      CollectedIsFilter(pre);
      assert forall i :: 0 <= i < n ==> pre[i] == outputs[i];
    }
  }

  /** Some kept word list is empty exactly when some record carries an empty result. */
  lemma CollectedHasEmpty(outputs: seq<RecognizerResult>)
    ensures (exists k :: 0 <= k < |Collected(outputs)| && |Collected(outputs)[k]| == 0)
        <==> exists i :: 0 <= i < |outputs| && outputs[i].result == Some([])
  {
    var r, idx := Collected(outputs), KeptIndices(outputs);
    CollectedIsFilter(outputs);
    if k :| 0 <= k < |r| && |r[k]| == 0 {
      assert outputs[idx[k]].result == Some([]);
    }
    if i :| 0 <= i < |outputs| && outputs[i].result == Some([]) {
      var k :| 0 <= k < |idx| && idx[k] == i;
      assert |r[k]| == 0;
    }
  }

  /** A record without a result leaves the collection unchanged; one with a result adds
      exactly its word list at the end. */
  lemma CollectedStep(outputs: seq<RecognizerResult>, o: RecognizerResult)
    ensures o.result.None? ==> Collected(outputs + [o]) == Collected(outputs)
    ensures o.result.Some? ==> Collected(outputs + [o]) == Collected(outputs) + [o.result.value]
  {
    assert (outputs + [o])[..|outputs|] == outputs;
  }

  /** Collecting two runs of records one after the other gives the two collections
      one after the other: nothing from one run is mixed into the other. */
  lemma {:induction false} CollectedAppend(a: seq<RecognizerResult>, b: seq<RecognizerResult>)
    ensures Collected(a + b) == Collected(a) + Collected(b)
    decreases |b|
  {
    if |b| == 0 {
      assert a + b == a;
    } else {
      var n := |b| - 1;
      CollectedAppend(a, b[..n]);
      assert (a + b)[..|a + b| - 1] == a + b[..n];
      assert (a + b)[|a + b| - 1] == b[n];
    }
  }
}
