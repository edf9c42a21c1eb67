/** The word-to-cue segmenter applied to one recognition result.

    For a result with n >= 2 words the source walks i = 1 .. n-1, appending
    each word and a space to a line buffer, and closes a cue whenever
    i % WordsPerLine == 0. Read in closed form this gives:
    - closed cue j (0 <= j < ClosedCount(n)) ends at word 7(j+1); its text is
      words LineStart(j) .. 7(j+1), so the first closed cue holds 8 words and
      every later one 7; its text has its final space removed;
    - every cue j starts at the start time of word 7j: the word that closed
      cue j-1, which is NOT part of cue j's text;
    - a trailing cue follows exactly when n-1 is not a multiple of 7, and its
      text keeps its final space.
    `Segment` is that closed form; `SegmentResult` mirrors the source's code
    and is proved to compute it. */
module Segmenter {
  import opened Types

  /** Words per subtitle line. */
  const WordsPerLine: nat := 7

  /** The line buffer after appending words lo .. hi-1: each word followed by one space. */
  function Buffer(words: seq<Word>, lo: nat, hi: nat): string
    requires lo <= hi <= |words|
    decreases hi - lo
  {
    if lo == hi then "" else Buffer(words, lo, hi - 1) + words[hi - 1].word + " "
  }

  /** `text.slice(0, text.length - 1)`: the text without its last character. */
  function Trim(s: string): (t: string)
    ensures |s| > 0 ==> t + [s[|s| - 1]] == s
    ensures |s| == 0 ==> t == s
  {
    if |s| == 0 then s else s[..|s| - 1]
  }

  /** How many cues a result of n words closes inside the loop. */
  function ClosedCount(n: nat): nat
  {
    if n < 2 then 0 else (n - 1) / WordsPerLine
  }

  /** Whether a result of n words ends with a trailing (unclosed) cue. */
  predicate HasTrailing(n: nat)
  {
    n >= 2 && (n - 1) % WordsPerLine != 0
  }

  /** How many cues a result of n words produces. */
  function CueCount(n: nat): nat
  {
    if n < 2 then n else ClosedCount(n) + (if HasTrailing(n) then 1 else 0)
  }

  /** Index of the first word in the text of line j. */
  function LineStart(j: nat): nat
  {
    if j == 0 then 0 else WordsPerLine * j + 1
  }

  /** One past the index of the last word of line j in a result of n words. */
  function LineEnd(j: nat, n: nat): nat
  {
    if j < ClosedCount(n) then WordsPerLine * (j + 1) + 1 else n
  }

  /** The text of cue j of a result with at least two words: trimmed for closed lines. */
  function LineText(words: seq<Word>, j: nat): string
    requires |words| >= 2 && j < CueCount(|words|)
  {
    var body := Buffer(words, LineStart(j), LineEnd(j, |words|));
    if j < ClosedCount(|words|) then Trim(body) else body
  }

  /** Cue j of a result with at least two words. */
  function Line(words: seq<Word>, ms: int -> int, j: nat): Cue
    requires |words| >= 2 && j < CueCount(|words|)
  {
    Cue(ms(words[WordsPerLine * j].start), ms(words[LineEnd(j, |words|) - 1].end), LineText(words, j))
  }

  /** The cues the source produces for one recognition result (closed form).
      An empty result fails: the source reads the first word's text, which is
      undefined, and the request is rejected. */
  function Segment(words: seq<Word>, ms: int -> int): (r: Result<seq<Cue>, Error>)
    ensures r.Failure? <==> |words| == 0
    ensures r.Failure? ==> r.error == EmptyResult
    ensures r.Success? ==> |r.value| == CueCount(|words|) && |r.value| > 0
  {
    var n := |words|;
    if n == 0 then Failure(EmptyResult)
    else if n == 1 then Success([Cue(ms(words[0].start), ms(words[0].end), words[0].word)])
    else Success(seq(CueCount(n), j requires 0 <= j < CueCount(n) => Line(words, ms, j)))
  }

  /** The segmentation of one result as the source writes it. */
  method SegmentResult(words: seq<Word>, ms: int -> int) returns (r: Result<seq<Cue>, Error>)
    ensures r == Segment(words, ms)
  {
    if |words| == 1 {
      return Success([Cue(ms(words[0].start), ms(words[0].end), words[0].word)]);
    }
    if |words| == 0 {
      return Failure(EmptyResult);
    }
    var cues := CutLines(words, ms);
    return Success(cues);
  }

  /** The loop that cuts a result of at least two words into cues. */
  method CutLines(words: seq<Word>, ms: int -> int) returns (cues: seq<Cue>)
    requires |words| >= 2
    ensures Segment(words, ms) == Success(cues)
  {
    var n := |words|;
    cues := [];
    var startIndex := 0;
    var text := words[0].word + " ";
    var i := 1;
    while i < n
      invariant CutInvariant(words, ms, i, startIndex, text, cues)
      decreases n - i
    {
      CutStep(words, ms, i, startIndex, text, cues);
      text := text + words[i].word + " ";
      if i % WordsPerLine == 0 {
        cues := cues + [Cue(ms(words[startIndex].start), ms(words[i].end), Trim(text))];
        startIndex := i;
        text := "";
      }
      i := i + 1;
    }
    CutDone(words, ms, startIndex, text, cues);
    if startIndex != n - 1 {
      cues := cues + [Cue(ms(words[startIndex].start), ms(words[n - 1].end), text)];
    }
  }

  /** The state of the cutting loop before index i: the cues built so far are the
      first lines of the closed form, `startIndex` is the word that opened the current
      line, and `text` holds the current line's words up to i. */
  predicate CutInvariant(words: seq<Word>, ms: int -> int, i: nat, startIndex: nat, text: string, cues: seq<Cue>)
  {
    && |words| >= 2
    && 1 <= i <= |words|
    && startIndex == WordsPerLine * |cues|
    && startIndex < i <= startIndex + WordsPerLine
    && |cues| <= ClosedCount(|words|)
    && LineStart(|cues|) <= i
    && text == Buffer(words, LineStart(|cues|), i)
    && LinesSoFar(words, ms, cues)
  }

  /** One turn of the cutting loop keeps its invariant, whether or not index i closes a line. */
  lemma CutStep(words: seq<Word>, ms: int -> int, i: nat, startIndex: nat, text: string, cues: seq<Cue>)
    requires CutInvariant(words, ms, i, startIndex, text, cues) && i < |words|
    ensures var t := text + words[i].word + " ";
      && (i % WordsPerLine == 0 ==>
            CutInvariant(words, ms, i + 1, i, "", cues + [Cue(ms(words[startIndex].start), ms(words[i].end), Trim(t))]))
      && (i % WordsPerLine != 0 ==> CutInvariant(words, ms, i + 1, startIndex, t, cues))
  {
    var n := |words|;
    var line := |cues|;
    var t := text + words[i].word + " ";
    LineCloses(i, line, n);
    assert t == Buffer(words, LineStart(line), i + 1);
    if i % WordsPerLine == 0 {
      var c := Cue(ms(words[startIndex].start), ms(words[i].end), Trim(t));
      assert c == Line(words, ms, line);
      LinesSoFarAppend(words, ms, cues, c);
    }
  }

  /** When the loop has seen every word, the cues built so far plus the trailing cue,
      if the current line has words of its own, are the closed form's output. */
  lemma CutDone(words: seq<Word>, ms: int -> int, startIndex: nat, text: string, cues: seq<Cue>)
    requires CutInvariant(words, ms, |words|, startIndex, text, cues)
    ensures startIndex < |words|
    ensures startIndex != |words| - 1 ==>
      Segment(words, ms) == Success(cues + [Cue(ms(words[startIndex].start), ms(words[|words| - 1].end), text)])
    ensures startIndex == |words| - 1 ==> Segment(words, ms) == Success(cues)
  {
    var n := |words|;
    LastLine(n, |cues|);
    if startIndex != n - 1 {
      var c := Cue(ms(words[startIndex].start), ms(words[n - 1].end), text);
      assert c == Line(words, ms, |cues|);
      LinesSoFarAppend(words, ms, cues, c);
      AllLines(words, ms, cues + [c]);
    } else {
      AllLines(words, ms, cues);
    }
  }

  /** The cues built so far are the first lines of the closed form. */
  predicate LinesSoFar(words: seq<Word>, ms: int -> int, cues: seq<Cue>)
    requires |words| >= 2
  {
    |cues| <= CueCount(|words|) && forall j :: 0 <= j < |cues| ==> cues[j] == Line(words, ms, j)
  }

  lemma LinesSoFarAppend(words: seq<Word>, ms: int -> int, cues: seq<Cue>, c: Cue)
    requires |words| >= 2 && LinesSoFar(words, ms, cues) && |cues| < CueCount(|words|)
    requires c == Line(words, ms, |cues|)
    ensures LinesSoFar(words, ms, cues + [c])
  {
  }

  /** Once every line is built, the cues are the closed form's output. */
  lemma AllLines(words: seq<Word>, ms: int -> int, cues: seq<Cue>)
    requires |words| >= 2 && LinesSoFar(words, ms, cues) && |cues| == CueCount(|words|)
    ensures Segment(words, ms) == Success(cues)
  {
    forall j | 0 <= j < |cues|
      ensures cues[j] == Segment(words, ms).value[j]
    {
      SegmentAt(words, ms, j);
    }
    assert cues == Segment(words, ms).value;
  }

  /** Inside line `line`, index i closes it exactly when i % 7 == 0, and then it is
      the line's last word and the next line's text starts right after it. */
  lemma LineCloses(i: nat, line: nat, n: nat)
    requires 1 <= i < n && WordsPerLine * line < i <= WordsPerLine * (line + 1)
    ensures i % WordsPerLine == 0 <==> i == WordsPerLine * (line + 1)
    ensures i % WordsPerLine == 0 ==> line < ClosedCount(n) && LineEnd(line, n) == i + 1
    ensures i % WordsPerLine == 0 ==> LineStart(line + 1) == i + 1
    ensures i % WordsPerLine == 0 ==> WordsPerLine * (line + 1) < i + 1 <= WordsPerLine * (line + 2)
    ensures i % WordsPerLine != 0 ==> i + 1 <= WordsPerLine * (line + 1)
    ensures line < CueCount(n)
  {
  }

  /** When the loop ends in line `line`, exactly `line` cues were closed and a trailing
      cue remains exactly when that line has words of its own. */
  lemma LastLine(n: nat, line: nat)
    requires n >= 2 && WordsPerLine * line < n <= WordsPerLine * (line + 1)
    ensures ClosedCount(n) == line
    ensures HasTrailing(n) <==> WordsPerLine * line != n - 1
    ensures HasTrailing(n) ==> LineEnd(line, n) == n && CueCount(n) == line + 1
    ensures !HasTrailing(n) ==> CueCount(n) == line
  {
  }

  // ---------------------------------------------------------------------
  // Properties of the closed form
  // ---------------------------------------------------------------------

  /** Cue j of a result with at least two words: its times are those of word 7j's
      start and of its last word's end, and its text is the line buffer of its words
      with the closing space removed for closed lines only. */
  lemma SegmentAt(words: seq<Word>, ms: int -> int, j: nat)
    requires |words| >= 2 && j < CueCount(|words|)
    ensures Segment(words, ms).Success? && |Segment(words, ms).value| == CueCount(|words|)
    ensures Segment(words, ms).value[j] == Line(words, ms, j)
    ensures LineStart(j) < LineEnd(j, |words|) <= |words| && WordsPerLine * j < LineEnd(j, |words|)
    ensures Segment(words, ms).value[j].start == ms(words[WordsPerLine * j].start)
    ensures Segment(words, ms).value[j].end == ms(words[LineEnd(j, |words|) - 1].end)
    ensures Line(words, ms, j).text + (if j < ClosedCount(|words|) then " " else "")
            == Buffer(words, LineStart(j), LineEnd(j, |words|))
  {
    var body := Buffer(words, LineStart(j), LineEnd(j, |words|));
    if j < ClosedCount(|words|) {
      assert Trim(body) + " " == body;
    }
  }

  /** Appending the buffers of two adjacent runs gives the buffer of the joined run. */
  lemma {:induction false} BufferAppend(words: seq<Word>, lo: nat, mid: nat, hi: nat)
    requires lo <= mid <= hi <= |words|
    ensures Buffer(words, lo, mid) + Buffer(words, mid, hi) == Buffer(words, lo, hi)
    decreases hi - mid
  {
    if mid < hi {
      BufferAppend(words, lo, mid, hi - 1);
    }
  }

  /** A result with exactly one word gives one cue: that word's times and its text unchanged. */
  lemma SingleWordCue(words: seq<Word>, ms: int -> int)
    requires |words| == 1
    ensures Segment(words, ms) == Success([Cue(ms(words[0].start), ms(words[0].end), words[0].word)])
  {
  }

  /** A cue is closed at every index 1 <= i < n with i % 7 == 0 and nowhere else. */
  lemma ClosedCuesEndAtMultiples(n: nat)
    requires n >= 2
    ensures forall j :: 0 <= j < ClosedCount(n) ==>
      var i := LineEnd(j, n) - 1; 1 <= i < n && i % WordsPerLine == 0 && i / WordsPerLine == j + 1
    ensures forall i :: 1 <= i < n && i % WordsPerLine == 0 ==>
      1 <= i / WordsPerLine <= ClosedCount(n) && LineEnd(i / WordsPerLine - 1, n) - 1 == i
  {
  }

  /** The first closed cue holds words 0..7 (eight words); each later one holds the
      seven words after the previous closing word. Its text is those words joined by
      single spaces with exactly the final space removed, its start is the start of
      word 7j and its end the end of word 7(j+1). */
  lemma ClosedCueContents(words: seq<Word>, ms: int -> int, j: nat)
    requires |words| >= 2 && j < ClosedCount(|words|)
    ensures Segment(words, ms).Success? && j < |Segment(words, ms).value|
    ensures var c := Segment(words, ms).value[j];
      var lo := if j == 0 then 0 else WordsPerLine * j + 1;
      var hi := WordsPerLine * (j + 1) + 1;
      && hi - lo == (if j == 0 then WordsPerLine + 1 else WordsPerLine)
      && hi <= |words|
      && c.text + " " == Buffer(words, lo, hi)
      && c.start == ms(words[WordsPerLine * j].start)
      && c.end == ms(words[WordsPerLine * (j + 1)].end)
  {
    SegmentAt(words, ms, j);
  }

  /** A trailing cue is emitted exactly when n-1 is not a multiple of 7. It runs from
      the start of the word that closed the last cue (word 0 if none closed) to the end
      of the last word, and its text keeps its final space. */
  lemma TrailingCue(words: seq<Word>, ms: int -> int)
    requires |words| >= 2
    ensures var n := |words|; var k := ClosedCount(n);
      && Segment(words, ms).Success?
      && (HasTrailing(n) <==> (n - 1) % WordsPerLine != 0)
      && (HasTrailing(n) <==> |Segment(words, ms).value| == k + 1)
      && (!HasTrailing(n) ==> |Segment(words, ms).value| == k && WordsPerLine * k == n - 1)
      && (HasTrailing(n) ==>
            && WordsPerLine * k < n - 1
            && Segment(words, ms).value[k]
               == Cue(ms(words[WordsPerLine * k].start), ms(words[n - 1].end),
                      Buffer(words, if k == 0 then 0 else WordsPerLine * k + 1, n)))
  {
    var n := |words|;
    var k := ClosedCount(n);
    if HasTrailing(n) {
      SegmentAt(words, ms, k);
    }
  }

  /** Consecutive cues share the word that closed the earlier one: the later cue starts
      at that word's start while the earlier ends at its end, and the word is in the
      earlier cue's text only. Under an order-preserving millisecond map the later cue
      therefore starts no later than the earlier one ends. */
  lemma ConsecutiveCuesOverlap(words: seq<Word>, ms: int -> int, j: nat)
    requires |words| >= 2 && j + 1 < CueCount(|words|)
    ensures var cs := Segment(words, ms).value; var w := WordsPerLine * (j + 1);
      && w < |words|
      && cs[j + 1].start == ms(words[w].start)
      && cs[j].end == ms(words[w].end)
      && LineEnd(j, |words|) == w + 1
      && LineStart(j + 1) == w + 1
      && (Monotone(ms) && WellTimed(words) ==> cs[j + 1].start <= cs[j].end)
  {
    SegmentAt(words, ms, j);
    SegmentAt(words, ms, j + 1);
    NextLineBounds(j, |words|);
    var w := WordsPerLine * (j + 1);
    if Monotone(ms) && WellTimed(words) {
      MonotoneAt(ms, words[w].start, words[w].end);
    }
  }

  /** With well-timed, time-ordered words and an order-preserving millisecond map,
      cue start times and cue end times are both non-decreasing. */
  lemma CuesInTimeOrder(words: seq<Word>, ms: int -> int, j: nat)
    requires |words| >= 2 && j + 1 < CueCount(|words|)
    requires Monotone(ms) && WellTimed(words) && InTimeOrder(words)
    ensures var cs := Segment(words, ms).value;
      cs[j].start <= cs[j + 1].start && cs[j].end <= cs[j + 1].end
  {
    var n := |words|;
    SegmentAt(words, ms, j);
    SegmentAt(words, ms, j + 1);
    NextLineBounds(j, n);
    var a, b := WordsPerLine * j, WordsPerLine * (j + 1);
    var c, d := LineEnd(j, n) - 1, LineEnd(j + 1, n) - 1;
    WordTimesOrdered(words, a, b);
    WordTimesOrdered(words, c, d);
    MonotoneAt(ms, words[a].start, words[b].start);
    MonotoneAt(ms, words[c].end, words[d].end);
  }

  /** Line j+1 opens at the word that closes line j, and ends no earlier. */
  lemma NextLineBounds(j: nat, n: nat)
    requires n >= 2 && j + 1 < CueCount(n)
    ensures j < ClosedCount(n)
    ensures WordsPerLine * j < WordsPerLine * (j + 1) < n
    ensures LineEnd(j, n) == WordsPerLine * (j + 1) + 1 == LineStart(j + 1)
    ensures LineEnd(j, n) <= LineEnd(j + 1, n) <= n
  {
  }

  lemma MonotoneAt(ms: int -> int, a: int, b: int)
    requires Monotone(ms) && a <= b
    ensures ms(a) <= ms(b)
  {
  }

  /** In a well-timed, time-ordered result a later word starts and ends no earlier. */
  lemma {:induction false} WordTimesOrdered(words: seq<Word>, a: nat, b: nat)
    requires a <= b < |words| && WellTimed(words) && InTimeOrder(words)
    ensures words[a].start <= words[b].start && words[a].end <= words[b].end
    decreases b - a
  {
    if a < b {
      WordTimesOrdered(words, a + 1, b);
      assert words[a].end <= words[a + 1].start;
    }
  }

  /** A cue's text with the space that closing removed put back, if it was closed. */
  function Restored(c: Cue, closed: bool): string
  {
    if closed then c.text + " " else c.text
  }

  /** The texts of the first m cues read back in order, each of the first `closed`
      cues restored. */
  function Reassemble(cues: seq<Cue>, closed: nat, m: nat): string
    requires m <= |cues|
  {
    if m == 0 then "" else Reassemble(cues, closed, m - 1) + Restored(cues[m - 1], m - 1 < closed)
  }

  /** Number of words covered by the first m cues of a result of n >= 2 words. */
  function Covered(m: nat, n: nat): nat
  {
    if m == 0 then 0 else LineEnd(m - 1, n)
  }

  /** Every word of a result appears in the cue texts exactly once and in its
      original order: putting back the space each closed cue lost and reading the
      cues in order reproduces the line buffer of the whole result. */
  lemma CuesCoverResult(words: seq<Word>, ms: int -> int)
    requires |words| >= 2
    ensures Segment(words, ms).Success?
    ensures var cs := Segment(words, ms).value;
      Reassemble(cs, ClosedCount(|words|), |cs|) == Buffer(words, 0, |words|)
  {
    var n := |words|;
    var cs := Segment(words, ms).value;
    var bound := seq(|cs| + 1, m requires 0 <= m <= |cs| => Covered(m, n));
    forall j | 0 <= j < |cs|
      ensures RunMatches(words, cs, ClosedCount(n), bound, j)
    {
      SegmentAt(words, ms, j);
      CoveredArith(j + 1, n);
    }
    CoveredArith(|cs|, n);
    assert RunsMatch(words, cs, ClosedCount(n), bound);
    ReassembleRuns(words, cs, ClosedCount(n), bound, |cs|);
  }

  /** The first m lines of a result end where line m begins, and all lines together
      end at the last word. */
  lemma CoveredArith(m: nat, n: nat)
    requires n >= 2 && 0 < m <= CueCount(n)
    ensures Covered(m - 1, n) == LineStart(m - 1)
    ensures LineStart(m - 1) < LineEnd(m - 1, n) <= n
    ensures Covered(m, n) == LineEnd(m - 1, n)
    ensures m == CueCount(n) ==> LineEnd(m - 1, n) == n
  {
  }

  /** Cue j's restored text is the buffer of the run of words bound[j] .. bound[j+1]. */
  predicate RunMatches(words: seq<Word>, cs: seq<Cue>, closed: nat, bound: seq<nat>, j: nat)
    requires j < |cs| && |bound| == |cs| + 1
  {
    bound[j] <= bound[j + 1] <= |words| && Restored(cs[j], j < closed) == Buffer(words, bound[j], bound[j + 1])
  }

  /** Every cue matches its run, and the runs are adjacent, starting at word 0. */
  predicate RunsMatch(words: seq<Word>, cs: seq<Cue>, closed: nat, bound: seq<nat>)
  {
    && |bound| == |cs| + 1
    && bound[0] == 0
    && forall j :: 0 <= j < |cs| ==> RunMatches(words, cs, closed, bound, j)
  }

  /** If cue j's restored text is the buffer of the run bound[j] .. bound[j+1] and the
      runs are adjacent from word 0, the first m cues read back the buffer up to bound[m]. */
  lemma {:induction false} ReassembleRuns(words: seq<Word>, cs: seq<Cue>, closed: nat, bound: seq<nat>, m: nat)
    requires RunsMatch(words, cs, closed, bound) && m <= |cs|
    ensures bound[m] <= |words|
    ensures Reassemble(cs, closed, m) == Buffer(words, 0, bound[m])
  {
    if m > 0 {
      assert RunMatches(words, cs, closed, bound, m - 1);
      ReassembleRuns(words, cs, closed, bound, m - 1);
      BufferAppend(words, 0, bound[m - 1], bound[m]);
    }
  }
}
