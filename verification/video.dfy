/** Deriving the video identifier and the two audio file paths from the request URL.

    The identifier is element 1 of `url.split("?v=")`: JavaScript's split scans
    left to right for non-overlapping occurrences of the separator and returns the
    pieces between them. Element 1 is therefore the text between the first "?v="
    and the next one (or the end of the URL); when the URL holds no "?v=" it does
    not exist and reads as `undefined`, which template interpolation turns into
    the text "undefined". */
module VideoPaths {
  import opened Types

  /** The separator the identifier is split on. */
  const Marker: string := "?v="

  /** The separator occurs in s at position p, compared character by character. */
  predicate OccursAt(s: string, p: nat)
  {
    p + |Marker| <= |s| && s[p] == Marker[0] && s[p + 1] == Marker[1] && s[p + 2] == Marker[2]
  }

  /** The separator occurs nowhere in s. */
  predicate MarkerFree(s: string)
  {
    forall p: nat :: p < |s| ==> !OccursAt(s, p)
  }

  /** The first occurrence of the separator at or after `from`, if any. */
  function FindFrom(s: string, from: nat): (r: Option<nat>)
    requires from <= |s|
    ensures r.Some? ==> from <= r.value && OccursAt(s, r.value)
    ensures r.Some? ==> forall p: nat :: from <= p < r.value ==> !OccursAt(s, p)
    ensures r.None? ==> forall p: nat :: from <= p ==> !OccursAt(s, p)
    decreases |s| - from
  {
    if from + |Marker| > |s| then None
    else if OccursAt(s, from) then Some(from)
    else FindFrom(s, from + 1)
  }

  /** `s.slice(from).split("?v=")`: the pieces between successive separators. */
  function SplitFrom(s: string, from: nat): (parts: seq<string>)
    requires from <= |s|
    ensures |parts| >= 1
    decreases |s| - from
  {
    match FindFrom(s, from)
    case None => [s[from..]]
    case Some(q) => [s[from..q]] + SplitFrom(s, q + |Marker|)
  }

  /** `s.split("?v=")`: a single piece exactly when s holds no separator. */
  function Split(s: string): (parts: seq<string>)
    ensures |parts| >= 1
    ensures |parts| == 1 <==> MarkerFree(s)
  {
    SplitFrom(s, 0)
  }

  /** The inverse of splitting: the pieces joined with the separator between them. */
  function Join(parts: seq<string>): string
    requires |parts| >= 1
  {
    if |parts| == 1 then parts[0] else parts[0] + Marker + Join(parts[1..])
  }

  /** `url.split("?v=")[1]`, with `None` for `undefined`: absent exactly when the URL
      holds no separator, and never holding one itself. */
  function VideoId(url: string): (r: Option<string>)
    ensures r.None? <==> MarkerFree(url)
    ensures r.Some? ==> MarkerFree(r.value)
  {
    var parts := Split(url);
    if |parts| >= 2 then
      SplitFromPieces(url, 0, 1);
      Some(parts[1])
    else None
  }

  /** How the identifier reads inside a template string. */
  function IdText(id: Option<string>): string
  {
    match id
    case None => "undefined"
    case Some(v) => v
  }

  /** `${cwd}/build/${videoID}.wav`: where the downloaded audio is expected. The path
      reads as the directory, "/build/", the identifier's text and ".wav", in that order. */
  function WavPath(cwd: string, id: Option<string>): (r: string)
    ensures |r| == |cwd| + 7 + |IdText(id)| + 4
    ensures r[..|cwd|] == cwd && r[|cwd|..|cwd| + 7] == "/build/"
    ensures r[|cwd| + 7..|r| - 4] == IdText(id) && r[|r| - 4..] == ".wav"
  {
    cwd + "/build/" + IdText(id) + ".wav"
  }

  /** `${cwd}/build/${videoID}.mono.wav`: where the single-channel copy is written. The
      path reads as the directory, "/build/", the identifier's text and ".mono.wav". */
  function MonoWavPath(cwd: string, id: Option<string>): (r: string)
    ensures |r| == |cwd| + 7 + |IdText(id)| + 9
    ensures r[..|cwd|] == cwd && r[|cwd|..|cwd| + 7] == "/build/"
    ensures r[|cwd| + 7..|r| - 9] == IdText(id) && r[|r| - 9..] == ".mono.wav"
  {
    cwd + "/build/" + IdText(id) + ".mono.wav"
  }

  // ---------------------------------------------------------------------
  // Splitting
  // ---------------------------------------------------------------------

  /** Splitting and joining again gives back the URL: no character is lost or added. */
  lemma SplitJoin(s: string)
    ensures Join(Split(s)) == s
  {
    SplitFromJoin(s, 0);
  }

  lemma {:induction false} SplitFromJoin(s: string, from: nat)
    requires from <= |s|
    ensures Join(SplitFrom(s, from)) == s[from..]
    decreases |s| - from
  {
    match FindFrom(s, from)
    case None =>
    case Some(q) =>
      var rest := SplitFrom(s, q + |Marker|);
      SplitFromJoin(s, q + |Marker|);
      assert SplitFrom(s, from)[1..] == rest;
      calc {
        Join(SplitFrom(s, from));
        s[from..q] + Marker + Join(rest);
        s[from..q] + s[q..q + |Marker|] + s[q + |Marker|..];
        { assert s[from..q] + s[q..q + |Marker|] == s[from..q + |Marker|]; }
        s[from..q + |Marker|] + s[q + |Marker|..];
        s[from..];
      }
  }

  /** No piece of a split contains the separator. */
  lemma SplitPiecesMarkerFree(s: string)
    ensures forall i :: 0 <= i < |Split(s)| ==> MarkerFree(Split(s)[i])
  {
    forall i | 0 <= i < |Split(s)|
      ensures MarkerFree(Split(s)[i])
    {
      SplitFromPieces(s, 0, i);
    }
  }

  lemma {:induction false} SplitFromPieces(s: string, from: nat, i: nat)
    requires from <= |s| && i < |SplitFrom(s, from)|
    ensures MarkerFree(SplitFrom(s, from)[i])
    decreases |s| - from
  {
    match FindFrom(s, from)
    case None =>
      assert SplitFrom(s, from)[i] == s[from..|s|];
      SliceMarkerFree(s, from, |s|);
    case Some(q) =>
      if i == 0 {
        assert SplitFrom(s, from)[i] == s[from..q];
        SliceMarkerFree(s, from, q);
      } else {
        var rest := SplitFrom(s, q + |Marker|);
        assert SplitFrom(s, from) == [s[from..q]] + rest;
        SplitFromPieces(s, q + |Marker|, i - 1);
        assert SplitFrom(s, from)[i] == rest[i - 1];
      }
  }

  /** A slice of s holds no separator when no occurrence in s starts inside it. */
  lemma SliceMarkerFree(s: string, lo: nat, hi: nat)
    requires lo <= hi <= |s|
    requires forall p: nat :: lo <= p < hi ==> !OccursAt(s, p)
    ensures MarkerFree(s[lo..hi])
  {
    forall p: nat | p < hi - lo
      ensures !OccursAt(s[lo..hi], p)
    {
      if OccursAt(s[lo..hi], p) {
        NoOccurrenceInside(s, lo, hi, p);
      }
    }
  }

  /** An occurrence inside the slice s[lo..hi] is an occurrence in s, shifted by lo. */
  lemma NoOccurrenceInside(s: string, lo: nat, hi: nat, p: nat)
    requires lo <= hi <= |s|
    requires OccursAt(s[lo..hi], p)
    ensures OccursAt(s, lo + p) && lo + p + |Marker| <= hi
  {
    assert s[lo..hi][p..p + |Marker|] == s[lo + p..lo + p + |Marker|];
  }

  // ---------------------------------------------------------------------
  // The video identifier
  // ---------------------------------------------------------------------

  /** The identifier is absent exactly when the URL holds no "?v=". Otherwise it is
      the text that follows the first "?v=", up to the next "?v=" or the end of the
      URL, and holds no "?v=" itself. */
  lemma VideoIdIsBetweenMarkers(url: string)
    ensures VideoId(url).None? <==> MarkerFree(url)
    ensures VideoId(url).Some? ==>
      exists q: nat {:trigger OccursAt(url, q)} :: OccursAt(url, q) && (forall p: nat :: p < q ==> !OccursAt(url, p))
        && var id := VideoId(url).value; var e := q + |Marker| + |id|;
        && e <= |url|
        && url[q + |Marker|..e] == id
        && MarkerFree(id)
        && (e == |url| || OccursAt(url, e))
  {
    SplitPiecesMarkerFree(url);
    match FindFrom(url, 0)
    case None =>
    case Some(q) =>
      var b := q + |Marker|;
      assert Split(url) == [url[0..q]] + SplitFrom(url, b);
      assert VideoId(url).value == SplitFrom(url, b)[0];
      match FindFrom(url, b)
      case None =>
        assert VideoId(url).value == url[b..];
      case Some(q2) =>
        assert VideoId(url).value == url[b..q2];
  }

  // ---------------------------------------------------------------------
  // File paths
  // ---------------------------------------------------------------------

  /** The single-channel path is the audio path with ".wav" replaced by ".mono.wav",
      in the same directory. */
  lemma MonoPathBesideWavPath(cwd: string, id: Option<string>)
    ensures var w := WavPath(cwd, id);
      |w| >= 4 && w[|w| - 4..] == ".wav"
      && MonoWavPath(cwd, id) == w[..|w| - 4] + ".mono.wav"
  {
    var w := WavPath(cwd, id);
    var stem := cwd + "/build/" + IdText(id);
    assert w == stem + ".wav";
    assert w[..|w| - 4] == stem;
  }

  /** Two requests in the same directory share an audio file exactly when their
      identifiers read the same. */
  lemma WavPathInjective(cwd: string, a: Option<string>, b: Option<string>)
    ensures WavPath(cwd, a) == WavPath(cwd, b) <==> IdText(a) == IdText(b)
  {
    var pre := cwd + "/build/";
    if WavPath(cwd, a) == WavPath(cwd, b) {
      var wa, wb := WavPath(cwd, a), WavPath(cwd, b);
      assert wa == pre + IdText(a) + ".wav" && wb == pre + IdText(b) + ".wav";
      assert wa[|pre|..|wa| - 4] == IdText(a);
      assert wb[|pre|..|wb| - 4] == IdText(b);
    }
  }

  /** A URL without "?v=" uses the same files as a URL whose identifier is the text
      "undefined". */
  lemma MissingIdReadsUndefined(cwd: string, url: string)
    requires MarkerFree(url)
    ensures VideoId(url) == None
    ensures WavPath(cwd, VideoId(url)) == WavPath(cwd, Some("undefined"))
    ensures MonoWavPath(cwd, VideoId(url)) == MonoWavPath(cwd, Some("undefined"))
  {
    VideoIdIsBetweenMarkers(url);
  }
}
