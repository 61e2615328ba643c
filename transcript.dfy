/**
 * `transcribe_chunk`: what the server keeps of the speech recogniser's output,
 * and the `mm:ss` label a segment gets from its absolute start time.
 */
module Transcript {
  import opened Text
  import opened Protocol

  /** One segment as the recogniser returns it (times in milliseconds into the window). */
  datatype RawSegment = RawSegment(text: string, startMs: nat, endMs: nat)

  /** The recogniser's output for one file: its segments and the detected language. */
  datatype RawTranscript = RawTranscript(segments: seq<RawSegment>, language: string)

  /** A segment as `transcribe_chunk` returns it: `(text, start, end, lang)`. */
  datatype Segment = Segment(text: string, startMs: nat, endMs: nat, lang: Lang)

  /** `'ko' if info.language == 'ko' else 'en'`. */
  function DetectedLang(language: string): (l: Lang)
    ensures l == Ko <==> language == "ko"
  {
    if language == "ko" then Ko else En
  }

  /** `if text:` after `seg.text.strip()`: the text is not all whitespace. */
  predicate Keeps(s: RawSegment) {
    !Blank(s.text)
  }

  /** Keeping a segment is the same as its stripped text being non-empty. */
  lemma KeepsIffStripped(s: RawSegment)
    ensures Keeps(s) <==> Strip(s.text) != ""
  {
    StripEmptyIffBlank(s.text);
  }

  function Normalise(s: RawSegment, lang: Lang): Segment {
    Segment(Strip(s.text), s.startMs, s.endMs, lang)
  }

  /** The `for seg in segments` loop: keep the segments with text, stripped, in order. */
  function KeepSegments(segs: seq<RawSegment>, lang: Lang): (r: seq<Segment>)
    ensures |r| <= |segs|
    ensures forall k :: 0 <= k < |r| ==> r[k].text != "" && r[k].lang == lang
  {
    if segs == [] then []
    else
      var last := segs[|segs| - 1];
      KeepsIffStripped(last);
      KeepSegments(segs[..|segs| - 1], lang) + if Keeps(last) then [Normalise(last, lang)] else []
  }

  function TranscribeChunk(t: RawTranscript): (r: seq<Segment>)
    ensures |r| <= |t.segments|
    ensures forall k :: 0 <= k < |r| ==> r[k].text != "" && r[k].lang == DetectedLang(t.language)
  {
    KeepSegments(t.segments, DetectedLang(t.language))
  }

  /** The positions of the segments the loop keeps, in the order it meets them. */
  function KeptIndices(segs: seq<RawSegment>): seq<nat> {
    if segs == [] then []
    else KeptIndices(segs[..|segs| - 1]) + if Keeps(segs[|segs| - 1]) then [|segs| - 1] else []
  }

  /**
   * The kept positions are in range, increase, and are exactly the positions
   * whose text is not blank.
   */
  lemma {:induction false} KeptIndicesSpec(segs: seq<RawSegment>)
    ensures var idx := KeptIndices(segs);
      && (forall k :: 0 <= k < |idx| ==> idx[k] < |segs|)
      && (forall k, l :: 0 <= k < l < |idx| ==> idx[k] < idx[l])
      && (forall i :: 0 <= i < |segs| ==> (i in idx <==> Keeps(segs[i])))
  {
    if segs != [] {
      var n := |segs|;
      var init := segs[..n - 1];
      KeptIndicesSpec(init);
      var idx, idxI := KeptIndices(segs), KeptIndices(init);
      assert idx == idxI + if Keeps(segs[n - 1]) then [n - 1] else [];
      forall i | 0 <= i < n ensures i in idx <==> Keeps(segs[i]) {
        if i < n - 1 {
          assert init[i] == segs[i];
        }
      }
    }
  }

  /**
   * `transcribe_chunk` returns, in their original order, exactly the segments
   * whose stripped text is not empty, each stripped and tagged with the
   * window's language: the k-th result comes from the k-th kept position.
   */
  lemma {:induction false} KeepSegmentsSpec(segs: seq<RawSegment>, lang: Lang)
    ensures var r, idx := KeepSegments(segs, lang), KeptIndices(segs);
      && |idx| == |r|
      && (forall k :: 0 <= k < |idx| ==> idx[k] < |segs| && r[k] == Normalise(segs[idx[k]], lang))
  {
    if segs != [] {
      var n := |segs|;
      var init := segs[..n - 1];
      KeepSegmentsSpec(init, lang);
      var r, rI := KeepSegments(segs, lang), KeepSegments(init, lang);
      var idx, idxI := KeptIndices(segs), KeptIndices(init);
      assert idx == idxI + if Keeps(segs[n - 1]) then [n - 1] else [];
      assert r == rI + if Keeps(segs[n - 1]) then [Normalise(segs[n - 1], lang)] else [];
      forall k | 0 <= k < |idx|
        ensures r[k] == Normalise(segs[idx[k]], lang)
      {
        if k < |idxI| {
          assert idx[k] == idxI[k] && r[k] == rI[k];
          assert init[idxI[k]] == segs[idxI[k]];
        }
      }
    }
  }

  /** Every kept segment is tagged Korean exactly when the recogniser detected "ko". */
  lemma TranscribeChunkLanguage(t: RawTranscript)
    ensures forall k :: 0 <= k < |TranscribeChunk(t)| ==> (TranscribeChunk(t)[k].lang == Ko <==> t.language == "ko")
  {
  }

  /** PCM bytes per second at 16 kHz, 16-bit, mono. */
  const BytesPerSecond: nat := 16000 * 2

  /**
   * Whole seconds of `elapsed + start`, with the elapsed time held exactly as
   * the number of PCM bytes already consumed and the start in milliseconds.
   */
  function AbsoluteSeconds(elapsedBytes: nat, startMs: nat): nat {
    (elapsedBytes + 32 * startMs) / BytesPerSecond
  }

  /** `f'{int(t // 60):02d}:{int(t % 60):02d}'` for `t` whole seconds. */
  function Label(t: nat): (s: string)
    ensures |s| >= 5 && s[|s| - 3] == ':'
  {
    Pad2(t / 60) + ":" + Pad2(t % 60)
  }

  /** Reads a label back: minutes before the last `:`, two digits of seconds after it. */
  function ParseLabel(s: string): Options.Option<nat> {
    if |s| < 4 || s[|s| - 3] != ':' then Options.None
    else
      var mm, ss := s[..|s| - 3], s[|s| - 2..];
      if IsDigits(mm) && IsDigits(ss) && DecimalValue(ss) < 60 then Options.Some(60 * DecimalValue(mm) + DecimalValue(ss))
      else Options.None
  }

  /** A label is the minutes' digits, a colon, then exactly two digits of seconds. */
  lemma LabelParts(t: nat)
    ensures var s := Label(t);
      && |s| >= 5 && s[|s| - 3] == ':'
      && s[..|s| - 3] == Pad2(t / 60) && s[|s| - 2..] == Pad2(t % 60)
  {
    var s, m, sec := Label(t), Pad2(t / 60), Pad2(t % 60);
    assert s == m + ":" + sec;
    assert s[..|s| - 3] == m;
  }

  /** The label determines the time it was made from. */
  lemma LabelRoundTrip(t: nat)
    ensures ParseLabel(Label(t)) == Options.Some(t)
  {
    LabelParts(t);
    Pad2RoundTrip(t / 60);
    Pad2RoundTrip(t % 60);
    assert 60 * (t / 60) + t % 60 == t;
  }

  /**
   * `AbsoluteSeconds` is the whole seconds of `elapsed + start`: the time of
   * the segment start lies in `[t, t + 1)` seconds.
   */
  lemma AbsoluteSecondsFloor(elapsedBytes: nat, startMs: nat)
    ensures var t := AbsoluteSeconds(elapsedBytes, startMs);
      t * BytesPerSecond <= elapsedBytes + 32 * startMs < (t + 1) * BytesPerSecond
  {
  }

  /** Later in the stream never means an earlier absolute time. */
  lemma AbsoluteSecondsMonotone(e1: nat, s1: nat, e2: nat, s2: nat)
    requires e1 + 32 * s1 <= e2 + 32 * s2
    ensures AbsoluteSeconds(e1, s1) <= AbsoluteSeconds(e2, s2)
  {
  }

  /** A segment 5 s into a window that starts 100 s into the stream is labelled "01:45". */
  lemma LabelExample()
    ensures Label(AbsoluteSeconds(100 * BytesPerSecond, 5000)) == "01:45"
  {
    assert AbsoluteSeconds(100 * BytesPerSecond, 5000) == 105;
    assert Decimal(45) == Decimal(4) + ['5'];
  }

  /** A hundred minutes in, the minutes take three digits: `f'{100:02d}'` is "100". */
  lemma LabelHundredMinutes()
    ensures Label(6000) == "100:00"
  {
    assert Decimal(100) == Decimal(10) + ['0'];
    assert Decimal(10) == Decimal(1) + ['0'];
  }
}
