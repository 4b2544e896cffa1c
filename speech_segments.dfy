/** detect_speech_segments: pad each non-silent chunk with context before it and a pause
    after it, then merge the padded ranges in one left-to-right pass. */
module SpeechSegments {
  import opened Intervals

  /** The merger's knobs, in milliseconds. */
  datatype Params = Params(minSilenceLen: int, contextMs: int, pauseMs: int)

  predicate ValidParams(p: Params) {
    p.minSilenceLen >= 0 && p.contextMs >= 0 && p.pauseMs >= 0
  }

  /** The silence, in ms, left between two padded ranges that a gap must exceed to
      be kept out: the configured silence length less the padding on both sides.
      It may be zero or negative: it is positive exactly when the silence length
      exceeds the total padding, and never exceeds the silence length. */
  function Threshold(p: Params): (t: int)
    ensures t > 0 <==> p.minSilenceLen > p.contextMs + p.pauseMs
    ensures ValidParams(p) ==> t <= p.minSilenceLen
  {
    p.minSilenceLen - p.pauseMs - p.contextMs
  }

  /** One chunk padded and converted to seconds. The padded range starts at or after 0,
      contains the raw chunk, and is non-degenerate whenever the chunk is. */
  function Pad(c: Chunk, p: Params): (r: Span)
    ensures r.start >= 0.0
    ensures ValidParams(p) && 0 <= c.start ==> r.start <= Seconds(c.start) && Seconds(c.end) <= r.end
    ensures ValidParams(p) && 0 <= c.start < c.end ==> r.start < r.end
  {
    Span(Seconds(MaxMs(0, c.start - p.contextMs)), Seconds(c.end + p.pauseMs))
  }

  /** Every chunk padded, in order: one range per chunk, none starting before 0, each
      containing its chunk. */
  function Padded(chunks: seq<Chunk>, p: Params): (rs: seq<Span>)
    ensures |rs| == |chunks|
    ensures forall i :: 0 <= i < |rs| ==> rs[i].start >= 0.0
    ensures ValidParams(p) ==> forall i :: 0 <= i < |rs| && 0 <= chunks[i].start ==>
      rs[i].start <= Seconds(chunks[i].start) && Seconds(chunks[i].end) <= rs[i].end
  {
    seq(|chunks|, i requires 0 <= i < |chunks| => Pad(chunks[i], p))
  }

  /** The merge loop's variables: the ranges appended to the output so far and the
      accumulator (current_start, current_end). */
  datatype State = State(emitted: seq<Span>, current: Span)

  /** Whether the padded range r closes the accumulator cur and opens a new one: the
      gap in ms must exceed both zero (no overlap) and the threshold. */
  predicate Splits(cur: Span, r: Span, threshold: int)
    ensures Splits(cur, r, threshold) <==> (r.start - cur.end) * 1000.0 > MaxMs(0, threshold) as real
  {
    r.start > cur.end && (r.start - cur.end) * 1000.0 > threshold as real
  }

  /** The accumulator after absorbing r without a split. Both ways of absorbing
      (an overlap takes the larger end, a bridged gap takes r's end) give the same
      range when r is a proper range: the start stays and the end becomes the larger one. */
  function Extend(cur: Span, r: Span): (e: Span)
    ensures e.start == cur.start
    ensures e.end >= r.end
    ensures r.start <= r.end ==> e.end == Max(cur.end, r.end)
  {
    if r.start <= cur.end then Span(cur.start, Max(cur.end, r.end)) else Span(cur.start, r.end)
  }

  /** One iteration of the merge loop. Without a split nothing is emitted and the
      accumulator keeps its start; in every case its end never decreases. */
  function Step(st: State, r: Span, threshold: int): (s: State)
    ensures !Splits(st.current, r, threshold) ==> s.emitted == st.emitted && s.current.start == st.current.start
    ensures r.start <= r.end ==> s.current.end >= st.current.end
  {
    if Splits(st.current, r, threshold) then State(st.emitted + [st.current], r)
    else State(st.emitted, Extend(st.current, r))
  }

  /** The loop state after the padded ranges in rs, seeded from the first of them.
      Fewer ranges have been emitted than were read. */
  function Run(rs: seq<Span>, threshold: int): (s: State)
    requires |rs| > 0
    ensures |s.emitted| < |rs|
    decreases |rs|
  {
    if |rs| == 1 then State([], rs[0])
    else Step(Run(rs[..|rs| - 1], threshold), rs[|rs| - 1], threshold)
  }

  /** The final accumulator is always emitted, after everything emitted before it. */
  function Flush(st: State): (out: seq<Span>)
    ensures |out| == |st.emitted| + 1 && out[|out| - 1] == st.current
    ensures out[..|st.emitted|] == st.emitted
  {
    st.emitted + [st.current]
  }

  /** The merged ranges for the padded ranges rs: none for no input, otherwise at least
      one and at most one per padded range. */
  function Merge(rs: seq<Span>, threshold: int): (m: seq<Span>)
    ensures m == [] <==> rs == []
    ensures |m| <= |rs|
  {
    if rs == [] then [] else Flush(Run(rs, threshold))
  }

  /** The padding loop and the merge loop as written. */
  method DetectSpeechSegments(chunks: seq<Chunk>, p: Params) returns (merged: seq<Span>)
    ensures merged == Merge(Padded(chunks, p), Threshold(p))
    ensures merged == [] <==> chunks == []
  {
    var nonSilent: seq<Span> := [];
    for i := 0 to |chunks|
      invariant |nonSilent| == i
      invariant forall k :: 0 <= k < i ==> nonSilent[k] == Pad(chunks[k], p)
    {
      var contextStart := MaxMs(0, chunks[i].start - p.contextMs);
      var extendedEnd := chunks[i].end + p.pauseMs;
      nonSilent := nonSilent + [Span(Seconds(contextStart), Seconds(extendedEnd))];
    }
    assert nonSilent == Padded(chunks, p);

    var threshold := Threshold(p);
    merged := [];
    if |nonSilent| > 0 {
      var currentStart, currentEnd := nonSilent[0].start, nonSilent[0].end;
      for i := 1 to |nonSilent|
        invariant State(merged, Span(currentStart, currentEnd)) == Run(nonSilent[..i], threshold)
      {
        assert nonSilent[..i + 1][..i] == nonSilent[..i];
        var start, end := nonSilent[i].start, nonSilent[i].end;
        if start <= currentEnd {
          currentEnd := Max(currentEnd, end);
        } else {
          if (start - currentEnd) * 1000.0 > threshold as real {
            merged := merged + [Span(currentStart, currentEnd)];
            currentStart, currentEnd := start, end;
          } else {
            currentEnd := end;
          }
        }
      }
      assert nonSilent[..|nonSilent|] == nonSilent;
      merged := merged + [Span(currentStart, currentEnd)];
    }
  }
}
