/** Time ranges shared by the speech-segment merger and the video bounding step.
    The detector reports whole milliseconds; the merger and the video layer work in
    seconds. Seconds are exact rationals here (ms / 1000), not floating point. */
module Intervals {

  /** A non-silent chunk as the silence detector reports it: [start, end) in milliseconds. */
  datatype Chunk = Chunk(start: int, end: int)

  /** A time range in seconds. */
  datatype Span = Span(start: real, end: real)

  function MaxMs(a: int, b: int): int { if a < b then b else a }

  function Max(a: real, b: real): real { if a < b then b else a }

  function Min(a: real, b: real): real { if a < b then a else b }

  /** Milliseconds to seconds, exactly. */
  function Seconds(ms: int): real { ms as real / 1000.0 }

  /** The detector's output: every chunk starts at or after 0 and is non-empty, and the
      chunks are sorted and do not overlap. */
  predicate ValidChunks(chunks: seq<Chunk>) {
    (forall i :: 0 <= i < |chunks| ==> 0 <= chunks[i].start < chunks[i].end) &&
    (forall i, j :: 0 <= i < j < |chunks| ==> chunks[i].end <= chunks[j].start)
  }

  /** Every range is non-degenerate. */
  predicate WellFormed(spans: seq<Span>) {
    forall i :: 0 <= i < |spans| ==> spans[i].start < spans[i].end
  }

  /** Non-degenerate ranges (this includes WellFormed) whose starts and whose ends are
      both non-decreasing. */
  predicate Ascending(spans: seq<Span>) {
    WellFormed(spans) &&
    forall i, j :: 0 <= i < j < |spans| ==> spans[i].start <= spans[j].start && spans[i].end <= spans[j].end
  }

  /** Neighbours are apart by a gap that, in milliseconds, exceeds the threshold. */
  predicate Separated(spans: seq<Span>, threshold: int) {
    forall k :: 0 < k < |spans| ==>
      spans[k - 1].end < spans[k].start && (spans[k].start - spans[k - 1].end) * 1000.0 > threshold as real
  }

  /** Every range ends strictly before any later range starts. */
  predicate Disjoint(spans: seq<Span>) {
    forall i, j :: 0 <= i < j < |spans| ==> spans[i].end < spans[j].start
  }

  predicate Inside(x: Span, y: Span) {
    y.start <= x.start && x.end <= y.end
  }

  predicate Covered(x: Span, spans: seq<Span>) {
    exists k :: 0 <= k < |spans| && Inside(x, spans[k])
  }

  /** Separation of neighbours in non-degenerate ranges makes the whole sequence disjoint. */
  lemma {:induction false} SeparatedDisjoint(spans: seq<Span>, threshold: int)
    requires WellFormed(spans) && Separated(spans, threshold)
    ensures Disjoint(spans)
  {
    if |spans| > 1 {
      var init := spans[..|spans| - 1];
      SeparatedDisjoint(init, threshold);
      var n := |spans| - 1;
      forall i, j | 0 <= i < j < |spans| ensures spans[i].end < spans[j].start {
        if j < n {
          assert init[i] == spans[i] && init[j] == spans[j];
        } else if i < n - 1 {
          assert init[i] == spans[i] && init[n - 1] == spans[n - 1];
        }
      }
    }
  }
}
