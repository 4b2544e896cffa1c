/** The parameter presets the GUI offers, and what the merger does with them on small
    inputs. Default is also the default of detect_speech_segments and process_video.
    The silence level in dB that each preset also sets only reaches the detector. */
module Presets {
  import opened Intervals
  import opened SpeechSegments
  import opened MergeProperties

  const Default := Params(700, 300, 500)
  const Aggressive := Params(500, 200, 300)
  const Conservative := Params(1500, 400, 600)
  const Smooth := Params(1000, 500, 700)

  /** The residual-silence thresholds of the four presets: only Conservative's is positive. */
  lemma PresetThresholds()
    ensures Threshold(Default) == -100 && Threshold(Aggressive) == 0
    ensures Threshold(Conservative) == 500 && Threshold(Smooth) == -200
  {
  }

  /** Under Default, Aggressive and Smooth a gap between padded ranges always opens a
      new range; only overlapping padded ranges merge. */
  lemma NonPositivePresetsSplitEveryGap(cur: Span, r: Span)
    ensures Splits(cur, r, Threshold(Default)) <==> r.start > cur.end
    ensures Splits(cur, r, Threshold(Aggressive)) <==> r.start > cur.end
    ensures Splits(cur, r, Threshold(Smooth)) <==> r.start > cur.end
  {
    NonPositiveThresholdSplitsEveryGap(cur, r, Threshold(Default));
    NonPositiveThresholdSplitsEveryGap(cur, r, Threshold(Aggressive));
    NonPositiveThresholdSplitsEveryGap(cur, r, Threshold(Smooth));
  }

  /** The merge of two padded ranges: one step after the seed. */
  lemma MergeTwo(a: Span, b: Span, threshold: int)
    ensures Merge([a, b], threshold) == Flush(Step(State([], a), b, threshold))
  {
    assert [a, b][..1] == [a];
    assert Run([a], threshold) == State([], a);
  }

  /** The padding of two chunks. */
  lemma PaddedTwo(x: Chunk, y: Chunk, p: Params)
    ensures Padded([x, y], p) == [Pad(x, p), Pad(y, p)]
  {
  }

  /** One chunk (1000, 2000) ms under Default becomes the single range (0.7, 2.5) s. */
  lemma SingleChunkExample()
    ensures Merge(Padded([Chunk(1000, 2000)], Default), Threshold(Default)) == [Span(0.7, 2.5)]
  {
  }

  /** A chunk starting before the context length is padded back to 0, not below. */
  lemma ZeroClampExample()
    ensures Pad(Chunk(100, 500), Default) == Span(0.0, 1.0)
  {
  }

  /** Under Default, (0, 1000) and (1200, 2000) pad to (0, 1.5) and (0.9, 2.5), which
      overlap, so they merge into (0, 2.5). */
  lemma DefaultOverlapExample()
    ensures Merge(Padded([Chunk(0, 1000), Chunk(1200, 2000)], Default), Threshold(Default)) == [Span(0.0, 2.5)]
  {
    PaddedTwo(Chunk(0, 1000), Chunk(1200, 2000), Default);
    MergeTwo(Span(0.0, 1.5), Span(0.9, 2.5), Threshold(Default));
  }

  /** Under Aggressive (threshold 0) padded ranges that touch merge, and a padded gap
      of a single millisecond already splits. */
  lemma AggressiveZeroThresholdExample()
    ensures Merge(Padded([Chunk(0, 1000), Chunk(1500, 2000)], Aggressive), Threshold(Aggressive))
      == [Span(0.0, 2.3)]
    ensures Merge(Padded([Chunk(0, 1000), Chunk(1501, 2000)], Aggressive), Threshold(Aggressive))
      == [Span(0.0, 1.3), Span(1.301, 2.3)]
  {
    PaddedTwo(Chunk(0, 1000), Chunk(1500, 2000), Aggressive);
    MergeTwo(Span(0.0, 1.3), Span(1.3, 2.3), Threshold(Aggressive));
    PaddedTwo(Chunk(0, 1000), Chunk(1501, 2000), Aggressive);
    MergeTwo(Span(0.0, 1.3), Span(1.301, 2.3), Threshold(Aggressive));
  }

  /** Under Conservative (threshold 500) a padded gap of exactly 500 ms is bridged
      and one of 501 ms splits. */
  lemma ConservativeBridgeExample()
    ensures Merge(Padded([Chunk(0, 1000), Chunk(2500, 3000)], Conservative), Threshold(Conservative))
      == [Span(0.0, 3.6)]
    ensures Merge(Padded([Chunk(0, 1000), Chunk(2501, 3000)], Conservative), Threshold(Conservative))
      == [Span(0.0, 1.6), Span(2.101, 3.6)]
  {
    PaddedTwo(Chunk(0, 1000), Chunk(2500, 3000), Conservative);
    MergeTwo(Span(0.0, 1.6), Span(2.1, 3.6), Threshold(Conservative));
    PaddedTwo(Chunk(0, 1000), Chunk(2501, 3000), Conservative);
    MergeTwo(Span(0.0, 1.6), Span(2.101, 3.6), Threshold(Conservative));
  }

  /** Under Smooth (threshold -200) a padded gap of one millisecond splits. */
  lemma SmoothNegativeThresholdExample()
    ensures Merge(Padded([Chunk(0, 1000), Chunk(2201, 3000)], Smooth), Threshold(Smooth))
      == [Span(0.0, 1.7), Span(1.701, 3.7)]
  {
    PaddedTwo(Chunk(0, 1000), Chunk(2201, 3000), Smooth);
    MergeTwo(Span(0.0, 1.7), Span(1.701, 3.7), Threshold(Smooth));
  }
}
