/** What the merge pass of detect_speech_segments guarantees: how many ranges it emits,
    that no padded range is lost, that neighbours stay apart by more than the
    threshold, and exactly where a new range begins. */
module MergeProperties {
  import opened Intervals
  import opened SpeechSegments

  /** The first merged range starts where the first padded range starts. */
  lemma {:induction false} RunFirst(rs: seq<Span>, threshold: int)
    requires |rs| > 0
    ensures Flush(Run(rs, threshold))[0].start == rs[0].start
  {
    if |rs| > 1 {
      var init := rs[..|rs| - 1];
      RunFirst(init, threshold);
      var st := Run(init, threshold);
      if !Splits(st.current, rs[|rs| - 1], threshold) && st.emitted == [] {
        assert Flush(Run(rs, threshold))[0] == Run(rs, threshold).current;
      } else {
        assert Flush(Run(rs, threshold))[0] == Flush(st)[0];
      }
    }
  }

  /** On ascending padded ranges the accumulator ends where the last range read ends,
      and starts no later than that range starts. */
  lemma {:induction false} RunCurrent(rs: seq<Span>, threshold: int)
    requires |rs| > 0 && Ascending(rs)
    ensures Run(rs, threshold).current.end == rs[|rs| - 1].end
    ensures Run(rs, threshold).current.start <= rs[|rs| - 1].start
  {
    if |rs| > 1 {
      var init := rs[..|rs| - 1];
      assert Ascending(init);
      RunCurrent(init, threshold);
      assert init[|init| - 1] == rs[|rs| - 2];
    }
  }

  /** Ranges that are non-degenerate merge into ranges that are non-degenerate. */
  lemma {:induction false} RunWellFormed(rs: seq<Span>, threshold: int)
    requires |rs| > 0 && WellFormed(rs)
    ensures WellFormed(Flush(Run(rs, threshold)))
  {
    if |rs| > 1 {
      var init := rs[..|rs| - 1];
      assert WellFormed(init);
      RunWellFormed(init, threshold);
      var st := Run(init, threshold);
      assert Flush(st)[|st.emitted|] == st.current;
      assert WellFormed(st.emitted) by {
        forall k | 0 <= k < |st.emitted| ensures st.emitted[k].start < st.emitted[k].end {
          assert Flush(st)[k] == st.emitted[k];
        }
      }
    }
  }

  /** Whatever the input, neighbouring merged ranges are apart, and the gap between
      them in milliseconds exceeds the threshold. */
  lemma {:induction false} RunSeparated(rs: seq<Span>, threshold: int)
    requires |rs| > 0
    ensures Separated(Flush(Run(rs, threshold)), threshold)
  {
    if |rs| > 1 {
      var init := rs[..|rs| - 1];
      RunSeparated(init, threshold);
      var st := Run(init, threshold);
      var r := rs[|rs| - 1];
      var out := Flush(Run(rs, threshold));
      if Splits(st.current, r, threshold) {
        assert out == Flush(st) + [r];
      } else {
        forall k | 0 < k < |out|
          ensures out[k - 1].end < out[k].start && (out[k].start - out[k - 1].end) * 1000.0 > threshold as real
        {
          assert out[k - 1] == Flush(st)[k - 1];
          assert out[k].start == Flush(st)[k].start;
        }
      }
    }
  }

  /** On ascending padded ranges every padded range lies inside some merged range. */
  lemma {:induction false} RunCovers(rs: seq<Span>, threshold: int)
    requires |rs| > 0 && Ascending(rs)
    ensures forall j :: 0 <= j < |rs| ==> Covered(rs[j], Flush(Run(rs, threshold)))
  {
    if |rs| > 1 {
      var n := |rs| - 1;
      var init := rs[..n];
      assert Ascending(init);
      RunCovers(init, threshold);
      RunCurrent(init, threshold);
      var st := Run(init, threshold);
      var r := rs[n];
      var out := Flush(Run(rs, threshold));
      forall j | 0 <= j < |rs| ensures Covered(rs[j], out) {
        if Splits(st.current, r, threshold) {
          assert out == Flush(st) + [r];
          if j == n {
            assert Inside(rs[j], out[|out| - 1]);
          } else {
            assert init[j] == rs[j];
            var k :| 0 <= k < |Flush(st)| && Inside(init[j], Flush(st)[k]);
            assert out[k] == Flush(st)[k];
            assert Inside(rs[j], out[k]);
          }
        } else {
          var last := |st.emitted|;
          assert out[last] == Extend(st.current, r);
          if j == n {
            assert init[n - 1] == rs[n - 1];
            assert Inside(rs[j], out[last]);
          } else {
            assert init[j] == rs[j];
            var k :| 0 <= k < |Flush(st)| && Inside(init[j], Flush(st)[k]);
            if k < last {
              assert out[k] == Flush(st)[k];
            } else {
              assert Flush(st)[k] == st.current;
            }
            assert Inside(rs[j], out[k]);
          }
        }
      }
    } else {
      assert Flush(Run(rs, threshold))[0] == rs[0];
    }
  }

  /** What the merge pass guarantees on ascending padded ranges: non-degenerate,
      disjoint, separated by more than the threshold, covering every padded range,
      and spanning from the first padded start to the last padded end. */
  lemma MergeGuarantees(rs: seq<Span>, threshold: int)
    requires Ascending(rs)
    ensures var m := Merge(rs, threshold);
      && WellFormed(m) && Disjoint(m) && Separated(m, threshold)
      && (forall j :: 0 <= j < |rs| ==> Covered(rs[j], m))
      && (rs != [] ==> m[0].start == rs[0].start && m[|m| - 1].end == rs[|rs| - 1].end)
  {
    if rs != [] {
      RunWellFormed(rs, threshold);
      RunSeparated(rs, threshold);
      SeparatedDisjoint(Merge(rs, threshold), threshold);
      RunCovers(rs, threshold);
      RunFirst(rs, threshold);
      RunCurrent(rs, threshold);
    }
  }

  /** The detector's chunks, padded, are ascending. */
  lemma PaddedAscending(chunks: seq<Chunk>, p: Params)
    requires ValidChunks(chunks) && ValidParams(p)
    ensures |Padded(chunks, p)| == |chunks|
    ensures Ascending(Padded(chunks, p))
  {
  }

  /** Where a new merged range begins. After chunks[..i] the accumulator ends at the
      padded end of chunk i - 1, and chunk i opens a new range exactly when its raw
      gap to chunk i - 1 exceeds both the silence length and the total padding.
      A chunk whose padded start is clamped to zero never opens one. */
  lemma SplitDecision(chunks: seq<Chunk>, p: Params, i: int)
    requires ValidChunks(chunks) && ValidParams(p) && 0 < i < |chunks|
    ensures Run(Padded(chunks, p)[..i], Threshold(p)).current.end == Pad(chunks[i - 1], p).end
    ensures Splits(Run(Padded(chunks, p)[..i], Threshold(p)).current, Pad(chunks[i], p), Threshold(p))
      <==> chunks[i].start - chunks[i - 1].end > MaxMs(p.minSilenceLen, p.contextMs + p.pauseMs)
    ensures chunks[i].start <= p.contextMs ==>
      !Splits(Run(Padded(chunks, p)[..i], Threshold(p)).current, Pad(chunks[i], p), Threshold(p))
  {
    var rs := Padded(chunks, p);
    PaddedAscending(chunks, p);
    assert Ascending(rs[..i]);
    RunCurrent(rs[..i], Threshold(p));
    assert rs[..i][i - 1] == Pad(chunks[i - 1], p);
    assert chunks[i - 1].end <= chunks[i].start;
  }

  /** The number of neighbouring raw chunks whose gap exceeds bound. */
  function Gaps(chunks: seq<Chunk>, bound: int): nat
    decreases |chunks|
  {
    if |chunks| <= 1 then 0
    else
      var n := |chunks|;
      Gaps(chunks[..n - 1], bound) + (if chunks[n - 1].start - chunks[n - 2].end > bound then 1 else 0)
  }

  /** A larger bound counts no more gaps. */
  lemma {:induction false} GapsAntitone(chunks: seq<Chunk>, lo: int, hi: int)
    requires lo <= hi
    ensures Gaps(chunks, hi) <= Gaps(chunks, lo)
  {
    if |chunks| > 1 {
      GapsAntitone(chunks[..|chunks| - 1], lo, hi);
    }
  }

  /** Extending a prefix by one chunk counts its gap to the chunk before it. */
  lemma GapsPrefix(chunks: seq<Chunk>, bound: int, k: int)
    requires 1 < k <= |chunks|
    ensures Gaps(chunks[..k], bound)
      == Gaps(chunks[..k - 1], bound) + (if chunks[k - 1].start - chunks[k - 2].end > bound then 1 else 0)
  {
    assert chunks[..k][..k - 1] == chunks[..k - 1];
  }

  /** Reading chunk i closes a range exactly when its raw gap exceeds the bound. */
  lemma EmittedStep(chunks: seq<Chunk>, p: Params, i: int)
    requires ValidChunks(chunks) && ValidParams(p) && 0 < i < |chunks|
    ensures |Run(Padded(chunks, p)[..i + 1], Threshold(p)).emitted|
      == |Run(Padded(chunks, p)[..i], Threshold(p)).emitted|
         + (if chunks[i].start - chunks[i - 1].end > MaxMs(p.minSilenceLen, p.contextMs + p.pauseMs) then 1 else 0)
  {
    var rs := Padded(chunks, p);
    SplitDecision(chunks, p, i);
    assert rs[..i + 1][..i] == rs[..i];
    assert rs[..i + 1][i] == Pad(chunks[i], p);
  }

  /** After the first k of the detector's chunks the loop has closed one range per raw
      gap among them that exceeds both the silence length and the total padding. */
  lemma {:induction false} EmittedCount(chunks: seq<Chunk>, p: Params, k: int)
    requires ValidChunks(chunks) && ValidParams(p) && 0 < k <= |chunks|
    ensures |Run(Padded(chunks, p)[..k], Threshold(p)).emitted|
      == Gaps(chunks[..k], MaxMs(p.minSilenceLen, p.contextMs + p.pauseMs))
  {
    if k > 1 {
      EmittedCount(chunks, p, k - 1);
      EmittedStep(chunks, p, k - 1);
      GapsPrefix(chunks, MaxMs(p.minSilenceLen, p.contextMs + p.pauseMs), k);
    }
  }

  /** On the detector's chunks the merge emits one range plus one per raw gap that
      exceeds both the silence length and the total padding. */
  lemma MergedCount(chunks: seq<Chunk>, p: Params)
    requires ValidChunks(chunks) && ValidParams(p) && |chunks| > 0
    ensures |Merge(Padded(chunks, p), Threshold(p))|
      == 1 + Gaps(chunks, MaxMs(p.minSilenceLen, p.contextMs + p.pauseMs))
  {
    var n := |chunks|;
    EmittedCount(chunks, p, n);
    assert Padded(chunks, p)[..n] == Padded(chunks, p);
    assert chunks[..n] == chunks;
  }

  /** More context or more pause, at the same silence length, never yields more ranges. */
  lemma MorePaddingNeverMoreRanges(chunks: seq<Chunk>, p: Params, q: Params)
    requires ValidChunks(chunks) && ValidParams(p) && ValidParams(q)
    requires p.minSilenceLen == q.minSilenceLen && p.contextMs <= q.contextMs && p.pauseMs <= q.pauseMs
    ensures |Merge(Padded(chunks, q), Threshold(q))| <= |Merge(Padded(chunks, p), Threshold(p))|
  {
    if chunks != [] {
      MergedCount(chunks, p);
      MergedCount(chunks, q);
      GapsAntitone(chunks, MaxMs(p.minSilenceLen, p.contextMs + p.pauseMs),
                           MaxMs(q.minSilenceLen, q.contextMs + q.pauseMs));
    }
  }

  /** No detected speech is lost: every raw chunk, in seconds, lies inside some merged range. */
  lemma NoSpeechLost(chunks: seq<Chunk>, p: Params)
    requires ValidChunks(chunks) && ValidParams(p)
    ensures forall i :: 0 <= i < |chunks| ==>
      Covered(Span(Seconds(chunks[i].start), Seconds(chunks[i].end)), Merge(Padded(chunks, p), Threshold(p)))
  {
    var rs := Padded(chunks, p);
    var m := Merge(rs, Threshold(p));
    PaddedAscending(chunks, p);
    MergeGuarantees(rs, Threshold(p));
    forall i | 0 <= i < |chunks|
      ensures Covered(Span(Seconds(chunks[i].start), Seconds(chunks[i].end)), m)
    {
      assert Covered(rs[i], m);
      var k :| 0 <= k < |m| && Inside(rs[i], m[k]);
      assert Inside(Span(Seconds(chunks[i].start), Seconds(chunks[i].end)), m[k]);
    }
  }

  /** With a threshold of zero or below, every gap between padded ranges opens a new
      range: only overlapping padded ranges are merged. */
  lemma NonPositiveThresholdSplitsEveryGap(cur: Span, r: Span, threshold: int)
    requires threshold <= 0
    ensures Splits(cur, r, threshold) <==> r.start > cur.end
  {
  }

  /** The bridging branch runs: when the raw gap before chunk i is wider than the total
      padding but no wider than the silence length, the padded ranges do not overlap,
      yet chunk i does not open a new range; the accumulator keeps its start and takes
      chunk i's padded end. This needs a positive threshold. */
  lemma ShortGapBridged(chunks: seq<Chunk>, p: Params, i: int)
    requires ValidChunks(chunks) && ValidParams(p) && 0 < i < |chunks|
    requires p.contextMs + p.pauseMs < chunks[i].start - chunks[i - 1].end <= p.minSilenceLen
    ensures Threshold(p) > 0
    ensures Pad(chunks[i], p).start > Run(Padded(chunks, p)[..i], Threshold(p)).current.end
    ensures !Splits(Run(Padded(chunks, p)[..i], Threshold(p)).current, Pad(chunks[i], p), Threshold(p))
    ensures Run(Padded(chunks, p)[..i + 1], Threshold(p))
      == State(Run(Padded(chunks, p)[..i], Threshold(p)).emitted,
               Span(Run(Padded(chunks, p)[..i], Threshold(p)).current.start, Pad(chunks[i], p).end))
  {
    var rs := Padded(chunks, p);
    SplitDecision(chunks, p, i);
    assert rs[..i + 1][..i] == rs[..i];
    assert rs[..i + 1][i] == Pad(chunks[i], p);
  }
}
