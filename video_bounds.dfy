/** The step of process_video that fits the merged ranges to the video: each end is
    cut back to the video's duration, and ranges left empty or starting at or after
    the end are dropped. */
module VideoBounds {
  import opened Intervals
  import opened SpeechSegments
  import opened MergeProperties

  /** A range whose end passes the video's end is cut back to it. */
  function Clamp(r: Span, duration: real): (c: Span)
    ensures c.start == r.start && c.end == Min(r.end, duration)
  {
    if r.end > duration then Span(r.start, duration) else r
  }

  /** Whether the bounding loop keeps r: exactly when r is a proper range that starts
      before the video ends. */
  predicate Keeps(r: Span, duration: real)
    ensures Keeps(r, duration) <==> r.start < duration && r.start < r.end
  {
    r.start < duration && Clamp(r, duration).end > r.start
  }

  /** The kept ranges, clamped, in their original order. Each starts before the video
      ends and is a proper range that ends no later than the video. */
  function Bounded(rs: seq<Span>, duration: real): (b: seq<Span>)
    ensures |b| <= |rs|
    ensures forall k :: 0 <= k < |b| ==> b[k].start < duration && b[k].start < b[k].end <= duration
    decreases |rs|
  {
    if rs == [] then []
    else
      var init := Bounded(rs[..|rs| - 1], duration);
      var r := rs[|rs| - 1];
      if Keeps(r, duration) then init + [Clamp(r, duration)] else init
  }

  /** The positions, in rs, of the ranges the bounding loop keeps. */
  function KeptIndices(rs: seq<Span>, duration: real): seq<int>
    decreases |rs|
  {
    if rs == [] then []
    else
      var init := KeptIndices(rs[..|rs| - 1], duration);
      if Keeps(rs[|rs| - 1], duration) then init + [|rs| - 1] else init
  }

  /** The bounding loop as written. */
  method BoundRanges(ranges: seq<Span>, videoDuration: real) returns (bounded: seq<Span>)
    ensures bounded == Bounded(ranges, videoDuration)
  {
    bounded := [];
    for i := 0 to |ranges|
      invariant bounded == Bounded(ranges[..i], videoDuration)
    {
      assert ranges[..i + 1][..i] == ranges[..i];
      var start, end := ranges[i].start, ranges[i].end;
      if end > videoDuration {
        end := videoDuration;
      }
      if start < videoDuration && end > start {
        bounded := bounded + [Span(start, end)];
      }
    }
    assert ranges[..|ranges|] == ranges;
  }

  /** The bounded list is an order-preserving sublist of the merged list: it holds
      exactly the kept ranges, in their order, each with its start and with its end
      cut to the smaller of its end and the duration. */
  lemma {:induction false} BoundedSublist(rs: seq<Span>, duration: real)
    ensures |KeptIndices(rs, duration)| == |Bounded(rs, duration)|
    ensures forall k :: 0 <= k < |KeptIndices(rs, duration)| ==>
      0 <= KeptIndices(rs, duration)[k] < |rs| && Keeps(rs[KeptIndices(rs, duration)[k]], duration)
    ensures forall k, l :: 0 <= k < l < |KeptIndices(rs, duration)| ==>
      KeptIndices(rs, duration)[k] < KeptIndices(rs, duration)[l]
    ensures forall k :: 0 <= k < |KeptIndices(rs, duration)| ==>
      Bounded(rs, duration)[k] == Clamp(rs[KeptIndices(rs, duration)[k]], duration)
    ensures forall i :: 0 <= i < |rs| && Keeps(rs[i], duration) ==> i in KeptIndices(rs, duration)
  {
    if rs != [] {
      var n := |rs| - 1;
      var init := rs[..n];
      BoundedSublist(init, duration);
      var idx0 := KeptIndices(init, duration);
      var idx := KeptIndices(rs, duration);
      var b := Bounded(rs, duration);
      var kept := Keeps(rs[n], duration);
      assert idx == if kept then idx0 + [n] else idx0;
      assert b == if kept then Bounded(init, duration) + [Clamp(rs[n], duration)] else Bounded(init, duration);
      forall k | 0 <= k < |idx|
        ensures 0 <= idx[k] < |rs| && Keeps(rs[idx[k]], duration) && b[k] == Clamp(rs[idx[k]], duration)
      {
        if k < |idx0| {
          assert idx[k] == idx0[k] && init[idx0[k]] == rs[idx0[k]];
        }
      }
      forall i | 0 <= i < |rs| && Keeps(rs[i], duration) ensures i in idx {
        if i < n {
          assert init[i] == rs[i];
        }
      }
    }
  }

  /** Bounding proper ranges that are separated by more than the threshold leaves
      proper ranges that are still separated by more than the threshold: when a range
      is kept, the one before it ends before the video does and is kept unchanged. */
  lemma {:induction false} BoundedSeparated(rs: seq<Span>, threshold: int, duration: real)
    requires WellFormed(rs) && Separated(rs, threshold)
    ensures WellFormed(Bounded(rs, duration)) && Separated(Bounded(rs, duration), threshold)
  {
    if rs != [] {
      var n := |rs| - 1;
      var init := rs[..n];
      assert WellFormed(init) && Separated(init, threshold);
      BoundedSeparated(init, threshold, duration);
      var b0 := Bounded(init, duration);
      var b := Bounded(rs, duration);
      if Keeps(rs[n], duration) && n > 0 {
        assert init[n - 1] == rs[n - 1];
        assert Keeps(rs[n - 1], duration) && Clamp(rs[n - 1], duration) == rs[n - 1];
        assert b0[|b0| - 1] == rs[n - 1];
        assert b == b0 + [Clamp(rs[n], duration)];
      }
    }
  }

  /** A 7.5 s video: the second range is cut at 7.5 s and the third, starting after
      the end, is dropped. */
  lemma BoundingExample()
    ensures Bounded([Span(0.0, 2.5), Span(5.0, 8.0), Span(9.0, 10.0)], 7.5) == [Span(0.0, 2.5), Span(5.0, 7.5)]
  {
  }

  /** Bounding never moves a start, so a lower bound on the starts survives it. */
  lemma BoundedStartsFrom(rs: seq<Span>, duration: real, lo: real)
    requires forall k :: 0 <= k < |rs| ==> lo <= rs[k].start
    ensures forall k :: 0 <= k < |Bounded(rs, duration)| ==> lo <= Bounded(rs, duration)[k].start
  {
    BoundedSublist(rs, duration);
  }

  /** A range covered by one of the proper ranges in m, and starting before the video
      ends, is, cut to the video, covered by one of the bounded ranges. */
  lemma BoundedCovers(x: Span, m: seq<Span>, duration: real)
    requires WellFormed(m) && Covered(x, m) && x.start < duration
    ensures Covered(Clamp(x, duration), Bounded(m, duration))
  {
    BoundedSublist(m, duration);
    var idx := KeptIndices(m, duration);
    var k :| 0 <= k < |m| && Inside(x, m[k]);
    assert Keeps(m[k], duration);
    var l :| 0 <= l < |idx| && idx[l] == k;
    assert Inside(Clamp(x, duration), Bounded(m, duration)[l]);
  }

  /** End to end, for the detector's chunks: the ranges the video is cut to are proper,
      lie within [0, duration], are disjoint and separated by more than the threshold,
      and every padded chunk that starts before the video ends, cut to the video, lies
      inside one of them. */
  lemma KeepRangesGuarantees(chunks: seq<Chunk>, p: Params, duration: real)
    requires ValidChunks(chunks) && ValidParams(p)
    ensures var b := Bounded(Merge(Padded(chunks, p), Threshold(p)), duration);
      && WellFormed(b) && Disjoint(b) && Separated(b, Threshold(p))
      && (forall k :: 0 <= k < |b| ==> 0.0 <= b[k].start && b[k].end <= duration)
      && (forall i :: 0 <= i < |chunks| && Pad(chunks[i], p).start < duration ==>
            Covered(Clamp(Pad(chunks[i], p), duration), b))
  {
    var rs := Padded(chunks, p);
    var m := Merge(rs, Threshold(p));
    PaddedAscending(chunks, p);
    MergeGuarantees(rs, Threshold(p));
    BoundedSeparated(m, Threshold(p), duration);
    SeparatedDisjoint(Bounded(m, duration), Threshold(p));
    forall k | 0 <= k < |m| ensures 0.0 <= m[k].start {
      if k > 0 {
        assert m[0].end < m[k].start;
      }
    }
    BoundedStartsFrom(m, duration, 0.0);
    forall i | 0 <= i < |chunks| && Pad(chunks[i], p).start < duration
      ensures Covered(Clamp(Pad(chunks[i], p), duration), Bounded(m, duration))
    {
      assert Covered(rs[i], m);
      BoundedCovers(rs[i], m, duration);
    }
  }
}
