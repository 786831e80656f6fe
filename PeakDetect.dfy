/** The per-axis peak detector run by the LSM6DS3 acquisition thread on every tick.

    Each accelerometer axis keeps the running maximum of its positive samples. A
    later positive sample that lies more than the threshold below that maximum
    reports a peak (the maximum itself) and resets the maximum to INT_MIN, so the
    next positive sample starts a new segment. Samples that are zero or negative
    are ignored. */
module PeakDetect {
  import opened Opt
  import opened CInt

  /** What one axis update leaves behind: the new running maximum and the peak
      reported on this tick, if any. */
  datatype AxisOutcome = AxisOutcome(max: int, peak: Option<int>)

  /** The values a running maximum takes once acquisition has been started:
      the reset value INT_MIN, or a positive sample. */
  predicate Tracking(max: int) {
    max == INT_MIN || max > 0
  }

  /** The detector's update of one axis with the sample `sample`, threshold `ths`. */
  function AxisStep(max: int, sample: int, ths: int): (r: AxisOutcome)
    // samples at or below zero are ignored
    ensures sample <= 0 ==> r == AxisOutcome(max, None)
    // a peak is reported exactly when a positive sample, not above the maximum,
    // falls more than the threshold below it
    ensures r.peak.Some? <==> 0 < sample <= max && sample + ths < max
    // the peak is the old maximum, and the maximum restarts from INT_MIN
    ensures r.peak.Some? ==> r.peak.value == max && r.max == INT_MIN
    // otherwise the maximum becomes the larger of itself and a positive sample
    ensures r.peak.None? && sample > 0 ==> r.max == if sample > max then sample else max
    ensures Tracking(max) ==> Tracking(r.max)
  {
    if sample > 0 then
      if sample > max then AxisOutcome(sample, None)
      else if sample + ths < max then AxisOutcome(INT_MIN, Some(max))
      else AxisOutcome(max, None)
    else
      AxisOutcome(max, None)
  }

  /** The state of one axis after a sequence of ticks: its running maximum and the
      peaks reported, in order. */
  datatype Trace = Trace(max: int, peaks: seq<int>)

  /** The detector run from the maximum `max0` over `samples`, one tick per sample. */
  function Run(max0: int, samples: seq<int>, ths: int): (t: Trace)
    decreases |samples|
  {
    if samples == [] then Trace(max0, [])
    else
      var t := Run(max0, samples[..|samples| - 1], ths);
      var o := AxisStep(t.max, samples[|samples| - 1], ths);
      Trace(o.max, t.peaks + if o.peak.Some? then [o.peak.value] else [])
  }

  /** Reference definition: the largest positive value in `samples`, or INT_MIN
      when none of them is positive. */
  function SegmentMax(samples: seq<int>): (m: int)
    ensures Tracking(m)
    ensures m != INT_MIN ==> m in samples
    ensures forall i :: 0 <= i < |samples| && samples[i] > 0 ==> samples[i] <= m
    ensures m == INT_MIN ==> forall i :: 0 <= i < |samples| ==> samples[i] <= 0
    decreases |samples|
  {
    if samples == [] then INT_MIN
    else
      var m := SegmentMax(samples[..|samples| - 1]);
      var x := samples[|samples| - 1];
      if x > 0 && x > m then x else m
  }

  /** Started from INT_MIN, the detector keeps every maximum in Tracking and
      every peak it reports is positive. */
  lemma {:induction false} RunKeepsTracking(max0: int, samples: seq<int>, ths: int)
    requires Tracking(max0)
    ensures Tracking(Run(max0, samples, ths).max)
    ensures forall k :: 0 <= k < |Run(max0, samples, ths).peaks| ==> Run(max0, samples, ths).peaks[k] > 0
    decreases |samples|
  {
    if samples != [] {
      RunKeepsTracking(max0, samples[..|samples| - 1], ths);
    }
  }

  /** Running over `xs` then `ys` is running over `xs` and continuing from the
      maximum it left, with the peaks of both parts in order. */
  lemma {:induction false} RunAppend(max0: int, xs: seq<int>, ys: seq<int>, ths: int)
    ensures Run(max0, xs + ys, ths)
         == Trace(Run(Run(max0, xs, ths).max, ys, ths).max,
                  Run(max0, xs, ths).peaks + Run(Run(max0, xs, ths).max, ys, ths).peaks)
    decreases |ys|
  {
    if ys == [] {
      assert xs + ys == xs;
    } else {
      var ys' := ys[..|ys| - 1];
      assert (xs + ys)[..|xs + ys| - 1] == xs + ys';
      assert (xs + ys)[|xs + ys| - 1] == ys[|ys| - 1];
      RunAppend(max0, xs, ys', ths);
    }
  }

  /** While no peak has been reported since a reset, the running maximum is the
      largest positive sample of the segment (INT_MIN if there was none). */
  lemma {:induction false} RunTracksSegmentMax(samples: seq<int>, ths: int)
    requires Run(INT_MIN, samples, ths).peaks == []
    ensures Run(INT_MIN, samples, ths).max == SegmentMax(samples)
    decreases |samples|
  {
    if samples != [] {
      var prefix := samples[..|samples| - 1];
      assert Run(INT_MIN, prefix, ths).peaks == [];
      RunTracksSegmentMax(prefix, ths);
    }
  }

  /** A peak reported at the end of a segment that began at a reset is the
      largest sample of that segment, it was one of the segment's samples, and
      the sample that triggered it lies more than the threshold below it. */
  lemma PeakIsSegmentMax(segment: seq<int>, x: int, ths: int)
    requires Run(INT_MIN, segment, ths).peaks == []
    requires AxisStep(Run(INT_MIN, segment, ths).max, x, ths).peak.Some?
    ensures Run(INT_MIN, segment + [x], ths).peaks == [SegmentMax(segment)]
    ensures SegmentMax(segment) in segment
    ensures forall i :: 0 <= i < |segment| ==> segment[i] <= SegmentMax(segment)
    ensures 0 < x && x + ths < SegmentMax(segment)
    ensures Run(INT_MIN, segment + [x], ths).max == INT_MIN
  {
    RunTracksSegmentMax(segment, ths);
    assert (segment + [x])[..|segment|] == segment;
  }
}
