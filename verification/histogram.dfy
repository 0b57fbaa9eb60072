/**
 * The histogram builder (`histogram` in cpu.cpp) and the range sums over
 * bins that the equalizer, the Otsu scan and the isodata search all use.
 */
module Histograms {
  import opened Constants
  import opened Arithmetic

  /** Total count of bins lo..hi-1. */
  function RangeCount(h: seq<nat>, lo: int, hi: int): nat
    requires 0 <= lo <= hi <= |h|
    // Measured through h rather than as hi - lo, so that the verifier does not
    // unfold the recursion for literal arguments.
    decreases |h[lo..hi]|
  {
    if lo == hi then 0 else RangeCount(h, lo, hi - 1) + h[hi - 1]
  }

  /** Intensity-weighted count of bins lo..hi-1: sum of i * h[i]. */
  function RangeWeight(h: seq<nat>, lo: int, hi: int): nat
    requires 0 <= lo <= hi <= |h|
    // Measured through h rather than as hi - lo, so that the verifier does not
    // unfold the recursion for literal arguments.
    decreases |h[lo..hi]|
  {
    if lo == hi then 0 else RangeWeight(h, lo, hi - 1) + (hi - 1) * h[hi - 1]
  }

  /** Number of samples a histogram holds. */
  function Total(h: Bins): nat {
    RangeCount(h, 0, |h|)
  }

  /** Sum of the intensities of the samples a histogram holds. */
  function Weight(h: Bins): nat {
    RangeWeight(h, 0, |h|)
  }

  lemma {:induction false} RangeSplit(h: seq<nat>, lo: int, mid: int, hi: int)
    requires 0 <= lo <= mid <= hi <= |h|
    ensures RangeCount(h, lo, hi) == RangeCount(h, lo, mid) + RangeCount(h, mid, hi)
    ensures RangeWeight(h, lo, hi) == RangeWeight(h, lo, mid) + RangeWeight(h, mid, hi)
    decreases hi - mid
  {
    if hi != mid {
      RangeSplit(h, lo, mid, hi - 1);
    }
  }

  /** A range of bins counts at least as much as any bin in it. */
  lemma {:induction false} RangeCountCovers(h: seq<nat>, lo: int, k: int, hi: int)
    requires 0 <= lo <= k < hi <= |h|
    ensures RangeCount(h, lo, hi) >= h[k]
    ensures RangeCount(h, lo, hi) >= RangeCount(h, lo, k)
  {
    RangeSplit(h, lo, k, hi);
    RangeSplit(h, k, k + 1, hi);
  }

  /** A range counts nothing exactly when every bin in it is empty. */
  lemma {:induction false} RangeCountZero(h: seq<nat>, lo: int, hi: int)
    requires 0 <= lo <= hi <= |h|
    ensures RangeCount(h, lo, hi) == 0 <==> forall k :: lo <= k < hi ==> h[k] == 0
    decreases hi - lo
  {
    if lo != hi {
      RangeCountZero(h, lo, hi - 1);
    }
  }

  /**
   * The weighted count is the count scaled by an intensity between the
   * range's lowest and highest bin.
   */
  lemma RangeWeightBounds(h: seq<nat>, lo: int, hi: int)
    requires 0 <= lo < hi <= |h|
    ensures lo * RangeCount(h, lo, hi) <= RangeWeight(h, lo, hi) <= (hi - 1) * RangeCount(h, lo, hi)
  {
    RangeWeightAtLeast(h, lo, hi);
    RangeWeightAtMost(h, lo, hi);
  }

  lemma {:induction false} RangeWeightAtLeast(h: seq<nat>, lo: int, hi: int)
    requires 0 <= lo <= hi <= |h|
    ensures lo * RangeCount(h, lo, hi) <= RangeWeight(h, lo, hi)
    decreases hi - lo
  {
    if lo < hi {
      RangeWeightAtLeast(h, lo, hi - 1);
      var c, x := RangeCount(h, lo, hi - 1), h[hi - 1];
      MulMonotone(lo, hi - 1, x);
      MulDistributes(lo, c, x);
    }
  }

  lemma {:induction false} RangeWeightAtMost(h: seq<nat>, lo: int, hi: int)
    requires 0 <= lo < hi <= |h|
    ensures RangeWeight(h, lo, hi) <= (hi - 1) * RangeCount(h, lo, hi)
    decreases hi - lo
  {
    var c, w, x := RangeCount(h, lo, hi - 1), RangeWeight(h, lo, hi - 1), h[hi - 1];
    assert RangeCount(h, lo, hi) == c + x && RangeWeight(h, lo, hi) == w + (hi - 1) * x;
    if lo + 1 < hi {
      RangeWeightAtMost(h, lo, hi - 1);
      MulMonotone(hi - 2, hi - 1, c);
      assert w <= (hi - 1) * c;
    } else {
      assert c == 0 && w == 0;
    }
    MulDistributes(hi - 1, c, x);
  }

  /** Adding one to bin k adds one to every range that contains k. */
  lemma {:induction false} RangeCountIncrement(h: seq<nat>, k: int, lo: int, hi: int)
    requires 0 <= lo <= hi <= |h| && 0 <= k < |h|
    ensures RangeCount(h[k := h[k] + 1], lo, hi) == RangeCount(h, lo, hi) + (if lo <= k < hi then 1 else 0)
    decreases hi - lo
  {
    if lo != hi {
      RangeCountIncrement(h, k, lo, hi - 1);
    }
  }


  /**
   * `histogram`: zero all 256 bins, then add one to the bin of each sample,
   * in buffer order.
   */
  function Histogram(s: seq<Intensity>): Bins
  {
    if |s| == 0 then seq(256, _ => 0)
    else
      var prev := Histogram(s[..|s| - 1]);
      prev[s[|s| - 1] := prev[s[|s| - 1]] + 1]
  }

  /** Bin v of a histogram holds the number of samples equal to v. */
  lemma {:induction false} HistogramCounts(s: seq<Intensity>)
    ensures forall v :: 0 <= v < 256 ==> Histogram(s)[v] == multiset(s)[v]
  {
    if |s| > 0 {
      var init := s[..|s| - 1];
      assert s == init + [s[|s| - 1]];
      HistogramCounts(init);
    }
  }

  /** The bins of a histogram hold one count per sample. */
  lemma {:induction false} HistogramTotal(s: seq<Intensity>)
    ensures Total(Histogram(s)) == |s|
  {
    if |s| == 0 {
      EmptyTotal(Histogram(s));
    } else {
      var init, x := s[..|s| - 1], s[|s| - 1];
      var prev := Histogram(init);
      assert Histogram(s) == prev[x := prev[x] + 1];
      HistogramTotal(init);
      RangeCountIncrement(prev, x, 0, |prev|);
    }
  }

  lemma EmptyTotal(h: Bins)
    requires forall k :: 0 <= k < 256 ==> h[k] == 0
    ensures Total(h) == 0
  {
    RangeCountZero(h, 0, |h|);
  }

  /** Number of samples whose intensity is at most v, counted independently of any histogram. */
  function CountAtMost(s: seq<Intensity>, v: int): nat
  {
    if |s| == 0 then 0
    else CountAtMost(s[..|s| - 1], v) + (if s[|s| - 1] <= v then 1 else 0)
  }

  /** Bins 0..v of an image's histogram count exactly the samples no brighter than v. */
  lemma {:induction false} HistogramPrefix(s: seq<Intensity>, v: Intensity)
    ensures RangeCount(Histogram(s), 0, v + 1) == CountAtMost(s, v)
  {
    if |s| > 0 {
      var init := s[..|s| - 1];
      var x := s[|s| - 1];
      HistogramPrefix(init, v);
      RangeCountIncrement(Histogram(init), x, 0, v + 1);
      assert Histogram(s) == Histogram(init)[x := Histogram(init)[x] + 1];
      assert CountAtMost(s, v) == CountAtMost(init, v) + (if x <= v then 1 else 0);
    } else {
      RangeCountZero(Histogram(s), 0, v + 1);
    }
  }

  /** When no sample exceeds v, all samples are counted at or below v. */
  lemma {:induction false} CountAtMostAll(s: seq<Intensity>, v: int)
    requires forall p :: 0 <= p < |s| ==> s[p] <= v
    ensures CountAtMost(s, v) == |s|
  {
    if |s| > 0 {
      CountAtMostAll(s[..|s| - 1], v);
    }
  }
}
