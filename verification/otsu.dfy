/**
 * Global binarization by Otsu's method (`otsu` in cpu.cpp): a scan over the
 * 256 bins that keeps the split with the largest between-class variance,
 * then a per-pixel comparison against the resulting threshold. Running sums,
 * means and variances are exact rationals here.
 */
module Otsu {
  import opened Constants
  import opened Histograms
  import opened Arithmetic

  /**
   * Bin i splits the histogram when both the background (bins 0..i) and
   * the foreground (bins i+1..255) hold at least one sample.
   */
  predicate Splits(h: Bins, i: int)
    requires 0 <= i < 256
  {
    0 < RangeCount(h, 0, i + 1) < Total(h)
  }

  /**
   * Between-class variance wB * wF * (mB - mF)^2 for background weight wB,
   * foreground weight wF, background weighted sum sumB and overall weighted
   * sum sum.
   */
  function BetweenClass(wB: int, wF: int, sumB: int, sum: int): real
    requires wB != 0 && wF != 0
  {
    var mB := sumB as real / wB as real;
    var mF := (sum - sumB) as real / wF as real;
    wB as real * wF as real * (mB - mF) * (mB - mF)
  }

  /** Between-class variance of the split after bin i. */
  function Variance(h: Bins, i: int): real
    requires 0 <= i < 256 && Splits(h, i)
  {
    var wB := RangeCount(h, 0, i + 1);
    BetweenClass(wB, Total(h) - wB, RangeWeight(h, 0, i + 1), Weight(h))
  }

  /**
   * The source's scan from bin i on, with its running state: background
   * weight wB, background weighted sum sumB, best variance so far and the
   * threshold recorded for it. Bins before the first occupied one are
   * skipped; the scan stops once the foreground is empty; a strictly larger
   * variance at bin i records threshold i + 1.
   */
  function OtsuScan(h: Bins, total: int, sum: int, i: int, wB: int, sumB: int, varMax: real, threshold: int): int
    requires 0 <= i <= 256
    decreases |h| - i
  {
    if i == 256 then threshold
    else
      var wB' := wB + h[i];
      if wB' == 0 then OtsuScan(h, total, sum, i + 1, wB', sumB, varMax, threshold)
      else
        var wF := total - wB';
        if wF == 0 then threshold
        else
          var sumB' := sumB + i * h[i];
          var between := BetweenClass(wB', wF, sumB', sum);
          if between > varMax then OtsuScan(h, total, sum, i + 1, wB', sumB', between, i + 1)
          else OtsuScan(h, total, sum, i + 1, wB', sumB', varMax, threshold)
  }

  /** The threshold `otsu` computes: total and weighted sum first, then the scan from zero state. */
  function OtsuThreshold(h: Bins): int {
    OtsuScan(h, Total(h), Weight(h), 0, 0, 0, 0.0, 0)
  }

  /**
   * Reference definition of the threshold: 0 when no split has a positive
   * variance; otherwise one past the first bin whose split has the largest
   * variance.
   */
  predicate IsOtsuThreshold(h: Bins, r: int) {
    && 0 <= r <= 255
    && (r == 0 ==> forall j :: 0 <= j < 256 && Splits(h, j) ==> Variance(h, j) <= 0.0)
    && (r != 0 ==>
          && Splits(h, r - 1)
          && Variance(h, r - 1) > 0.0
          && (forall j :: 0 <= j < 256 && Splits(h, j) ==> Variance(h, j) <= Variance(h, r - 1))
          && (forall j :: 0 <= j < r - 1 && Splits(h, j) ==> Variance(h, j) < Variance(h, r - 1)))
  }

  /** At most one threshold meets the reference definition. */
  lemma OtsuThresholdUnique(h: Bins, r1: int, r2: int)
    requires IsOtsuThreshold(h, r1) && IsOtsuThreshold(h, r2)
    ensures r1 == r2
  {
    if r1 != 0 && r2 != 0 {
      assert !(r1 - 1 < r2 - 1) && !(r2 - 1 < r1 - 1);
    }
  }

  /** The running sums the scan holds before bin i. */
  predicate SumsBefore(h: Bins, total: int, sum: int, i: int, wB: int, sumB: int)
    requires 0 <= i <= 256
  {
    && total == Total(h) && sum == Weight(h)
    && wB == RangeCount(h, 0, i) && sumB == RangeWeight(h, 0, i)
  }

  /**
   * The best split the scan holds before bin i: varMax bounds the variance
   * of every split before i, and a non-zero threshold marks the first split
   * reaching it.
   */
  predicate BestBefore(h: Bins, i: int, varMax: real, threshold: int)
    requires 0 <= i <= 256
  {
    && varMax >= 0.0
    && (forall j :: 0 <= j < i && Splits(h, j) ==> Variance(h, j) <= varMax)
    && (threshold == 0 ==> varMax == 0.0)
    && (threshold != 0 ==>
          && 1 <= threshold <= i
          && Splits(h, threshold - 1)
          && Variance(h, threshold - 1) == varMax
          && varMax > 0.0
          && (forall j :: 0 <= j < threshold - 1 && Splits(h, j) ==> Variance(h, j) < varMax))
  }

  /** A bin that does not split leaves the best split unchanged. */
  lemma BestPastNoSplit(h: Bins, i: int, varMax: real, threshold: int)
    requires 0 <= i < 256 && BestBefore(h, i, varMax, threshold) && !Splits(h, i)
    ensures BestBefore(h, i + 1, varMax, threshold)
  {
  }

  /** A split no better than the best so far leaves it unchanged. */
  lemma BestPastWeaker(h: Bins, i: int, varMax: real, threshold: int)
    requires 0 <= i < 256 && BestBefore(h, i, varMax, threshold)
    requires Splits(h, i) && Variance(h, i) <= varMax
    ensures BestBefore(h, i + 1, varMax, threshold)
  {
  }

  /** A strictly better split becomes the best, with threshold i + 1. */
  lemma BestPastStronger(h: Bins, i: int, varMax: real, threshold: int)
    requires 0 <= i < 256 && BestBefore(h, i, varMax, threshold)
    requires Splits(h, i) && Variance(h, i) > varMax
    ensures BestBefore(h, i + 1, Variance(h, i), i + 1)
  {
  }

  /** Once the background holds every sample, no later bin splits. */
  lemma NoSplitAfter(h: Bins, i: int)
    requires 0 <= i < 256 && RangeCount(h, 0, i + 1) == Total(h)
    ensures forall j :: i <= j < 256 ==> !Splits(h, j)
  {
    forall j | i < j < 256
      ensures !Splits(h, j)
    {
      RangeCountCovers(h, 0, i + 1, j + 1);
    }
  }

  /** The running sums after bin i. */
  lemma SumsStep(h: Bins, total: int, sum: int, i: int, wB: int, sumB: int)
    requires 0 <= i < 256 && SumsBefore(h, total, sum, i, wB, sumB)
    ensures SumsBefore(h, total, sum, i + 1, wB + h[i], sumB + i * h[i])
    ensures wB + h[i] == 0 ==> SumsBefore(h, total, sum, i + 1, wB + h[i], sumB)
  {
    assert RangeWeight(h, 0, i + 1) == RangeWeight(h, 0, i) + i * h[i];
    if wB + h[i] == 0 {
      assert h[i] == 0;
      MulZero(i, h[i]);
    }
  }

  /** The scan's comparison at a bin with both classes occupied is against the split's variance. */
  lemma ScanVariance(h: Bins, total: int, sum: int, i: int, wB: int, sumB: int)
    requires 0 <= i < 256 && SumsBefore(h, total, sum, i, wB, sumB)
    requires wB + h[i] != 0 && total - (wB + h[i]) != 0
    ensures Splits(h, i)
    ensures BetweenClass(wB + h[i], total - (wB + h[i]), sumB + i * h[i], sum) == Variance(h, i)
  {
    SumsStep(h, total, sum, i, wB, sumB);
    ScanSplits(h, total, i + 1, wB + h[i]);
    VarianceArgs(h, i, wB + h[i], total - (wB + h[i]), sumB + i * h[i], sum);
  }

  /** Both classes occupied after bin i means bin i splits. */
  lemma ScanSplits(h: Bins, total: int, k: int, wB: int)
    requires 0 < k <= 256 && total == Total(h) && wB == RangeCount(h, 0, k)
    requires wB != 0 && total - wB != 0
    ensures Splits(h, k - 1)
  {
    if k < 256 {
      RangeCountCovers(h, 0, k, |h|);
    }
  }

  lemma VarianceArgs(h: Bins, i: int, wB: int, wF: int, sumB: int, sum: int)
    requires 0 <= i < 256 && Splits(h, i)
    requires wB == RangeCount(h, 0, i + 1) && wF == Total(h) - RangeCount(h, 0, i + 1)
    requires sumB == RangeWeight(h, 0, i + 1) && sum == Weight(h)
    ensures BetweenClass(wB, wF, sumB, sum) == Variance(h, i)
  {
  }

  /** When no bin from i on splits, the best split before i is the reference threshold. */
  lemma BestIsFinal(h: Bins, i: int, varMax: real, threshold: int)
    requires 0 <= i <= 256 && BestBefore(h, i, varMax, threshold)
    requires forall j :: i <= j < 256 ==> !Splits(h, j)
    ensures IsOtsuThreshold(h, threshold)
  {
  }

  /**
   * Reference scan over bins 0..k-1 without running sums: the largest
   * split variance met so far, and one past the first bin reaching it
   * (0.0 and 0 when no split has positive variance).
   */
  function BestSplit(h: Bins, k: int): (real, int)
    requires 0 <= k <= 256
    // Measured through h rather than as k, so that the verifier does not
    // unfold the recursion for literal arguments.
    decreases |h[..k]|
  {
    if k == 0 then (0.0, 0)
    else
      var (varMax, threshold) := BestSplit(h, k - 1);
      if Splits(h, k - 1) && Variance(h, k - 1) > varMax then (Variance(h, k - 1), k)
      else (varMax, threshold)
  }

  /** The reference scan holds the best split of the bins it has passed. */
  lemma {:induction false} BestSplitIsBest(h: Bins, k: int)
    requires 0 <= k <= 256
    ensures BestBefore(h, k, BestSplit(h, k).0, BestSplit(h, k).1)
  {
    if k > 0 {
      BestSplitIsBest(h, k - 1);
      var (varMax, threshold) := BestSplit(h, k - 1);
      if !Splits(h, k - 1) {
        BestPastNoSplit(h, k - 1, varMax, threshold);
      } else if Variance(h, k - 1) > varMax {
        BestPastStronger(h, k - 1, varMax, threshold);
      } else {
        BestPastWeaker(h, k - 1, varMax, threshold);
      }
    }
  }

  /** Bins that do not split leave the reference scan where it was. */
  lemma {:induction false} BestSplitStable(h: Bins, i: int, k: int)
    requires 0 <= i <= k <= 256
    requires forall j :: i <= j < k ==> !Splits(h, j)
    ensures BestSplit(h, k) == BestSplit(h, i)
    decreases k
  {
    if i < k {
      BestSplitStable(h, i, k - 1);
    }
  }

  /** An empty bin before the first occupied one is skipped. */
  lemma ScanSkip(h: Bins, total: int, sum: int, i: int, wB: int, sumB: int, varMax: real, threshold: int)
    requires 0 <= i < 256 && wB + h[i] == 0
    ensures OtsuScan(h, total, sum, i, wB, sumB, varMax, threshold) ==
            OtsuScan(h, total, sum, i + 1, wB + h[i], sumB, varMax, threshold)
  {
  }

  /** The scan stops once the background holds every sample. */
  lemma ScanStop(h: Bins, total: int, sum: int, i: int, wB: int, sumB: int, varMax: real, threshold: int)
    requires 0 <= i < 256 && wB + h[i] != 0 && total - (wB + h[i]) == 0
    ensures OtsuScan(h, total, sum, i, wB, sumB, varMax, threshold) == threshold
  {
  }

  /** At a bin with both classes occupied the scan keeps the larger of varMax and the bin's variance v. */
  lemma ScanCompare(h: Bins, total: int, sum: int, i: int, wB: int, sumB: int, varMax: real, threshold: int, v: real)
    requires 0 <= i < 256 && wB + h[i] != 0 && total - (wB + h[i]) != 0
    requires v == BetweenClass(wB + h[i], total - (wB + h[i]), sumB + i * h[i], sum)
    ensures v > varMax ==> OtsuScan(h, total, sum, i, wB, sumB, varMax, threshold) ==
                           OtsuScan(h, total, sum, i + 1, wB + h[i], sumB + i * h[i], v, i + 1)
    ensures v <= varMax ==> OtsuScan(h, total, sum, i, wB, sumB, varMax, threshold) ==
                            OtsuScan(h, total, sum, i + 1, wB + h[i], sumB + i * h[i], varMax, threshold)
  {
  }

  /**
   * The source's scan, with its running sums, from bin i on ends with the
   * threshold of the reference scan over all 256 bins, provided it starts
   * from the reference scan's state at bin i.
   */
  lemma {:induction false} OtsuScanMeetsBest(h: Bins, total: int, sum: int, i: int, wB: int, sumB: int, varMax: real, threshold: int)
    requires 0 <= i <= 256
    requires SumsBefore(h, total, sum, i, wB, sumB) && (varMax, threshold) == BestSplit(h, i)
    ensures OtsuScan(h, total, sum, i, wB, sumB, varMax, threshold) == BestSplit(h, 256).1
    decreases 256 - i
  {
    if i < 256 {
      SumsStep(h, total, sum, i, wB, sumB);
      if wB + h[i] == 0 {
        ScanSkip(h, total, sum, i, wB, sumB, varMax, threshold);
        OtsuScanMeetsBest(h, total, sum, i + 1, wB + h[i], sumB, varMax, threshold);
      } else if total - (wB + h[i]) == 0 {
        ScanStop(h, total, sum, i, wB, sumB, varMax, threshold);
        NoSplitAfter(h, i);
        BestSplitStable(h, i, 256);
      } else {
        ScanVariance(h, total, sum, i, wB, sumB);
        var v := Variance(h, i);
        ScanCompare(h, total, sum, i, wB, sumB, varMax, threshold, v);
        if v > varMax {
          OtsuScanMeetsBest(h, total, sum, i + 1, wB + h[i], sumB + i * h[i], v, i + 1);
        } else {
          OtsuScanMeetsBest(h, total, sum, i + 1, wB + h[i], sumB + i * h[i], varMax, threshold);
        }
      }
    }
  }

  /** The source's scan computes the reference threshold; in particular it lies in 0..255. */
  lemma OtsuThresholdCorrect(h: Bins)
    ensures IsOtsuThreshold(h, OtsuThreshold(h))
    ensures 0 <= OtsuThreshold(h) <= 255
  {
    OtsuScanMeetsBest(h, Total(h), Weight(h), 0, 0, 0, 0.0, 0);
    BestSplitIsBest(h, 256);
    BestIsFinal(h, 256, BestSplit(h, 256).0, BestSplit(h, 256).1);
  }

  lemma RealMul(a: int, b: int)
    ensures (a * b) as real == a as real * b as real
  {
  }

  lemma MeanAtMost(sum: real, w: real, m: real)
    requires w > 0.0 && sum <= m * w
    ensures sum / w <= m
  {
    assert sum / w * w == sum;
  }

  lemma MeanAtLeast(sum: real, w: real, m: real)
    requires w > 0.0 && sum >= m * w
    ensures sum / w >= m
  {
    assert sum / w * w == sum;
  }

  /** Class means of integer weighted sums lying within the classes' intensity ranges. */
  lemma ClassMeans(sumB: int, wB: int, sumF: int, wF: int, i: int)
    requires wB > 0 && wF > 0
    requires sumB <= i * wB && sumF >= (i + 1) * wF
    ensures sumB as real / wB as real <= i as real
    ensures sumF as real / wF as real >= (i + 1) as real
  {
    RealMul(i, wB);
    RealMul(i + 1, wF);
    MeanAtMost(sumB as real, wB as real, i as real);
    MeanAtLeast(sumF as real, wF as real, (i + 1) as real);
  }

  /** The variance is positive when the class means lie at least 1 apart. */
  lemma BetweenClassPositive(wB: int, wF: int, sumB: int, sum: int)
    requires wB > 0 && wF > 0
    requires sumB as real / wB as real + 1.0 <= (sum - sumB) as real / wF as real
    ensures BetweenClass(wB, wF, sumB, sum) > 0.0
  {
    var d := sumB as real / wB as real - (sum - sumB) as real / wF as real;
    assert d <= -1.0;
    assert d * d >= 1.0;
    var w := wB as real * wF as real;
    assert w >= 1.0;
    assert w * d * d == w * (d * d);
  }

  /**
   * Classes whose intensities lie at or below i and above i respectively
   * have a positive between-class variance.
   */
  lemma SeparatedClassesPositive(wB: int, wF: int, sumB: int, sum: int, i: int)
    requires wB > 0 && wF > 0
    requires sumB <= i * wB && sum - sumB >= (i + 1) * wF
    ensures BetweenClass(wB, wF, sumB, sum) > 0.0
  {
    ClassMeans(sumB, wB, sum - sumB, wF, i);
    BetweenClassPositive(wB, wF, sumB, sum);
  }

  /**
   * Every split has a positive variance: the background mean is at most i
   * and the foreground mean at least i + 1.
   */
  lemma VariancePositive(h: Bins, i: int)
    requires 0 <= i < 256 && Splits(h, i)
    ensures Variance(h, i) > 0.0
  {
    var wB, sumB := RangeCount(h, 0, i + 1), RangeWeight(h, 0, i + 1);
    RangeSplit(h, 0, i + 1, |h|);
    RangeWeightAtMost(h, 0, i + 1);
    RangeWeightAtLeast(h, i + 1, |h|);
    SeparatedClassesPositive(wB, Total(h) - wB, sumB, Weight(h), i);
  }

  /** The threshold stays 0 exactly when no bin splits the histogram. */
  lemma OtsuThresholdZeroIff(h: Bins)
    ensures OtsuThreshold(h) == 0 <==> forall j :: 0 <= j < 256 ==> !Splits(h, j)
  {
    OtsuThresholdCorrect(h);
    forall j | 0 <= j < 256 && Splits(h, j)
      ensures Variance(h, j) > 0.0
    {
      VariancePositive(h, j);
    }
  }

  /** A histogram with a single occupied bin has no split. */
  lemma SingleBinNoSplit(h: Bins, v: Intensity)
    requires forall u :: 0 <= u < 256 && u != v ==> h[u] == 0
    ensures forall j :: 0 <= j < 256 ==> !Splits(h, j)
  {
    forall j | 0 <= j < 256
      ensures !Splits(h, j)
    {
      if j < v {
        RangeCountZero(h, 0, j + 1);
      } else {
        RangeSplit(h, 0, j + 1, |h|);
        RangeCountZero(h, j + 1, |h|);
      }
    }
  }

  /**
   * `otsu`'s output: a pixel becomes 255 when it is brighter than the
   * threshold and 0 otherwise, so the output is two-valued and preserves
   * the order of intensities.
   */
  function Otsu(img: seq<Intensity>, h: Bins): (r: seq<Intensity>)
    ensures |r| == |img|
    ensures forall p :: 0 <= p < |img| ==> r[p] == MinBrightness || r[p] == MaxBrightness
    ensures forall p :: 0 <= p < |img| ==> (r[p] == MaxBrightness <==> img[p] > OtsuThreshold(h))
    ensures forall p, q :: 0 <= p < |img| && 0 <= q < |img| && img[p] <= img[q] ==> r[p] <= r[q]
  {
    var t := OtsuThreshold(h);
    seq(|img|, p requires 0 <= p < |img| => Binarize(img[p], t))
  }

  /**
   * `otsu` binarizes against the reference threshold: a pixel becomes 255
   * exactly when it is brighter than the one value meeting the definition
   * of Otsu's threshold, and 0 otherwise.
   */
  lemma OtsuBinarizes(img: seq<Intensity>, h: Bins)
    ensures exists t :: IsOtsuThreshold(h, t) &&
              forall p :: 0 <= p < |img| ==> (Otsu(img, h)[p] == MaxBrightness <==> img[p] > t)
  {
    OtsuThresholdCorrect(h);
    var t := OtsuThreshold(h);
    assert IsOtsuThreshold(h, t);
  }

  /**
   * An image of a single intensity v keeps the threshold at 0: it comes out
   * all 255 when v is positive and all 0 when v is 0.
   */
  lemma OtsuUniformImage(img: seq<Intensity>, v: Intensity)
    requires forall p :: 0 <= p < |img| ==> img[p] == v
    ensures OtsuThreshold(Histogram(img)) == 0
    ensures forall p :: 0 <= p < |img| ==> Otsu(img, Histogram(img))[p] == (if v > 0 then 255 else 0)
  {
    var h := Histogram(img);
    HistogramCounts(img);
    forall u | 0 <= u < 256 && u != v
      ensures h[u] == 0
    {
      assert u !in img;
    }
    SingleBinNoSplit(h, v);
    OtsuThresholdZeroIff(h);
  }

  /**
   * A histogram occupying exactly the two adjacent bins a and a + 1 has
   * its only split after bin a, so the threshold is a + 1.
   */
  lemma TwoAdjacentBins(h: Bins, a: int)
    requires 0 <= a < 255 && h[a] > 0 && h[a + 1] > 0
    requires forall u :: 0 <= u < 256 && u != a && u != a + 1 ==> h[u] == 0
    ensures OtsuThreshold(h) == a + 1
  {
    RangeSplit(h, 0, a + 1, |h|);
    RangeCountCovers(h, 0, a, a + 1);
    RangeCountCovers(h, a + 1, a + 1, |h|);
    assert Splits(h, a);
    OtsuThresholdZeroIff(h);
    OtsuThresholdCorrect(h);
    var r := OtsuThreshold(h);
    assert Splits(h, r - 1);
    RangeCountZero(h, 0, r);
    var k :| 0 <= k < r && h[k] > 0;
    RangeSplit(h, 0, r, |h|);
    RangeCountZero(h, r, |h|);
    var k2 :| r <= k2 < 256 && h[k2] > 0;
  }

  /**
   * An image holding two adjacent intensities a and a + 1 comes out all 0:
   * the scan records threshold a + 1, and a pixel equal to the threshold
   * counts as background.
   */
  lemma OtsuTwoAdjacentLevels(img: seq<Intensity>, a: int, p0: int, p1: int)
    requires 0 <= a < 255
    requires forall p :: 0 <= p < |img| ==> img[p] == a || img[p] == a + 1
    requires 0 <= p0 < |img| && img[p0] == a
    requires 0 <= p1 < |img| && img[p1] == a + 1
    ensures OtsuThreshold(Histogram(img)) == a + 1
    ensures forall p :: 0 <= p < |img| ==> Otsu(img, Histogram(img))[p] == 0
  {
    var h := Histogram(img);
    HistogramCounts(img);
    forall u | 0 <= u < 256 && u != a && u != a + 1
      ensures h[u] == 0
    {
      assert u !in img;
    }
    assert img[p0] in multiset(img) && img[p1] in multiset(img);
    TwoAdjacentBins(h, a);
  }
}
