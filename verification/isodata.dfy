/**
 * The isodata threshold search of the adaptive segmenter (cpu.cpp, the
 * iteration loop of `segmentation`): split a local histogram at the current
 * threshold, average the integer means of the two halves, and repeat until
 * the threshold moves by less than 3 or 15 rounds have run.
 */
module Isodata {
  import opened Constants
  import opened Histograms
  import opened Arithmetic

  /**
   * One pass of the source's bin loop from bin i on, with its running count,
   * running weighted sum and the lower mean. Bins up to the threshold
   * accumulate into the lower half; at the threshold bin the lower mean is
   * taken (the threshold itself when that half is empty) and the sums
   * restart; later bins accumulate into the upper half. The result is the
   * final count, sum and lower mean.
   */
  function BinScan(h: Bins, th: int, i: int, count: int, sum: int, mean1: int): (int, int, int)
    requires 0 <= i <= 256
    decreases |h| - i
  {
    if i == 256 then (count, sum, mean1)
    else if i <= th then
      var c, s := count + h[i], sum + h[i] * i;
      if i == th then BinScan(h, th, i + 1, 0, 0, if c == 0 then th else s / c)
      else BinScan(h, th, i + 1, c, s, mean1)
    else BinScan(h, th, i + 1, count + h[i], sum + h[i] * i, mean1)
  }

  /** Integer mean of bins 0..th, or th when they are empty. */
  function LowerMean(h: Bins, th: int): int
    requires 0 <= th < 256
  {
    var c := RangeCount(h, 0, th + 1);
    if c == 0 then th else RangeWeight(h, 0, th + 1) / c
  }

  /** Integer mean of bins th+1..255, or th when they are empty. */
  function UpperMean(h: Bins, th: int): int
    requires 0 <= th < 256
  {
    var c := RangeCount(h, th + 1, |h|);
    if c == 0 then th else RangeWeight(h, th + 1, |h|) / c
  }

  /** The next threshold: the integer average of the two halves' means. */
  function Step(h: Bins, th: int): int
    requires 0 <= th < 256
  {
    (LowerMean(h, th) + UpperMean(h, th)) / 2
  }

  lemma {:induction false} BinScanUpper(h: Bins, th: int, i: int, m: int)
    requires 0 <= th < i <= 256
    ensures BinScan(h, th, i, RangeCount(h, th + 1, i), RangeWeight(h, th + 1, i), m)
              == (RangeCount(h, th + 1, |h|), RangeWeight(h, th + 1, |h|), m)
    decreases 256 - i
  {
    if i < 256 {
      BinScanUpper(h, th, i + 1, m);
    }
  }

  lemma {:induction false} BinScanLower(h: Bins, th: int, i: int, m: int)
    requires 0 <= i <= th < 256
    ensures BinScan(h, th, i, RangeCount(h, 0, i), RangeWeight(h, 0, i), m)
              == (RangeCount(h, th + 1, |h|), RangeWeight(h, th + 1, |h|), LowerMean(h, th))
    decreases 256 - i
  {
    if i < th {
      BinScanLower(h, th, i + 1, m);
    } else {
      BinScanUpper(h, th, th + 1, LowerMean(h, th));
    }
  }

  /**
   * For a threshold in 0..255 the bin loop reaches the threshold bin, so the
   * lower mean it leaves does not depend on the one it started with, and
   * the count and sum it leaves are the upper half's.
   */
  lemma BinScanSplits(h: Bins, th: int, m: int)
    requires 0 <= th < 256
    ensures BinScan(h, th, 0, 0, 0, m) == (RangeCount(h, th + 1, |h|), RangeWeight(h, th + 1, |h|), LowerMean(h, th))
  {
    BinScanLower(h, th, 0, m);
  }

  /**
   * The lower mean lies in 0..th and is th when the lower half is empty;
   * the upper mean is th when the upper half is empty and lies in th+1..255
   * otherwise; so the next threshold stays in 0..255.
   */
  lemma MeanBounds(h: Bins, th: int)
    requires 0 <= th < 256
    ensures 0 <= LowerMean(h, th) <= th
    ensures RangeCount(h, 0, th + 1) == 0 ==> LowerMean(h, th) == th
    ensures RangeCount(h, th + 1, |h|) == 0 ==> UpperMean(h, th) == th
    ensures RangeCount(h, th + 1, |h|) > 0 ==> th + 1 <= UpperMean(h, th) <= 255
    ensures 0 <= Step(h, th) <= 255
  {
    var cl := RangeCount(h, 0, th + 1);
    if cl > 0 {
      RangeWeightBounds(h, 0, th + 1);
      DivBetween(RangeWeight(h, 0, th + 1), cl, 0, th);
    }
    var cu := RangeCount(h, th + 1, |h|);
    if cu > 0 {
      RangeWeightBounds(h, th + 1, |h|);
      DivBetween(RangeWeight(h, th + 1, |h|), cu, th + 1, 255);
    }
  }

  /** The ranges of a histogram with one occupied bin v count and weigh that bin alone. */
  lemma {:induction false} SingleBinRange(h: Bins, v: Intensity, lo: int, hi: int)
    requires 0 <= lo <= hi <= 256
    requires forall u :: 0 <= u < 256 && u != v ==> h[u] == 0
    ensures RangeCount(h, lo, hi) == if lo <= v < hi then h[v] else 0
    ensures RangeWeight(h, lo, hi) == if lo <= v < hi then v * h[v] else 0
    decreases hi - lo
  {
    if lo < hi {
      SingleBinRange(h, v, lo, hi - 1);
      if hi - 1 != v {
        MulZero(hi - 1, h[hi - 1]);
      }
    }
  }

  /**
   * On a window whose pixels all have intensity v, one step moves the
   * threshold halfway towards v: the half holding v has mean v and the
   * empty half falls back to the threshold itself.
   */
  lemma SingleBinStep(h: Bins, v: Intensity, th: int)
    requires 0 <= th < 256 && h[v] > 0
    requires forall u :: 0 <= u < 256 && u != v ==> h[u] == 0
    ensures Step(h, th) == (v + th) / 2
  {
    SingleBinRange(h, v, 0, th + 1);
    SingleBinRange(h, v, th + 1, |h|);
    DivModUnique(v, h[v], 0);
  }

  /**
   * On a window of a single intensity v, the first round from th already
   * moves the threshold by less than 3 exactly when v lies within -4..+5
   * of th; otherwise the search goes on to another round.
   */
  lemma SingleBinSettles(h: Bins, v: Intensity, th: int)
    requires 0 <= th < 256 && h[v] > 0
    requires forall u :: 0 <= u < 256 && u != v ==> h[u] == 0
    ensures Abs(Step(h, th) - th) < ConvergenceDistance <==> -4 <= v - th <= 5
  {
    SingleBinStep(h, v, th);
  }

  /**
   * One round of the source's loop body: the bin loop, the upper mean taken
   * after it, and their average. Returns the new threshold and the lower
   * mean, which the source keeps across rounds.
   */
  function NextThreshold(h: Bins, th: int, mean1: int): (int, int)
  {
    var (count, sum, m1) := BinScan(h, th, 0, 0, 0, mean1);
    var m2 := if count == 0 then th else sum / count;
    ((m1 + m2) / 2, m1)
  }

  /** For a threshold in 0..255 one round of the loop computes the step of the reference split. */
  lemma NextThresholdIsStep(h: Bins, th: int, mean1: int)
    requires 0 <= th < 256
    ensures NextThreshold(h, th, mean1) == (Step(h, th), LowerMean(h, th))
  {
    BinScanSplits(h, th, mean1);
  }

  /**
   * The source's round loop from round `iter` on: stop at the cap of 15
   * rounds, or as soon as a round moves the threshold by less than 3, with
   * the last computed threshold as the result. (The `|h|` in the decreases
   * clause keeps the verifier from unfolding all rounds for literal
   * arguments.)
   */
  function Refine(h: Bins, th: int, newTh: int, mean1: int, iter: nat): int
    decreases MaxIterations - iter, |h|
  {
    if iter >= MaxIterations then newTh
    else
      var (n, m1) := NextThreshold(h, th, mean1);
      if Abs(n - th) < ConvergenceDistance then n
      else Refine(h, n, n, m1, iter + 1)
  }

  /** The threshold after k steps of the reference split from th. */
  function Iterate(h: Bins, th: int, k: nat): (r: int)
    requires 0 <= th < 256
    ensures 0 <= r < 256
    decreases k
  {
    if k == 0 then th
    else
      MeanBounds(h, th);
      Iterate(h, Step(h, th), k - 1)
  }

  /** Whether step j+1 of the reference split from th moved the threshold by 3 or more. */
  predicate Moved(h: Bins, th: int, j: nat)
    requires 0 <= th < 256
  {
    Abs(Iterate(h, th, j + 1) - Iterate(h, th, j)) >= ConvergenceDistance
  }

  /**
   * Stopping after k of at most `rounds` steps from th is what the search
   * does: every earlier step moved the threshold by 3 or more, and the k-th
   * moved it by less than 3 unless the rounds ran out.
   */
  predicate StopsAt(h: Bins, th: int, k: nat, rounds: nat)
    requires 0 <= th < 256
  {
    && 1 <= k <= rounds
    && (forall j: nat :: j + 1 < k ==> Moved(h, th, j))
    && (k < rounds ==> !Moved(h, th, k - 1))
  }

  lemma IterateShift(h: Bins, th: int, j: nat)
    requires 0 <= th < 256
    ensures 0 <= Step(h, th) < 256
    ensures Iterate(h, th, j + 1) == Iterate(h, Step(h, th), j)
    ensures Moved(h, th, j + 1) == Moved(h, Step(h, th), j)
  {
    MeanBounds(h, th);
  }

  /** Stopping one step later from th is stopping from th's successor. */
  lemma StopsAtShift(h: Bins, th: int, k: nat, rounds: nat)
    requires 0 <= th < 256 && 1 <= k
    requires Moved(h, th, 0)
    requires StopsAt(h, Step(h, th), k, rounds)
    ensures StopsAt(h, th, k + 1, rounds + 1)
  {
    MeanBounds(h, th);
    forall j: nat | j + 1 < k + 1
      ensures Moved(h, th, j)
    {
      if j > 0 {
        IterateShift(h, th, j - 1);
      }
    }
    IterateShift(h, th, k - 1);
  }

  /** One round of the search, in terms of the reference step. */
  lemma RefineStep(h: Bins, th: int, newTh: int, mean1: int, iter: nat)
    requires 0 <= th < 256 && iter < MaxIterations
    ensures Refine(h, th, newTh, mean1, iter)
              == if !Moved(h, th, 0) || iter + 1 == MaxIterations then Step(h, th)
                 else Refine(h, Step(h, th), Step(h, th), LowerMean(h, th), iter + 1)
  {
    NextThresholdIsStep(h, th, mean1);
    IterateShift(h, th, 0);
  }

  /**
   * From round iter, the search for a threshold th in 0..255 returns the
   * k-th iterate of the reference step, where k is a round at which the
   * reference stops within the rounds left.
   */
  lemma {:induction false} RefineIterates(h: Bins, th: int, newTh: int, mean1: int, iter: nat) returns (k: nat)
    requires 0 <= th < 256 && iter < MaxIterations
    ensures StopsAt(h, th, k, MaxIterations - iter)
    ensures Refine(h, th, newTh, mean1, iter) == Iterate(h, th, k)
    decreases MaxIterations - iter
  {
    RefineStep(h, th, newTh, mean1, iter);
    MeanBounds(h, th);
    var n := Step(h, th);
    IterateShift(h, th, 0);
    if !Moved(h, th, 0) || iter + 1 == MaxIterations {
      k := 1;
    } else {
      var k' := RefineIterates(h, n, n, LowerMean(h, th), iter + 1);
      StopsAtShift(h, th, k', MaxIterations - (iter + 1));
      IterateShift(h, th, k');
      k := k' + 1;
    }
  }

  /**
   * A window whose pixels all have intensity 10, searched from 128, does not
   * settle in one round: the threshold runs 69, 39, 24, 17, 13 and stops at
   * 11, the first move shorter than 3, in round six.
   */
  lemma UniformWindowSearch(h: Bins)
    requires h[10] > 0
    requires forall u :: 0 <= u < 256 && u != 10 ==> h[u] == 0
    ensures Refine(h, 128, 128, 0, 0) == 11
  {
    // Each round: the step halves the distance to 10 and, while it moves the
    // threshold by 3 or more, the search continues from the stepped value.
    SingleBinStep(h, 10, 128);
    RefineMoves(h, 128, 0, 0);
    SingleBinStep(h, 10, 69);
    RefineMoves(h, 69, LowerMean(h, 128), 1);
    SingleBinStep(h, 10, 39);
    RefineMoves(h, 39, LowerMean(h, 69), 2);
    SingleBinStep(h, 10, 24);
    RefineMoves(h, 24, LowerMean(h, 39), 3);
    SingleBinStep(h, 10, 17);
    RefineMoves(h, 17, LowerMean(h, 24), 4);
    SingleBinStep(h, 10, 13);
    RefineMoves(h, 13, LowerMean(h, 17), 5);
  }

  /** One round of the search from a threshold th in 0..255, in terms of the reference step. */
  lemma RefineMoves(h: Bins, th: int, mean1: int, iter: nat)
    requires 0 <= th < 256 && iter + 1 < MaxIterations
    ensures Abs(Step(h, th) - th) < ConvergenceDistance ==> Refine(h, th, th, mean1, iter) == Step(h, th)
    ensures Abs(Step(h, th) - th) >= ConvergenceDistance ==>
              Refine(h, th, th, mean1, iter) == Refine(h, Step(h, th), Step(h, th), LowerMean(h, th), iter + 1)
  {
    RefineStep(h, th, th, mean1, iter);
    IterateShift(h, th, 0);
  }

  /** The search's result for a threshold in 0..255 stays in 0..255. */
  lemma RefineRange(h: Bins, th: int, newTh: int, mean1: int, iter: nat)
    requires 0 <= th < 256 && iter < MaxIterations
    ensures 0 <= Refine(h, th, newTh, mean1, iter) < 256
  {
    var _ := RefineIterates(h, th, newTh, mean1, iter);
  }
}
