/**
 * Adaptive binarization (`segmentation` in cpu.cpp): every pixel, in
 * row-major order, gets its own threshold from an isodata search over the
 * histogram of the 31x31 window around it. The search starts from the
 * threshold the previous pixel ended with, and its result is clamped to
 * 20..235 before the pixel is compared with it.
 */
module Segmentation {
  import opened Constants
  import opened Histograms
  import opened Windows
  import opened Isodata
  import opened Arithmetic

  /** The source's clamp of a threshold to SegThBorders..255-SegThBorders. */
  function Clamp(t: int): (r: int)
    ensures SegThBorders <= r <= MaxBrightness - SegThBorders
    ensures SegThBorders <= t <= MaxBrightness - SegThBorders ==> r == t
    ensures t < SegThBorders ==> r == SegThBorders
    ensures t > MaxBrightness - SegThBorders ==> r == MaxBrightness - SegThBorders
  {
    var t1 := if t < SegThBorders then SegThBorders else t;
    if t1 > MaxBrightness - SegThBorders then MaxBrightness - SegThBorders else t1
  }

  /**
   * The threshold pixel (x, y) is compared with, given the threshold the
   * previous pixel ended with: the isodata search over the local histogram
   * started from it (new threshold 128, lower mean 0, round 0), then clamped.
   */
  function PixelThreshold(img: Image, x: int, y: int, carried: int): (t: int)
    requires img.Valid() && 0 <= x < img.width && 0 <= y < img.height && 0 <= carried < 256
    ensures SegThBorders <= t <= MaxBrightness - SegThBorders
  {
    Clamp(Refine(LocalHistogram(img, x, y), carried, HistogramSize / 2, 0, 0))
  }

  /**
   * The pixel threshold is the clamped k-th iterate of the reference
   * isodata step from the carried threshold, for a k at which the
   * reference stops within 15 rounds.
   */
  lemma PixelThresholdIterates(img: Image, x: int, y: int, carried: int) returns (k: nat)
    requires img.Valid() && 0 <= x < img.width && 0 <= y < img.height && 0 <= carried < 256
    ensures StopsAt(LocalHistogram(img, x, y), carried, k, MaxIterations)
    ensures PixelThreshold(img, x, y, carried) == Clamp(Iterate(LocalHistogram(img, x, y), carried, k))
  {
    k := RefineIterates(LocalHistogram(img, x, y), carried, HistogramSize / 2, 0, 0);
  }

  /** Column and row of buffer index p in a width-w image. */
  function Column(p: nat, w: nat): int
    requires w > 0
  {
    p % w
  }

  function Row(p: nat, w: nat): int
    requires w > 0
  {
    p / w
  }

  /**
   * The threshold in force when pixel p is reached: the initial
   * HistogramSize/2 for the first pixel, otherwise what pixel p-1 was
   * compared with.
   */
  function ThresholdBefore(img: Image, p: nat): (t: int)
    requires img.Valid() && p <= |img.pixels|
    ensures 0 <= t < 256
    decreases p, 0
  {
    if p == 0 then InitialThreshold
    else ThresholdAt(img, p - 1)
  }

  /** The threshold pixel p is compared with. */
  function ThresholdAt(img: Image, p: nat): (t: int)
    requires img.Valid() && p < |img.pixels|
    ensures SegThBorders <= t <= MaxBrightness - SegThBorders
    decreases p, 1
  {
    assert img.width > 0;
    PixelThreshold(img, Column(p, img.width), Row(p, img.width), ThresholdBefore(img, p))
  }

  /**
   * Pixel (x, y) sits at index y*w + x of the buffer; the threshold it is
   * compared with is the search started from the one in force before it,
   * and that is the one in force before the next index.
   */
  lemma ThresholdStep(img: Image, x: int, y: int)
    requires img.Valid() && 0 <= x < img.width && 0 <= y < img.height
    ensures 0 <= y * img.width + x < |img.pixels|
    ensures ThresholdAt(img, y * img.width + x) == PixelThreshold(img, x, y, ThresholdBefore(img, y * img.width + x))
    ensures ThresholdBefore(img, y * img.width + x + 1) == ThresholdAt(img, y * img.width + x)
  {
    PixelIndex(img.width, img.height, x, y);
    ThresholdAtIndex(img, y * img.width + x, x, y);
  }

  /** Pixel (x, y) of a w x h buffer sits at index y*w + x, whose column is x and row is y. */
  lemma PixelIndex(w: nat, h: nat, x: int, y: int)
    requires 0 <= x < w && 0 <= y < h
    ensures 0 <= y * w + x < w * h
    ensures Column(y * w + x, w) == x && Row(y * w + x, w) == y
  {
    RowInBuffer(w, h, y);
    DivModUnique(y, w, x);
  }

  lemma ThresholdAtIndex(img: Image, p: nat, x: int, y: int)
    requires img.Valid() && p < |img.pixels|
    requires img.width > 0 && Column(p, img.width) == x && Row(p, img.width) == y
    ensures ThresholdAt(img, p) == PixelThreshold(img, x, y, ThresholdBefore(img, p))
    ensures ThresholdBefore(img, p + 1) == ThresholdAt(img, p)
  {
  }

  /** The first |out| pixels are segmented with the thresholds of the sweep. */
  predicate Segmented(img: Image, out: seq<Intensity>)
    requires img.Valid()
  {
    && |out| <= |img.pixels|
    && forall p :: 0 <= p < |out| ==> out[p] == Binarize(img.pixels[p], ThresholdAt(img, p))
  }

  /**
   * Visiting pixel (x, y), at index y*w + x, extends a correctly segmented
   * prefix by one pixel and hands on the threshold in force for the next.
   */
  lemma SweepStep(img: Image, x: int, y: int, out: seq<Intensity>, threshold: int)
    requires img.Valid() && 0 <= x < img.width && 0 <= y < img.height
    requires |out| == y * img.width + x && Segmented(img, out) && threshold == ThresholdBefore(img, |out|)
    ensures |out| < |img.pixels|
    ensures var t := PixelThreshold(img, x, y, threshold);
            var next := out + [Binarize(img.pixels[|out|], t)];
            Segmented(img, next) && t == ThresholdBefore(img, |next|)
  {
    ThresholdStep(img, x, y);
  }

  /**
   * One row of `segmentation`'s sweep: continue from the output so far and
   * the threshold carried into the row, appending the row's output bytes.
   */
  method SegmentRow(img: Image, y: int, out0: seq<Intensity>, th0: int) returns (out: seq<Intensity>, threshold: int)
    requires img.Valid() && 0 <= y < img.height
    requires |out0| == y * img.width && Segmented(img, out0) && th0 == ThresholdBefore(img, |out0|)
    ensures |out| == |out0| + img.width && Segmented(img, out) && threshold == ThresholdBefore(img, |out|)
  {
    out, threshold := out0, th0;
    var x := 0;
    while x < img.width
      invariant 0 <= x <= img.width
      invariant |out| == y * img.width + x
      invariant Segmented(img, out)
      invariant threshold == ThresholdBefore(img, |out|)
    {
      SweepStep(img, x, y, out, threshold);
      threshold := PixelThreshold(img, x, y, threshold);
      out := out + [Binarize(img.pixels[|out|], threshold)];
      x := x + 1;
    }
  }

  /**
   * `segmentation`: visit the pixels row by row, carrying the threshold
   * from pixel to pixel, and write 0 for a pixel at or below its threshold
   * and 255 for one above it.
   */
  method Segment(img: Image) returns (out: seq<Intensity>)
    requires img.Valid()
    ensures |out| == |img.pixels|
    ensures forall p :: 0 <= p < |out| ==> out[p] == Binarize(img.pixels[p], ThresholdAt(img, p))
  {
    var threshold := InitialThreshold;
    out := [];
    var y := 0;
    while y < img.height
      invariant 0 <= y <= img.height
      invariant |out| == y * img.width
      invariant Segmented(img, out)
      invariant threshold == ThresholdBefore(img, |out|)
    {
      out, threshold := SegmentRow(img, y, out, threshold);
      assert (y + 1) * img.width == y * img.width + img.width;
      y := y + 1;
    }
    assert |out| == img.height * img.width == |img.pixels|;
  }

  /**
   * The segmented image is two-valued; pixels at or below 20 always become
   * 0 and pixels above 235 always become 255, whatever their neighbourhood.
   */
  lemma SegmentFixedBands(img: Image, out: seq<Intensity>, p: int)
    requires img.Valid() && 0 <= p < |img.pixels|
    requires |out| == |img.pixels|
    requires forall q :: 0 <= q < |out| ==> out[q] == Binarize(img.pixels[q], ThresholdAt(img, q))
    ensures out[p] == MinBrightness || out[p] == MaxBrightness
    ensures img.pixels[p] <= SegThBorders ==> out[p] == MinBrightness
    ensures img.pixels[p] > MaxBrightness - SegThBorders ==> out[p] == MaxBrightness
  {
  }
}
