/**
 * Histogram equalization (`equalize` in cpu.cpp): a cumulative table scaled
 * to 0..256 and applied to each pixel through a one-byte store.
 */
module Equalization {
  import opened Constants
  import opened Histograms
  import opened Arithmetic

  /**
   * The first k entries of the cumulative histogram, built as the source
   * builds it: entry 0 is bin 0, each later entry adds its bin to the
   * previous entry. Entry i counts bins 0..i.
   */
  function CumulativeUpTo(h: Bins, k: int): (c: seq<nat>)
    requires 1 <= k <= 256
    ensures |c| == k
    // Measured through h rather than as k, so that the verifier does not
    // unfold the recursion for literal arguments.
    decreases |h[..k]|
    ensures forall i :: 0 <= i < k ==> c[i] == RangeCount(h, 0, i + 1)
  {
    if k == 1 then [h[0]]
    else
      var c := CumulativeUpTo(h, k - 1);
      c + [c[k - 2] + h[k - 1]]
  }

  function Cumulative(h: Bins): (c: Bins)
    ensures forall i :: 0 <= i < 256 ==> c[i] == RangeCount(h, 0, i + 1)
  {
    CumulativeUpTo(h, 256)
  }

  /** The cumulative table's recurrence, its monotonicity and its last entry, the pixel count. */
  lemma CumulativeShape(h: Bins)
    ensures Cumulative(h)[0] == h[0]
    ensures forall i :: 0 < i < 256 ==> Cumulative(h)[i] == Cumulative(h)[i - 1] + h[i]
    ensures forall i, j :: 0 <= i <= j < 256 ==> Cumulative(h)[i] <= Cumulative(h)[j]
    ensures Cumulative(h)[255] == Total(h)
  {
    assert RangeCount(h, 0, 1) == h[0];
    forall i, j | 0 <= i < j < 256
      ensures Cumulative(h)[i] <= Cumulative(h)[j]
    {
      RangeCountCovers(h, 0, i + 1, j + 1);
    }
  }

  /**
   * The scaled table `C[i] * 256 / N`, with `N` the table's last entry;
   * exact integer arithmetic stands in for the source's float factor.
   */
  function ScaledTable(h: Bins): (t: seq<int>)
    requires Total(h) > 0
    ensures |t| == 256
  {
    var c := Cumulative(h);
    seq(256, i requires 0 <= i < 256 => c[i] * 256 / Total(h))
  }

  /** Scaling a count c out of n pixels lands in 0..256, reaching 256 only for c == n. */
  lemma ScaleBounds(c: int, n: int)
    requires 0 <= c <= n && n > 0
    ensures 0 <= c * 256 / n <= 256
    ensures c * 256 / n == 256 <==> c == n
  {
    DivMonotone(c * 256, n * 256, n);
    assert n * 256 / n == 256;
    var q := c * 256 / n;
    assert q * n <= c * 256;
    assert c < n ==> c * 256 < 256 * n;
  }

  /**
   * The scaled table is non-decreasing and stays within 0..256; an entry
   * is 256 exactly when no bin above it is occupied.
   */
  lemma ScaledTableShape(h: Bins)
    requires Total(h) > 0
    ensures forall i :: 0 <= i < 256 ==> 0 <= ScaledTable(h)[i] <= 256
    ensures forall i, j :: 0 <= i <= j < 256 ==> ScaledTable(h)[i] <= ScaledTable(h)[j]
    ensures forall i :: 0 <= i < 256 ==> (ScaledTable(h)[i] == 256 <==> RangeCount(h, i + 1, |h|) == 0)
  {
    var c, n, t := Cumulative(h), Total(h), ScaledTable(h);
    CumulativeShape(h);
    forall i | 0 <= i < 256
      ensures 0 <= t[i] <= 256
      ensures t[i] == 256 <==> RangeCount(h, i + 1, |h|) == 0
    {
      RangeSplit(h, 0, i + 1, |h|);
      ScaleBounds(c[i], n);
    }
    forall i, j | 0 <= i <= j < 256
      ensures t[i] <= t[j]
    {
      MulMonotone(c[i], c[j], 256);
      DivMonotone(c[i] * 256, c[j] * 256, n);
    }
  }

  /**
   * `equalize` as written: the first N pixels (N the cumulative table's last
   * entry, not width*height) get their scaled table entry through a byte
   * store, so the entry 256 reached at and above the brightest occupied bin
   * is written as 0; pixels from N on keep the caller's output.
   */
  function Equalize(img: seq<Intensity>, h: Bins, out: seq<Intensity>): (r: seq<Intensity>)
    requires 0 < Total(h) <= |img| && |out| == |img|
    ensures |r| == |out|
    ensures forall p :: Total(h) <= p < |out| ==> r[p] == out[p]
    ensures forall p :: 0 <= p < Total(h) && RangeCount(h, img[p] as int + 1, |h|) > 0 ==>
              r[p] == RangeCount(h, 0, img[p] as int + 1) * 256 / Total(h) < 256
    ensures forall p :: 0 <= p < Total(h) && RangeCount(h, img[p] as int + 1, |h|) == 0 ==> r[p] == 0
  {
    var t := ScaledTable(h);
    ScaledTableShape(h);
    seq(|out|, p requires 0 <= p < |out| => if p < Total(h) then StoreByte(t[img[p]]) else out[p])
  }

  /**
   * Equalizing an image with its own histogram writes every pixel: a pixel
   * maps to 256 times the fraction of pixels no brighter than it, and the
   * brightest pixels, whose fraction is 1, wrap to 0.
   */
  lemma EqualizeOwnHistogram(img: seq<Intensity>, out: seq<Intensity>, p: int)
    requires |out| == |img| && 0 <= p < |img|
    ensures Total(Histogram(img)) == |img|
    ensures Equalize(img, Histogram(img), out)[p] ==
              (if CountAtMost(img, img[p]) == |img| then 0 else CountAtMost(img, img[p]) * 256 / |img|)
    ensures (forall q :: 0 <= q < |img| ==> img[q] <= img[p]) ==> Equalize(img, Histogram(img), out)[p] == 0
  {
    var h := Histogram(img);
    HistogramTotal(img);
    HistogramPrefix(img, img[p]);
    RangeSplit(h, 0, img[p] as int + 1, |h|);
    if forall q :: 0 <= q < |img| ==> img[q] <= img[p] {
      CountAtMostAll(img, img[p]);
    }
  }

  /**
   * Equalization with the byte store clamped at 255 and every pixel of the
   * image written; an empty histogram leaves the output as it was. The
   * remap preserves the order of intensities and sends the brightest
   * occupied intensity to 255.
   */
  function EqualizeClamped(img: seq<Intensity>, h: Bins, out: seq<Intensity>): (r: seq<Intensity>)
    requires |out| == |img|
    ensures |r| == |img|
    ensures Total(h) == 0 ==> r == out
    ensures Total(h) > 0 ==>
              forall p :: 0 <= p < |img| ==> r[p] == Min(RangeCount(h, 0, img[p] as int + 1) * 256 / Total(h), 255)
    ensures Total(h) > 0 ==>
              forall p, q :: 0 <= p < |img| && 0 <= q < |img| && img[p] <= img[q] ==> r[p] <= r[q]
    ensures Total(h) > 0 ==>
              forall p :: 0 <= p < |img| && RangeCount(h, img[p] as int + 1, |h|) == 0 ==> r[p] == 255
  {
    if Total(h) == 0 then out
    else
      var t := ScaledTable(h);
      ScaledTableShape(h);
      seq(|img|, p requires 0 <= p < |img| => Min(t[img[p]], 255))
  }

  /**
   * The corrected remap differs from the code as written only where the
   * latter wraps: on the first N pixels below the brightest occupied
   * intensity both write the same byte, and on the brightest ones the
   * corrected remap writes 255 where the code writes 0.
   */
  lemma EqualizeClampedAgrees(img: seq<Intensity>, h: Bins, out: seq<Intensity>, p: int)
    requires 0 < Total(h) <= |img| && |out| == |img| && 0 <= p < Total(h)
    ensures RangeCount(h, img[p] as int + 1, |h|) > 0 ==> EqualizeClamped(img, h, out)[p] == Equalize(img, h, out)[p]
    ensures RangeCount(h, img[p] as int + 1, |h|) == 0 ==>
              EqualizeClamped(img, h, out)[p] == 255 && Equalize(img, h, out)[p] == 0
  {
  }

  /** Pixels at or below each intensity of the 2x2 image holding 0, 85, 170 and 255. */
  lemma ExampleCounts(img: seq<Intensity>)
    requires img == [0, 85, 170, 255]
    ensures CountAtMost(img, 0) == 1 && CountAtMost(img, 85) == 2
    ensures CountAtMost(img, 170) == 3 && CountAtMost(img, 255) == 4
  {
    var s1, s2, s3 := img[..1], img[..2], img[..3];
    assert s3[..2] == s2 && s2[..1] == s1 && s1[..0] == [] && img[..3] == s3;
    assert CountAtMost(s1, 0) == 1 && CountAtMost(s1, 85) == 1 && CountAtMost(s1, 170) == 1;
    assert CountAtMost(s2, 0) == 1 && CountAtMost(s2, 85) == 2 && CountAtMost(s2, 170) == 2;
    assert CountAtMost(s3, 0) == 1 && CountAtMost(s3, 85) == 2 && CountAtMost(s3, 170) == 3;
    CountAtMostAll(img, 255);
  }

  /**
   * A 2x2 image holding 0, 85, 170 and 255 once each: the source writes
   * 64, 128, 192 and then 0 for the brightest pixel, so the brightest pixel
   * comes out darker than the darkest.
   */
  lemma EqualizeWrapExample(img: seq<Intensity>, out: seq<Intensity>)
    requires img == [0, 85, 170, 255] && out == [0, 0, 0, 0]
    ensures Total(Histogram(img)) == 4
    ensures Equalize(img, Histogram(img), out) == [64, 128, 192, 0]
  {
    HistogramTotal(img);
    ExampleCounts(img);
    var r := Equalize(img, Histogram(img), out);
    EqualizeOwnHistogram(img, out, 0);
    assert r[0] == 64;
    EqualizeOwnHistogram(img, out, 1);
    assert r[1] == 128;
    EqualizeOwnHistogram(img, out, 2);
    assert r[2] == 192;
    EqualizeOwnHistogram(img, out, 3);
    assert r[3] == 0;
  }

  /** The same image under the clamped remap: 64, 128, 192 and 255. */
  lemma EqualizeClampedExample(img: seq<Intensity>, out: seq<Intensity>)
    requires img == [0, 85, 170, 255] && out == [0, 0, 0, 0]
    ensures EqualizeClamped(img, Histogram(img), out) == [64, 128, 192, 255]
  {
    var h := Histogram(img);
    HistogramTotal(img);
    ExampleCounts(img);
    HistogramPrefix(img, 0);
    HistogramPrefix(img, 85);
    HistogramPrefix(img, 170);
    HistogramPrefix(img, 255);
    var t := ScaledTable(h);
    assert t[0] == 64 && t[85] == 128 && t[170] == 192 && t[255] == 256;
  }
}
