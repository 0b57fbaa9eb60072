/**
 * Constants and shared data types of the CPU reference implementation
 * (cpu.h and the brightness macros at the top of cpu.cpp).
 */
module Constants {

  /** Number of histogram bins: one per 8-bit intensity. */
  const HistogramSize: int := 256

  /** Half-width of the adaptive segmenter's window: offsets -15..15 on each axis. */
  const SegSubDiameter: int := 15

  /** Guard band of the adaptive threshold: it is clamped to [20, 255 - 20]. */
  const SegThBorders: int := 20

  const MinBrightness: int := 0
  const MaxBrightness: int := 255

  /** Starting threshold of the segmenter sweep, HISTOGRAM_SIZE / 2. */
  const InitialThreshold: int := HistogramSize / 2

  /** Iteration cap and convergence distance of the isodata search. */
  const MaxIterations: int := 15
  const ConvergenceDistance: int := 3

  /** An 8-bit channel value. */
  type Intensity = v: int | 0 <= v < 256

  /** A 256-bin histogram (or cumulative table) of non-negative counts. */
  type Bins = h: seq<nat> | |h| == 256 witness seq(256, _ => 0)

  /**
   * A grayscale image: `width * height` channel-0 samples in row-major order.
   * The operations read channel 0 of each `cl_uchar4` pixel only, and every
   * byte they store goes to all four channels, so channel 0 is all that is
   * kept.
   */
  datatype Image = Image(width: nat, height: nat, pixels: seq<Intensity>)
  {
    predicate Valid() {
      |pixels| == width * height
    }
  }

  /**
   * The byte `memset` stores when handed an `int`: the value converted to
   * `unsigned char`, i.e. reduced modulo 256.
   */
  function StoreByte(v: int): (b: Intensity)
    ensures 0 <= v < 256 ==> b == v
    ensures (b - v) % 256 == 0
  {
    v % 256
  }

  /**
   * The binarizing store shared by `otsu` and `segmentation`: a pixel
   * brighter than the threshold becomes MaxBrightness, any other pixel
   * MinBrightness.
   */
  function Binarize(v: Intensity, t: int): (b: Intensity)
    ensures b == MinBrightness || b == MaxBrightness
    ensures b == MaxBrightness <==> v > t
  {
    if v <= t then MinBrightness else MaxBrightness
  }

  function Min(a: int, b: int): int { if a < b then a else b }
  function Max(a: int, b: int): int { if a > b then a else b }
  function Abs(a: int): nat { if a < 0 then -a else a }
}
