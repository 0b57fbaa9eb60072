# Histogram operations of a grayscale image processor, in Dafny

The system processes grayscale images through a CPU reference implementation.
Each image is a row-major buffer of four-channel pixels. The operations read only channel 0, and every byte they store goes into all four channels of the pixel.
The implementation has four operations:

- `histogram` counts how many pixels have each of the 256 intensities.
- `equalize` remaps each pixel through the cumulative histogram scaled to 0..256.
- `otsu` binarizes the image. It uses a global threshold chosen by Otsu's method, which maximises the between-class variance over the histogram.
- `segmentation` binarizes each pixel against its own adaptive threshold. The threshold comes from an isodata search over the histogram of the 31×31 window around the pixel, and is clamped to 20..235.

This project models those four operations and the constants they share. It proves what each operation computes against an independent reference definition.

- Images are `Image(width, height, pixels)` with `pixels` a `seq` of intensities 0..255. Only channel 0 is modelled. The core reads only channel 0, and each of its stores (`memset(…, 4)`) writes one byte into all four channels. The grayscale conversion of the host program writes the luma into channels 0–2 only, so the input's fourth channel is never read.
- Histograms are sequences of 256 naturals (`Bins`).
- `RangeCount` and `RangeWeight` are the plain and the intensity-weighted sums over a range of bins. All three statistics are expressed through them: the cumulative table, Otsu's class weights and means, and the isodata class means.
- The modules follow the source:
  - `Constants` covers `cpu.h` and the brightness macros.
  - `Histograms` covers `histogram`.
  - `Equalization` covers `equalize`.
  - `Otsu` covers `otsu`.
  - `Windows`, `Isodata` and `Segmentation` cover the three stages of `segmentation`.
  - `Arithmetic` holds integer facts used along the way.

Some behaviours of the code are easy to misread. In each case below, the model follows the code:

- **Segmentation threshold.** The adaptive segmenter does not restart every pixel's search at 128. The variable `threshold` (cpu.cpp:110) is set once before the pixel loops and is overwritten with each pixel's clamped result. Each pixel's search therefore starts from the threshold the previous pixel ended with.
- **Equalizer store.** The equalizer does not clamp. Under exact scaling the table reaches 256 at and above the brightest occupied intensity, and `memset` stores 256 as the byte 0, so the brightest pixels come out black (see Findings). The source scales in `float`, and the same happens whenever N × fl(256 / N) rounds to 256. That includes every power-of-two N, such as a 512×512 image. For some N the product falls short and truncates to 255, so nothing wraps: for N = 41, single-precision rounding gives 255.99998.
- **Equalizer loop bound.** The equalizer's store loop runs to the cumulative table's last entry N (cpu.cpp:44), not to width×height. Pixels from index N on are left untouched.
- **Otsu split.** For the split that maximises the variance, bins 0..i against i+1..255, `otsu` records `threshold = i + 1` (cpu.cpp:87). It then writes 255 only for pixels brighter than the threshold (cpu.cpp:94). Pixels of intensity i + 1 therefore go to the background, so an image of two adjacent levels comes out all 0 (`Otsu.OtsuTwoAdjacentLevels`).
- **Uniform windows.** On a window where every pixel has the same intensity, the isodata search need not settle in one round. It settles at once only when the intensity lies within −4..+5 of the starting threshold (`Isodata.SingleBinSettles`). Otherwise each round moves the threshold halfway towards it (`Isodata.SingleBinStep`). A window of intensity 10 searched from 128 takes six rounds and ends at 11 (`Isodata.UniformWindowSearch`).

The lower mean `mean1` of the isodata search is declared once per pixel and kept across rounds. The model threads it through `Isodata.Refine`. `Isodata.NextThresholdIsStep` proves that it has no effect for thresholds in 0..255.

## Model

| member | source | states |
|---|---|---|
| Constants.StoreByte | cpu.cpp:47 | the byte `memset` stores for an int equals it when it is 0..255 and is congruent to it modulo 256 otherwise |
| Histograms.HistogramCounts | cpu.cpp:11-22 | `Histograms.Histogram` models the zeroing loop and the counting loop; bin v of its result equals the number of pixels of intensity v (the multiplicity of v in the pixel sequence) |
| Histograms.HistogramTotal | cpu.cpp:13-21 | the 256 bins together count exactly one per pixel |
| Histograms.HistogramPrefix | cpu.cpp:18-21 | bins 0..v together count exactly the pixels no brighter than v, counted independently of the histogram |
| Histograms.RangeWeightAtLeast | cpu.cpp:59-62 | the weighted sum of a range of bins is at least the range's count times its lowest intensity |
| Histograms.RangeWeightAtMost | cpu.cpp:59-62 | the weighted sum of a non-empty range of bins is at most the range's count times its highest intensity |
| Histograms.RangeCountZero | cpu.cpp:67-70 | a range of bins counts nothing exactly when every bin in it is empty |
| Equalization.CumulativeUpTo | cpu.cpp:29-33 | the first k entries of the table, built as the loop builds it from bin 0 by adding each bin to the previous entry, hold in entry i the count of bins 0..i |
| Equalization.Cumulative | cpu.cpp:28-33 | entry i of the cumulative table counts the pixels in bins 0..i |
| Equalization.CumulativeShape | cpu.cpp:29-35 | the table starts at bin 0, adds each bin to the previous entry, never decreases, and its last entry is the pixel count N |
| Equalization.ScaledTableShape | cpu.cpp:35-41 | the scaled table `Equalization.ScaledTable`, entry i being `C[i] * 256 / N`, is non-decreasing and within 0..256, and an entry is 256 exactly when no brighter bin is occupied |
| Equalization.Equalize | cpu.cpp:24-49 | the first N pixels get the scaled fraction of pixels no brighter than them (below 256) or 0 when nothing brighter exists; pixels from N on keep the caller's output |
| Equalization.EqualizeOwnHistogram | cpu.cpp:24-49 | equalizing with the image's own histogram maps a pixel to 256 × (pixels no brighter)/(all pixels), and every brightest pixel to 0 |
| Equalization.EqualizeWrapExample | cpu.cpp:44-48 | the 2×2 image 0, 85, 170, 255 comes out 64, 128, 192, 0 under the code as written |
| Equalization.EqualizeClamped | cpu.cpp:38-48 | for a non-empty histogram the corrected remap writes every pixel as the scaled fraction of pixels no brighter than it, capped at 255; it is order-preserving on intensities, sends the brightest occupied intensity to 255, writes every pixel, and leaves the output alone for an empty histogram |
| Equalization.EqualizeClampedAgrees | cpu.cpp:44-47 | on the first N pixels the corrected remap writes the same byte as the code wherever a brighter bin is occupied, and 255 where the code wraps to 0 |
| Equalization.EqualizeClampedExample | cpu.cpp:38-48 | the same 2×2 image comes out 64, 128, 192, 255 under the corrected remap |
| Otsu.OtsuScanMeetsBest | cpu.cpp:59-89 | `Otsu.OtsuScan` models the scan; the scan with its running weights, sums, skip of leading empty bins and early stop ends with the threshold of the reference best-split search |
| Otsu.BestSplitIsBest | cpu.cpp:82-88 | the reference search holds the largest variance of the splits it has passed, and one past the first split that reaches it |
| Otsu.ScanVariance | cpu.cpp:72-82 | the variance `Otsu.BetweenClass` computes from the scan's running weights and background sum at an occupied bin i equals the between-class variance of the split after bin i, taken from the class counts and weighted sums |
| Otsu.OtsuThresholdCorrect | cpu.cpp:51-89 | the threshold `Otsu.OtsuThreshold` (the scan run from bin 0 with zero state) computes is one past the first bin whose split maximises the between-class variance, or 0 when no split has positive variance, and lies in 0..255 |
| Otsu.OtsuThresholdUnique | cpu.cpp:85-88 | the reference definition of the threshold admits one value only |
| Otsu.VariancePositive | cpu.cpp:72-82 | every split with both classes occupied has a positive between-class variance, because the background mean is at most i and the foreground mean at least i + 1 |
| Otsu.OtsuThresholdZeroIff | cpu.cpp:65-89 | the threshold stays 0 exactly when no bin splits the histogram into two occupied classes |
| Otsu.SingleBinNoSplit | cpu.cpp:67-74 | a histogram with a single occupied bin has no split |
| Otsu.TwoAdjacentBins | cpu.cpp:65-89 | a histogram occupying exactly bins a and a + 1 gets threshold a + 1 |
| Otsu.Otsu | cpu.cpp:92-100 | the output is two-valued, 0 or 255; a pixel becomes 255 exactly when it is brighter than the computed threshold; the order of intensities is preserved |
| Otsu.OtsuBinarizes | cpu.cpp:51-100 | a pixel comes out 255 exactly when it is brighter than the value meeting the reference definition of Otsu's threshold |
| Otsu.OtsuUniformImage | cpu.cpp:65-100 | an image of one intensity v gets threshold 0 and comes out all 255, or all 0 when v is 0 |
| Otsu.OtsuTwoAdjacentLevels | cpu.cpp:65-100 | an image of the two intensities a and a + 1 gets threshold a + 1 and comes out all 0 |
| Windows.Span | cpu.cpp:120-132 | along each axis the clipped window covers between 1 and 31 positions |
| Windows.LocalHistogramRect | cpu.cpp:118-136 | `Windows.LoopWindow` (the outer loop `WindowCells` over `RowCells` rows) lists the cells the window loops count; in their order they are the window rectangle clipped to the image, read as contiguous row slices |
| Windows.WindowCellsRect | cpu.cpp:120-136 | the window loops, from any window row on, visit exactly the remaining rows of the rectangle clipped to the image, top to bottom, skipping rows outside it |
| Windows.RowCellsSlice | cpu.cpp:127-134 | the inner loop over one window row visits exactly the row's in-image columns, left to right, as one contiguous slice of the buffer |
| Windows.LocalHistogramTotal | cpu.cpp:118-136 | the local histogram `Windows.LocalHistogram` counts the clipped window's cells once each: the product of the two spans, between 1 and 961 |
| Isodata.BinScanSplits | cpu.cpp:148-172 | the bin loop `Isodata.BinScan` leaves the lower half's mean (the threshold when that half is empty) and the upper half's count and weighted sum, whatever lower mean it started with |
| Isodata.MeanBounds | cpu.cpp:148-179 | the lower mean lies in 0..th, the upper mean in th+1..255 (th when that half is empty), and the next threshold in 0..255 |
| Isodata.NextThresholdIsStep | cpu.cpp:146-179 | one round of the loop, `Isodata.NextThreshold`, computes the average of the two halves' integer means |
| Isodata.SingleBinStep | cpu.cpp:148-179 | on a window of a single intensity v, one round moves the threshold th to (v + th) / 2 |
| Isodata.SingleBinSettles | cpu.cpp:179-182 | on a window of a single intensity v, the first round from th stops the loop (a move shorter than 3) exactly when v − th lies in −4..5 |
| Isodata.UniformWindowSearch | cpu.cpp:140-186 | a window of intensity 10 searched from 128 ends at 11, after the threshold has run 69, 39, 24, 17 and 13 |
| Isodata.Iterate | cpu.cpp:146-184 | repeated steps of the reference search from a threshold in 0..255 stay in 0..255 |
| Isodata.RefineIterates | cpu.cpp:146-186 | the search `Isodata.Refine` returns the k-th reference step, where every earlier step moved the threshold by 3 or more and the k-th moved it by less than 3 unless the 15 rounds ran out |
| Isodata.RefineRange | cpu.cpp:146-186 | the search's result for a threshold in 0..255 stays in 0..255 |
| Segmentation.Clamp | cpu.cpp:188-192 | the clamped threshold lies in 20..235, equals the input inside that band, and equals the nearer bound outside it |
| Segmentation.PixelThreshold | cpu.cpp:118-192 | every pixel's threshold lies in 20..235 |
| Segmentation.PixelThresholdIterates | cpu.cpp:140-192 | a pixel's threshold is the clamped reference isodata iterate from the carried threshold, stopped as the 15-round, distance-3 rule prescribes |
| Segmentation.ThresholdStep | cpu.cpp:110-114 | the pixel at (x, y) sits at buffer index y×width + x; the threshold it is compared with (`Segmentation.ThresholdAt` of that index) is the search started from the threshold in force before it (`Segmentation.ThresholdBefore`), and is the one in force before the next index |
| Segmentation.SegmentRow | cpu.cpp:114-202 | one pass of the column loop extends an output segmented with the sweep's thresholds by exactly one row and carries out the threshold in force for the next row |
| Constants.Binarize | cpu.cpp:194-201 | the stored byte is 0 or 255, and 255 exactly when the pixel is brighter than the threshold; `otsu` (cpu.cpp:94-99) stores the same way |
| Segmentation.Segment | cpu.cpp:107-204 | the sweep writes every pixel, as 0 at or below its carried, clamped threshold and 255 above it |
| Segmentation.SegmentFixedBands | cpu.cpp:188-201 | the segmented image is two-valued; pixels at or below 20 always become 0, and pixels above 235 always become 255 |

## Left out

- **Host program.** The OpenCL kernels, the SDL display, the command line, timing, the grayscale conversion and image file I/O (main.cpp) are not part of this model. The model takes the histogram that `equalize` and `otsu` receive as a parameter.
- **Floating point.** The equalizer's `float` factor `256 / N` and Otsu's `float` sums, means and variances are modelled as exact integers and rationals. Rounding can make the source's table entry differ by one from `C[i] * 256 / N`, or break a near-tie between two splits differently. N itself is a `float` (cpu.cpp:35) and the store loop compares `i < numberOfPixels` in `float` (cpu.cpp:44): above 2^24 pixels that bound can round, leaving pixels unwritten, whereas the model writes exactly N.
- **Integer widths.** The 32-bit bin counts and products are modelled as unbounded integers, so no overflow is modelled. The products `i * histogram[i]` in `otsu` wrap only when one bin holds more than about 16.8 million pixels. The isodata sums stay below 961 × 255.
- **Unused prototype.** The 4-argument `equalize` prototype at cpu.h:19 has no definition, so only the 3-argument definition is modelled.
- Equalization.Equalize: scales exactly, so its result wraps the brightest pixels to 0 for every N. The `float` code does so only when N × fl(256 / N) rounds to 256. For other N, such as N = 41, the product rounds to 255.99998 and the brightest pixels are stored as 255. The model does not say which N those are.
- Equalization.Equalize: requires 0 < N <= number of pixels. With N == 0 the source divides by zero, and with N larger than the image it reads past the buffer. `Equalization.EqualizeClamped` models the intended behaviour for N == 0.

## Findings

| source | as written | input that shows it | evidently intended | confidence | as-written member | corrected member |
|---|---|---|---|---|---|---|
| cpu.cpp:40-47 | under exact scaling, and in the `float` code whenever N × fl(256 / N) rounds to 256 (every power-of-two N, such as 512×512), the scaled table reaches 256 at and above the brightest occupied intensity; `memset` stores 256 as the byte 0, so the brightest pixels become black. For some N, such as 41, the `float` product truncates to 255 and nothing wraps | a 2×2 image holding 0, 85, 170 and 255 equalizes to 64, 128, 192, 0 | the brightest pixels become 255, and the remap keeps the order of intensities | high; not executed | Equalization.EqualizeWrapExample | Equalization.EqualizeClamped |
