/**
 * The adaptive segmenter's local histogram (cpu.cpp, the window loops of
 * `segmentation`): offsets -15..15 on each axis around a pixel, with cells
 * outside the image skipped.
 */
module Windows {
  import opened Constants
  import opened Histograms
  import opened Arithmetic

  /** Row cy of a width-w buffer occupies indices cy*w .. cy*w + w. */
  lemma RowInBuffer(w: nat, h: nat, cy: int)
    requires 0 <= cy < h
    ensures 0 <= cy * w && (cy + 1) * w <= w * h
  {
    MulMonotone(cy + 1, h, w);
  }

  /**
   * Cells of row cy at columns cx..xEnd, left to right, skipping columns
   * outside the image. The window row of pixel (x, y) is cx = x - 15,
   * xEnd = x + 15: the source's offsets xx = -15..15 added to x.
   */
  function RowCells(img: Image, cy: int, cx: int, xEnd: int): seq<Intensity>
    requires img.Valid() && 0 <= cy < img.height
    requires cx <= xEnd + 1
    decreases xEnd + 1 - cx
  {
    if cx > xEnd then []
    else
      RowInBuffer(img.width, img.height, cy);
      (if 0 <= cx < img.width then [img.pixels[cy * img.width + cx]] else [])
        + RowCells(img, cy, cx + 1, xEnd)
  }

  /**
   * Cells of the window rows cy..yEnd at columns cx..xEnd, top to bottom,
   * skipping rows outside the image.
   */
  function WindowCells(img: Image, cx: int, xEnd: int, cy: int, yEnd: int): seq<Intensity>
    requires img.Valid()
    requires cx <= xEnd + 1 && cy <= yEnd + 1
    decreases yEnd + 1 - cy
  {
    if cy > yEnd then []
    else
      (if 0 <= cy < img.height then RowCells(img, cy, cx, xEnd) else [])
        + WindowCells(img, cx, xEnd, cy + 1, yEnd)
  }

  /** The cells `segmentation` counts for pixel (x, y), in its loop order. */
  function LoopWindow(img: Image, x: int, y: int): seq<Intensity>
    requires img.Valid()
  {
    WindowCells(img, x - SegSubDiameter, x + SegSubDiameter, y - SegSubDiameter, y + SegSubDiameter)
  }

  /**
   * The window of pixel (x, y) clipped to the image, top row first: the
   * cells the loops count, in the same order (LocalHistogramRect).
   */
  function Window(img: Image, x: int, y: int): seq<Intensity>
    requires img.Valid() && 0 <= x < img.width && 0 <= y < img.height
  {
    RectRows(img, ClipLo(x), ClipHi(x, img.width), ClipLo(y), ClipHi(y, img.height))
  }

  /** The local histogram `segmentation` builds for pixel (x, y). */
  function LocalHistogram(img: Image, x: int, y: int): Bins
    requires img.Valid() && 0 <= x < img.width && 0 <= y < img.height
  {
    Histogram(Window(img, x, y))
  }

  /** First coordinate of the window around c that lies inside 0..n-1. */
  function ClipLo(c: int): int {
    Max(c - SegSubDiameter, 0)
  }

  /** One past the last coordinate of the window around c that lies inside 0..n-1. */
  function ClipHi(c: int, n: int): int {
    Min(c + SegSubDiameter + 1, n)
  }

  /** Extent of the clipped window along one axis: between 1 and 31 cells. */
  function Span(c: int, n: int): (s: int)
    requires 0 <= c < n
    ensures 1 <= s <= 2 * SegSubDiameter + 1
  {
    ClipHi(c, n) - ClipLo(c)
  }

  /** Columns lo..hi-1 of row cy, a contiguous slice of the row-major buffer. */
  function RowSlice(img: Image, cy: int, lo: int, hi: int): (r: seq<Intensity>)
    requires img.Valid() && 0 <= cy < img.height && 0 <= lo <= hi <= img.width
    ensures |r| == hi - lo
  {
    RowInBuffer(img.width, img.height, cy);
    img.pixels[cy * img.width + lo .. cy * img.width + hi]
  }

  /**
   * Reference definition of the clipped window: columns x0..x1-1 of rows
   * cy..y1-1, as contiguous slices of the row-major buffer, top row first.
   */
  function RectRows(img: Image, x0: int, x1: int, cy: int, y1: int): (r: seq<Intensity>)
    requires img.Valid() && 0 <= x0 <= x1 <= img.width && 0 <= cy <= y1 <= img.height
    ensures |r| == (x1 - x0) * (y1 - cy)
    decreases y1 - cy
  {
    if cy == y1 then []
    else
      var rest := RectRows(img, x0, x1, cy + 1, y1);
      assert (x1 - x0) * (y1 - cy) == (x1 - x0) + (x1 - x0) * (y1 - (cy + 1));
      RowSlice(img, cy, x0, x1) + rest
  }

  /** A row of the window is the row's in-image columns of the window, as one slice. */
  lemma {:induction false} RowCellsSlice(img: Image, cy: int, x: int, cx: int)
    requires img.Valid() && 0 <= cy < img.height && 0 <= x < img.width
    requires x - SegSubDiameter <= cx <= x + SegSubDiameter + 1
    ensures var lo, hi := Max(cx, 0), ClipHi(x, img.width);
            RowCells(img, cy, cx, x + SegSubDiameter) == if lo < hi then RowSlice(img, cy, lo, hi) else []
    decreases x + SegSubDiameter + 1 - cx
  {
    RowInBuffer(img.width, img.height, cy);
    if cx <= x + SegSubDiameter {
      RowCellsSlice(img, cy, x, cx + 1);
      var base := cy * img.width;
      var hi := ClipHi(x, img.width);
      if 0 <= cx < img.width {
        assert img.pixels[base + cx .. base + hi] == [img.pixels[base + cx]] + img.pixels[base + cx + 1 .. base + hi];
      }
    }
  }

  /** The window's rows from cy on are the reference rectangle's rows from there on. */
  lemma {:induction false} WindowCellsRect(img: Image, x: int, y: int, cy: int)
    requires img.Valid() && 0 <= x < img.width && 0 <= y < img.height
    requires y - SegSubDiameter <= cy <= y + SegSubDiameter + 1
    ensures var lo, hi := Max(cy, 0), ClipHi(y, img.height);
            WindowCells(img, x - SegSubDiameter, x + SegSubDiameter, cy, y + SegSubDiameter) ==
              if lo < hi then RectRows(img, ClipLo(x), ClipHi(x, img.width), lo, hi) else []
    decreases y + SegSubDiameter + 1 - cy
  {
    if cy <= y + SegSubDiameter {
      WindowCellsRect(img, x, y, cy + 1);
      if 0 <= cy < img.height {
        RowCellsSlice(img, cy, x, x - SegSubDiameter);
      }
    }
  }

  /**
   * The window loops of pixel (x, y) count exactly the window rectangle
   * clipped to the image, row by row, so the local histogram is the
   * histogram of the cells the loops visit.
   */
  lemma LocalHistogramRect(img: Image, x: int, y: int)
    requires img.Valid() && 0 <= x < img.width && 0 <= y < img.height
    ensures LoopWindow(img, x, y) == Window(img, x, y)
    ensures LocalHistogram(img, x, y) == Histogram(LoopWindow(img, x, y))
  {
    WindowCellsRect(img, x, y, y - SegSubDiameter);
  }

  /**
   * The local histogram counts each cell of the clipped window once: at
   * least the pixel itself and at most 31 x 31 = 961 cells.
   */
  lemma LocalHistogramTotal(img: Image, x: int, y: int)
    requires img.Valid() && 0 <= x < img.width && 0 <= y < img.height
    ensures 1 <= Total(LocalHistogram(img, x, y)) <= 961
    ensures Total(LocalHistogram(img, x, y)) == Span(x, img.width) * Span(y, img.height)
  {
    var x0, x1, y0, y1 := ClipLo(x), ClipHi(x, img.width), ClipLo(y), ClipHi(y, img.height);
    var rect := Window(img, x, y);
    var sx, sy := Span(x, img.width), Span(y, img.height);
    assert |rect| == sx * sy;
    HistogramTotal(rect);
    SpanProduct(sx, sy);
  }

  lemma SpanProduct(sx: int, sy: int)
    requires 1 <= sx <= 31 && 1 <= sy <= 31
    ensures 1 <= sx * sy <= 961
  {
    MulMonotone(sx, 31, sy);
    MulMonotone(sy, 31, 31);
    MulMonotone(1, sx, sy);
  }
}
