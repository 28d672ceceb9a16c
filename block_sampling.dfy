/** The two block-density samplers of CharacterImage: `discretizeLines`
    (disjoint pointSize x pointSize tiles, reduced resolution) and
    `boxizeLines` (a window that moves one pixel per output cell, same
    resolution). Both count pure-black pixels in a square block and compare
    the ink fraction with `pointDensity`. */
module BlockSampling {
  import opened Pixels

  /** `DEFAULT_POINT_SIZE`: side of the sampled block. */
  const DefaultPointSize: nat := 2
  /** `DEFAULT_POINT_DENSITY`: smallest ink fraction that marks a block. */
  const DefaultPointDensity: real := 0.75

  // ---------------------------------------------------------------------
  // The counting specification shared by both modes
  // ---------------------------------------------------------------------

  /** The guarded test of the inner loops: the index lies inside the buffer
      and holds a pure-black pixel. */
  predicate IsInk(p: seq<byte>, index: nat)
  {
    index < |p| && p[index] == 0
  }

  /** Ink pixels among the n consecutive indices start, ..., start + n - 1
      (one window row: in row-major order its pixels are adjacent). */
  function SpanInk(p: seq<byte>, start: nat, n: nat): nat
  {
    if n == 0 then 0
    else SpanInk(p, start, n - 1) + (if IsInk(p, start + n - 1) then 1 else 0)
  }

  /** Ink pixels in the first m rows of the size x size window whose top-left
      pixel is (row, col). */
  function WindowInk(p: seq<byte>, width: nat, row: nat, col: nat, size: nat, m: nat): nat
  {
    if m == 0 then 0
    else WindowInk(p, width, row, col, size, m - 1)
         + SpanInk(p, RowColToIndex(row + m - 1, col, width), size)
  }

  /** `pixelCount` after both offset loops for the block anchored at (row, col). */
  function BlockInk(p: seq<byte>, width: nat, row: nat, col: nat, size: nat): nat
  {
    WindowInk(p, width, row, col, size, size)
  }

  /** The threshold test `pixelCount / (double)(pointSize * pointSize) >= pointDensity`
      over exact reals. A zero point size divides 0 by 0.0 in Java, giving NaN,
      and every comparison with NaN is false. */
  predicate Dense(count: nat, size: nat, density: real)
  {
    size > 0 && (count as real) / ((size * size) as real) >= density
  }

  /** The two offset loops shared by both modes: count the pure-black pixels
      at addresses `(top + i) * width + (left + j)`, 0 <= i, j < size, skipping
      addresses at or past the end of the buffer. */
  method CountBlockInk(pixels: array<byte>, width: nat, top: nat, left: nat, size: nat)
    returns (pixelCount: nat)
    ensures pixelCount == BlockInk(pixels[..], width, top, left, size)
  {
    pixelCount := 0;
    for pointRowOffset := 0 to size
      invariant pixelCount == WindowInk(pixels[..], width, top, left, size, pointRowOffset)
    {
      ghost var start := RowColToIndex(top + pointRowOffset, left, width);
      for pointColOffset := 0 to size
        invariant pixelCount == WindowInk(pixels[..], width, top, left, size, pointRowOffset)
                                + SpanInk(pixels[..], start, pointColOffset)
      {
        var index := RowColToIndex(top + pointRowOffset, left + pointColOffset, width);
        if index < pixels.Length && pixels[index] == 0 {
          pixelCount := pixelCount + 1;
        }
      }
    }
  }

  // ---------------------------------------------------------------------
  // Sliding window: boxizeLines
  // ---------------------------------------------------------------------

  /** Value of the boxized cell at address k: cells of the complete rows hold
      the window test anchored at that pixel; a trailing partial row is never
      visited and stays false. */
  predicate BoxCell(p: seq<byte>, width: nat, size: nat, density: real, k: nat)
    requires width > 0
  {
    k < Height(|p|, width) * width
    && Dense(BlockInk(p, width, k / width, k % width, size), size, density)
  }

  /** The grid `boxizeLines` returns, as a value. */
  function Boxized(p: seq<byte>, width: nat, size: nat, density: real): seq<bool>
    requires width > 0
  {
    seq(|p|, k requires 0 <= k < |p| => BoxCell(p, width, size, density, k))
  }

  /** `boxizeLines(pixels, imageWidth, pointSize, pointDensity)`. */
  method BoxizeLines(pixels: array<byte>, imageWidth: nat, pointSize: nat, pointDensity: real)
    returns (points: array<bool>)
    requires imageWidth > 0
    ensures fresh(points)
    ensures points.Length == pixels.Length
    ensures points[..] == Boxized(pixels[..], imageWidth, pointSize, pointDensity)
  {
    ghost var p := pixels[..];
    points := new bool[pixels.Length](_ => false);
    var height := pixels.Length / imageWidth;
    HeightFits(pixels.Length, imageWidth);
    for row := 0 to height
      invariant forall k :: 0 <= k < points.Length ==>
        points[k] == (k < row * imageWidth && BoxCell(p, imageWidth, pointSize, pointDensity, k))
    {
      for col := 0 to imageWidth
        invariant forall k :: 0 <= k < points.Length ==>
          points[k] == (k < row * imageWidth + col && BoxCell(p, imageWidth, pointSize, pointDensity, k))
      {
        var pixelCount := CountBlockInk(pixels, imageWidth, row, col, pointSize);
        IndexInBounds(row, col, imageWidth, height);
        IndexDecodes(row, col, imageWidth);
        if Dense(pixelCount, pointSize, pointDensity) {
          points[RowColToIndex(row, col, imageWidth)] := true;
        }
      }
      assert row * imageWidth + imageWidth == (row + 1) * imageWidth;
    }
    assert forall k :: 0 <= k < points.Length ==> points[k] == Boxized(p, imageWidth, pointSize, pointDensity)[k];
  }

  /** `boxizeLines(pixels, imageWidth)`: a 2 x 2 window is marked when at least
      three of the four pixels it reads are ink. */
  method BoxizeLinesDefault(pixels: array<byte>, imageWidth: nat) returns (points: array<bool>)
    requires imageWidth > 0
    ensures fresh(points)
    ensures points.Length == pixels.Length
    ensures forall k :: 0 <= k < points.Length ==>
      points[k] == (k < Height(pixels.Length, imageWidth) * imageWidth
                    && BlockInk(pixels[..], imageWidth, k / imageWidth, k % imageWidth, 2) >= 3)
  {
    points := BoxizeLines(pixels, imageWidth, DefaultPointSize, DefaultPointDensity);
    forall c: nat ensures Dense(c, DefaultPointSize, DefaultPointDensity) <==> c >= 3 {
      DefaultThreshold(c);
    }
  }

  // ---------------------------------------------------------------------
  // Tiling: discretizeLines
  // ---------------------------------------------------------------------

  /** `newWidth = imageWidth / pointSize`. */
  function TileColumns(width: nat, size: nat): nat
    requires size > 0
  {
    width / size
  }

  /** `newHeight = pixels.length / imageWidth / pointSize`. */
  function TileRows(n: nat, width: nat, size: nat): nat
    requires width > 0 && size > 0
  {
    Height(n, width) / size
  }

  /** Address of pixel (i, j) of tile (row, col): image pixel
      (row * size + i, col * size + j). */
  function TileAddress(width: nat, size: nat, row: nat, col: nat, i: nat, j: nat): nat
  {
    RowColToIndex(row * size + i, col * size + j, width)
  }

  /** `pixelCount` for tile (row, col): the block anchored at image pixel
      (row * size, col * size). */
  function TileInk(p: seq<byte>, width: nat, size: nat, row: nat, col: nat): nat
  {
    BlockInk(p, width, row * size, col * size, size)
  }

  /** Value of the tiled cell at output address k (rows of `TileColumns` cells). */
  predicate TileAt(p: seq<byte>, width: nat, size: nat, density: real, k: nat)
    requires size > 0
  {
    var newWidth := TileColumns(width, size);
    newWidth > 0 && Dense(TileInk(p, width, size, k / newWidth, k % newWidth), size, density)
  }

  /** The grid `discretizeLines` returns, as a value. */
  function Discretized(p: seq<byte>, width: nat, size: nat, density: real): seq<bool>
    requires width > 0 && size > 0
  {
    seq(TileColumns(width, size) * TileRows(|p|, width, size),
        k requires 0 <= k => TileAt(p, width, size, density, k))
  }

  /** `discretizeLines(pixels, imageWidth, pointSize, pointDensity)`. */
  method DiscretizeLines(pixels: array<byte>, imageWidth: nat, pointSize: nat, pointDensity: real)
    returns (points: array<bool>)
    requires imageWidth > 0 && pointSize > 0
    ensures fresh(points)
    ensures points.Length == (imageWidth / pointSize) * (pixels.Length / imageWidth / pointSize)
    ensures points[..] == Discretized(pixels[..], imageWidth, pointSize, pointDensity)
  {
    ghost var p := pixels[..];
    var newWidth := TileColumns(imageWidth, pointSize);
    var newHeight := TileRows(pixels.Length, imageWidth, pointSize);
    points := new bool[newWidth * newHeight](_ => false);
    assert points.Length == newHeight * newWidth;
    for row := 0 to newHeight
      invariant forall k :: 0 <= k < points.Length ==>
        points[k] == (k < row * newWidth && TileAt(p, imageWidth, pointSize, pointDensity, k))
    {
      for col := 0 to newWidth
        invariant forall k :: 0 <= k < points.Length ==>
          points[k] == (k < row * newWidth + col && TileAt(p, imageWidth, pointSize, pointDensity, k))
      {
        var pixelCount := CountBlockInk(pixels, imageWidth, row * pointSize, col * pointSize, pointSize);
        IndexInBounds(row, col, newWidth, newHeight);
        IndexDecodes(row, col, newWidth);
        if Dense(pixelCount, pointSize, pointDensity) {
          points[RowColToIndex(row, col, newWidth)] := true;
        }
      }
      assert row * newWidth + newWidth == (row + 1) * newWidth;
    }
    assert forall k :: 0 <= k < points.Length ==> points[k] == Discretized(p, imageWidth, pointSize, pointDensity)[k];
  }

  /** `discretizeLines(pixels, imageWidth)`: 2 x 2 tiles, each marked when at
      least three of its four pixels are ink. */
  method DiscretizeLinesDefault(pixels: array<byte>, imageWidth: nat) returns (points: array<bool>)
    requires imageWidth > 0
    ensures fresh(points)
    ensures points.Length == TileColumns(imageWidth, 2) * TileRows(pixels.Length, imageWidth, 2)
    ensures forall row, col :: 0 <= row < TileRows(pixels.Length, imageWidth, 2) && 0 <= col < TileColumns(imageWidth, 2) ==>
      RowColToIndex(row, col, TileColumns(imageWidth, 2)) < points.Length
      && points[RowColToIndex(row, col, TileColumns(imageWidth, 2))] == (TileInk(pixels[..], imageWidth, 2, row, col) >= 3)
  {
    points := DiscretizeLines(pixels, imageWidth, DefaultPointSize, DefaultPointDensity);
    forall row, col | 0 <= row < TileRows(pixels.Length, imageWidth, 2) && 0 <= col < TileColumns(imageWidth, 2)
      ensures RowColToIndex(row, col, TileColumns(imageWidth, 2)) < points.Length
      ensures points[RowColToIndex(row, col, TileColumns(imageWidth, 2))] == (TileInk(pixels[..], imageWidth, 2, row, col) >= 3)
    {
      DiscretizedCell(pixels[..], imageWidth, 2, DefaultPointDensity, row, col);
      DefaultThreshold(TileInk(pixels[..], imageWidth, 2, row, col));
    }
  }

  // ---------------------------------------------------------------------
  // Properties
  // ---------------------------------------------------------------------

  /** The fraction test is the scaled integer comparison count >= density * size^2. */
  lemma DenseIffScaled(count: nat, size: nat, density: real)
    ensures Dense(count, size, density) <==> size > 0 && count as real >= density * (size * size) as real
  {
    if size > 0 {
      var area := (size * size) as real;
      assert area > 0.0;
      assert (count as real) / area * area == count as real;
      if count as real >= density * area {
        assert (count as real) / area >= density;
      }
    }
  }

  /** With the default block of 2 x 2 and density 0.75, a block is marked
      exactly when it holds at least three ink pixels. */
  lemma DefaultThreshold(count: nat)
    ensures Dense(count, DefaultPointSize, DefaultPointDensity) <==> count >= 3
  {
    DenseIffScaled(count, DefaultPointSize, DefaultPointDensity);
  }

  /** A span of n pixels holds at most n ink pixels. */
  lemma {:induction false} SpanInkBounded(p: seq<byte>, start: nat, n: nat)
    ensures SpanInk(p, start, n) <= n
  {
    if n > 0 {
      SpanInkBounded(p, start, n - 1);
    }
  }

  /** m window rows of a size-wide window hold at most m * size ink pixels,
      so the ink fraction of a block never exceeds 1. */
  lemma {:induction false} WindowInkBounded(p: seq<byte>, width: nat, row: nat, col: nat, size: nat, m: nat)
    ensures WindowInk(p, width, row, col, size, m) <= m * size
  {
    if m > 0 {
      WindowInkBounded(p, width, row, col, size, m - 1);
      SpanInkBounded(p, RowColToIndex(row + m - 1, col, width), size);
      assert (m - 1) * size + size == m * size;
    }
  }

  /** The set of window offsets (i, j), i < m, j < size, whose pixel
      `(row + i) * width + (col + j)` lies inside the buffer and is pure black. */
  function WindowInkOffsets(p: seq<byte>, width: nat, row: nat, col: nat, size: nat, m: nat): set<(nat, nat)>
  {
    set i: nat, j: nat | i < m && j < size && IsInk(p, RowColToIndex(row + i, col + j, width)) :: (i, j)
  }

  /** The offsets (i, j), j < n, of the ink pixels among the n consecutive
      addresses start, ..., start + n - 1 (window row i). */
  function RowInkOffsets(p: seq<byte>, start: nat, i: nat, n: nat): set<(nat, nat)>
  {
    set j: nat | j < n && IsInk(p, start + j) :: (i, j)
  }

  /** Counting a window row's ink offsets gives the loop count `SpanInk`. */
  lemma {:induction false} RowInkOffsetsCount(p: seq<byte>, start: nat, i: nat, n: nat)
    ensures |RowInkOffsets(p, start, i, n)| == SpanInk(p, start, n)
  {
    if n > 0 {
      RowInkOffsetsCount(p, start, i, n - 1);
      var prev := RowInkOffsets(p, start, i, n - 1);
      if IsInk(p, start + n - 1) {
        assert RowInkOffsets(p, start, i, n) == prev + {(i, n - 1)};
      } else {
        assert RowInkOffsets(p, start, i, n) == prev;
      }
    }
  }

  /** The ink offsets of the first m window rows are those of the first
      m - 1 rows plus, disjointly, those of row m - 1. */
  lemma WindowInkOffsetsSplit(p: seq<byte>, width: nat, row: nat, col: nat, size: nat, m: nat)
    requires m > 0
    ensures var start := RowColToIndex(row + m - 1, col, width);
            WindowInkOffsets(p, width, row, col, size, m)
            == WindowInkOffsets(p, width, row, col, size, m - 1) + RowInkOffsets(p, start, m - 1, size)
    ensures WindowInkOffsets(p, width, row, col, size, m - 1)
            !! RowInkOffsets(p, RowColToIndex(row + m - 1, col, width), m - 1, size)
  {
    var start := RowColToIndex(row + m - 1, col, width);
    var prev := WindowInkOffsets(p, width, row, col, size, m - 1);
    var last := RowInkOffsets(p, start, m - 1, size);
    var whole := WindowInkOffsets(p, width, row, col, size, m);
    forall x | x in whole ensures x in prev + last {
      if x.0 == m - 1 {
        assert RowColToIndex(row + x.0, col + x.1, width) == start + x.1;
        assert x in last;
      } else {
        assert x in prev;
      }
    }
    forall x | x in prev + last ensures x in whole {
      if x in last {
        assert x.0 == m - 1 && RowColToIndex(row + x.0, col + x.1, width) == start + x.1;
      }
    }
  }

  /** Counting the window's ink offsets gives the loop count `WindowInk`. */
  lemma {:induction false} WindowInkOffsetsCount(p: seq<byte>, width: nat, row: nat, col: nat, size: nat, m: nat)
    ensures |WindowInkOffsets(p, width, row, col, size, m)| == WindowInk(p, width, row, col, size, m)
  {
    if m == 0 {
      assert WindowInkOffsets(p, width, row, col, size, m) == {};
    } else {
      WindowInkOffsetsCount(p, width, row, col, size, m - 1);
      RowInkOffsetsCount(p, RowColToIndex(row + m - 1, col, width), m - 1, size);
      WindowInkOffsetsSplit(p, width, row, col, size, m);
    }
  }

  /** The sliding-window cell at pixel (row, col) of the image is true iff
      the number of pure-black pixels at in-buffer addresses
      `(row + i) * width + (col + j)`, 0 <= i, j < size, is at least
      density * size^2. Addresses past the end of a row continue on the next
      row; only addresses past the end of the buffer are skipped. */
  lemma BoxizedCell(p: seq<byte>, width: nat, size: nat, density: real, row: nat, col: nat)
    requires width > 0 && row < Height(|p|, width) && col < width
    ensures RowColToIndex(row, col, width) < |Boxized(p, width, size, density)|
    ensures Boxized(p, width, size, density)[RowColToIndex(row, col, width)]
            <==> size > 0 && |WindowInkOffsets(p, width, row, col, size, size)| as real >= density * (size * size) as real
  {
    IndexInBounds(row, col, width, Height(|p|, width));
    HeightFits(|p|, width);
    IndexDecodes(row, col, width);
    WindowInkOffsetsCount(p, width, row, col, size, size);
    DenseIffScaled(BlockInk(p, width, row, col, size), size, density);
  }

  /** Cells past the last complete image row are never marked. */
  lemma BoxizedTrailingCellsFalse(p: seq<byte>, width: nat, size: nat, density: real, k: nat)
    requires width > 0 && Height(|p|, width) * width <= k < |p|
    ensures !Boxized(p, width, size, density)[k]
  {
  }

  /** A window at the right edge reads on into the start of the next row.
      In this 2 x 2 image column 1 holds no ink, yet the 2 x 2 window anchored
      at (0, 1) reads address 2, the ink pixel (1, 0), so it counts one ink
      pixel and with density 0.25 the cell is marked. */
  lemma BoxizeRightEdgeReadsNextRow(p: seq<byte>)
    requires p == [0xFF, 0xFF, 0, 0xFF]
    ensures p[RowColToIndex(0, 1, 2)] != 0 && p[RowColToIndex(1, 1, 2)] != 0
    ensures BlockInk(p, 2, 0, 1, 2) == 1
    ensures Boxized(p, 2, 2, 0.25)[RowColToIndex(0, 1, 2)]
  {
    assert !IsInk(p, 1) && IsInk(p, 2) && !IsInk(p, 3) && !IsInk(p, 4);
    assert SpanInk(p, 1, 1) == 0 && SpanInk(p, 3, 1) == 0;
    assert WindowInk(p, 2, 0, 1, 2, 1) == SpanInk(p, 1, 2) == 1;
    assert SpanInk(p, 3, 2) == 0;
    IndexDecodes(0, 1, 2);
  }

  /** Tile (row, col) of the output holds the block test of that tile. */
  lemma DiscretizedCell(p: seq<byte>, width: nat, size: nat, density: real, row: nat, col: nat)
    requires width > 0 && size > 0
    requires row < TileRows(|p|, width, size) && col < TileColumns(width, size)
    ensures RowColToIndex(row, col, TileColumns(width, size)) < |Discretized(p, width, size, density)|
    ensures Discretized(p, width, size, density)[RowColToIndex(row, col, TileColumns(width, size))]
            == Dense(TileInk(p, width, size, row, col), size, density)
  {
    IndexInBounds(row, col, TileColumns(width, size), TileRows(|p|, width, size));
    IndexDecodes(row, col, TileColumns(width, size));
  }

  /** Every address that `discretizeLines` reads for tile (row, col) lies inside
      the complete rows of the buffer, at image pixel (row * size + i,
      col * size + j), which belongs to that tile's own block: its image row
      divided by the size is row and its image column divided by the size is
      col. So the `index < pixels.length` guard never skips a read. */
  lemma DiscretizeReadsOwnBlock(p: seq<byte>, width: nat, size: nat, row: nat, col: nat, i: nat, j: nat)
    requires width > 0 && size > 0
    requires row < TileRows(|p|, width, size) && col < TileColumns(width, size)
    requires i < size && j < size
    ensures TileAddress(width, size, row, col, i, j) < Height(|p|, width) * width <= |p|
    ensures TileAddress(width, size, row, col, i, j) / width == row * size + i
    ensures TileAddress(width, size, row, col, i, j) % width == col * size + j
    ensures TileAddress(width, size, row, col, i, j) / width / size == row
    ensures TileAddress(width, size, row, col, i, j) % width / size == col
  {
    var h := Height(|p|, width);
    BlockCoordinate(row, i, size, h);
    BlockCoordinate(col, j, size, width);
    IndexInBounds(row * size + i, col * size + j, width, h);
    IndexDecodes(row * size + i, col * size + j, width);
    HeightFits(|p|, width);
  }

  /** Distinct tiles read disjoint blocks. */
  lemma DiscretizeBlocksDisjoint(p: seq<byte>, width: nat, size: nat,
                                 row: nat, col: nat, i: nat, j: nat,
                                 row': nat, col': nat, i': nat, j': nat)
    requires width > 0 && size > 0
    requires row < TileRows(|p|, width, size) && col < TileColumns(width, size)
    requires row' < TileRows(|p|, width, size) && col' < TileColumns(width, size)
    requires i < size && j < size && i' < size && j' < size
    requires TileAddress(width, size, row, col, i, j) == TileAddress(width, size, row', col', i', j')
    ensures row == row' && col == col'
  {
    DiscretizeReadsOwnBlock(p, width, size, row, col, i, j);
    DiscretizeReadsOwnBlock(p, width, size, row', col', i', j');
  }

  /** Tile (row, col) of the tiling equals the sliding-window cell at its
      top-left pixel: both modes apply the same block test, tiling just
      samples every size-th window. */
  lemma DiscretizedSamplesBoxized(p: seq<byte>, width: nat, size: nat, density: real, row: nat, col: nat)
    requires width > 0 && size > 0
    requires row < TileRows(|p|, width, size) && col < TileColumns(width, size)
    ensures RowColToIndex(row, col, TileColumns(width, size)) < |Discretized(p, width, size, density)|
    ensures TileAddress(width, size, row, col, 0, 0) < |Boxized(p, width, size, density)|
    ensures Discretized(p, width, size, density)[RowColToIndex(row, col, TileColumns(width, size))]
            == Boxized(p, width, size, density)[TileAddress(width, size, row, col, 0, 0)]
  {
    DiscretizedCell(p, width, size, density, row, col);
    DiscretizeReadsOwnBlock(p, width, size, row, col, 0, 0);
  }

  /** A span that starts past the only ink pixel, address 0, holds no ink. */
  lemma {:induction false} SpanInkPastFirstPixel(p: seq<byte>, start: nat, n: nat)
    requires forall k :: 1 <= k < |p| ==> p[k] == Background
    requires start >= 1
    ensures SpanInk(p, start, n) == 0
  {
    if n > 0 {
      SpanInkPastFirstPixel(p, start, n - 1);
    }
  }

  /** Tiled with the defaults, a 4 x 4 white image whose only black pixel is
      (0, 0) gives a 2 x 2 grid of unmarked tiles: the corner tile holds one
      ink pixel out of four, short of three. */
  lemma SingleInkPixelDiscretized(p: seq<byte>)
    requires |p| == 16 && p[0] == 0
    requires forall k :: 1 <= k < 16 ==> p[k] == Background
    ensures Discretized(p, 4, DefaultPointSize, DefaultPointDensity) == [false, false, false, false]
  {
    forall row: nat, col: nat | row < 2 && col < 2
      ensures !Dense(TileInk(p, 4, 2, row, col), DefaultPointSize, DefaultPointDensity)
    {
      var first := RowColToIndex(row * 2, col * 2, 4);
      var second := RowColToIndex(row * 2 + 1, col * 2, 4);
      assert !IsInk(p, first + 1);
      SpanInkPastFirstPixel(p, second, 2);
      assert SpanInk(p, first, 1) <= 1;
      assert SpanInk(p, first, 2) == SpanInk(p, first, 1);
      assert WindowInk(p, 4, row * 2, col * 2, 2, 1) == SpanInk(p, first, 2);
      assert TileInk(p, 4, 2, row, col) == SpanInk(p, first, 2) + SpanInk(p, second, 2);
      DefaultThreshold(TileInk(p, 4, 2, row, col));
    }
    var d := Discretized(p, 4, DefaultPointSize, DefaultPointDensity);
    forall k | 0 <= k < 4 ensures !d[k] {
      DiscretizedCell(p, 4, 2, DefaultPointDensity, k / 2, k % 2);
    }
  }
}
