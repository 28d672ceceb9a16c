/** `getDensityMap`: the fraction of ink in each cell of a rows x cols grid
    laid over the image. Every cell covers rowDelta = height / rows image rows
    and colDelta = width / cols image columns; pixels below row
    rows * rowDelta or right of column cols * colDelta belong to no cell. */
module DensityMap {
  import opened Pixels

  // ---------------------------------------------------------------------
  // Region density (the role of `ImageUtils.density`)
  // ---------------------------------------------------------------------

  /** A pixel counts as ink when its intensity is strictly below the white threshold. */
  predicate Below(b: byte, whiteThreshold: int)
  {
    (b as int) < whiteThreshold
  }

  /** Ink pixels among the n consecutive addresses start, ..., start + n - 1. */
  function SpanBelow(p: seq<byte>, start: nat, n: nat, whiteThreshold: int): nat
    requires start + n <= |p|
  {
    if n == 0 then 0
    else SpanBelow(p, start, n - 1, whiteThreshold) + (if Below(p[start + n - 1], whiteThreshold) then 1 else 0)
  }

  /** A run of n pixels of image row `row` starting at column `left` lies inside the buffer. */
  lemma RowSpanFits(p: seq<byte>, width: nat, row: nat, left: nat, n: nat)
    requires width > 0 && row < Height(|p|, width) && left + n <= width
    ensures RowColToIndex(row, left, width) + n <= |p|
  {
    IndexInBounds(row, 0, width, Height(|p|, width));
    HeightFits(|p|, width);
  }

  /** Ink pixels in the region of image rows top, ..., top + rowCount - 1 and
      image columns left, ..., left + colCount - 1. */
  function RegionBelow(p: seq<byte>, width: nat, top: nat, rowCount: nat, left: nat, colCount: nat,
                       whiteThreshold: int): nat
    requires width > 0 && top + rowCount <= Height(|p|, width) && left + colCount <= width
  {
    if rowCount == 0 then 0
    else
      RowSpanFits(p, width, top + rowCount - 1, left, colCount);
      RegionBelow(p, width, top, rowCount - 1, left, colCount, whiteThreshold)
      + SpanBelow(p, RowColToIndex(top + rowCount - 1, left, width), colCount, whiteThreshold)
  }

  /** The density of a non-empty region: the fraction of its pixels that are ink. */
  function Density(p: seq<byte>, width: nat, top: nat, rowCount: nat, left: nat, colCount: nat,
                   whiteThreshold: int): real
    requires width > 0 && top + rowCount <= Height(|p|, width) && left + colCount <= width
    requires rowCount > 0 && colCount > 0
  {
    RegionBelow(p, width, top, rowCount, left, colCount, whiteThreshold) as real
      / (rowCount * colCount) as real
  }

  /** A count out of a positive total is a fraction in [0, 1], and it is 1
      exactly when the count is the total. */
  lemma Fraction(count: nat, total: nat)
    requires 0 < total && count <= total
    ensures 0.0 <= count as real / total as real <= 1.0
    ensures count as real / total as real == 1.0 <==> count == total
  {
    var q := count as real / total as real;
    assert q * total as real == count as real;
  }

  // ---------------------------------------------------------------------
  // The grid partition
  // ---------------------------------------------------------------------

  /** Image pixel (y, x) lies in cell (r, c) of a grid whose cells are
      rowDelta x colDelta pixels. */
  predicate InCell(rowDelta: nat, colDelta: nat, r: nat, c: nat, y: nat, x: nat)
  {
    r * rowDelta <= y < r * rowDelta + rowDelta && c * colDelta <= x < c * colDelta + colDelta
  }

  /** Cell r of n cells of size delta = total / n ends within the covered span n * delta, itself within total. */
  lemma CellSpanFits(r: nat, n: nat, total: nat)
    requires r < n
    ensures r * (total / n) + total / n <= n * (total / n) <= total
  {
    MulMonotone(r + 1, n, total / n);
    assert (r + 1) * (total / n) == r * (total / n) + total / n;
  }

  /** The density of cell (r, c) of a rows x cols grid over the image. */
  function CellDensity(p: seq<byte>, width: nat, rows: nat, cols: nat, whiteThreshold: int, r: nat, c: nat): real
    requires width > 0 && r < rows && c < cols
    requires Height(|p|, width) / rows > 0 && width / cols > 0
  {
    var rowDelta, colDelta := Height(|p|, width) / rows, width / cols;
    CellSpanFits(r, rows, Height(|p|, width));
    CellSpanFits(c, cols, width);
    Density(p, width, r * rowDelta, rowDelta, c * colDelta, colDelta, whiteThreshold)
  }

  /** A buffer of width * height pixels has height complete rows. */
  lemma BufferHeight(n: nat, width: nat, height: nat)
    requires width > 0 && n == width * height
    ensures Height(n, width) == height
  {
    assert n == RowColToIndex(height, 0, width);
    IndexDecodes(height, 0, width);
  }

  /** When the grid is not finer than the image, the image has columns and
      the buffer holds exactly its height rows. */
  lemma GridFitsBuffer(n: nat, width: nat, height: nat, rows: nat, cols: nat)
    requires n == width * height && rows > 0 && cols > 0
    requires height / rows > 0 && width / cols > 0
    ensures width > 0 && Height(n, width) == height
  {
    if width > 0 {
      BufferHeight(n, width, height);
    }
  }

  /** The cell loop of `getDensityMap`: cell (row, col) gets the density of
      the rowDelta x colDelta region whose top-left pixel is
      (row * rowDelta, col * colDelta). */
  method FillDensityMap(pixels: array<byte>, width: nat, whiteThreshold: int, grid: array2<real>)
    requires width > 0 && grid.Length0 > 0 && grid.Length1 > 0
    requires Height(pixels.Length, width) / grid.Length0 > 0 && width / grid.Length1 > 0
    modifies grid
    ensures forall r, c :: 0 <= r < grid.Length0 && 0 <= c < grid.Length1 ==>
      grid[r, c] == CellDensity(pixels[..], width, grid.Length0, grid.Length1, whiteThreshold, r, c)
  {
    ghost var p := pixels[..];
    var rows, cols := grid.Length0, grid.Length1;
    var height := pixels.Length / width;
    var rowDelta := height / rows;
    var colDelta := width / cols;
    for row := 0 to rows
      invariant forall r, c :: 0 <= r < row && 0 <= c < cols ==>
        grid[r, c] == CellDensity(p, width, rows, cols, whiteThreshold, r, c)
    {
      for col := 0 to cols
        invariant forall r, c :: 0 <= r < row && 0 <= c < cols ==>
          grid[r, c] == CellDensity(p, width, rows, cols, whiteThreshold, r, c)
        invariant forall c :: 0 <= c < col ==>
          grid[row, c] == CellDensity(p, width, rows, cols, whiteThreshold, row, c)
      {
        CellSpanFits(row, rows, height);
        CellSpanFits(col, cols, width);
        grid[row, col] := Density(pixels[..], width, row * rowDelta, rowDelta, col * colDelta, colDelta, whiteThreshold);
      }
    }
  }

  /** `getDensityMap(image, rows, cols, whiteThreshold)`, given the image's
      pixel buffer and dimensions. A grid finer than the image yields null. */
  method GetDensityMap(pixels: array<byte>, width: nat, height: nat, rows: nat, cols: nat, whiteThreshold: int)
    returns (densityMap: array2?<real>)
    requires pixels.Length == width * height
    requires rows > 0 && cols > 0
    ensures densityMap == null <==> height / rows == 0 || width / cols == 0
    ensures densityMap != null ==> fresh(densityMap)
    ensures densityMap != null ==>
      width > 0 && Height(pixels.Length, width) == height && height / rows > 0 && width / cols > 0
      && densityMap.Length0 == rows && densityMap.Length1 == cols
      && forall r, c :: 0 <= r < rows && 0 <= c < cols ==>
           densityMap[r, c] == CellDensity(pixels[..], width, rows, cols, whiteThreshold, r, c)
  {
    var rowDelta := height / rows;
    var colDelta := width / cols;
    if rowDelta == 0 || colDelta == 0 {
      return null;
    }
    GridFitsBuffer(pixels.Length, width, height, rows, cols);
    var grid := new real[rows, cols]((_, _) => 0.0);
    FillDensityMap(pixels, width, whiteThreshold, grid);
    densityMap := grid;
  }

  // ---------------------------------------------------------------------
  // Properties
  // ---------------------------------------------------------------------

  lemma {:induction false} SpanBelowBounded(p: seq<byte>, start: nat, n: nat, whiteThreshold: int)
    requires start + n <= |p|
    ensures SpanBelow(p, start, n, whiteThreshold) <= n
  {
    if n > 0 {
      SpanBelowBounded(p, start, n - 1, whiteThreshold);
    }
  }

  lemma {:induction false} RegionBelowBounded(p: seq<byte>, width: nat, top: nat, rowCount: nat, left: nat,
                                              colCount: nat, whiteThreshold: int)
    requires width > 0 && top + rowCount <= Height(|p|, width) && left + colCount <= width
    ensures RegionBelow(p, width, top, rowCount, left, colCount, whiteThreshold) <= rowCount * colCount
  {
    if rowCount > 0 {
      RegionBelowBounded(p, width, top, rowCount - 1, left, colCount, whiteThreshold);
      RowSpanFits(p, width, top + rowCount - 1, left, colCount);
      SpanBelowBounded(p, RowColToIndex(top + rowCount - 1, left, width), colCount, whiteThreshold);
      assert (rowCount - 1) * colCount + colCount == rowCount * colCount;
    }
  }

  /** Every density is a fraction in [0, 1]. */
  lemma DensityInUnitInterval(p: seq<byte>, width: nat, top: nat, rowCount: nat, left: nat, colCount: nat,
                              whiteThreshold: int)
    requires width > 0 && top + rowCount <= Height(|p|, width) && left + colCount <= width
    requires rowCount > 0 && colCount > 0
    ensures 0.0 <= Density(p, width, top, rowCount, left, colCount, whiteThreshold) <= 1.0
  {
    RegionBelowBounded(p, width, top, rowCount, left, colCount, whiteThreshold);
    MulMonotone(1, rowCount, colCount);
    Fraction(RegionBelow(p, width, top, rowCount, left, colCount, whiteThreshold), rowCount * colCount);
  }

  lemma {:induction false} SpanBelowAll(p: seq<byte>, start: nat, n: nat, whiteThreshold: int)
    requires start + n <= |p|
    requires forall i :: start <= i < start + n ==> Below(p[i], whiteThreshold)
    ensures SpanBelow(p, start, n, whiteThreshold) == n
  {
    if n > 0 {
      SpanBelowAll(p, start, n - 1, whiteThreshold);
    }
  }

  lemma {:induction false} RegionBelowAll(p: seq<byte>, width: nat, top: nat, rowCount: nat, left: nat,
                                          colCount: nat, whiteThreshold: int)
    requires width > 0 && top + rowCount <= Height(|p|, width) && left + colCount <= width
    requires forall i :: 0 <= i < |p| ==> Below(p[i], whiteThreshold)
    ensures RegionBelow(p, width, top, rowCount, left, colCount, whiteThreshold) == rowCount * colCount
  {
    if rowCount > 0 {
      RegionBelowAll(p, width, top, rowCount - 1, left, colCount, whiteThreshold);
      RowSpanFits(p, width, top + rowCount - 1, left, colCount);
      SpanBelowAll(p, RowColToIndex(top + rowCount - 1, left, width), colCount, whiteThreshold);
      assert (rowCount - 1) * colCount + colCount == rowCount * colCount;
    }
  }

  /** An image whose every pixel is ink has density 1 in every cell. */
  lemma AllInkImageHasFullDensity(p: seq<byte>, width: nat, rows: nat, cols: nat, whiteThreshold: int, r: nat, c: nat)
    requires width > 0 && r < rows && c < cols
    requires Height(|p|, width) / rows > 0 && width / cols > 0
    requires forall i :: 0 <= i < |p| ==> Below(p[i], whiteThreshold)
    ensures CellDensity(p, width, rows, cols, whiteThreshold, r, c) == 1.0
  {
    var rowDelta, colDelta := Height(|p|, width) / rows, width / cols;
    CellSpanFits(r, rows, Height(|p|, width));
    CellSpanFits(c, cols, width);
    RegionBelowAll(p, width, r * rowDelta, rowDelta, c * colDelta, colDelta, whiteThreshold);
    MulMonotone(1, rowDelta, colDelta);
    Fraction(rowDelta * colDelta, rowDelta * colDelta);
  }

  /** The grid is degenerate (null) exactly when it is finer than the image. */
  lemma DegenerateIffFinerThanImage(width: nat, height: nat, rows: nat, cols: nat)
    requires rows > 0 && cols > 0
    ensures height / rows == 0 || width / cols == 0 <==> height < rows || width < cols
  {
    if height >= rows {
      MulMonotone(1, height / rows, rows);
    }
  }

  /** Every cell of a rows x cols grid lies inside the covered rectangle
      [0, rows * rowDelta) x [0, cols * colDelta), which lies inside the image. */
  lemma CellWithinCoveredRectangle(width: nat, height: nat, rows: nat, cols: nat, r: nat, c: nat, y: nat, x: nat)
    requires r < rows && c < cols
    requires InCell(height / rows, width / cols, r, c, y, x)
    ensures y < rows * (height / rows) <= height
    ensures x < cols * (width / cols) <= width
  {
    CellSpanFits(r, rows, height);
    CellSpanFits(c, cols, width);
  }

  /** Position t of a span covered by n cells of size delta lies in cell t / delta and no other. */
  lemma CellOfCoordinate(t: nat, n: nat, delta: nat, k: nat)
    requires delta > 0 && t < n * delta && k < n
    ensures t / delta < n
    ensures k * delta <= t < k * delta + delta <==> k == t / delta
  {
    IndexCoordinates(t, delta, n);
    var q := t / delta;
    if k * delta <= t < k * delta + delta {
      IndexDecodes(k, t - k * delta, delta);
    }
    IndexDecodes(q, t % delta, delta);
  }

  /** Inside the covered rectangle every pixel lies in exactly one cell: the
      one at (y / rowDelta, x / colDelta). */
  lemma CellOfPixel(width: nat, height: nat, rows: nat, cols: nat, y: nat, x: nat, r: nat, c: nat)
    requires rows > 0 && cols > 0 && height / rows > 0 && width / cols > 0
    requires r < rows && c < cols
    requires y < rows * (height / rows) && x < cols * (width / cols)
    ensures y / (height / rows) < rows && x / (width / cols) < cols
    ensures InCell(height / rows, width / cols, r, c, y, x)
            <==> r == y / (height / rows) && c == x / (width / cols)
  {
    CellOfCoordinate(y, rows, height / rows, r);
    CellOfCoordinate(x, cols, width / cols, c);
  }

  /** Distinct cells cover disjoint regions. */
  lemma CellsDisjoint(width: nat, height: nat, rows: nat, cols: nat, y: nat, x: nat,
                      r: nat, c: nat, r': nat, c': nat)
    requires rows > 0 && cols > 0 && height / rows > 0 && width / cols > 0
    requires r < rows && c < cols && r' < rows && c' < cols
    requires InCell(height / rows, width / cols, r, c, y, x)
    requires InCell(height / rows, width / cols, r', c', y, x)
    ensures r == r' && c == c'
  {
    CellWithinCoveredRectangle(width, height, rows, cols, r, c, y, x);
    CellOfPixel(width, height, rows, cols, y, x, r, c);
    CellOfPixel(width, height, rows, cols, y, x, r', c');
  }

  /** A pixel below row rows * rowDelta or right of column cols * colDelta lies in no cell. */
  lemma DroppedPixelInNoCell(width: nat, height: nat, rows: nat, cols: nat, y: nat, x: nat, r: nat, c: nat)
    requires r < rows && c < cols
    requires y >= rows * (height / rows) || x >= cols * (width / cols)
    ensures !InCell(height / rows, width / cols, r, c, y, x)
  {
    CellSpanFits(r, rows, height);
    CellSpanFits(c, cols, width);
  }

  lemma {:induction false} SpanBelowAgree(p: seq<byte>, q: seq<byte>, start: nat, n: nat, whiteThreshold: int)
    requires start + n <= |p| && start + n <= |q|
    requires forall i :: start <= i < start + n ==> p[i] == q[i]
    ensures SpanBelow(p, start, n, whiteThreshold) == SpanBelow(q, start, n, whiteThreshold)
  {
    if n > 0 {
      SpanBelowAgree(p, q, start, n - 1, whiteThreshold);
    }
  }

  /** The density of a region depends only on the pixels inside it. */
  lemma {:induction false} RegionBelowAgree(p: seq<byte>, q: seq<byte>, width: nat, top: nat, rowCount: nat,
                                            left: nat, colCount: nat, whiteThreshold: int)
    requires width > 0 && |p| == |q|
    requires top + rowCount <= Height(|p|, width) && left + colCount <= width
    requires forall y: nat, x: nat :: top <= y < top + rowCount && left <= x < left + colCount ==>
               RowColToIndex(y, x, width) < |p| && p[RowColToIndex(y, x, width)] == q[RowColToIndex(y, x, width)]
    ensures RegionBelow(p, width, top, rowCount, left, colCount, whiteThreshold)
            == RegionBelow(q, width, top, rowCount, left, colCount, whiteThreshold)
  {
    if rowCount > 0 {
      RegionBelowAgree(p, q, width, top, rowCount - 1, left, colCount, whiteThreshold);
      var y := top + rowCount - 1;
      var start := RowColToIndex(y, left, width);
      RowSpanFits(p, width, y, left, colCount);
      forall i | start <= i < start + colCount ensures p[i] == q[i] {
        assert i == RowColToIndex(y, left + (i - start), width);
      }
      SpanBelowAgree(p, q, start, colCount, whiteThreshold);
    }
  }

  /** Pixels outside the covered rectangle contribute to no cell: two images
      that agree on the rectangle [0, rows * rowDelta) x [0, cols * colDelta)
      have the same density map. */
  lemma DroppedPixelsDoNotAffectMap(p: seq<byte>, q: seq<byte>, width: nat, rows: nat, cols: nat,
                                    whiteThreshold: int, r: nat, c: nat)
    requires width > 0 && |p| == |q| && r < rows && c < cols
    requires Height(|p|, width) / rows > 0 && width / cols > 0
    requires forall y: nat, x: nat :: y < rows * (Height(|p|, width) / rows) && x < cols * (width / cols) ==>
               RowColToIndex(y, x, width) < |p| && p[RowColToIndex(y, x, width)] == q[RowColToIndex(y, x, width)]
    ensures CellDensity(p, width, rows, cols, whiteThreshold, r, c) == CellDensity(q, width, rows, cols, whiteThreshold, r, c)
  {
    var h := Height(|p|, width);
    var rowDelta, colDelta := h / rows, width / cols;
    CellSpanFits(r, rows, h);
    CellSpanFits(c, cols, width);
    RegionBelowAgree(p, q, width, r * rowDelta, rowDelta, c * colDelta, colDelta, whiteThreshold);
  }
}
