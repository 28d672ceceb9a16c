/** `getOutline`: the border mask of the ink in a black-and-white image. A
    pixel is on the border when it is not background and either lies on the
    edge of the image or has a background 4-neighbour. */
module Outline {
  import opened Pixels

  /** `neighborOffsets`: the (row, col) steps to the right, left, lower and
      upper neighbour, in the order the loop tries them. */
  const NeighborOffsets: seq<(int, int)> := [(0, 1), (0, -1), (1, 0), (-1, 0)]

  /** (row, col) is a pixel of the image and holds background. */
  predicate BackgroundAt(p: seq<byte>, width: nat, row: int, col: int)
    requires width > 0
  {
    0 <= row < Height(|p|, width) && 0 <= col < width
    && PixelAt(p, width, row, col) == Background
  }

  /** (row, col) lies on the first or last row or column. */
  predicate OnEdge(width: nat, height: nat, row: nat, col: nat)
  {
    row == 0 || row == height - 1 || col == 0 || col == width - 1
  }

  /** One of the first n neighbours of (row, col) is a background pixel of the image. */
  predicate NeighborBackground(p: seq<byte>, width: nat, row: nat, col: nat, n: nat)
    requires width > 0 && n <= |NeighborOffsets|
  {
    exists m :: 0 <= m < n
      && BackgroundAt(p, width, row + NeighborOffsets[m].0, col + NeighborOffsets[m].1)
  }

  /** (row, col) is a non-background pixel of the image that lies on its edge
      or has a background 4-neighbour. */
  predicate IsBorder(p: seq<byte>, width: nat, row: nat, col: nat)
    requires width > 0
  {
    row < Height(|p|, width) && col < width
    && PixelAt(p, width, row, col) != Background
    && (OnEdge(width, Height(|p|, width), row, col)
        || NeighborBackground(p, width, row, col, |NeighborOffsets|))
  }

  /** The mask `getOutline` returns, as a value: address k holds the border
      test of pixel (k / width, k % width); a trailing partial row stays false. */
  function Outlined(p: seq<byte>, width: nat): seq<bool>
    requires width > 0
  {
    seq(|p|, k requires 0 <= k < |p| => IsBorder(p, width, k / width, k % width))
  }

  /** The body of the pixel loop of `getOutline`: background pixels are
      skipped (`continue`), edge pixels are borders outright, and an interior
      pixel tries its neighbours in order until one is a background pixel of
      the image (`break`). */
  method BorderAt(pixels: array<byte>, imageWidth: nat, row: nat, col: nat) returns (border: bool)
    requires imageWidth > 0 && row < pixels.Length / imageWidth && col < imageWidth
    ensures border == IsBorder(pixels[..], imageWidth, row, col)
  {
    ghost var p := pixels[..];
    var height := pixels.Length / imageWidth;
    var neighborOffsets := NeighborOffsets;
    var index := RowColToIndex(row, col, imageWidth);
    PixelInImage(p, imageWidth, row, col);
    border := false;
    if pixels[index] == Background {
      return;
    }
    if row == 0 || row == height - 1 || col == 0 || col == imageWidth - 1 {
      border := true;
    } else {
      for n := 0 to |neighborOffsets|
        invariant !border && !NeighborBackground(p, imageWidth, row, col, n)
      {
        var newRow := row + neighborOffsets[n].0;
        var newCol := col + neighborOffsets[n].1;
        if 0 <= newRow < height && 0 <= newCol < imageWidth {
          var newIndex := RowColToIndex(newRow, newCol, imageWidth);
          PixelInImage(p, imageWidth, newRow, newCol);
          if pixels[newIndex] == Background {
            border := true;
            break;
          }
        }
      }
    }
  }

  /** `getOutline(pixels, imageWidth)`. */
  method GetOutline(pixels: array<byte>, imageWidth: nat) returns (outline: array<bool>)
    requires imageWidth > 0
    ensures fresh(outline)
    ensures outline.Length == pixels.Length
    ensures outline[..] == Outlined(pixels[..], imageWidth)
  {
    ghost var p := pixels[..];
    outline := new bool[pixels.Length](_ => false);
    var height := pixels.Length / imageWidth;
    HeightFits(pixels.Length, imageWidth);
    for row := 0 to height
      invariant forall k :: 0 <= k < outline.Length ==>
        outline[k] == (k < row * imageWidth && IsBorder(p, imageWidth, k / imageWidth, k % imageWidth))
    {
      for col := 0 to imageWidth
        invariant forall k :: 0 <= k < outline.Length ==>
          outline[k] == (k < row * imageWidth + col && IsBorder(p, imageWidth, k / imageWidth, k % imageWidth))
      {
        var index := RowColToIndex(row, col, imageWidth);
        PixelInImage(p, imageWidth, row, col);
        IndexDecodes(row, col, imageWidth);
        var border := BorderAt(pixels, imageWidth, row, col);
        if border {
          outline[index] := true;
        }
      }
      assert row * imageWidth + imageWidth == (row + 1) * imageWidth;
    }
    forall k | 0 <= k < outline.Length
      ensures outline[k] == Outlined(p, imageWidth)[k]
    {
      if k >= height * imageWidth {
        IndexBeyondRows(k, imageWidth, height);
      }
    }
  }

  // ---------------------------------------------------------------------
  // Properties
  // ---------------------------------------------------------------------

  /** A background (0xFF) pixel is never marked, wherever it lies. */
  lemma OutlineFalseOnBackground(p: seq<byte>, width: nat, k: nat)
    requires width > 0 && k < |p| && p[k] == Background
    ensures !Outlined(p, width)[k]
  {
    var h := Height(|p|, width);
    if k / width < h {
      assert k == RowColToIndex(k / width, k % width, width);
    }
  }

  /** Every non-background pixel on the first or last row or column is marked. */
  lemma OutlineMarksEdgeInk(p: seq<byte>, width: nat, row: nat, col: nat)
    requires width > 0 && row < Height(|p|, width) && col < width
    requires OnEdge(width, Height(|p|, width), row, col)
    requires PixelAt(p, width, row, col) != Background
    ensures RowColToIndex(row, col, width) < |p|
    ensures Outlined(p, width)[RowColToIndex(row, col, width)]
  {
    PixelInImage(p, width, row, col);
    IndexDecodes(row, col, width);
  }

  /** An interior non-background pixel at address k is marked iff one of the
      pixels at k + 1, k - 1, k + width, k - width (its right, left, lower and
      upper neighbour) is background; a background pixel never is. */
  lemma OutlineInteriorIff(p: seq<byte>, width: nat, row: nat, col: nat)
    requires width > 0 && 0 < row < Height(|p|, width) - 1 && 0 < col < width - 1
    ensures var k := RowColToIndex(row, col, width);
            width <= k && k + width < |p|
            && (Outlined(p, width)[k]
                <==> p[k] != Background
                     && (p[k + 1] == Background || p[k - 1] == Background
                         || p[k + width] == Background || p[k - width] == Background))
  {
    var k := RowColToIndex(row, col, width);
    PixelInImage(p, width, row + 1, col);
    IndexDecodes(row, col, width);
    assert RowColToIndex(row + 1, col, width) == k + width;
    assert RowColToIndex(row - 1, col, width) == k - width;
    assert RowColToIndex(row, col + 1, width) == k + 1;
    assert RowColToIndex(row, col - 1, width) == k - 1;
    assert BackgroundAt(p, width, row + NeighborOffsets[0].0, col + NeighborOffsets[0].1) <==> p[k + 1] == Background;
    assert BackgroundAt(p, width, row + NeighborOffsets[1].0, col + NeighborOffsets[1].1) <==> p[k - 1] == Background;
    assert BackgroundAt(p, width, row + NeighborOffsets[2].0, col + NeighborOffsets[2].1) <==> p[k + width] == Background;
    assert BackgroundAt(p, width, row + NeighborOffsets[3].0, col + NeighborOffsets[3].1) <==> p[k - width] == Background;
  }

  /** A 4 x 4 white image with a single black pixel at (0, 0) has exactly one
      outline pixel, at (0, 0). */
  lemma SingleInkPixelOutline(p: seq<byte>)
    requires |p| == 16 && p[0] == 0
    requires forall k :: 1 <= k < 16 ==> p[k] == Background
    ensures Outlined(p, 4) == [true] + seq(15, _ => false)
  {
    OutlineMarksEdgeInk(p, 4, 0, 0);
    forall k | 1 <= k < 16 ensures !Outlined(p, 4)[k] {
      OutlineFalseOnBackground(p, 4, k);
    }
  }
}
