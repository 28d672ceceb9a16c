/** Row-major pixel buffers shared by every descriptor routine of CharacterImage. */
module Pixels {

  /** One 8-bit intensity sample. Java stores it as a signed byte; this is its
      unsigned value `b & 0xFF`, so a pure black (ink) pixel is 0 and a pure
      white (background) pixel is 0xFF. */
  newtype byte = x: int | 0 <= x < 256

  /** The intensity `getOutline` treats as background. */
  const Background: byte := 0xFF

  /** Address of pixel (row, col) in a row-major grid of the given width. */
  function RowColToIndex(row: nat, col: nat, width: nat): nat
  {
    row * width + col
  }

  /** Number of complete rows in a buffer of length n: `pixels.length / imageWidth`. */
  function Height(n: nat, width: nat): nat
    requires width > 0
  {
    n / width
  }

  /** Multiplication by a natural number preserves order. */
  lemma MulMonotone(a: nat, b: nat, k: nat)
    requires a <= b
    ensures a * k <= b * k
  {
    assert b * k == a * k + (b - a) * k;
  }

  /** Order between two factors, stated as implications so that it can be
      brought in before a case split. */
  lemma MulOrder(a: nat, b: nat, k: nat)
    ensures a <= b ==> a * k <= b * k
    ensures a < b ==> a * k + k <= b * k
  {
    if a < b {
      MulMonotone(a + 1, b, k);
      assert (a + 1) * k == a * k + k;
    }
  }

  /** Row-major addressing is injective: an index decodes back to its row and column. */
  lemma IndexDecodes(row: nat, col: nat, width: nat)
    requires col < width
    ensures RowColToIndex(row, col, width) / width == row
    ensures RowColToIndex(row, col, width) % width == col
  {
    var x := row * width + col;
    var q := x / width;
    MulOrder(q, row, width);
    MulOrder(row, q, width);
  }

  /** Every pixel of a width x height grid has an address below width * height. */
  lemma IndexInBounds(row: nat, col: nat, width: nat, height: nat)
    requires row < height && col < width
    ensures RowColToIndex(row, col, width) < height * width
    ensures RowColToIndex(row, col, width) + (width - col) <= height * width
  {
    MulMonotone(row + 1, height, width);
    assert (row + 1) * width == row * width + width;
  }

  /** Splitting a coordinate below `bound` into blocks of the given size: the
      offset i inside block t stays below the bound and decodes back to (t, i). */
  lemma BlockCoordinate(t: nat, i: nat, size: nat, bound: nat)
    requires size > 0 && t < bound / size && i < size
    ensures t * size + i < bound
    ensures (t * size + i) / size == t && (t * size + i) % size == i
  {
    IndexInBounds(t, i, size, bound / size);
    IndexDecodes(t, i, size);
  }

  /** The complete rows of a buffer never run past its end. */
  lemma HeightFits(n: nat, width: nat)
    requires width > 0
    ensures Height(n, width) * width <= n
  {
  }

  /** Address k of a width x height grid decodes to the pixel (k / width, k % width) of that grid. */
  lemma IndexCoordinates(k: nat, width: nat, height: nat)
    requires width > 0 && k < height * width
    ensures k / width < height && k % width < width
    ensures RowColToIndex(k / width, k % width, width) == k
  {
    MulOrder(height, k / width, width);
  }

  /** An address at or past width * height lies past row height - 1. */
  lemma IndexBeyondRows(k: nat, width: nat, height: nat)
    requires width > 0 && k >= height * width
    ensures k / width >= height
  {
    MulOrder(k / width, height, width);
  }

  /** Every pixel of the complete rows lies inside the buffer. */
  lemma PixelInImage(p: seq<byte>, width: nat, row: nat, col: nat)
    requires width > 0 && row < Height(|p|, width) && col < width
    ensures RowColToIndex(row, col, width) < Height(|p|, width) * width <= |p|
  {
    IndexInBounds(row, col, width, Height(|p|, width));
    HeightFits(|p|, width);
  }

  /** The intensity of pixel (row, col) of the image. */
  function PixelAt(p: seq<byte>, width: nat, row: nat, col: nat): byte
    requires width > 0 && row < Height(|p|, width) && col < width
  {
    PixelInImage(p, width, row, col);
    p[RowColToIndex(row, col, width)]
  }
}
