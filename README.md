# CharacterImage feature extraction, modelled in Dafny

This project models the descriptor routines of `CharacterImage` from a Java
OCR code base. Each routine turns the pixel buffer of an image that holds a
single character into a feature:

- `boxizeLines` tests every pixel with a `pointSize x pointSize` window and
  returns a same-size boolean grid. A cell is marked when the fraction of
  pure-black pixels in its window reaches `pointDensity`.
- `discretizeLines` applies the same test to disjoint tiles, so the grid it
  returns has a lower resolution.
- `getOutline` marks the border pixels of the ink. These are non-background
  pixels on the image edge, or next to a background pixel.
- `getDensityMap` lays a `rows x cols` grid over the image and gives the ink
  fraction of each cell. Pixels past the last complete cell are dropped, and
  a grid finer than the image yields `null`.
- `densityMapDistance` is the mean squared error between two density maps.

Pixels are modelled as a row-major buffer of unsigned bytes (`Pixels.byte`).
Java's signed `byte` is read as its unsigned value, so ink is `0` and
background is `0xFF`. The code is imperative, and so is the model: methods
read the pixel `array`, fill a new `array<bool>` or `array2<real>` in the
source's nested loops, and are proved equal to a specification function of
the input (`Boxized`, `Discretized`, `Outlined`, `CellDensity`,
`MeanSquaredError`). The lemmas then state what those specifications mean.

Modules:

- `Pixels` (pixels.dfy): bytes, row-major addressing and its arithmetic.
- `BlockSampling` (block_sampling.dfy): `boxizeLines`, `discretizeLines` and the two default constants.
- `Outline` (outline.dfy): `getOutline`.
- `DensityMap` (density_map.dfy): `getDensityMap` and the region density it uses.
- `MapDistance` (map_distance.dfy): `densityMapDistance`.

`MathUtils.rowColToIndex` and `ImageUtils.density` are not part of this model.
The first is taken to be row-major addressing, `row * width + col`. The
second is taken to be the fraction of the region's pixels whose unsigned
value is strictly below `whiteThreshold`.

## Model

All source paths are in `src/com/eriqaugustine/ocr/image/CharacterImage.java`.

| member | source | states |
|---|---|---|
| BlockSampling.CountBlockInk | src/com/eriqaugustine/ocr/image/CharacterImage.java:53-65 | the two offset loops count exactly the pure-black pixels at in-buffer addresses `(top+i)*width + (left+j)`, i, j < size (`BlockInk`) |
| BlockSampling.BoxizeLines | src/com/eriqaugustine/ocr/image/CharacterImage.java:47-74 | the returned grid is a new array with the buffer's length; cell k of a complete row holds the window test anchored at pixel (k / width, k % width); cells of a trailing partial row stay false |
| BlockSampling.BoxizeLinesDefault | src/com/eriqaugustine/ocr/image/CharacterImage.java:76-78 | with DEFAULT_POINT_SIZE 2 and DEFAULT_POINT_DENSITY 0.75, a cell is marked exactly when its 2 x 2 window holds at least 3 ink pixels |
| BlockSampling.DiscretizeLines | src/com/eriqaugustine/ocr/image/CharacterImage.java:136-166 | the grid is a new array of `(imageWidth / pointSize) * (pixels.length / imageWidth / pointSize)` cells, as the doc comment promises; cell `row * newWidth + col` holds the density test of tile (row, col) |
| BlockSampling.DiscretizeLinesDefault | src/com/eriqaugustine/ocr/image/CharacterImage.java:168-170 | every tile (row, col) has a cell, marked exactly when its 2 x 2 tile holds at least 3 ink pixels |
| BlockSampling.DenseIffScaled | src/com/eriqaugustine/ocr/image/CharacterImage.java:67 | the test `pixelCount / (double)(pointSize*pointSize) >= pointDensity` holds iff pointSize > 0 and pixelCount >= pointDensity * pointSize^2; a zero size (NaN) never passes |
| BlockSampling.DefaultThreshold | src/com/eriqaugustine/ocr/image/CharacterImage.java:15-16 | with the default size and density the test means "at least 3 of 4 pixels are ink" |
| BlockSampling.SpanInkBounded | src/com/eriqaugustine/ocr/image/CharacterImage.java:56-63 | one window row contributes at most its length to `pixelCount` |
| BlockSampling.WindowInkBounded | src/com/eriqaugustine/ocr/image/CharacterImage.java:55-65 | `pixelCount` never exceeds `pointSize * pointSize`, so the ink fraction is at most 1 |
| BlockSampling.RowInkOffsetsCount | src/com/eriqaugustine/ocr/image/CharacterImage.java:56-63 | the inner loop's count is the number of column offsets whose pixel is in the buffer and pure black |
| BlockSampling.WindowInkOffsetsSplit | src/com/eriqaugustine/ocr/image/CharacterImage.java:55-65 | the window's ink offsets split into those of the earlier rows and those of the last row, disjointly |
| BlockSampling.WindowInkOffsetsCount | src/com/eriqaugustine/ocr/image/CharacterImage.java:53-65 | `pixelCount` equals the size of the set of window offsets (i, j) whose pixel is in the buffer and pure black |
| BlockSampling.BoxizedCell | src/com/eriqaugustine/ocr/image/CharacterImage.java:51-69 | the boxized cell of pixel (row, col) is true iff pointSize > 0 and the window's ink offsets number at least density * size^2 |
| BlockSampling.BoxizedTrailingCellsFalse | src/com/eriqaugustine/ocr/image/CharacterImage.java:49-51 | cells past the last complete row are never marked |
| BlockSampling.BoxizeRightEdgeReadsNextRow | src/com/eriqaugustine/ocr/image/CharacterImage.java:57-61 | a window at the right edge reads on into the next row: a 2 x 2 image with ink only at (1, 0) marks cell (0, 1) at density 0.25 |
| BlockSampling.DiscretizedCell | src/com/eriqaugustine/ocr/image/CharacterImage.java:143-161 | output cell `rowColToIndex(row, col, newWidth)` is inside the grid and holds the density test of tile (row, col) |
| BlockSampling.DiscretizeReadsOwnBlock | src/com/eriqaugustine/ocr/image/CharacterImage.java:147-155 | every address read for tile (row, col) lies inside the complete rows, so the `index < pixels.length` guard never skips a read; it is pixel (row*size+i, col*size+j) and belongs to that tile |
| BlockSampling.DiscretizeBlocksDisjoint | src/com/eriqaugustine/ocr/image/CharacterImage.java:143-157 | two tiles that read the same address are the same tile |
| BlockSampling.DiscretizedSamplesBoxized | src/com/eriqaugustine/ocr/image/CharacterImage.java:44-47 | as the doc comment says, the two modes agree: tile (row, col) equals the boxized cell at its top-left pixel |
| BlockSampling.SingleInkPixelDiscretized | src/com/eriqaugustine/ocr/image/CharacterImage.java:136-170 | tiled with the defaults, a 4 x 4 white image whose only black pixel is (0, 0) gives a 2 x 2 grid with no tile marked |
| Outline.BorderAt | src/com/eriqaugustine/ocr/image/CharacterImage.java:90-117 | the loop body decides the border test: skip background, accept edge pixels, else try the four neighbours in order until one is in-image background |
| Outline.GetOutline | src/com/eriqaugustine/ocr/image/CharacterImage.java:84-126 | the outline is a new array with the buffer's length; cell k of a complete row is the border test of pixel (k / width, k % width); a trailing partial row stays false |
| Outline.OutlineFalseOnBackground | src/com/eriqaugustine/ocr/image/CharacterImage.java:93-96 | a background pixel (0xFF) is never marked |
| Outline.OutlineMarksEdgeInk | src/com/eriqaugustine/ocr/image/CharacterImage.java:98-101 | every non-background pixel on the first or last row or column is marked |
| Outline.OutlineInteriorIff | src/com/eriqaugustine/ocr/image/CharacterImage.java:86-116 | an interior pixel at k is marked iff it is not background and one of k+1, k-1, k+width, k-width is background |
| Outline.SingleInkPixelOutline | src/com/eriqaugustine/ocr/image/CharacterImage.java:84-126 | a 4 x 4 white image with one black corner pixel has exactly that pixel as its outline |
| DensityMap.FillDensityMap | src/com/eriqaugustine/ocr/image/CharacterImage.java:216-224 | after the loops every cell (r, c) holds the density of the rowDelta x colDelta region at (r * rowDelta, c * colDelta) |
| DensityMap.GetDensityMap | src/com/eriqaugustine/ocr/image/CharacterImage.java:199-227 | the result is null exactly when `height / rows` or `width / cols` is 0; otherwise it is a new rows x cols map whose cell (r, c) is `CellDensity` |
| DensityMap.SpanBelowBounded | src/com/eriqaugustine/ocr/image/CharacterImage.java:218-222 | a run of n pixels holds at most n ink pixels |
| DensityMap.RegionBelowBounded | src/com/eriqaugustine/ocr/image/CharacterImage.java:218-222 | a region holds at most rowCount * colCount ink pixels |
| DensityMap.DensityInUnitInterval | src/com/eriqaugustine/ocr/image/CharacterImage.java:218-222 | every region density lies in [0, 1] |
| DensityMap.SpanBelowAll | src/com/eriqaugustine/ocr/image/CharacterImage.java:218-222 | in an all-ink run every pixel counts |
| DensityMap.RegionBelowAll | src/com/eriqaugustine/ocr/image/CharacterImage.java:218-222 | in an all-ink image a region counts all its pixels |
| DensityMap.AllInkImageHasFullDensity | src/com/eriqaugustine/ocr/image/CharacterImage.java:216-224 | an image with only ink pixels has density 1 in every cell |
| DensityMap.DegenerateIffFinerThanImage | src/com/eriqaugustine/ocr/image/CharacterImage.java:209-214 | the map is null exactly when the grid has more rows than the image or more columns |
| DensityMap.CellWithinCoveredRectangle | src/com/eriqaugustine/ocr/image/CharacterImage.java:196-197 | every cell lies inside the covered rectangle `rows*rowDelta x cols*colDelta`, which lies inside the image |
| DensityMap.CellOfCoordinate | src/com/eriqaugustine/ocr/image/CharacterImage.java:216-221 | a coordinate of the covered span lies in cell `t / delta` and in no other |
| DensityMap.CellOfPixel | src/com/eriqaugustine/ocr/image/CharacterImage.java:216-221 | inside the covered rectangle every pixel lies in exactly one cell, (y / rowDelta, x / colDelta) |
| DensityMap.CellsDisjoint | src/com/eriqaugustine/ocr/image/CharacterImage.java:216-221 | no pixel lies in two different cells |
| DensityMap.DroppedPixelInNoCell | src/com/eriqaugustine/ocr/image/CharacterImage.java:196-197 | pixels below row `rows*rowDelta` or right of column `cols*colDelta` lie in no cell |
| DensityMap.SpanBelowAgree | src/com/eriqaugustine/ocr/image/CharacterImage.java:218-222 | the count of a run depends only on the pixels of the run |
| DensityMap.RegionBelowAgree | src/com/eriqaugustine/ocr/image/CharacterImage.java:218-222 | the density of a region depends only on the pixels inside it |
| DensityMap.DroppedPixelsDoNotAffectMap | src/com/eriqaugustine/ocr/image/CharacterImage.java:196-197 | as the note says, the dropped edge pixels are lost: two images that agree on the covered rectangle have equal maps |
| MapDistance.DensityMapDistance | src/com/eriqaugustine/ocr/image/CharacterImage.java:176-192 | the loops return `MeanSquaredError(a, b)`: ShapeMismatch when a row count or a row length differs (the two asserts), NoCells for 0 / 0, else the sum of squared cell errors over the cell count |
| MapDistance.SquareSign | src/com/eriqaugustine/ocr/image/CharacterImage.java:186 | `Math.pow(d, 2)` is never negative and is 0 only for d = 0 |
| MapDistance.RowSquareErrorZero | src/com/eriqaugustine/ocr/image/CharacterImage.java:185-188 | a row's squared errors sum to a non-negative value that is 0 exactly when the rows agree cell by cell |
| MapDistance.SquareErrorZero | src/com/eriqaugustine/ocr/image/CharacterImage.java:182-189 | the total squared error is non-negative and 0 exactly when the maps agree row by row |
| MapDistance.RowSquareErrorSymmetric | src/com/eriqaugustine/ocr/image/CharacterImage.java:185-188 | a row's squared error is symmetric |
| MapDistance.SquareErrorSymmetric | src/com/eriqaugustine/ocr/image/CharacterImage.java:182-189 | the total squared error is symmetric |
| MapDistance.CellCountOfSameShape | src/com/eriqaugustine/ocr/image/CharacterImage.java:180-189 | `count` is the same whichever map is counted, when the shapes agree |
| MapDistance.DistanceNonNegative | src/com/eriqaugustine/ocr/image/CharacterImage.java:172-192 | a defined distance is never negative |
| MapDistance.DistanceSymmetric | src/com/eriqaugustine/ocr/image/CharacterImage.java:172-192 | `densityMapDistance(a, b)` equals `densityMapDistance(b, a)`, error cases included |
| MapDistance.DistanceDefined | src/com/eriqaugustine/ocr/image/CharacterImage.java:177-191 | the distance is defined exactly for maps of the same shape with at least one cell; ShapeMismatch exactly when the shapes differ |
| MapDistance.DistanceZeroIffEqual | src/com/eriqaugustine/ocr/image/CharacterImage.java:172-192 | two maps of the same shape with at least one cell are at distance 0 exactly when they are equal |

## Left out

- `getStrokes` (lines 22-42) is left out. It only prints ASCII renderings and is unfinished.
- `generateFontImages` and `getFontDensityMaps` (lines 238-263) are left out. They render fonts through `CharacterUtils`, which is not part of this model.
- The default overload `getDensityMap(image, rows, cols)` (lines 229-232) is left out. Its threshold `ImageUtils.DEFAULT_WHITE_THRESHOLD` is not part of this model.
- The image decoding is left out: `MagickImage`, `image.getDimension()`, `Filters.bwPixels` and `Filters.averageChannels`. `DensityMap.GetDensityMap` takes the buffer, its width and its height as parameters instead.
- DensityMap.GetDensityMap: requires `pixels.Length == width * height`, the size `averageChannels` produces. It also requires `rows > 0 && cols > 0`, the source's own assertion, without which Java would divide by zero.
- `ImageUtils.density` is not part of this model. `DensityMap.Density` assumes it is the fraction of the region's pixels strictly below `whiteThreshold`.
- `MathUtils.rowColToIndex` is not part of this model. `Pixels.RowColToIndex` assumes row-major order.
- BlockSampling.DiscretizeLines: requires `pointSize > 0` and `imageWidth > 0`, because Java divides by both.
- Outline.GetOutline: requires `imageWidth > 0`, because Java divides by `imageWidth` (line 88) and throws `ArithmeticException` for a width of 0.
- BlockSampling.BoxizeLines: requires `imageWidth > 0`. A zero `pointSize` is modelled; it yields NaN in Java and so marks nothing.
- Negative sizes, widths and counts are excluded by the types (`nat`). Java `int` overflow of `row * width + col` and `pointSize * pointSize` is not modelled.
- Arithmetic on `double` is modelled on exact reals, so IEEE rounding is not captured. The NaN from `0 / 0` in `densityMapDistance` becomes `Err(NoCells)`.
- MapDistance.DensityMapDistance: the two `assert`s are modelled as enabled, so a shape mismatch returns `Err(ShapeMismatch)`. With assertions disabled, Java would instead throw an index error or ignore surplus cells.
- MapDistance.DensityMapDistance: the maps are passed as `seq<seq<real>>` values. Java's `double[][]` could share row arrays, but the routine only reads them, so aliasing cannot change the result.
