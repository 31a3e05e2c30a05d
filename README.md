# Truchet mosaic — a Dafny model

This project models the core of the `mosaic` Go package (`mosaic.go`). Its
`Truchet` function turns an image into a mosaic of two-colour Truchet tiles.
The source image is resized to a tile-aligned canvas and converted to
`NRGBA64`, which has four non-premultiplied 16-bit channels. The canvas is
then overwritten tile by tile, in row-major order. For each tile of side `n`:

- **Orientation.** The selector measures the squared RGBA distance from the
  tile's centre pixel to each corner. The corners are taken in the order
  bottom-left, top-left, top-right, bottom-right (orientations 0 to 3). It
  picks the farthest corner, and the first one wins a tie.
- **Mask.** A diagonal boundary is interpolated row by row. It runs from
  `colLeft` to `colRight` for even orientations and from `colRight` to
  `colLeft` for odd ones. For orientations 0 and 1 a pixel is background
  when it lies strictly right of the boundary; for 2 and 3, strictly left.
  The foreground is a triangle that holds the diagonal and the chosen
  corner, and it has `n(n+1)/2` pixels.
- **Colours.** One pass over the tile reads each pixel through `.RGBA()`,
  which premultiplies by alpha. The background colour is the truncated mean
  over all `n²` pixels. The tile colour is the truncated mean over the
  foreground pixels.
- **Drawing.** Every pixel of the tile rectangle is overwritten with the tile
  colour on the foreground and the background colour elsewhere. The colours
  are `color.NRGBA64` values, which `NRGBA64Model` passes through unchanged,
  so `draw.Draw` stores the premultiplied means as if they were
  non-premultiplied. A tile that is not opaque therefore comes out darker.

Modules, one per component:

- `Pixels` (pixels.dfy): pixels, premultiplication, tiles and images.
- `Selector` (selector.dfy): `makeMetric` and `tileSelector`.
- `Mask` (mask.dfy): `isBackground` and the per-row boundary.
- `Averager` (averager.dfy): the averaging pass.
- `Render` (render.dfy): `truchetTiler`, `draw.Draw` and the per-tile body
  of `Truchet`.
- `Mosaic` (mosaic.dfy): the grid geometry and the tile loop.

Pure code becomes functions and lemmas. Code that updates state becomes
methods over an `array2<Pixel>` indexed `a[x, y]`, like `NRGBA64At(x, y)`.
Each method is proved against a specification function over images
(`img[y][x]`). The methods receive the canvas's original contents as a ghost
image.

## Model

| member | source | states |
|---|---|---|
| `Pixels.Premultiplied` | mosaic.go:105 | the channel read through `.RGBA()`: alpha unchanged, no colour channel brighter, identity on opaque pixels, zero on transparent ones |
| `Pixels.PremultipliedDarkens` | mosaic.go:105 | on a pixel that is not opaque every non-zero colour channel is strictly lowered |
| `Pixels.Tile.CentreX` | mosaic.go:208 | the floor-midpoint column of the centre pixel lies within `colLeft..colRight` |
| `Pixels.Tile.CentreY` | mosaic.go:208 | the floor-midpoint row of the centre pixel lies within `rowTop..rowBottom` |
| `Selector.Metric` | mosaic.go:197-206 | the squared RGBA distance is non-negative, is zero exactly when corner and centre are equal, and fits in `int64` |
| `Selector.FirstMax` | mosaic.go:209-221 | the reference argmax: every earlier entry is strictly smaller, every later entry is no larger |
| `Selector.FirstMaxUnique` | mosaic.go:209-221 | those two properties determine the chosen index |
| `Selector.TileNo` | mosaic.go:207-222 | the orientation is in 0..3 |
| `Selector.TileSelector` | mosaic.go:207-222 | the straight-line selector over the buffer, taking the corners in the order bottom-left, top-left, top-right, bottom-right, returns the first farthest corner (earlier corners strictly nearer, later ones no farther) |
| `Selector.TiesSelectBottomLeft` | mosaic.go:209-221 | when all four corner distances are equal (a solid tile) the orientation is 0, bottom-left |
| `Selector.SelectedCornerIsFarthest` | mosaic.go:209-221 | no corner is farther from the centre than the selected one |
| `Selector.TileNoLocal` | mosaic.go:207-222 | the orientation depends only on the tile's own pixels |
| `Mask.RowBoundaryOf` | mosaic.go:87-101 | the boundary computed from the loop's `x1`, `xDelta`, `y1` and `yDelta` lies on the tile's diagonal: NaN exactly on a one-pixel tile, otherwise exactly the diagonal column of that row (`colLeft + k` for even orientations, `colRight - k` for odd ones, at row offset k) |
| `Mask.MaskMonotone` | mosaic.go:194-196 | a pixel exactly on the boundary is foreground; background spreads rightwards for orientations 0 and 1 and leftwards for 2 and 3 |
| `Mask.BackgroundBesideDiagonal` | mosaic.go:194-196 | background is exactly: strictly right of the diagonal (orientations 0 and 1) or strictly left of it (2 and 3), on a tile of side at least two |
| `Mask.ForegroundIsTriangle` | mosaic.go:87-110 | the foreground of each orientation is exactly its triangle of the tile |
| `Mask.CornersOfTriangle` | mosaic.go:87-110 | the corner of the orientation is foreground; on a tile of side two or more the opposite corner is background |
| `Averager.Average` | mosaic.go:118-129 | each channel is the truncated quotient of its sum, and the `uint16` conversion loses nothing |
| `Averager.WholeTileCount` | mosaic.go:50 | the pass visits each of the `n²` tile pixels exactly once |
| `Averager.ForegroundCount` | mosaic.go:110-125 | the foreground holds `n(n+1)/2` pixels: at least one, so the division by `tilePts` is defined, and fewer than `n²` when `n > 1` |
| `Averager.TileBounds` | mosaic.go:99-117 | each accumulated sum is at most 65535 times the number of pixels added |
| `Averager.SumsFitUint64` | mosaic.go:106-114 | the `uint64` sums cannot wrap for tiles of side up to 2^24 |
| `Averager.DegenerateTile` | mosaic.go:100-125 | on a one-pixel tile both colours equal that pixel, as read |
| `Averager.SolidTile` | mosaic.go:96-125 | a tile of one colour averages to that colour, as read, in both regions |
| `Averager.ColoursLocal` | mosaic.go:99-105 | both colours depend only on the tile's own pixels |
| `Averager.AddPixel` | mosaic.go:105-115 | one pixel joins the background sums and, unless it is background, the foreground sums and count |
| `Averager.AverageRow` | mosaic.go:102-116 | the inner loop leaves the row's tallies of the whole tile and of the foreground |
| `Averager.AverageRowOf` | mosaic.go:99-116 | the row's boundary, then the row, added to the tallies of the rows above |
| `Averager.AverageRows` | mosaic.go:96-117 | the nested loops leave the tallies of the whole tile and of its foreground |
| `Averager.AverageTile` | mosaic.go:94-125 | the returned colours are the truncated means, of the pixels read premultiplied, over the whole tile and over the foreground |
| `Render.TileRect` | mosaic.go:127 | the half-open `tileRect` holds exactly the tile's inclusive bounds and is `n` by `n` |
| `Render.TilerPaintsTriangle` | mosaic.go:239-244 | `At` gives the tile colour exactly on the foreground triangle, using the same boundary as the averaging pass |
| `Render.Draw` | mosaic.go:131 | every pixel of the tiler's bounds gets exactly the colour `At` returns; nothing outside changes |
| `Render.RenderTile` | mosaic.go:84-131 | each pixel of the tile holds the tile colour if it lies in the selected orientation's triangle and the background colour otherwise; no pixel outside the tile changes |
| `Render.RenderLocal` | mosaic.go:99-105 | a tile's rendering depends only on its own pixels |
| `Render.RenderedCorners` | mosaic.go:84-131 | the selected corner is painted the tile colour; on a tile of side two or more the opposite corner is painted the background colour |
| `Render.SolidTileRendered` | mosaic.go:84-131 | a solid tile is rendered in its own colour premultiplied; an opaque one is unchanged |
| `Render.TranslucentTileDarkens` | mosaic.go:105-131 | a solid tile that is not opaque keeps its alpha but every non-zero colour channel comes out lower |
| `Render.OnePixelTileRendered` | mosaic.go:79-131 | a one-pixel tile is rendered as its own pixel premultiplied; an opaque one is unchanged |
| `Mosaic.CeilDiv` | mosaic.go:61-62 | the tile count along a side covers the side and overshoots it by less than one tile |
| `Mosaic.CeilDivLeast` | mosaic.go:61-62 | no smaller tile count covers the side |
| `Mosaic.GeometryOf` | mosaic.go:61-65 | the mosaic width is at least W and less than W+n, and a multiple of n (height likewise); `numTiles` is `numCols*numRows` |
| `Mosaic.ExampleGeometry` | mosaic.go:61-65 | a 130 x 95 source with side 64 gives a 192 x 128 mosaic of 6 tiles |
| `Mosaic.EmptySourceNoTiles` | mosaic.go:61-65 | a source of zero width or height gives no tiles and an empty mosaic |
| `Mosaic.TileAt` | mosaic.go:74-81 | each pixel lies in a grid tile |
| `Mosaic.TileAtUnique` | mosaic.go:74-81 | it lies in only one: the grid tiles partition the canvas |
| `Mosaic.GridTileWithin` | mosaic.go:74-81 | every tile the loops visit lies inside the canvas |
| `Mosaic.MosaicPixelOfTile` | mosaic.go:74-131 | a mosaic pixel is the rendering of the grid tile that holds it |
| `Mosaic.MosaicPixelLocal` | mosaic.go:74-131 | the rendering is the same from any image that agrees on the tile, so rendering from a half-done buffer is rendering from the canvas |
| `Mosaic.SolidOpaqueCanvas` | mosaic.go:74-131 | a solid opaque canvas comes out unchanged |
| `Mosaic.OnePixelMosaic` | mosaic.go:74-131 | with one-pixel tiles each pixel is replaced by its premultiplied form; opaque pixels are unchanged |
| `Mosaic.GridStep` | mosaic.go:80-131 | rendering one tile in row-major order keeps every earlier tile rendered and every later tile untouched |
| `Mosaic.UntouchedTile` | mosaic.go:80-85 | when its turn comes a tile still holds the canvas |
| `Mosaic.RenderGridTile` | mosaic.go:80-131 | one inner-loop iteration adds the tile to the rendered ones |
| `Mosaic.Truchet` | mosaic.go:59-133 | `tileCount` ends at `numTiles = numCols*numRows`; the progress counts are 1..numTiles, each reported once; every pixel holds the rendering of its tile from the untouched canvas |

## Left out

- File I/O and encoding are not modelled: `readImage`, `saveImage`, `halt`, the encoders and `fh.Sync`/`Close` (lines 141-180). They are operating-system and library calls, and `log.Fatalln` ends the process.
- Resizing (`resize.Resize` with Lanczos3, line 67) and the conversion to `NRGBA64` (lines 70-71) are library calls. The canvas they produce is the input of `Mosaic.Truchet`, which requires its size to be `numCols*n` by `numRows*n`.
- A source with a zero width or height: the model then has zero columns or rows, so `Mosaic.Truchet` visits no tile, reports nothing and leaves the (empty) canvas as it is. What the resizer does with a zero target dimension (it treats it as "keep the aspect ratio") is not modelled, since the canvas is an input of the model.
- The progress bar (`updateProgressBar`, lines 181-192) uses float32 and writes to the terminal. Timing uses `time.Now` and `time.Since`. Only the `tileCount`/`numTiles` pairs the progress bar receives are modelled, as `reported`.
- Floating point is not modelled. The boundary is the exact fraction `(x1*yDelta + (y-y1)*xDelta)/yDelta`, compared by cross-multiplying. Float64 rounding of `lambda*xDelta` could move a diagonal pixel, and the model does not capture that. `math.Ceil` on floats is modelled as integer ceiling division. On a one-pixel tile the boundary is NaN, as Go's `0/0` is, and every comparison with it is false.
- A tile side of 0 is excluded: the side has type `Pos`. With that side the source panics on the first tile at the latest, on the integer division by `tileArea`, which is 0 (lines 50 and 118).
- `Averager.AverageTile` and the other averaging members use unbounded sums, not `uint64`. `Averager.SumsFitUint64` shows that the sums cannot wrap for tiles of side up to 2^24.
- `Render.Draw` assumes that the tile lies inside the buffer, which holds for every grid tile. Under that assumption the clipping done by `draw.Draw` changes nothing, so it is not modelled.
- A mask decided by orientation parity (even: background right of the boundary; odd: left), or a zero `yDelta` guarded by taking `lambda = 0`, is not what the code does, and the model follows the code. The code tests `tileNo < 2` / `tileNo > 1`, and on a one-pixel tile its boundary is NaN. The second alternative would not change the result: the only pixel of a one-pixel tile is foreground either way.
