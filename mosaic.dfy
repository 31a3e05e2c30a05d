/** The mosaic driver: the grid geometry of `Truchet` (lines 59-65) and its
    row-major tile loop (lines 73-133).

    The source image of width W and height H is resized to
    numCols*n x numRows*n, where numCols = ceil(W/n) and numRows = ceil(H/n),
    and converted to `NRGBA64`; that canvas is the input here. The tiles
    partition it, each is rendered from its own rectangle of the canvas,
    and the row-major loop leaves exactly the rendering of every tile. */
module Mosaic {
  import opened Pixels
  import opened Selector
  import opened Render

  /** The ceiling of w / n taken in floating point and converted to `uint`
      (lines 61-62), in exact arithmetic: the least number of n-wide tiles that cover w pixels. */
  function CeilDiv(w: nat, n: Pos): (c: nat)
    ensures w <= c * n < w + n
  {
    var c := (w + n - 1) / n;
    assert c * n == w + n - 1 - (w + n - 1) % n;
    c
  }

  /** No smaller number of tiles covers w pixels. */
  lemma CeilDivLeast(w: nat, n: Pos, c: nat)
    requires w <= c * n
    ensures CeilDiv(w, n) <= c
  {
    var d := CeilDiv(w, n);
    if d > c {
      ProductMonotone(n, c + 1, d);
      assert false;
    }
  }

  /** The numbers computed at lines 61-65. */
  datatype Geometry = Geometry(numCols: nat, numRows: nat, numTiles: nat, mosaicWidth: nat, mosaicHeight: nat)

  /** The grid for a W x H source and tiles of side n: the mosaic is the
      smallest tile-aligned size that holds the source, and has
      numCols*numRows tiles. */
  function GeometryOf(width: nat, height: nat, n: Pos): (g: Geometry)
    ensures width <= g.mosaicWidth < width + n && g.mosaicWidth % n == 0
    ensures height <= g.mosaicHeight < height + n && g.mosaicHeight % n == 0
    ensures g.mosaicWidth == g.numCols * n && g.mosaicHeight == g.numRows * n
    ensures g.numTiles == g.numCols * g.numRows
  {
    var numCols, numRows := CeilDiv(width, n), CeilDiv(height, n);
    MultipleOf(numCols, n);
    MultipleOf(numRows, n);
    Geometry(numCols, numRows, numCols * numRows, numCols * n, numRows * n)
  }

  /** A 130 x 95 source with tiles of side 64 gives a 192 x 128 mosaic of
      3 x 2 = 6 tiles. */
  lemma ExampleGeometry()
    ensures GeometryOf(130, 95, 64) == Geometry(3, 2, 6, 192, 128)
  {
    assert CeilDiv(130, 64) == 3;
    assert CeilDiv(95, 64) == 2;
  }

  /** A source with no columns or no rows gives an empty mosaic: no tile is
      visited. */
  lemma EmptySourceNoTiles(width: nat, height: nat, n: Pos)
    requires width == 0 || height == 0
    ensures GeometryOf(width, height, n).numTiles == 0
    ensures GeometryOf(width, height, n).mosaicWidth * GeometryOf(width, height, n).mosaicHeight == 0
  {
  }

  /** img is a canvas of width w whose sides are multiples of n. */
  predicate IsCanvas(img: Image, w: nat, n: Pos) {
    w % n == 0 && |img| % n == 0 && forall y | 0 <= y < |img| :: |img[y]| == w
  }

  /** The tile of side n that holds pixel (x, y). */
  function TileAt(n: Pos, x: nat, y: nat): (t: Tile)
    ensures t.Contains(x, y)
    ensures t.colLeft % n == 0 && t.rowTop % n == 0
  {
    MulDivCancel(x / n, n);
    MulDivCancel(y / n, n);
    Tile(x / n * n, y / n * n, n)
  }

  /** The grid's tiles partition the canvas: a grid tile (one whose corner
      is a multiple of n) that holds (x, y) is the tile TileAt(n, x, y). */
  lemma TileAtUnique(n: Pos, x: nat, y: nat, t: Tile)
    requires t.side == n && t.colLeft % n == 0 && t.rowTop % n == 0 && t.Contains(x, y)
    ensures t == TileAt(n, x, y)
  {
    GridIndex(n, t.colLeft, x);
    GridIndex(n, t.rowTop, y);
  }

  lemma GridIndex(n: Pos, left: nat, x: nat)
    requires left % n == 0 && left <= x < left + n
    ensures x / n * n == left
  {
    var i := left / n;
    assert left == i * n;
    DivUnique(x, n, i, x - left);
  }

  /** The quotient is the only i with x = i*n + r and 0 <= r < n. */
  lemma DivUnique(x: nat, n: Pos, i: nat, r: nat)
    requires x == i * n + r && r < n
    ensures x / n == i
  {
    var q := x / n;
    assert x == q * n + x % n;
    if q > i {
      ProductMonotone(n, i + 1, q);
      assert false;
    } else if q < i {
      ProductMonotone(n, q + 1, i);
      assert false;
    }
  }

  /** Every tile of the grid of a canvas lies inside it. */
  lemma GridTileWithin(img: Image, w: nat, t: Tile)
    requires IsCanvas(img, w, t.side) && t.colLeft % t.side == 0 && t.rowTop % t.side == 0
    requires t.colLeft < w && t.rowTop < |img|
    ensures Within(img, t)
  {
    MultipleStep(t.side, t.colLeft, w);
    MultipleStep(t.side, t.rowTop, |img|);
  }

  /** Of two multiples of n, the smaller is at least n below the larger. */
  lemma MultipleStep(n: Pos, a: nat, b: nat)
    requires a % n == 0 && b % n == 0 && a < b
    ensures a + n <= b
  {
    var i, j := a / n, b / n;
    assert a == i * n && b == j * n;
    if j < i + 1 {
      ProductMonotone(n, j, i);
      assert false;
    }
    ProductMonotone(n, i + 1, j);
  }

  /** The pixel of the mosaic at (x, y): the rendering of the tile that holds
      it, computed from the untouched canvas. */
  function MosaicPixel(img: Image, w: nat, n: Pos, x: nat, y: nat): Pixel
    requires IsCanvas(img, w, n) && x < w && y < |img|
  {
    var t := TileAt(n, x, y);
    GridTileWithin(img, w, t);
    RenderedPixel(img, t, x, y)
  }

  /** The mosaic pixel at (x, y) is the rendering of the grid tile that holds it. */
  lemma MosaicPixelOfTile(img: Image, w: nat, n: Pos, t: Tile, x: nat, y: nat)
    requires IsCanvas(img, w, n) && x < w && y < |img| && Within(img, t)
    requires t.side == n && t.colLeft % n == 0 && t.rowTop % n == 0 && t.Contains(x, y)
    ensures MosaicPixel(img, w, n, x, y) == RenderedPixel(img, t, x, y)
  {
    TileAtUnique(n, x, y, t);
  }

  /** Rendering the tiles in row-major order, each from the buffer as the
      loop finds it, gives the same mosaic as rendering every tile from the
      untouched canvas: a tile's pixels are still untouched when it is
      rendered. Stated pixel by pixel: whatever an image holds outside the
      tile of (x, y), the mosaic pixel is the rendering of that tile. */
  lemma MosaicPixelLocal(img: Image, img': Image, w: nat, n: Pos, t: Tile, x: nat, y: nat)
    requires IsCanvas(img, w, n) && x < w && y < |img| && t == TileAt(n, x, y)
    requires Within(img, t) && Within(img', t)
    requires forall i, j | t.Contains(i, j) :: img'[j][i] == img[j][i]
    ensures MosaicPixel(img, w, n, x, y) == RenderedPixel(img', t, x, y)
  {
    RenderLocal(img, img', t, x, y);
  }

  /** On a solid opaque canvas the mosaic is the canvas itself. */
  lemma SolidOpaqueCanvas(img: Image, w: nat, n: Pos, p: Pixel, x: nat, y: nat)
    requires IsCanvas(img, w, n) && x < w && y < |img| && p.a == MaxChannel
    requires forall j, i | 0 <= j < |img| && 0 <= i < w :: img[j][i] == p
    ensures MosaicPixel(img, w, n, x, y) == p
  {
    var t := TileAt(n, x, y);
    GridTileWithin(img, w, t);
    MosaicPixelOfTile(img, w, n, t, x, y);
    SolidTileRendered(img, t, p, x, y);
  }

  /** With one-pixel tiles every pixel is replaced by its premultiplied
      form: an opaque canvas comes out unchanged. */
  lemma OnePixelMosaic(img: Image, w: nat, x: nat, y: nat)
    requires IsCanvas(img, w, 1) && x < w && y < |img|
    ensures MosaicPixel(img, w, 1, x, y) == Premultiplied(img[y][x])
    ensures img[y][x].a == MaxChannel ==> MosaicPixel(img, w, 1, x, y) == img[y][x]
  {
    var t := Tile(x, y, 1);
    GridTileWithin(img, w, t);
    MosaicPixelOfTile(img, w, 1, t, x, y);
    OnePixelTileRendered(img, t);
  }

  /** The tiles rendered before tile (colLeft, rowTop) in row-major order. */
  predicate RenderedBefore(x: int, y: int, colLeft: int, rowTop: int, n: Pos) {
    y < rowTop || (y < rowTop + n && x < colLeft)
  }

  /** cur has the shape of img. */
  predicate SameShape(cur: Image, img: Image) {
    |cur| == |img| && forall y | 0 <= y < |img| :: |cur[y]| == |img[y]|
  }

  /** In cur, the pixels of the tiles rendered so far hold the mosaic of img. */
  predicate RenderedSoFar(cur: Image, img: Image, w: nat, n: Pos, colLeft: int, rowTop: int)
    requires IsCanvas(img, w, n) && SameShape(cur, img)
  {
    forall x, y | 0 <= x < w && 0 <= y < |img| && RenderedBefore(x, y, colLeft, rowTop, n) ::
      cur[y][x] == MosaicPixel(img, w, n, x, y)
  }

  /** In cur, the pixels of the tiles not rendered yet still hold img. */
  predicate UntouchedSoFar(cur: Image, img: Image, w: nat, n: Pos, colLeft: int, rowTop: int)
    requires IsCanvas(img, w, n) && SameShape(cur, img)
  {
    forall x, y | 0 <= x < w && 0 <= y < |img| && !RenderedBefore(x, y, colLeft, rowTop, n) ::
      cur[y][x] == img[y][x]
  }

  /** The buffer holds the tiles rendered before (colLeft, rowTop) and the
      canvas everywhere else. */
  ghost predicate Progress(a: array2<Pixel>, img: Image, n: Pos, colLeft: int, rowTop: int)
    reads a
    requires |img| == a.Length1 && IsCanvas(img, a.Length0, n)
  {
    var cur := Snapshot(a);
    RenderedSoFar(cur, img, a.Length0, n, colLeft, rowTop) &&
    UntouchedSoFar(cur, img, a.Length0, n, colLeft, rowTop)
  }

  /** The tile loop of `Truchet` (lines 73-133) over the resized canvas a of
      a width x height source, with the progress reports of line 83. Tiles
      are visited top-down and left to right; each is rendered from the
      buffer as it stands. Afterwards every pixel holds the mosaic of the
      canvas, tileCount has reached numTiles = numCols*numRows, and the
      progress reports were 1, 2, ..., numTiles, each once. */
  method Truchet(a: array2<Pixel>, width: nat, height: nat, n: Pos, ghost img: Image)
    returns (numTiles: nat, tileCount: nat, reported: seq<nat>)
    requires a.Length0 == CeilDiv(width, n) * n && a.Length1 == CeilDiv(height, n) * n
    requires Holds(a, img)
    modifies a
    ensures numTiles == GeometryOf(width, height, n).numTiles && tileCount == numTiles
    ensures |reported| == numTiles && forall k | 0 <= k < numTiles :: reported[k] == k + 1
    ensures IsCanvas(img, a.Length0, n)
    ensures forall x, y | 0 <= x < a.Length0 && 0 <= y < a.Length1 ::
      a[x, y] == MosaicPixel(img, a.Length0, n, x, y)
  {
    var g := GeometryOf(width, height, n);
    var numCols, numRows := g.numCols, g.numRows;
    numTiles := g.numTiles;
    assert IsCanvas(img, a.Length0, n);
    assert UntouchedSoFar(Snapshot(a), img, a.Length0, n, 0, 0);
    tileCount, reported := 0, [];
    var rowTop := 0;
    ghost var row := 0;
    while rowTop < a.Length1
      invariant rowTop == row * n && row <= numRows
      invariant tileCount == row * numCols
      invariant |reported| == tileCount && forall k | 0 <= k < tileCount :: reported[k] == k + 1
      invariant |img| == a.Length1 && IsCanvas(img, a.Length0, n)
      invariant Progress(a, img, n, 0, rowTop)
    {
      MulLess(row, numRows, n);
      var colLeft := 0;
      ghost var col := 0;
      while colLeft < a.Length0
        invariant colLeft == col * n && col <= numCols
        invariant tileCount == row * numCols + col
        invariant |reported| == tileCount && forall k | 0 <= k < tileCount :: reported[k] == k + 1
        invariant |img| == a.Length1 && IsCanvas(img, a.Length0, n)
        invariant Progress(a, img, n, colLeft, rowTop)
      {
        MulLess(col, numCols, n);
        MultipleOf(col, n);
        MultipleOf(row, n);
        tileCount := tileCount + 1;
        reported := reported + [tileCount];
        RenderGridTile(a, img, n, colLeft, rowTop);
        MulSucc(col, n);
        colLeft, col := colLeft + n, col + 1;
      }
      if col < numCols {
        MulLess(col, numCols, n);
        assert false;
      }
      ProgressNextRow(a, img, n, rowTop);
      MulSucc(row, numCols);
      MulSucc(row, n);
      rowTop, row := rowTop + n, row + 1;
    }
    if row < numRows {
      MulLess(row, numRows, n);
      assert false;
    }
    ProgressDone(a, img, n, rowTop);
  }

  lemma MulSucc(i: nat, n: nat)
    ensures (i + 1) * n == i * n + n
  {
  }

  /** Of two multiples of n, the order is that of their factors. */
  lemma MulLess(i: nat, j: nat, n: Pos)
    ensures i * n < j * n <==> i < j
  {
    if i < j {
      ProductMonotone(n, i + 1, j);
    } else {
      ProductMonotone(n, j, i);
    }
  }

  lemma MultipleOf(i: nat, n: Pos)
    ensures (i * n) % n == 0
  {
    MulDivCancel(i, n);
  }

  /** One iteration of the inner loop (lines 81-131): the tile at
      (colLeft, rowTop) is rendered and joins the rendered tiles. */
  method RenderGridTile(a: array2<Pixel>, ghost img: Image, n: Pos, colLeft: nat, rowTop: nat)
    requires |img| == a.Length1 && IsCanvas(img, a.Length0, n)
    requires colLeft % n == 0 && rowTop % n == 0 && colLeft < a.Length0 && rowTop < a.Length1
    requires Progress(a, img, n, colLeft, rowTop)
    modifies a
    ensures Progress(a, img, n, colLeft + n, rowTop)
  {
    var t := Tile(colLeft, rowTop, n);
    GridTileWithin(img, a.Length0, t);
    ghost var before := Snapshot(a);
    UntouchedTile(a, before, img, t);
    RenderTile(a, t, img);
    ghost var after := Snapshot(a);
    forall x, y | 0 <= x < a.Length0 && 0 <= y < |img| && !t.Contains(x, y)
      ensures after[y][x] == before[y][x]
    {
    }
    GridStep(before, after, img, a.Length0, t);
  }

  /** A tile not rendered yet still holds the canvas. */
  lemma UntouchedTile(a: array2<Pixel>, cur: Image, img: Image, t: Tile)
    requires |img| == a.Length1 && IsCanvas(img, a.Length0, t.side) && Within(img, t)
    requires Holds(a, cur) && UntouchedSoFar(cur, img, a.Length0, t.side, t.colLeft, t.rowTop)
    ensures AgreesOn(a, img, t)
  {
    assert |img[t.rowTop]| == a.Length0;
    forall x, y | t.Contains(x, y) ensures a[x, y] == img[y][x] {
      assert !RenderedBefore(x, y, t.colLeft, t.rowTop, t.side);
    }
  }

  /** Rendering grid tile t moves it from the untouched tiles to the rendered
      ones: if after holds the rendering of t and agrees with before
      everywhere else, the next tile in row-major order can follow. */
  lemma GridStep(before: Image, after: Image, img: Image, w: nat, t: Tile)
    requires IsCanvas(img, w, t.side) && SameShape(before, img) && SameShape(after, img) && Within(img, t)
    requires t.colLeft % t.side == 0 && t.rowTop % t.side == 0
    requires RenderedSoFar(before, img, w, t.side, t.colLeft, t.rowTop)
    requires UntouchedSoFar(before, img, w, t.side, t.colLeft, t.rowTop)
    requires forall x, y | t.Contains(x, y) :: after[y][x] == RenderedPixel(img, t, x, y)
    requires forall x, y | 0 <= x < w && 0 <= y < |img| && !t.Contains(x, y) :: after[y][x] == before[y][x]
    ensures RenderedSoFar(after, img, w, t.side, t.colLeft + t.side, t.rowTop)
    ensures UntouchedSoFar(after, img, w, t.side, t.colLeft + t.side, t.rowTop)
  {
    var n := t.side;
    forall x, y | 0 <= x < w && 0 <= y < |img| && RenderedBefore(x, y, t.colLeft + n, t.rowTop, n)
      ensures after[y][x] == MosaicPixel(img, w, n, x, y)
    {
      if t.Contains(x, y) {
        MosaicPixelOfTile(img, w, n, t, x, y);
      } else {
        assert RenderedBefore(x, y, t.colLeft, t.rowTop, n);
      }
    }
    forall x, y | 0 <= x < w && 0 <= y < |img| && !RenderedBefore(x, y, t.colLeft + n, t.rowTop, n)
      ensures after[y][x] == img[y][x]
    {
      assert !t.Contains(x, y);
    }
  }

  /** A finished row of tiles: rendering before (mosaicWidth, rowTop) is
      rendering before (0, rowTop + n). */
  lemma ProgressNextRow(a: array2<Pixel>, img: Image, n: Pos, rowTop: int)
    requires |img| == a.Length1 && IsCanvas(img, a.Length0, n)
    requires Progress(a, img, n, a.Length0, rowTop)
    ensures Progress(a, img, n, 0, rowTop + n)
  {
    var cur := Snapshot(a);
    forall x, y | 0 <= x < a.Length0 && 0 <= y < a.Length1
      ensures RenderedBefore(x, y, a.Length0, rowTop, n) == RenderedBefore(x, y, 0, rowTop + n, n)
    {
    }
  }

  /** When the rows are exhausted every pixel holds the mosaic. */
  lemma ProgressDone(a: array2<Pixel>, img: Image, n: Pos, rowTop: int)
    requires |img| == a.Length1 && IsCanvas(img, a.Length0, n) && rowTop >= a.Length1
    requires Progress(a, img, n, 0, rowTop)
    ensures forall x, y | 0 <= x < a.Length0 && 0 <= y < a.Length1 ::
      a[x, y] == MosaicPixel(img, a.Length0, n, x, y)
  {
    var cur := Snapshot(a);
    forall x, y | 0 <= x < a.Length0 && 0 <= y < a.Length1
      ensures a[x, y] == MosaicPixel(img, a.Length0, n, x, y)
    {
      assert RenderedBefore(x, y, 0, rowTop, n);
    }
  }
}
