/** The tile renderer: `truchetTiler` (lines 223-244) and the per-tile body
    of `Truchet` that selects an orientation, averages the two colours and
    draws the tile over the buffer (lines 84-131).

    Drawing the tiler over the tile rectangle with the `draw.Src` operator
    (line 131) visits the rectangle row by row, left to right, and stores at (x, y) the
    colour `tiler.At(x, y)`. That colour is a `color.NRGBA64`, which
    `NRGBA64Model` passes through unchanged, so the premultiplied means are
    stored as they are, as if they were non-premultiplied. */
module Render {
  import opened Pixels
  import opened Selector
  import opened Mask
  import opened Averager

  /** Go's `image.Rectangle`: the half-open pixel range [minX, maxX) x [minY, maxY). */
  datatype Rect = Rect(minX: int, minY: int, maxX: int, maxY: int) {
    predicate Has(x: int, y: int) {
      minX <= x < maxX && minY <= y < maxY
    }
  }

  /** The tile rectangle of line 127, one past the inclusive right and bottom
      bounds: the half-open rectangle holds exactly the inclusive bounds of the tile. */
  function TileRect(t: Tile): (r: Rect)
    ensures r.maxX - r.minX == r.maxY - r.minY == t.side
    ensures forall x, y :: r.Has(x, y) <==> t.Contains(x, y)
  {
    Rect(t.colLeft, t.rowTop, t.ColRight() + 1, t.RowBottom() + 1)
  }

  /** `truchetTiler`: an image that is the tile colour on the foreground of
      its orientation and the background colour elsewhere. */
  datatype Tiler = Tiler(tileNo: nat, tileColor: Pixel, tileRect: Rect, bgColor: Pixel,
                         x1: int, xDelta: int, y1: int, yDelta: nat)
  {
    /** `truchetTiler.Bounds` (lines 236-238). */
    function Bounds(): Rect {
      tileRect
    }

    /** `truchetTiler.At` (lines 239-244): the boundary of row y, then the mask. */
    function At(x: int, y: int): Pixel
      requires y1 <= y <= y1 + yDelta
    {
      if IsBackground(tileNo, x, XBoundary(x1, xDelta, y1, yDelta, y)) then bgColor else tileColor
    }
  }

  /** The tiler built at line 130 for tile t, with the end ordinates of lines
      77-79 and 87-94. */
  function MakeTiler(t: Tile, tileNo: nat, tileColor: Pixel, bgColor: Pixel): (tiler: Tiler)
    ensures tiler.Bounds() == TileRect(t)
    ensures tiler.y1 == t.rowTop && tiler.yDelta == t.side - 1
  {
    var x1, x2 := EndX1(t, tileNo), EndX2(t, tileNo);
    Tiler(tileNo, tileColor, TileRect(t), bgColor, x1, x2 - x1, t.rowTop, t.side - 1)
  }

  /** The tiler paints with the same mask the averaging pass used: the tile
      colour exactly on the foreground triangle of the orientation. */
  lemma TilerPaintsTriangle(t: Tile, tileNo: nat, tileColor: Pixel, bgColor: Pixel, x: int, y: int)
    requires tileNo < 4 && t.Contains(x, y)
    ensures MakeTiler(t, tileNo, tileColor, bgColor).At(x, y) ==
      if InTriangle(t, tileNo, x, y) then tileColor else bgColor
  {
    RowBoundaryOf(t, tileNo, EndX1(t, tileNo), EndX2(t, tileNo) - EndX1(t, tileNo),
                  t.rowTop, t.side - 1, y);
    ForegroundIsTriangle(t, tileNo, x, y);
  }

  /** The bounds of the tiler lie inside the buffer and its rows are those
      the tiler's boundary is defined on. */
  predicate Drawable(a: array2<Pixel>, tiler: Tiler) {
    var r := tiler.Bounds();
    0 <= r.minX <= r.maxX <= a.Length0 && 0 <= r.minY < r.maxY <= a.Length1 &&
    tiler.y1 == r.minY && tiler.yDelta == r.maxY - 1 - r.minY
  }

  /** `draw.Draw` of the tiler onto the buffer over the tile rectangle with
      `draw.Src` (line 131): every pixel of the tiler's bounds is overwritten with
      `tiler.At`, and nothing outside the bounds changes. */
  method Draw(a: array2<Pixel>, tiler: Tiler)
    requires Drawable(a, tiler)
    modifies a
    ensures forall x, y | tiler.Bounds().Has(x, y) :: a[x, y] == tiler.At(x, y)
    ensures forall x, y | 0 <= x < a.Length0 && 0 <= y < a.Length1 && !tiler.Bounds().Has(x, y) ::
      a[x, y] == old(a[x, y])
  {
    var r := tiler.Bounds();
    var y := r.minY;
    while y < r.maxY
      invariant r.minY <= y <= r.maxY
      invariant forall i, j | r.Has(i, j) && j < y :: a[i, j] == tiler.At(i, j)
      invariant forall i, j | 0 <= i < a.Length0 && 0 <= j < a.Length1 && !(r.Has(i, j) && j < y) ::
        a[i, j] == old(a[i, j])
    {
      var x := r.minX;
      while x < r.maxX
        invariant r.minX <= x <= r.maxX
        invariant forall i, j | r.Has(i, j) && (j < y || (j == y && i < x)) :: a[i, j] == tiler.At(i, j)
        invariant forall i, j | 0 <= i < a.Length0 && 0 <= j < a.Length1 &&
          !(r.Has(i, j) && (j < y || (j == y && i < x))) :: a[i, j] == old(a[i, j])
      {
        a[x, y] := tiler.At(x, y);
        x := x + 1;
      }
      y := y + 1;
    }
  }

  /** The pixel that rendering tile t of img writes at (x, y): the tile
      colour on the foreground of the selected orientation, the background
      colour elsewhere. */
  function RenderedPixel(img: Image, t: Tile, x: int, y: int): Pixel
    requires Within(img, t) && t.Contains(x, y)
  {
    var tileNo := TileNo(img, t);
    if InTriangle(t, tileNo, x, y) then FgColour(img, t, tileNo) else BgColour(img, t)
  }

  /** Lines 84-131 for one tile: select the orientation, average the two
      colours over the tile, build the tiler and draw it. The buffer must
      still hold img on the tile (it may differ elsewhere); afterwards the
      tile holds its rendering and every other pixel is unchanged. */
  method RenderTile(a: array2<Pixel>, t: Tile, ghost img: Image)
    requires AgreesOn(a, img, t)
    modifies a
    ensures forall x, y | t.Contains(x, y) :: a[x, y] == RenderedPixel(img, t, x, y)
    ensures forall x, y | 0 <= x < a.Length0 && 0 <= y < a.Length1 && !t.Contains(x, y) ::
      a[x, y] == old(a[x, y])
  {
    var tileNo := TileSelector(a, t, img);
    var tileColor, bgColor := AverageTile(a, t, tileNo, img);
    var tiler := MakeTiler(t, tileNo, tileColor, bgColor);
    Draw(a, tiler);
    forall x, y | t.Contains(x, y) ensures a[x, y] == RenderedPixel(img, t, x, y) {
      assert tiler.Bounds().Has(x, y);
      TilerPaintsTriangle(t, tileNo, tileColor, bgColor, x, y);
    }
  }

  /** The rendering of a tile depends only on the tile's own rectangle: the
      selector and both averages read nothing else. */
  lemma RenderLocal(img: Image, img': Image, t: Tile, x: int, y: int)
    requires Within(img, t) && Within(img', t) && t.Contains(x, y)
    requires forall i, j | t.Contains(i, j) :: img[j][i] == img'[j][i]
    ensures RenderedPixel(img, t, x, y) == RenderedPixel(img', t, x, y)
  {
    TileNoLocal(img, img', t);
    ColoursLocal(img, img', t, TileNo(img, t));
  }

  /** The corner of the selected orientation always gets the tile colour
      and, on a tile of side at least two, the opposite corner gets the
      background colour. */
  lemma RenderedCorners(img: Image, t: Tile)
    requires Within(img, t)
    ensures var k := TileNo(img, t); var opposite := (k + 2) % 4;
      RenderedPixel(img, t, t.CornerX(k), t.CornerY(k)) == FgColour(img, t, k) &&
      (t.side > 1 ==>
        RenderedPixel(img, t, t.CornerX(opposite), t.CornerY(opposite)) == BgColour(img, t))
  {
    var k := TileNo(img, t);
    var opposite := (k + 2) % 4;
    CornersOfTriangle(t, k);
    ForegroundIsTriangle(t, k, t.CornerX(k), t.CornerY(k));
    ForegroundIsTriangle(t, k, t.CornerX(opposite), t.CornerY(opposite));
  }

  /** A tile of one colour p is rendered in that colour as read: the
      premultiplied mean is stored as it is. An opaque solid tile is left
      exactly as it was. */
  lemma SolidTileRendered(img: Image, t: Tile, p: Pixel, x: int, y: int)
    requires Within(img, t) && t.Contains(x, y)
    requires forall i, j | t.Contains(i, j) :: img[j][i] == p
    ensures RenderedPixel(img, t, x, y) == Premultiplied(p)
    ensures p.a == MaxChannel ==> RenderedPixel(img, t, x, y) == p
  {
    SolidTile(img, t, TileNo(img, t), p);
  }

  /** Because the premultiplied mean is stored where a non-premultiplied
      colour belongs, a solid tile that is not opaque comes out darker: every
      non-zero colour channel is lowered, and alpha is kept. */
  lemma TranslucentTileDarkens(img: Image, t: Tile, p: Pixel, x: int, y: int)
    requires Within(img, t) && t.Contains(x, y)
    requires forall i, j | t.Contains(i, j) :: img[j][i] == p
    requires p.a < MaxChannel
    ensures var q := RenderedPixel(img, t, x, y);
      q.a == p.a && (p.r > 0 ==> q.r < p.r) && (p.g > 0 ==> q.g < p.g) && (p.b > 0 ==> q.b < p.b)
  {
    SolidTileRendered(img, t, p, x, y);
    PremultipliedDarkens(p);
  }

  /** A one-pixel tile is rendered as its own pixel, premultiplied: an
      opaque pixel is unchanged. */
  lemma OnePixelTileRendered(img: Image, t: Tile)
    requires Within(img, t) && t.side == 1
    ensures var p := img[t.rowTop][t.colLeft];
      RenderedPixel(img, t, t.colLeft, t.rowTop) == Premultiplied(p) &&
      (p.a == MaxChannel ==> RenderedPixel(img, t, t.colLeft, t.rowTop) == p)
  {
    DegenerateTile(img, t, TileNo(img, t));
  }
}
