/** The diagonal mask: `isBackground` and the per-row boundary of a tile.

    On each row of a tile the boundary's x ordinate is interpolated from x1 on
    the top row to x2 on the bottom row: colLeft to colRight for even
    orientations, colRight to colLeft for odd ones. For orientations 0 and 1
    the background lies strictly right of the boundary, for 2 and 3 strictly
    left of it; the boundary pixel itself is foreground.

    Go computes the boundary in float64. Here it is the exact fraction
    `(x1*yDelta + (y - y1)*xDelta) / yDelta`, compared with a column by
    cross-multiplying by `yDelta = side - 1`. On a one-pixel tile yDelta is 0,
    Go's `lambda` is 0/0 = NaN, and every comparison with NaN is false. */
module Mask {
  import opened Pixels

  /** A boundary ordinate `xBoundary`: NaN, or the fraction num/den. */
  datatype Boundary = NaN | Ratio(num: int, den: Pos)

  /** Go's `x > xBoundary` on float64 values. */
  predicate Greater(x: int, b: Boundary) {
    b.Ratio? && x * b.den > b.num
  }

  /** Go's `x < xBoundary` on float64 values. */
  predicate Less(x: int, b: Boundary) {
    b.Ratio? && x * b.den < b.num
  }

  /** `isBackground` (lines 194-196). */
  predicate IsBackground(tileNo: int, x: int, xBoundary: Boundary) {
    (tileNo < 2 && Greater(x, xBoundary)) || (tileNo > 1 && Less(x, xBoundary))
  }

  /** The boundary on row y (lines 100-101 and 240-241): the fraction of the
      way from y1 down to y is scaled onto the run from x1, as an exact ratio,
      or NaN when the tile has a single row. */
  function XBoundary(x1: int, xDelta: int, y1: int, yDelta: nat, y: int): Boundary
    requires y1 <= y <= y1 + yDelta
  {
    if yDelta == 0 then NaN else Ratio(x1 * yDelta + (y - y1) * xDelta, yDelta)
  }

  /** Where the diagonal starts (EndX1, on the top row) and ends (EndX2, on
      the bottom row): colLeft then colRight for even orientations, the other
      way round for odd ones (lines 87-93). */
  function EndX1(t: Tile, tileNo: nat): int {
    if tileNo % 2 == 0 then t.colLeft else t.ColRight()
  }

  function EndX2(t: Tile, tileNo: nat): int {
    if tileNo % 2 == 0 then t.ColRight() else t.colLeft
  }

  /** The boundary of orientation tileNo on row y of tile t. */
  function RowBoundary(t: Tile, tileNo: nat, y: int): Boundary
    requires t.rowTop <= y <= t.RowBottom()
  {
    XBoundary(EndX1(t, tileNo), EndX2(t, tileNo) - EndX1(t, tileNo), t.rowTop, t.side - 1, y)
  }

  /** The boundary computed from the tile's own x1, xDelta, y1 and yDelta
      (lines 87-101) is the row boundary of its orientation, and it lies on the
      tile's diagonal: NaN exactly on a one-pixel tile, otherwise exactly the
      column `Diagonal(t, tileNo, y)`. */
  lemma RowBoundaryOf(t: Tile, tileNo: nat, x1: int, xDelta: int, y1: int, yDelta: nat, y: int)
    requires x1 == EndX1(t, tileNo) && xDelta == EndX2(t, tileNo) - x1
    requires y1 == t.rowTop && yDelta == t.RowBottom() - y1 && y1 <= y <= y1 + yDelta
    ensures XBoundary(x1, xDelta, y1, yDelta, y) == RowBoundary(t, tileNo, y)
    ensures XBoundary(x1, xDelta, y1, yDelta, y).NaN? <==> t.side == 1
    ensures t.side > 1 ==>
      XBoundary(x1, xDelta, y1, yDelta, y) == Ratio(Diagonal(t, tileNo, y) * yDelta, yDelta)
  {
    BoundaryIsDiagonal(t, tileNo, y);
  }

  /** Pixel (x, y) of tile t lies in the background of orientation tileNo. */
  predicate InBackground(t: Tile, tileNo: nat, x: int, y: int)
    requires t.rowTop <= y <= t.RowBottom()
  {
    IsBackground(tileNo, x, RowBoundary(t, tileNo, y))
  }

  /** The diagonal in exact arithmetic: colLeft + k on row offset k for even
      orientations, colRight - k for odd ones. */
  function Diagonal(t: Tile, tileNo: nat, y: int): int {
    if tileNo % 2 == 0 then t.colLeft + (y - t.rowTop) else t.ColRight() - (y - t.rowTop)
  }

  /** The foreground of each orientation as a triangle of the tile, stated in
      the distances dx from the left column and dy from the top row: it holds
      the diagonal and the corner of that orientation. */
  predicate InTriangle(t: Tile, tileNo: nat, x: int, y: int)
    requires tileNo < 4
  {
    var dx, dy, last := x - t.colLeft, y - t.rowTop, t.side - 1;
    if tileNo == 0 then dx <= dy                 // bottom-left
    else if tileNo == 1 then dx + dy <= last     // top-left
    else if tileNo == 2 then dx >= dy            // top-right
    else dx + dy >= last                         // bottom-right
  }

  lemma ScaledCompare(x: int, c: int, d: Pos)
    ensures x * d > c * d <==> x > c
    ensures x * d < c * d <==> x < c
  {
    assert x * d - c * d == (x - c) * d;
    if x > c {
      assert (x - c) * d >= d by { ProductMonotone(d, 1, x - c); }
    } else if x < c {
      assert (c - x) * d >= d by { ProductMonotone(d, 1, c - x); }
    }
  }

  /** On a tile of side at least two the boundary is exactly the diagonal; on
      a one-pixel tile it is NaN. */
  lemma BoundaryIsDiagonal(t: Tile, tileNo: nat, y: int)
    requires t.rowTop <= y <= t.RowBottom()
    ensures RowBoundary(t, tileNo, y).NaN? <==> t.side == 1
    ensures t.side > 1 ==>
      RowBoundary(t, tileNo, y) == Ratio(Diagonal(t, tileNo, y) * (t.side - 1), t.side - 1)
  {
    if t.side > 1 {
      var d, k := t.side - 1, y - t.rowTop;
      if tileNo % 2 == 0 {
        assert t.colLeft * d + k * d == (t.colLeft + k) * d;
      } else {
        assert t.ColRight() * d + k * (-d) == (t.ColRight() - k) * d;
      }
    }
  }

  /** The mask is monotone in x on a row: background spreads to the right for
      orientations 0 and 1 and to the left for 2 and 3. A pixel exactly on the
      boundary is foreground. */
  lemma MaskMonotone(tileNo: int, x: int, x': int, b: Boundary)
    ensures b.Ratio? && x * b.den == b.num ==> !IsBackground(tileNo, x, b)
    ensures tileNo < 2 && x <= x' && IsBackground(tileNo, x, b) ==> IsBackground(tileNo, x', b)
    ensures tileNo > 1 && x' <= x && IsBackground(tileNo, x, b) ==> IsBackground(tileNo, x', b)
  {
    if b.Ratio? {
      var lo, hi := if x <= x' then x else x', if x <= x' then x' else x;
      assert hi * b.den - lo * b.den == (hi - lo) * b.den;
      ProductMonotone(b.den, 0, hi - lo);
    }
  }

  /** The mask against the exact diagonal: on a tile of side at least two,
      orientations 0 and 1 have background strictly right of the diagonal and
      orientations 2 and 3 strictly left of it; a one-pixel tile has none. */
  lemma BackgroundBesideDiagonal(t: Tile, tileNo: nat, x: int, y: int)
    requires t.rowTop <= y <= t.RowBottom()
    ensures InBackground(t, tileNo, x, y) <==>
      t.side > 1 &&
      ((tileNo < 2 && x > Diagonal(t, tileNo, y)) || (tileNo > 1 && x < Diagonal(t, tileNo, y)))
  {
    BoundaryIsDiagonal(t, tileNo, y);
    if t.side > 1 {
      ScaledCompare(x, Diagonal(t, tileNo, y), t.side - 1);
    }
  }

  /** The foreground of orientation tileNo is exactly its triangle. */
  lemma ForegroundIsTriangle(t: Tile, tileNo: nat, x: int, y: int)
    requires tileNo < 4 && t.Contains(x, y)
    ensures !InBackground(t, tileNo, x, y) <==> InTriangle(t, tileNo, x, y)
  {
    BackgroundBesideDiagonal(t, tileNo, x, y);
  }

  /** The corner an orientation belongs to is always foreground; on a tile of
      side at least two the opposite corner is background. */
  lemma CornersOfTriangle(t: Tile, tileNo: nat)
    requires tileNo < 4
    ensures !InBackground(t, tileNo, t.CornerX(tileNo), t.CornerY(tileNo))
    ensures t.side > 1 ==>
      var opposite := (tileNo + 2) % 4;
      InBackground(t, tileNo, t.CornerX(opposite), t.CornerY(opposite))
  {
    ForegroundIsTriangle(t, tileNo, t.CornerX(tileNo), t.CornerY(tileNo));
    var opposite := (tileNo + 2) % 4;
    ForegroundIsTriangle(t, tileNo, t.CornerX(opposite), t.CornerY(opposite));
  }
}
