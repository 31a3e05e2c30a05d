/** The colour averager of `Truchet` (lines 95-125).

    One pass over the tile, row by row and left to right, adds every pixel's
    premultiplied channels to the background sums and, when the mask says it
    is not background, to the foreground sums and count. The background colour
    is the truncated mean over all side² pixels (the whole tile, not only the
    background region); the tile colour is the truncated mean over the
    foreground pixels. */
module Averager {
  import opened Pixels
  import opened Mask

  /** `avgColor64`: per-channel running sums. */
  datatype Sums = Sums(r: nat, g: nat, b: nat, a: nat) {
    function Add(p: Pixel): Sums {
      Sums(r + p.r, g + p.g, b + p.b, a + p.a)
    }

    function Plus(o: Sums): Sums {
      Sums(r + o.r, g + o.g, b + o.b, a + o.a)
    }

    /** Each sum is at most what n pixels of full intensity give. */
    predicate AtMost(n: nat) {
      r <= MaxChannel * n && g <= MaxChannel * n && b <= MaxChannel * n && a <= MaxChannel * n
    }

    /** Each sum is n times the channel of p. */
    predicate IsMultiple(p: Pixel, n: nat) {
      r == p.r * n && g == p.g * n && b == p.b * n && a == p.a * n
    }
  }

  const Zero: Sums := Sums(0, 0, 0, 0)

  /** The pixels a pass accumulates: every pixel of the tile, or only the
      foreground triangle of an orientation. The averaging loop decides with
      the mask; `ForegroundIsTriangle` shows the two agree. */
  datatype Region = WholeTile | Foreground(tileNo: nat)

  predicate Counts(region: Region, t: Tile, x: int, y: int) {
    match region
    case WholeTile => true
    case Foreground(tileNo) => tileNo < 4 && InTriangle(t, tileNo, x, y)
  }

  /** The sums and the number of pixels a pass has accumulated. */
  datatype Tally = Tally(sums: Sums, pts: nat)

  /** The image as the averaging pass reads it (line 105): every pixel
      through `.RGBA()`, that is premultiplied. The tallies below sum the
      pixels of such an image. */
  function Read(img: Image): (r: Image)
    ensures |r| == |img|
    ensures forall y | 0 <= y < |img| :: |r[y]| == |img[y]|
    ensures forall y, x | 0 <= y < |img| && 0 <= x < |img[y]| :: r[y][x] == Premultiplied(img[y][x])
  {
    seq(|img|, y requires 0 <= y < |img| =>
      seq(|img[y]|, x requires 0 <= x < |img[y]| => Premultiplied(img[y][x])))
  }

  /** What the pass accumulates on row y from colLeft up to (not including) xEnd. */
  function RowTally(img: Image, t: Tile, region: Region, y: int, xEnd: int): (s: Tally)
    requires Within(img, t) && t.rowTop <= y <= t.RowBottom()
    requires t.colLeft <= xEnd <= t.colLeft + t.side
    decreases xEnd
  {
    if xEnd == t.colLeft then Tally(Zero, 0)
    else
      var s := RowTally(img, t, region, y, xEnd - 1);
      var x := xEnd - 1;
      if Counts(region, t, x, y) then Tally(s.sums.Add(img[y][x]), s.pts + 1)
      else s
  }

  /** What the pass accumulates on the rows from rowTop up to (not including) yEnd. */
  function TileTally(img: Image, t: Tile, region: Region, yEnd: int): (s: Tally)
    requires Within(img, t) && t.rowTop <= yEnd <= t.rowTop + t.side
    decreases yEnd
  {
    if yEnd == t.rowTop then Tally(Zero, 0)
    else
      var s := TileTally(img, t, region, yEnd - 1);
      var row := RowTally(img, t, region, yEnd - 1, t.colLeft + t.side);
      Tally(s.sums.Plus(row.sums), s.pts + row.pts)
  }

  lemma {:induction false} RowBounds(img: Image, t: Tile, region: Region, y: int, xEnd: int)
    requires Within(img, t) && t.rowTop <= y <= t.RowBottom()
    requires t.colLeft <= xEnd <= t.colLeft + t.side
    ensures var s := RowTally(img, t, region, y, xEnd);
      s.sums.AtMost(s.pts) && s.pts <= xEnd - t.colLeft
    decreases xEnd
  {
    if xEnd > t.colLeft {
      RowBounds(img, t, region, y, xEnd - 1);
    }
  }

  lemma {:induction false} TileBounds(img: Image, t: Tile, region: Region, yEnd: int)
    requires Within(img, t) && t.rowTop <= yEnd <= t.rowTop + t.side
    ensures var s := TileTally(img, t, region, yEnd); s.sums.AtMost(s.pts)
    decreases yEnd
  {
    if yEnd > t.rowTop {
      TileBounds(img, t, region, yEnd - 1);
      RowBounds(img, t, region, yEnd - 1, t.colLeft + t.side);
    }
  }

  /** Go's `uint16(v)` conversion: the low 16 bits. */
  function U16(v: nat): Channel {
    v % 0x1_0000
  }

  lemma QuotientBound(v: nat, d: Pos)
    requires v <= MaxChannel * d
    ensures v / d <= MaxChannel
  {

  }

  /** The division steps of lines 118-125 followed by the uint16 conversion of
      lines 128-129: each channel is the truncated quotient of its sum by d,
      and since the sums are of at most d channel values the conversion keeps
      the quotient unchanged. */
  function Average(s: Sums, d: Pos): (p: Pixel)
    requires s.AtMost(d)
    ensures p.r == s.r / d && p.g == s.g / d && p.b == s.b / d && p.a == s.a / d
  {
    QuotientBound(s.r, d);
    QuotientBound(s.g, d);
    QuotientBound(s.b, d);
    QuotientBound(s.a, d);
    Pixel(U16(s.r / d), U16(s.g / d), U16(s.b / d), U16(s.a / d))
  }

  /** The truncated mean of all pixels of tile t of an image already read
      through `.RGBA()`, divided by tileArea = side². */
  function BgAverage(read: Image, t: Tile): Pixel
    requires Within(read, t)
  {
    WholeTileCount(read, t);
    TileBounds(read, t, WholeTile, t.rowTop + t.side);
    Average(TileTally(read, t, WholeTile, t.rowTop + t.side).sums, t.side * t.side)
  }

  /** The truncated mean of the foreground pixels, divided by tilePts. */
  function FgAverage(read: Image, t: Tile, tileNo: nat): Pixel
    requires Within(read, t) && tileNo < 4
  {
    var s := TileTally(read, t, Foreground(tileNo), t.rowTop + t.side);
    ForegroundCount(read, t, tileNo);
    TileBounds(read, t, Foreground(tileNo), t.rowTop + t.side);
    Average(s.sums, s.pts)
  }

  /** `bgColor` of tile t of img. */
  function BgColour(img: Image, t: Tile): Pixel
    requires Within(img, t)
  {
    BgAverage(Read(img), t)
  }

  /** `tileColor` of tile t of img for orientation tileNo. */
  function FgColour(img: Image, t: Tile, tileNo: nat): Pixel
    requires Within(img, t) && tileNo < 4
  {
    FgAverage(Read(img), t, tileNo)
  }

  lemma {:induction false} RowWholeCount(img: Image, t: Tile, y: int, xEnd: int)
    requires Within(img, t) && t.rowTop <= y <= t.RowBottom()
    requires t.colLeft <= xEnd <= t.colLeft + t.side
    ensures RowTally(img, t, WholeTile, y, xEnd).pts == xEnd - t.colLeft
    decreases xEnd
  {
    if xEnd > t.colLeft {
      RowWholeCount(img, t, y, xEnd - 1);
    }
  }

  lemma {:induction false} TileWholeCount(img: Image, t: Tile, yEnd: int)
    requires Within(img, t) && t.rowTop <= yEnd <= t.rowTop + t.side
    ensures TileTally(img, t, WholeTile, yEnd).pts == (yEnd - t.rowTop) * t.side
    decreases yEnd
  {
    if yEnd > t.rowTop {
      TileWholeCount(img, t, yEnd - 1);
      RowWholeCount(img, t, yEnd - 1, t.colLeft + t.side);
      assert (yEnd - t.rowTop) * t.side == (yEnd - 1 - t.rowTop) * t.side + t.side;
    }
  }

  /** The averaging pass visits each of the side² tile pixels exactly once. */
  lemma WholeTileCount(img: Image, t: Tile)
    requires Within(img, t)
    ensures TileTally(img, t, WholeTile, t.rowTop + t.side).pts == t.side * t.side >= 1
  {
    TileWholeCount(img, t, t.rowTop + t.side);
    ProductMonotone(t.side, 1, t.side);
  }

  /** The number of pixels of the triangle of tileNo on row offset dy among
      the first e columns of the tile. */
  function TriangleRowCount(t: Tile, tileNo: nat, dy: nat, e: nat): nat
    requires dy < t.side
  {
    if tileNo == 0 then (if e < dy + 1 then e else dy + 1)
    else if tileNo == 1 then (if e < t.side - dy then e else t.side - dy)
    else if tileNo == 2 then (if e < dy then 0 else e - dy)
    else (if e < t.side - 1 - dy then 0 else e - (t.side - 1 - dy))
  }

  lemma {:induction false} RowForegroundCount(img: Image, t: Tile, tileNo: nat, y: int, xEnd: int)
    requires Within(img, t) && tileNo < 4 && t.rowTop <= y <= t.RowBottom()
    requires t.colLeft <= xEnd <= t.colLeft + t.side
    ensures RowTally(img, t, Foreground(tileNo), y, xEnd).pts ==
      TriangleRowCount(t, tileNo, y - t.rowTop, xEnd - t.colLeft)
    decreases xEnd
  {
    if xEnd > t.colLeft {
      RowForegroundCount(img, t, tileNo, y, xEnd - 1);
    }
  }

  lemma {:induction false} TileForegroundCount(img: Image, t: Tile, tileNo: nat, yEnd: int)
    requires Within(img, t) && tileNo < 4 && t.rowTop <= yEnd <= t.rowTop + t.side
    ensures var m, pts := yEnd - t.rowTop, TileTally(img, t, Foreground(tileNo), yEnd).pts;
      if tileNo == 0 || tileNo == 3 then 2 * pts == m * (m + 1)
      else 2 * pts == 2 * m * t.side - m * (m - 1)
    decreases yEnd
  {
    if yEnd > t.rowTop {
      var m := yEnd - t.rowTop - 1;
      TileForegroundCount(img, t, tileNo, yEnd - 1);
      RowForegroundCount(img, t, tileNo, yEnd - 1, t.colLeft + t.side);
      TriangleStep(m, t.side);
    }
  }

  lemma TriangleStep(m: int, n: int)
    ensures (m + 1) * (m + 2) == m * (m + 1) + 2 * (m + 1)
    ensures 2 * (m + 1) * n - (m + 1) * m == 2 * m * n - m * (m - 1) + 2 * (n - m)
  {
  }

  /** The foreground of every orientation holds side*(side+1)/2 pixels: at
      least one, so the division by tilePts is defined, and on a tile of side
      at least two fewer than the whole tile. */
  lemma ForegroundCount(img: Image, t: Tile, tileNo: nat)
    requires Within(img, t) && tileNo < 4
    ensures var pts := TileTally(img, t, Foreground(tileNo), t.rowTop + t.side).pts;
      pts == t.side * (t.side + 1) / 2 && 1 <= pts && (t.side > 1 ==> pts < t.side * t.side)
  {
    TileForegroundCount(img, t, tileNo, t.rowTop + t.side);
    Triangular(t.side, TileTally(img, t, Foreground(tileNo), t.rowTop + t.side).pts);
  }

  lemma Triangular(n: Pos, pts: nat)
    requires 2 * pts == n * (n + 1) || 2 * pts == 2 * n * n - n * (n - 1)
    ensures pts == n * (n + 1) / 2 && 1 <= pts && (n > 1 ==> pts < n * n)
  {
    assert 2 * n * n - n * (n - 1) == n * (n + 1);
    assert n * (n + 1) >= 2 by { ProductMonotone(n, 1, n + 1); }
    if n > 1 {
      assert n * (n + 1) < 2 * (n * n) by { ProductMonotone(n, n + 1, 2 * n - 1); }
    }
  }

  /** On a one-pixel tile the single pixel is foreground and both tallies
      hold just that pixel. */
  lemma OnePixelTallies(read: Image, t: Tile, tileNo: nat)
    requires Within(read, t) && tileNo < 4 && t.side == 1
    ensures var q := read[t.rowTop][t.colLeft];
      TileTally(read, t, Foreground(tileNo), t.rowTop + 1) == Tally(Zero.Add(q), 1) &&
      TileTally(read, t, WholeTile, t.rowTop + 1) == Tally(Zero.Add(q), 1)
  {
    var q := read[t.rowTop][t.colLeft];
    assert Counts(Foreground(tileNo), t, t.colLeft, t.rowTop);
    assert RowTally(read, t, Foreground(tileNo), t.rowTop, t.colLeft + 1) == Tally(Zero.Add(q), 1);
    assert RowTally(read, t, WholeTile, t.rowTop, t.colLeft + 1) == Tally(Zero.Add(q), 1);
  }

  /** One-pixel tiles: both colours equal the (premultiplied) pixel itself. */
  lemma DegenerateTile(img: Image, t: Tile, tileNo: nat)
    requires Within(img, t) && tileNo < 4 && t.side == 1
    ensures FgColour(img, t, tileNo) == BgColour(img, t) == Premultiplied(img[t.rowTop][t.colLeft])
  {
    var read := Read(img);
    var q := read[t.rowTop][t.colLeft];
    OnePixelTallies(read, t, tileNo);
    MultipleAverage(Zero.Add(q), q, 1);
  }

  lemma {:induction false} RowSolid(img: Image, t: Tile, region: Region, q: Pixel, y: int, xEnd: int)
    requires Within(img, t) && t.rowTop <= y <= t.RowBottom()
    requires t.colLeft <= xEnd <= t.colLeft + t.side
    requires forall x | t.colLeft <= x < xEnd :: img[y][x] == q
    ensures var s := RowTally(img, t, region, y, xEnd); s.sums.IsMultiple(q, s.pts)
    decreases xEnd
  {
    if xEnd > t.colLeft {
      RowSolid(img, t, region, q, y, xEnd - 1);
      var s := RowTally(img, t, region, y, xEnd - 1);
      PlusMultiple(s.sums, Zero.Add(q), q, s.pts, 1);
    }
  }

  lemma {:induction false} TileSolid(img: Image, t: Tile, region: Region, q: Pixel, yEnd: int)
    requires Within(img, t) && t.rowTop <= yEnd <= t.rowTop + t.side
    requires forall x, y | t.Contains(x, y) :: img[y][x] == q
    ensures var s := TileTally(img, t, region, yEnd); s.sums.IsMultiple(q, s.pts)
    decreases yEnd
  {
    if yEnd > t.rowTop {
      TileSolid(img, t, region, q, yEnd - 1);
      var pixels := img[yEnd - 1];
      forall x | t.colLeft <= x < t.colLeft + t.side ensures pixels[x] == q {
        assert t.Contains(x, yEnd - 1);
      }
      RowSolid(img, t, region, q, yEnd - 1, t.colLeft + t.side);
      var s := TileTally(img, t, region, yEnd - 1);
      var row := RowTally(img, t, region, yEnd - 1, t.colLeft + t.side);
      PlusMultiple(s.sums, row.sums, q, s.pts, row.pts);
    }
  }

  lemma PlusMultiple(s: Sums, s': Sums, p: Pixel, n: nat, n': nat)
    requires s.IsMultiple(p, n) && s'.IsMultiple(p, n')
    ensures s.Plus(s').IsMultiple(p, n + n')
  {
    MulAdd(p.r, n, n');
    MulAdd(p.g, n, n');
    MulAdd(p.b, n, n');
    MulAdd(p.a, n, n');
  }

  lemma MultipleAverage(s: Sums, p: Pixel, d: Pos)
    requires s.IsMultiple(p, d)
    ensures s.AtMost(d) && Average(s, d) == p
  {
    ProductMonotone(d, p.r, MaxChannel);
    ProductMonotone(d, p.g, MaxChannel);
    ProductMonotone(d, p.b, MaxChannel);
    ProductMonotone(d, p.a, MaxChannel);
    MulDivCancel(p.r, d);
    MulDivCancel(p.g, d);
    MulDivCancel(p.b, d);
    MulDivCancel(p.a, d);
  }

  /** A tile of a single colour q has foreground mean q: truncation loses
      nothing on an exact mean. */
  lemma SolidForeground(read: Image, t: Tile, tileNo: nat, q: Pixel)
    requires Within(read, t) && tileNo < 4
    requires forall x, y | t.Contains(x, y) :: read[y][x] == q
    ensures FgAverage(read, t, tileNo) == q
  {
    var fg := TileTally(read, t, Foreground(tileNo), t.rowTop + t.side);
    TileSolid(read, t, Foreground(tileNo), q, t.rowTop + t.side);
    ForegroundCount(read, t, tileNo);
    MultipleAverage(fg.sums, q, fg.pts);
  }

  /** A tile of a single colour q has background mean q. */
  lemma SolidBackground(read: Image, t: Tile, q: Pixel)
    requires Within(read, t)
    requires forall x, y | t.Contains(x, y) :: read[y][x] == q
    ensures BgAverage(read, t) == q
  {
    var bg := TileTally(read, t, WholeTile, t.rowTop + t.side);
    TileSolid(read, t, WholeTile, q, t.rowTop + t.side);
    WholeTileCount(read, t);
    MultipleAverage(bg.sums, q, bg.pts);
  }

  /** A tile of a single colour p is averaged to that colour, premultiplied,
      in both regions. */
  lemma SolidTile(img: Image, t: Tile, tileNo: nat, p: Pixel)
    requires Within(img, t) && tileNo < 4
    requires forall x, y | t.Contains(x, y) :: img[y][x] == p
    ensures FgColour(img, t, tileNo) == BgColour(img, t) == Premultiplied(p)
  {
    SolidForeground(Read(img), t, tileNo, Premultiplied(p));
    SolidBackground(Read(img), t, Premultiplied(p));
  }

  lemma {:induction false} RowLocal(img: Image, img': Image, t: Tile, region: Region, y: int, xEnd: int)
    requires Within(img, t) && Within(img', t) && t.rowTop <= y <= t.RowBottom()
    requires t.colLeft <= xEnd <= t.colLeft + t.side
    requires forall x | t.colLeft <= x < xEnd :: img[y][x] == img'[y][x]
    ensures RowTally(img, t, region, y, xEnd) == RowTally(img', t, region, y, xEnd)
    decreases xEnd
  {
    if xEnd > t.colLeft {
      RowLocal(img, img', t, region, y, xEnd - 1);
      assert img[y][xEnd - 1] == img'[y][xEnd - 1];
    }
  }

  /** The averages read only the tile's own rectangle: two images that agree
      on it give the same tallies, hence the same colours. */
  lemma {:induction false} TileLocal(img: Image, img': Image, t: Tile, region: Region, yEnd: int)
    requires Within(img, t) && Within(img', t) && t.rowTop <= yEnd <= t.rowTop + t.side
    requires forall x, y | t.Contains(x, y) :: img[y][x] == img'[y][x]
    ensures TileTally(img, t, region, yEnd) == TileTally(img', t, region, yEnd)
    decreases yEnd
  {
    if yEnd > t.rowTop {
      TileLocal(img, img', t, region, yEnd - 1);
      RowLocal(img, img', t, region, yEnd - 1, t.colLeft + t.side);
    }
  }

  /** Both colours of a tile depend only on the tile's own rectangle. */
  lemma ColoursLocal(img: Image, img': Image, t: Tile, tileNo: nat)
    requires Within(img, t) && Within(img', t) && tileNo < 4
    requires forall x, y | t.Contains(x, y) :: img[y][x] == img'[y][x]
    ensures FgColour(img, t, tileNo) == FgColour(img', t, tileNo)
    ensures BgColour(img, t) == BgColour(img', t)
  {
    var read, read' := Read(img), Read(img');
    forall x, y | t.Contains(x, y) ensures read[y][x] == read'[y][x] {
      assert img[y][x] == img'[y][x];
    }
    TileLocal(read, read', t, WholeTile, t.rowTop + t.side);
    TileLocal(read, read', t, Foreground(tileNo), t.rowTop + t.side);
  }

  /** Every sum stays below 2^64, so Go's uint64 accumulators cannot wrap,
      for any tile of side at most 2^24. */
  lemma SumsFitUint64(img: Image, t: Tile, region: Region)
    requires Within(img, t) && t.side <= 0x100_0000
    ensures var s := TileTally(img, t, region, t.rowTop + t.side).sums;
      s.r < 0x1_0000_0000_0000_0000 && s.g < 0x1_0000_0000_0000_0000 &&
      s.b < 0x1_0000_0000_0000_0000 && s.a < 0x1_0000_0000_0000_0000
  {
    var s := TileTally(img, t, region, t.rowTop + t.side);
    var whole := TileTally(img, t, WholeTile, t.rowTop + t.side);
    WholeTileCount(img, t);
    RegionCountAtMostWhole(img, t, region, t.rowTop + t.side);
    TileBounds(img, t, region, t.rowTop + t.side);
    ProductMonotone(t.side, t.side, 0x100_0000);
    ProductMonotone(0x100_0000, t.side, 0x100_0000);
    ProductMonotone(MaxChannel, s.pts, 0x1_0000_0000_0000);
  }

  lemma {:induction false} RegionCountAtMostWhole(img: Image, t: Tile, region: Region, yEnd: int)
    requires Within(img, t) && t.rowTop <= yEnd <= t.rowTop + t.side
    ensures TileTally(img, t, region, yEnd).pts <= TileTally(img, t, WholeTile, yEnd).pts
    decreases yEnd
  {
    if yEnd > t.rowTop {
      RegionCountAtMostWhole(img, t, region, yEnd - 1);
      RowBounds(img, t, region, yEnd - 1, t.colLeft + t.side);
      RowWholeCount(img, t, yEnd - 1, t.colLeft + t.side);
    }
  }

  function Min(x: int, y: int): int { if x <= y then x else y }
  function Max(x: int, y: int): int { if x <= y then y else x }

  /** One step of the outer loop: a finished row joins the finished rows. */
  lemma TileStep(img: Image, t: Tile, region: Region, y: int)
    requires Within(img, t) && t.rowTop <= y <= t.RowBottom()
    ensures var s, row := TileTally(img, t, region, y), RowTally(img, t, region, y, t.colLeft + t.side);
      TileTally(img, t, region, y + 1) == Tally(s.sums.Plus(row.sums), s.pts + row.pts)
  {
  }

  /** The buffer read through `.RGBA()` is `read` on the rectangle of tile t. */
  ghost predicate ReadsAs(a: array2<Pixel>, read: Image, t: Tile)
    reads a
  {
    Within(read, t) && t.colLeft + t.side <= a.Length0 && t.rowTop + t.side <= a.Length1 &&
    forall x, y | t.Contains(x, y) :: read[y][x] == Premultiplied(a[x, y])
  }

  lemma ReadAgrees(a: array2<Pixel>, img: Image, t: Tile)
    requires AgreesOn(a, img, t)
    ensures ReadsAs(a, Read(img), t)
  {
    forall x, y | t.Contains(x, y) ensures Read(img)[y][x] == Premultiplied(a[x, y]) {
    }
  }

  /** The body of the inner loop (lines 105-115): pixel (x, y), read
      premultiplied, joins the background sums and, unless the mask puts it
      in the background, the foreground sums and count. */
  method AddPixel(a: array2<Pixel>, t: Tile, tileNo: nat, x: int, y: int, xBoundary: Boundary,
                  ghost read: Image, bg0: Sums, fg0: Sums, pts0: nat)
    returns (bgAvg: Sums, tileAvg: Sums, tilePts: nat)
    requires tileNo < 4 && ReadsAs(a, read, t) && t.Contains(x, y)
    requires xBoundary == RowBoundary(t, tileNo, y)
    ensures bgAvg == bg0.Add(read[y][x])
    ensures Counts(Foreground(tileNo), t, x, y) ==> tileAvg == fg0.Add(read[y][x]) && tilePts == pts0 + 1
    ensures !Counts(Foreground(tileNo), t, x, y) ==> tileAvg == fg0 && tilePts == pts0
  {
    var p := Premultiplied(a[x, y]);
    ForegroundIsTriangle(t, tileNo, x, y);
    bgAvg, tileAvg, tilePts := bg0.Add(p), fg0, pts0;
    if !IsBackground(tileNo, x, xBoundary) {
      tileAvg := tileAvg.Add(p);
      tilePts := tilePts + 1;
    }
  }

  /** The inner loop of the averaging pass (lines 103-116) on row y: the
      pixels of the row left to right. It returns what the row adds to the
      background sums and to the foreground sums and count. */
  method AverageRow(a: array2<Pixel>, t: Tile, tileNo: nat, y: int, xx1: int, xx2: int,
                    xBoundary: Boundary, ghost read: Image)
    returns (bgAvg: Sums, tileAvg: Sums, tilePts: nat)
    requires tileNo < 4 && ReadsAs(a, read, t) && t.rowTop <= y <= t.RowBottom()
    requires xx1 == t.colLeft && xx2 == t.ColRight()
    requires xBoundary == RowBoundary(t, tileNo, y)
    ensures bgAvg == RowTally(read, t, WholeTile, y, t.colLeft + t.side).sums
    ensures tileAvg == RowTally(read, t, Foreground(tileNo), y, t.colLeft + t.side).sums
    ensures tilePts == RowTally(read, t, Foreground(tileNo), y, t.colLeft + t.side).pts
  {
    bgAvg, tileAvg, tilePts := Zero, Zero, 0;
    var x := xx1;
    while x <= xx2
      invariant xx1 <= x <= xx2 + 1
      invariant bgAvg == RowTally(read, t, WholeTile, y, x).sums
      invariant tileAvg == RowTally(read, t, Foreground(tileNo), y, x).sums
      invariant tilePts == RowTally(read, t, Foreground(tileNo), y, x).pts
    {
      bgAvg, tileAvg, tilePts := AddPixel(a, t, tileNo, x, y, xBoundary, read, bgAvg, tileAvg, tilePts);
      x := x + 1;
    }
  }

  /** One iteration of the outer loop of the averaging pass (lines 99-116):
      the boundary of row y from x1, xDelta, y1 and yDelta, then the row. */
  method AverageRowOf(a: array2<Pixel>, t: Tile, tileNo: nat, x1: int, xDelta: int, y1: int, yDelta: nat,
                      y: int, ghost read: Image, bg0: Sums, fg0: Sums, pts0: nat)
    returns (bgAvg: Sums, tileAvg: Sums, tilePts: nat)
    requires tileNo < 4 && ReadsAs(a, read, t)
    requires x1 == EndX1(t, tileNo) && xDelta == EndX2(t, tileNo) - x1
    requires y1 == t.rowTop && yDelta == t.RowBottom() - y1 && y1 <= y <= y1 + yDelta
    requires bg0 == TileTally(read, t, WholeTile, y).sums
    requires fg0 == TileTally(read, t, Foreground(tileNo), y).sums
    requires pts0 == TileTally(read, t, Foreground(tileNo), y).pts
    ensures bgAvg == TileTally(read, t, WholeTile, y + 1).sums
    ensures tileAvg == TileTally(read, t, Foreground(tileNo), y + 1).sums
    ensures tilePts == TileTally(read, t, Foreground(tileNo), y + 1).pts
  {
    var xBoundary := XBoundary(x1, xDelta, y1, yDelta, y);
    RowBoundaryOf(t, tileNo, x1, xDelta, y1, yDelta, y);
    TileStep(read, t, WholeTile, y);
    TileStep(read, t, Foreground(tileNo), y);
    var rowBg, rowFg, rowPts := AverageRow(a, t, tileNo, y, Min(x1, x1 + xDelta), Max(x1, x1 + xDelta), xBoundary, read);
    bgAvg, tileAvg, tilePts := bg0.Plus(rowBg), fg0.Plus(rowFg), pts0 + rowPts;
  }

  /** The outer loop of the averaging pass (lines 98-117): the rows of the
      tile top to bottom. */
  method AverageRows(a: array2<Pixel>, t: Tile, tileNo: nat, ghost read: Image)
    returns (bgAvg: Sums, tileAvg: Sums, tilePts: nat)
    requires tileNo < 4 && ReadsAs(a, read, t)
    ensures bgAvg == TileTally(read, t, WholeTile, t.rowTop + t.side).sums
    ensures tileAvg == TileTally(read, t, Foreground(tileNo), t.rowTop + t.side).sums
    ensures tilePts == TileTally(read, t, Foreground(tileNo), t.rowTop + t.side).pts
  {
    var x1, x2 := EndX1(t, tileNo), EndX2(t, tileNo);
    var xDelta := x2 - x1;
    var y1, y2 := t.rowTop, t.RowBottom();
    var yDelta := y2 - y1;
    bgAvg, tileAvg, tilePts := Zero, Zero, 0;
    var y := y1;
    while y <= y2
      invariant y1 <= y <= y2 + 1
      invariant bgAvg == TileTally(read, t, WholeTile, y).sums
      invariant tileAvg == TileTally(read, t, Foreground(tileNo), y).sums
      invariant tilePts == TileTally(read, t, Foreground(tileNo), y).pts
    {
      bgAvg, tileAvg, tilePts :=
        AverageRowOf(a, t, tileNo, x1, xDelta, y1, yDelta, y, read, bgAvg, tileAvg, tilePts);
      y := y + 1;
    }
    assert y == t.rowTop + t.side;
  }

  /** The averaging pass of `Truchet` (lines 94-125) over tile t of the
      buffer, for the orientation the selector chose, followed by the two
      divisions. It reads only the tile's rectangle, so any image agreeing
      with the buffer there gives the same colours. */
  method AverageTile(a: array2<Pixel>, t: Tile, tileNo: nat, ghost img: Image)
    returns (tileColor: Pixel, bgColor: Pixel)
    requires tileNo < 4 && AgreesOn(a, img, t)
    ensures tileColor == FgColour(img, t, tileNo)
    ensures bgColor == BgColour(img, t)
  {
    ghost var read := Read(img);
    ReadAgrees(a, img, t);
    var tileArea := t.side * t.side;
    var bgAvg, tileAvg, tilePts := AverageRows(a, t, tileNo, read);
    WholeTileCount(read, t);
    ForegroundCount(read, t, tileNo);
    TileBounds(read, t, WholeTile, t.rowTop + t.side);
    TileBounds(read, t, Foreground(tileNo), t.rowTop + t.side);
    bgColor := Average(bgAvg, tileArea);
    tileColor := Average(tileAvg, tilePts);
    assert tileColor == FgAverage(read, t, tileNo);
  }
}
