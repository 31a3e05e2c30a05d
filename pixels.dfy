/** Pixels, images and tile rectangles: the data the Truchet mosaic works on.

    A stored pixel is Go's `color.NRGBA64`: four non-premultiplied 16-bit
    channels. The pure specification reads an image as a sequence of rows
    (`img[y][x]`); the imperative part works on an `array2<Pixel>` indexed
    `a[x, y]`, as Go's `NRGBA64At(x, y)` is. */
module Pixels {

  /** The largest value of a 16-bit channel (Go's 0xffff). */
  const MaxChannel: int := 0xFFFF

  /** A Go `uint16` colour channel. */
  type Channel = c: int | 0 <= c <= MaxChannel

  /** A positive integer: the side of a tile. */
  type Pos = n: int | n >= 1 witness 1

  /** A stored `color.NRGBA64` pixel. */
  datatype Pixel = Pixel(r: Channel, g: Channel, b: Channel, a: Channel)

  /** `c * alpha / 0xffff` in `uint32` arithmetic, as `color.NRGBA64.RGBA()`
      scales each colour channel; the product of two channels fits in 32 bits. */
  function Scale(c: Channel, alpha: Channel): (s: Channel)
    ensures s <= c && s <= alpha
    ensures alpha == MaxChannel ==> s == c
    ensures alpha == 0 ==> s == 0
  {
    assert c * alpha <= c * MaxChannel by { ProductMonotone(c, alpha, MaxChannel); }
    DivMonotone(c * alpha, c * MaxChannel, MaxChannel);
    MulDivCancel(c, MaxChannel);
    assert c * alpha <= MaxChannel * alpha by { ProductMonotone(alpha, c, MaxChannel); }
    DivMonotone(c * alpha, alpha * MaxChannel, MaxChannel);
    MulDivCancel(alpha, MaxChannel);
    c * alpha / MaxChannel
  }

  lemma ProductMonotone(c: nat, x: nat, y: nat)
    requires x <= y
    ensures c * x <= c * y
  {
    assert c * y - c * x == c * (y - x);
  }

  lemma MulAdd(c: int, m: int, n: int)
    ensures c * (m + n) == c * m + c * n
  {
  }

  lemma DivMonotone(x: nat, y: nat, d: Pos)
    requires x <= y
    ensures x / d <= y / d
  {
    if x / d > y / d {
      ProductMonotone(d, y / d + 1, x / d);
      assert false;
    }
  }

  lemma MulDivCancel(c: nat, d: Pos)
    ensures c * d / d == c
  {
    var q, r := c * d / d, c * d % d;
    assert (c - q) * d == r;
    if c - q >= 1 {
      ProductMonotone(d, 1, c - q);
    } else if q - c >= 1 {
      ProductMonotone(d, 1, q - c);
    }
  }

  /** The channel read of line 105: `color.NRGBA64.RGBA()` returns red, green
      and blue premultiplied by alpha and alpha unchanged. Premultiplying never
      brightens, is the identity on opaque pixels and blackens transparent ones. */
  function Premultiplied(p: Pixel): (q: Pixel)
    ensures q.a == p.a
    ensures q.r <= p.r && q.g <= p.g && q.b <= p.b
    ensures p.a == MaxChannel ==> q == p
    ensures p.a == 0 ==> q == Pixel(0, 0, 0, 0)
  {
    Pixel(Scale(p.r, p.a), Scale(p.g, p.a), Scale(p.b, p.a), p.a)
  }

  /** Scaling a non-zero channel by an alpha below 0xffff strictly lowers it. */
  lemma ScaleDarkens(c: Channel, alpha: Channel)
    requires 0 < c && alpha < MaxChannel
    ensures Scale(c, alpha) < c
  {
    assert c * alpha <= c * (MaxChannel - 1) by { ProductMonotone(c, alpha, MaxChannel - 1); }
    assert c * (MaxChannel - 1) == c * MaxChannel - c;
  }

  /** Premultiplying a colour that is not opaque lowers every non-zero
      colour channel. */
  lemma PremultipliedDarkens(p: Pixel)
    requires p.a < MaxChannel
    ensures var q := Premultiplied(p);
      (p.r > 0 ==> q.r < p.r) && (p.g > 0 ==> q.g < p.g) && (p.b > 0 ==> q.b < p.b)
  {
    if p.r > 0 { ScaleDarkens(p.r, p.a); }
    if p.g > 0 { ScaleDarkens(p.g, p.a); }
    if p.b > 0 { ScaleDarkens(p.b, p.a); }
  }

  /** An image as a sequence of rows: `img[y][x]` is the pixel at column x, row y. */
  type Image = seq<seq<Pixel>>

  /** The square tile whose top-left pixel is (colLeft, rowTop). Its bounds
      colLeft..colRight and rowTop..rowBottom are inclusive, as in the source. */
  datatype Tile = Tile(colLeft: nat, rowTop: nat, side: Pos) {
    function ColRight(): int { colLeft + side - 1 }
    function RowBottom(): int { rowTop + side - 1 }

    predicate Contains(x: int, y: int) {
      colLeft <= x <= ColRight() && rowTop <= y <= RowBottom()
    }

    /** The reference pixel of the selector: the floor-midpoint of the tile
        (Go truncates `float64(colLeft + colRight) / 2`, which is non-negative). */
    function CentreX(): (x: int)
      ensures colLeft <= x <= ColRight()
    {
      (colLeft + ColRight()) / 2
    }

    function CentreY(): (y: int)
      ensures rowTop <= y <= RowBottom()
    {
      (rowTop + RowBottom()) / 2
    }

    /** The corner belonging to orientation k, in the selector's order:
        0 bottom-left, 1 top-left, 2 top-right, 3 bottom-right. */
    function CornerX(k: nat): (x: int)
      requires k < 4
      ensures x == (if k < 2 then colLeft else ColRight())
      ensures Contains(x, rowTop)
    {
      if k <= 1 then colLeft else ColRight()
    }

    function CornerY(k: nat): (y: int)
      requires k < 4
      ensures y == (if k == 1 || k == 2 then rowTop else RowBottom())
      ensures Contains(colLeft, y)
    {
      if k == 0 || k == 3 then RowBottom() else rowTop
    }
  }

  /** Every pixel of tile t exists in img. */
  predicate Within(img: Image, t: Tile) {
    t.rowTop + t.side <= |img| &&
    forall y | t.rowTop <= y < t.rowTop + t.side :: t.colLeft + t.side <= |img[y]|
  }

  /** The buffer a holds the same pixels as img on the rectangle of tile t. */
  ghost predicate AgreesOn(a: array2<Pixel>, img: Image, t: Tile)
    reads a
  {
    Within(img, t) && t.colLeft + t.side <= a.Length0 && t.rowTop + t.side <= a.Length1 &&
    forall x, y | t.Contains(x, y) :: a[x, y] == img[y][x]
  }

  /** The buffer a holds exactly the pixels of img. */
  ghost predicate Holds(a: array2<Pixel>, img: Image)
    reads a
  {
    |img| == a.Length1 &&
    (forall y | 0 <= y < |img| :: |img[y]| == a.Length0) &&
    forall x, y | 0 <= x < a.Length0 && 0 <= y < a.Length1 :: a[x, y] == img[y][x]
  }

  /** The image the buffer a holds now. */
  ghost function Snapshot(a: array2<Pixel>): (img: Image)
    reads a
    ensures Holds(a, img)
  {
    seq(a.Length1, y requires 0 <= y < a.Length1 reads a =>
      seq(a.Length0, x requires 0 <= x < a.Length0 reads a => a[x, y]))
  }
}
