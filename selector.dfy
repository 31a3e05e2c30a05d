/** The tile orientation selector: `makeMetric` and `tileSelector`.

    Of the four corners of a tile, in the order bottom-left, top-left,
    top-right, bottom-right (orientations 0 to 3), the selector picks the one
    whose colour is farthest from the tile's centre pixel; a later corner
    replaces the current choice only when it is strictly farther, so the first
    maximum wins. */
module Selector {
  import opened Pixels

  /** The largest Go `int64`. */
  const MaxInt64: int := 0x7FFF_FFFF_FFFF_FFFF

  function Square(d: int): (s: nat)
    ensures s == 0 <==> d == 0
    ensures -MaxChannel <= d <= MaxChannel ==> s <= MaxChannel * MaxChannel
  {
    SquareBound(d);
    d * d
  }

  lemma SquareBound(d: int)
    ensures -MaxChannel <= d <= MaxChannel ==> d * d <= MaxChannel * MaxChannel
  {
    if -MaxChannel <= d <= MaxChannel {
      var e := if d < 0 then -d else d;
      assert d * d == e * e;
      ProductMonotone(e, e, MaxChannel);
      ProductMonotone(MaxChannel, e, MaxChannel);
    }
  }

  /** `makeMetric`, applied to the centre and then to a pixel: the squared Euclidean distance between two
      stored pixels over R, G, B and A. It is never negative, it is zero exactly
      when the pixels are equal, and it cannot overflow Go's `int64`. */
  function Metric(centre: Pixel, pixel: Pixel): (dist: int)
    ensures 0 <= dist <= 4 * MaxChannel * MaxChannel < MaxInt64
    ensures dist == 0 <==> pixel == centre
  {
    Square(pixel.r - centre.r) + Square(pixel.g - centre.g) +
    Square(pixel.b - centre.b) + Square(pixel.a - centre.a)
  }

  /** The first index of a maximum of d: every earlier entry is strictly
      smaller and every later entry is no larger. This is the reference the
      straight-line selector is proved against. */
  function FirstMax(d: seq<int>): (k: nat)
    requires |d| > 0
    ensures k < |d|
    ensures forall j | 0 <= j < k :: d[j] < d[k]
    ensures forall j | k < j < |d| :: d[j] <= d[k]
  {
    if |d| == 1 then 0
    else
      var k := FirstMax(d[..|d| - 1]);
      if d[|d| - 1] > d[k] then |d| - 1 else k
  }

  /** The two properties of FirstMax determine its result. */
  lemma FirstMaxUnique(d: seq<int>, k: nat)
    requires k < |d|
    requires forall j | 0 <= j < k :: d[j] < d[k]
    requires forall j | k < j < |d| :: d[j] <= d[k]
    ensures k == FirstMax(d)
  {
  }

  /** The metric of each corner, in orientation order, from the centre pixel. */
  function CornerDistances(img: Image, t: Tile): (d: seq<int>)
    requires Within(img, t)
    ensures |d| == 4
    ensures forall k | 0 <= k < 4 ::
      d[k] == Metric(img[t.CentreY()][t.CentreX()], img[t.CornerY(k)][t.CornerX(k)])
  {
    var centre := img[t.CentreY()][t.CentreX()];
    seq(4, k requires 0 <= k < 4 => Metric(centre, img[t.CornerY(k)][t.CornerX(k)]))
  }

  /** The orientation `tileSelector` chooses for tile t of img. */
  function TileNo(img: Image, t: Tile): (tileNo: nat)
    requires Within(img, t)
    ensures tileNo < 4
  {
    FirstMax(CornerDistances(img, t))
  }

  /** `tileSelector` (lines 207-222): reads the centre and the four corners of
      the tile from the buffer and keeps the farthest corner, the first on ties.
      Only the tile's own pixels matter: any image that agrees with the buffer
      on the tile gives the same orientation. */
  method TileSelector(a: array2<Pixel>, t: Tile, ghost img: Image) returns (tileNo: nat)
    requires AgreesOn(a, img, t)
    ensures tileNo == TileNo(img, t)
    ensures var d := CornerDistances(img, t);
      (forall k | 0 <= k < tileNo :: d[k] < d[tileNo]) &&
      (forall k | tileNo < k < 4 :: d[k] <= d[tileNo])
  {
    var centre := a[t.CentreX(), t.CentreY()];
    // orientation 0: the bottom-left corner (line 210)
    var worstMetric := Metric(centre, a[t.colLeft, t.RowBottom()]);
    tileNo := 0;
    // orientation 1: the top-left corner, kept only if strictly farther (lines 213-214)
    var dist := Metric(centre, a[t.colLeft, t.rowTop]);
    if dist > worstMetric { worstMetric := dist; tileNo := 1; }
    // orientation 2: the top-right corner (lines 216-217)
    dist := Metric(centre, a[t.ColRight(), t.rowTop]);
    if dist > worstMetric { worstMetric := dist; tileNo := 2; }
    // orientation 3: the bottom-right corner (lines 219-220)
    dist := Metric(centre, a[t.ColRight(), t.RowBottom()]);
    if dist > worstMetric { tileNo := 3; }

    ghost var d := CornerDistances(img, t);
    assert d[0] == Metric(centre, a[t.colLeft, t.RowBottom()]);
    assert d[1] == Metric(centre, a[t.colLeft, t.rowTop]);
    assert d[2] == Metric(centre, a[t.ColRight(), t.rowTop]);
    assert d[3] == Metric(centre, a[t.ColRight(), t.RowBottom()]);
    FirstMaxUnique(d, tileNo);
  }

  /** When the four corners are equally far from the centre (a solid colour,
      for one) the selector returns orientation 0, bottom-left. */
  lemma TiesSelectBottomLeft(img: Image, t: Tile)
    requires Within(img, t)
    requires var d := CornerDistances(img, t); d[0] == d[1] == d[2] == d[3]
    ensures TileNo(img, t) == 0
  {
  }

  /** The selected corner is at least as far from the centre as any corner. */
  lemma SelectedCornerIsFarthest(img: Image, t: Tile, k: nat)
    requires Within(img, t) && k < 4
    ensures var c := img[t.CentreY()][t.CentreX()];
      var s := TileNo(img, t);
      Metric(c, img[t.CornerY(k)][t.CornerX(k)]) <= Metric(c, img[t.CornerY(s)][t.CornerX(s)])
  {
  }

  /** The selector reads only the centre and the corners of the tile, so two
      images that agree on the tile's rectangle select the same orientation. */
  lemma TileNoLocal(img: Image, img': Image, t: Tile)
    requires Within(img, t) && Within(img', t)
    requires forall x, y | t.Contains(x, y) :: img[y][x] == img'[y][x]
    ensures TileNo(img, t) == TileNo(img', t)
  {
    var d, d' := CornerDistances(img, t), CornerDistances(img', t);
    assert img[t.CentreY()][t.CentreX()] == img'[t.CentreY()][t.CentreX()];
    forall k | 0 <= k < 4 ensures d[k] == d'[k] {
      assert img[t.CornerY(k)][t.CornerX(k)] == img'[t.CornerY(k)][t.CornerX(k)];
    }
    assert d == d';
  }
}
