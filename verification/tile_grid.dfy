/** The uniform tile grid that every tile source presents to its callers:
    the number of power-of-two zoom levels, and the mapping of a tile
    request `(x, y, z)` to the full-resolution rectangle it covers, with
    the range checks that reject tiles outside the image.  The explicit
    version of this mapping is the one of the nd2 source
    (sources/nd2/large_image_source_nd2/__init__.py:317-327); the DICOM
    source delegates the same computation to its base class. */
module TileGrid {
  import opened Wrappers
  import opened Arith

  /** The grid: full-resolution size, tile size and zoom-level count;
      level `levels - 1` is full resolution. */
  datatype Grid = Grid(sizeX: nat, sizeY: nat, tileWidth: nat, tileHeight: nat, levels: nat)

  predicate ValidGrid(g: Grid) {
    g.tileWidth >= 1 && g.tileHeight >= 1 && g.levels >= 1
  }

  /** `count` levels suffice: at the coarsest level the image fits in one
      tile, i.e. `max(sizeX / tw, sizeY / th) <= 2 ** (count - 1)`. */
  predicate Fits(sizeX: nat, sizeY: nat, tw: nat, th: nat, count: nat)
    requires count >= 1
  {
    sizeX <= tw * Pow2(count - 1) && sizeY <= th * Pow2(count - 1)
  }

  lemma FitsMonotonic(sizeX: nat, sizeY: nat, tw: nat, th: nat, m: nat, n: nat)
    requires 1 <= m <= n
    requires Fits(sizeX, sizeY, tw, th, m)
    ensures Fits(sizeX, sizeY, tw, th, n)
  {
    Pow2Monotonic(m - 1, n - 1);
    MulMonotonic(Pow2(m - 1), Pow2(n - 1), tw);
    MulMonotonic(Pow2(m - 1), Pow2(n - 1), th);
  }

  /** `max(1, ceil(log2(max(sizeX / tw, sizeY / th))) + 1)`, written as the
      least level count `>= 1` that fits the image. */
  function LevelCount(sizeX: nat, sizeY: nat, tw: nat, th: nat): (n: nat)
    requires tw >= 1 && th >= 1
    ensures n >= 1 && Fits(sizeX, sizeY, tw, th, n)
    ensures forall m | 1 <= m < n :: !Fits(sizeX, sizeY, tw, th, m)
  {
    LevelCountFrom(sizeX, sizeY, tw, th, 1)
  }

  function LevelCountFrom(sizeX: nat, sizeY: nat, tw: nat, th: nat, n: nat): (r: nat)
    requires tw >= 1 && th >= 1 && n >= 1
    requires forall m | 1 <= m < n :: !Fits(sizeX, sizeY, tw, th, m)
    ensures r >= n && Fits(sizeX, sizeY, tw, th, r)
    ensures forall m | 1 <= m < r :: !Fits(sizeX, sizeY, tw, th, m)
    decreases sizeX + sizeY - Pow2(n - 1)
  {
    if Fits(sizeX, sizeY, tw, th, n) then
      n
    else
      assert Pow2(n - 1) < sizeX + sizeY by {
        assert Pow2(n - 1) <= tw * Pow2(n - 1) && Pow2(n - 1) <= th * Pow2(n - 1);
      }
      LevelCountFrom(sizeX, sizeY, tw, th, n + 1)
  }

  /** The level count is the one count that fits while every smaller one
      does not. */
  lemma LevelCountIsLeast(sizeX: nat, sizeY: nat, tw: nat, th: nat, n: nat)
    requires tw >= 1 && th >= 1 && n >= 1
    requires Fits(sizeX, sizeY, tw, th, n)
    requires n == 1 || !Fits(sizeX, sizeY, tw, th, n - 1)
    ensures LevelCount(sizeX, sizeY, tw, th) == n
  {
    var r := LevelCount(sizeX, sizeY, tw, th);
    if r < n {
      FitsMonotonic(sizeX, sizeY, tw, th, r, n - 1);
    }
  }

  /** Doubling the image needs one more level exactly when it fits. */
  lemma FitsDoubled(sizeX: nat, sizeY: nat, tw: nat, th: nat, n: nat)
    requires n >= 1
    ensures Fits(2 * sizeX, 2 * sizeY, tw, th, n + 1) <==> Fits(sizeX, sizeY, tw, th, n)
  {
    assert tw * Pow2(n) == 2 * (tw * Pow2(n - 1));
    assert th * Pow2(n) == 2 * (th * Pow2(n - 1));
  }

  /** Once an image needs more than one level, doubling it adds exactly
      one. */
  lemma LevelCountDoubled(sizeX: nat, sizeY: nat, tw: nat, th: nat)
    requires tw >= 1 && th >= 1
    requires !Fits(2 * sizeX, 2 * sizeY, tw, th, 1)
    ensures LevelCount(2 * sizeX, 2 * sizeY, tw, th) == LevelCount(sizeX, sizeY, tw, th) + 1
  {
    var n := LevelCount(sizeX, sizeY, tw, th);
    FitsDoubled(sizeX, sizeY, tw, th, n);
    if n > 1 {
      FitsDoubled(sizeX, sizeY, tw, th, n - 1);
    }
    LevelCountIsLeast(2 * sizeX, 2 * sizeY, tw, th, n + 1);
  }

  /** The full-resolution rectangle `[x0, x1) x [y0, y1)` of a tile and the
      downsample factor `step` of its zoom level. */
  datatype Corners = Corners(x0: nat, y0: nat, x1: nat, y1: nat, step: nat)

  datatype RangeError = ZOutOfRange | XOutOfRange | YOutOfRange

  /** The tile request checks and corner computation: `z` must name a
      level, then the tile's top-left corner must lie inside the image. */
  function TileCorners(g: Grid, x: int, y: int, z: int): (r: Result<Corners, RangeError>)
    requires ValidGrid(g)
    ensures r.Err? ==> (r.error == ZOutOfRange <==> z < 0 || z >= g.levels)
    ensures r.Ok? ==>
      && 0 <= z < g.levels
      && r.value.step == Pow2(g.levels - 1 - z)
      && r.value.x0 == x * r.value.step * g.tileWidth
      && r.value.y0 == y * r.value.step * g.tileHeight
      && r.value.x0 < r.value.x1 <= g.sizeX
      && r.value.y0 < r.value.y1 <= g.sizeY
      && r.value.x1 - r.value.x0 <= g.tileWidth * r.value.step
      && r.value.y1 - r.value.y0 <= g.tileHeight * r.value.step
      && (r.value.x1 < g.sizeX ==> r.value.x1 - r.value.x0 == g.tileWidth * r.value.step)
      && (r.value.y1 < g.sizeY ==> r.value.y1 - r.value.y0 == g.tileHeight * r.value.step)
  {
    if z < 0 || z >= g.levels then
      Err(ZOutOfRange)
    else
      var step := Pow2(g.levels - 1 - z);
      var x0 := x * step * g.tileWidth;
      var x1 := Min((x + 1) * step * g.tileWidth, g.sizeX);
      var y0 := y * step * g.tileHeight;
      var y1 := Min((y + 1) * step * g.tileHeight, g.sizeY);
      if x < 0 || x0 >= g.sizeX then
        Err(XOutOfRange)
      else if y < 0 || y0 >= g.sizeY then
        Err(YOutOfRange)
      else
        NextCorner(x, step, g.tileWidth);
        NextCorner(y, step, g.tileHeight);
        Ok(Corners(x0, y0, x1, y1, step))
  }

  /** The next tile's corner is one span further on. */
  lemma NextCorner(x: int, step: nat, t: nat)
    requires x >= 0
    ensures x * step * t >= 0
    ensures (x + 1) * step * t == x * step * t + t * step
  {
    MulNonneg(x, step * t);
  }

  lemma MulNonneg(a: int, b: nat)
    requires a >= 0
    ensures a * b >= 0
  {
  }

  /** The number of tiles across `n` pixels when a tile covers `span`. */
  function TilesAcross(n: nat, span: nat): nat
    requires span >= 1
  {
    CeilDiv(n, span)
  }

  /** One axis of the check: `x` passes when its tile starts inside the
      image, which is when it is below the number of tiles across. */
  lemma AxisAccepts(x: int, step: nat, t: nat, n: nat)
    requires step >= 1 && t >= 1
    ensures t * step >= 1
    ensures (x >= 0 && x * step * t < n) <==> 0 <= x < TilesAcross(n, t * step)
  {
    MulMonotonic(1, step, t);
    if x >= 0 {
      BelowCeil(x, t * step, n);
      assert x * step * t == x * (t * step);
    }
  }

  /** A tile request is accepted exactly when `z` names a level and `x`,
      `y` index one of the tiles that cover the image at that level. */
  lemma TileCornersAcceptsGrid(g: Grid, x: int, y: int, z: int)
    requires ValidGrid(g)
    ensures TileCorners(g, x, y, z).Ok? <==>
      && 0 <= z < g.levels
      && 0 <= x < TilesAcross(g.sizeX, g.tileWidth * Pow2(g.levels - 1 - z))
      && 0 <= y < TilesAcross(g.sizeY, g.tileHeight * Pow2(g.levels - 1 - z))
  {
    if 0 <= z < g.levels {
      var step := Pow2(g.levels - 1 - z);
      AxisAccepts(x, step, g.tileWidth, g.sizeX);
      AxisAccepts(y, step, g.tileHeight, g.sizeY);
    }
  }
}
