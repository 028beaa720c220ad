/** The nd2 tile source's grid and tile reads: a fixed 256-pixel tile, a
    level count from the image size, and tiles cut from a frame by a
    strided slice (sources/nd2/large_image_source_nd2/__init__.py:89-93,
    316-340). */
module Nd2Tile {
  import opened Wrappers
  import opened Arith
  import opened Pixels
  import opened TileGrid

  const TileSize: nat := 256

  /** A file as the reader presents it: the image size, the number of
      frames it iterates over, the bands of a pixel, and the pixel
      `(x, y)` of frame `f`. */
  datatype Nd2File = Nd2File(
    sizeX: nat, sizeY: nat, frameCount: nat, bands: nat,
    pixel: (nat, nat, nat) -> Pixel)

  /** Opening an image with no pixels fails: the level formula takes the
      logarithm of zero. */
  datatype OpenError = EmptyImage

  /** The grid: 256-pixel tiles and the least level count `L >= 1` with
      `max(sizeX, sizeY) <= 256 * 2 ** (L - 1)`. */
  function Nd2Grid(f: Nd2File): (r: Result<Grid, OpenError>)
    ensures r.Err? <==> Max(f.sizeX, f.sizeY) == 0
    ensures r.Ok? ==>
      && ValidGrid(r.value)
      && r.value.sizeX == f.sizeX && r.value.sizeY == f.sizeY
      && r.value.tileWidth == TileSize && r.value.tileHeight == TileSize
      && Max(f.sizeX, f.sizeY) <= TileSize * Pow2(r.value.levels - 1)
      && (r.value.levels == 1 || Max(f.sizeX, f.sizeY) > TileSize * Pow2(r.value.levels - 2))
  {
    if Max(f.sizeX, f.sizeY) == 0 then Err(EmptyImage)
    else
      var n := LevelCount(f.sizeX, f.sizeY, TileSize, TileSize);
      assert n == 1 || !Fits(f.sizeX, f.sizeY, TileSize, TileSize, n - 1);
      Ok(Grid(f.sizeX, f.sizeY, TileSize, TileSize, n))
  }

  /** `g` is the grid the file opens with. */
  predicate GridOf(f: Nd2File, g: Grid) {
    Nd2Grid(f) == Ok(g)
  }

  /** Why a tile request fails: a coordinate, or the frame. */
  datatype TileError = Range(cause: RangeError) | NoSuchFrame

  /** `int(frame) if frame else 0`: an absent frame is frame 0. */
  function FrameNumber(frame: Option<int>): int {
    frame.GetOr(0)
  }

  /** The whole frame `n` as a block. */
  function FrameBlock(f: Nd2File, n: nat): (b: Block)
    ensures b.width == f.sizeX && b.height == f.sizeY && b.bands == f.bands
  {
    Block(f.sizeX, f.sizeY, f.bands, (x: nat, y: nat) => f.pixel(n, x, y))
  }

  /** `getTile`: the coordinates are checked first (z, then x, then y),
      then the frame; the tile is every `step`-th pixel of the tile's
      rectangle of the frame. */
  function GetTile(f: Nd2File, g: Grid, x: int, y: int, z: int, frame: Option<int>): (r: Result<Block, TileError>)
    requires GridOf(f, g)
    ensures TileCorners(g, x, y, z).Err? ==> r == Err(Range(TileCorners(g, x, y, z).error))
    ensures TileCorners(g, x, y, z).Ok? ==>
      (r.Err? <==> FrameNumber(frame) < 0 || FrameNumber(frame) >= f.frameCount)
    ensures r.Err? && TileCorners(g, x, y, z).Ok? ==> r.error == NoSuchFrame
    ensures r.Ok? ==> CutSize(f, TileCorners(g, x, y, z).value, r.value)
  {
    match TileCorners(g, x, y, z)
    case Err(e) => Err(Range(e))
    case Ok(c) =>
      var n := FrameNumber(frame);
      if n < 0 || n >= f.frameCount then Err(NoSuchFrame)
      else Ok(Slice(f, c, n))
  }

  /** `b` is the tile of corners `c` cut from frame `n`: at most 256 pixels
      a side, one pixel for each `step` of the rectangle, each the frame's
      pixel at the sampled position. */
  ghost predicate Cut(f: Nd2File, c: Corners, n: nat, b: Block) {
    && CutSize(f, c, b)
    && forall i: nat, j: nat | i < b.width && j < b.height ::
         b.at(i, j) == f.pixel(n, c.x0 + i * c.step, c.y0 + j * c.step)
  }

  /** The size part of `Cut`. */
  predicate CutSize(f: Nd2File, c: Corners, b: Block) {
    && c.step >= 1 && c.x0 < c.x1 && c.y0 < c.y1
    && 1 <= b.width <= TileSize && 1 <= b.height <= TileSize
    && b.width == CeilDiv(c.x1 - c.x0, c.step)
    && b.height == CeilDiv(c.y1 - c.y0, c.step)
    && b.bands == f.bands
  }

  /** A non-empty extent of at most 256 steps samples 1 to 256 pixels. */
  lemma SliceSize(extent: nat, step: nat)
    requires step >= 1 && 1 <= extent <= TileSize * step
    ensures 1 <= CeilDiv(extent, step) <= TileSize
  {
    CeilAtMost(extent, step, TileSize);
    CeilPositive(extent, step);
  }

  /** `frame[y0:y1:step, x0:x1:step]`. */
  function Slice(f: Nd2File, c: Corners, n: nat): (b: Block)
    requires c.step >= 1 && c.x0 < c.x1 <= f.sizeX && c.y0 < c.y1 <= f.sizeY
    requires c.x1 - c.x0 <= TileSize * c.step && c.y1 - c.y0 <= TileSize * c.step
    ensures Cut(f, c, n, b)
  {
    SliceSize(c.x1 - c.x0, c.step);
    SliceSize(c.y1 - c.y0, c.step);
    var w, h := CeilDiv(c.x1 - c.x0, c.step), CeilDiv(c.y1 - c.y0, c.step);
    Block(w, h, f.bands, (i: nat, j: nat) => f.pixel(n, c.x0 + i * c.step, c.y0 + j * c.step))
  }

  /** Every sampled position lies inside the tile's rectangle. */
  lemma SliceInside(f: Nd2File, c: Corners, n: nat, i: nat, j: nat)
    requires c.step >= 1 && c.x0 < c.x1 <= f.sizeX && c.y0 < c.y1 <= f.sizeY
    requires c.x1 - c.x0 <= TileSize * c.step && c.y1 - c.y0 <= TileSize * c.step
    requires i < Slice(f, c, n).width && j < Slice(f, c, n).height
    ensures c.x0 + i * c.step < c.x1 && c.y0 + j * c.step < c.y1
  {
    StrideInside(i, c.step, c.x1 - c.x0);
    StrideInside(j, c.step, c.y1 - c.y0);
  }

  /** Every pixel of every frame is shown by the full-resolution tile that
      holds it, at its offset within that tile. */
  lemma FullResolutionCovers(f: Nd2File, g: Grid, frame: nat, px: nat, py: nat)
    requires GridOf(f, g)
    requires frame < f.frameCount && px < f.sizeX && py < f.sizeY
    ensures var r := GetTile(f, g, px / TileSize, py / TileSize, g.levels - 1, Some(frame));
      && r.Ok? && px % TileSize < r.value.width && py % TileSize < r.value.height
      && r.value.at(px % TileSize, py % TileSize) == f.pixel(frame, px, py)
  {
    var x, y, z := px / TileSize, py / TileSize, g.levels - 1;
    GridOfFacts(f, g);
    var c := FinestCorners(g, x, y, px, py);
    GetTileOk(f, g, x, y, z, frame, c);
    var b := Slice(f, c, frame);
    OffsetInTile(px, c.x0, c.x1, x);
    OffsetInTile(py, c.y0, c.y1, y);
    var i, j := px % TileSize, py % TileSize;
    assert i < b.width && j < b.height;
    SliceAt(f, c, frame, i, j, px, py);
  }

  /** The sample at `(i, j)` of a slice taken with step 1 is the pixel at
      that offset from the corner. */
  lemma SliceAt(f: Nd2File, c: Corners, n: nat, i: nat, j: nat, px: nat, py: nat)
    requires c.step == 1 && c.x0 < c.x1 <= f.sizeX && c.y0 < c.y1 <= f.sizeY
    requires c.x1 - c.x0 <= TileSize && c.y1 - c.y0 <= TileSize
    requires c.x0 + i == px && c.y0 + j == py
    ensures Slice(f, c, n).at(i, j) == f.pixel(n, px, py)
  {
  }

  /** An accepted request in a valid frame is the slice of its corners. */
  lemma GetTileOk(f: Nd2File, g: Grid, x: int, y: int, z: int, frame: nat, c: Corners)
    requires GridOf(f, g) && TileCorners(g, x, y, z) == Ok(c) && frame < f.frameCount
    ensures c.step >= 1 && c.x0 < c.x1 <= f.sizeX && c.y0 < c.y1 <= f.sizeY
    ensures c.x1 - c.x0 <= TileSize * c.step && c.y1 - c.y0 <= TileSize * c.step
    ensures GetTile(f, g, x, y, z, Some(frame)) == Ok(Slice(f, c, frame))
  {
    GridOfFacts(f, g);
  }

  lemma GridOfFacts(f: Nd2File, g: Grid)
    requires GridOf(f, g)
    ensures ValidGrid(g) && g.tileWidth == TileSize && g.tileHeight == TileSize
    ensures g.sizeX == f.sizeX && g.sizeY == f.sizeY
  {
  }

  /** At the finest level the tile holding pixel `(px, py)` is accepted,
      with step 1 and its corner at the multiple of 256 below the pixel. */
  lemma FinestCorners(g: Grid, x: nat, y: nat, px: nat, py: nat) returns (c: Corners)
    requires ValidGrid(g) && g.tileWidth == TileSize && g.tileHeight == TileSize
    requires px < g.sizeX && py < g.sizeY && x == px / TileSize && y == py / TileSize
    ensures TileCorners(g, x, y, g.levels - 1) == Ok(c)
    ensures c.step == 1 && c.x0 == x * 1 * TileSize && c.y0 == y * 1 * TileSize
    ensures px < c.x1 && py < c.y1
  {
    assert Pow2(0) == 1;
    assert x * 1 * TileSize <= px && y * 1 * TileSize <= py;
    c := TileCorners(g, x, y, g.levels - 1).value;
  }

  /** The full-resolution tile `x = p / 256` starts at `x * 256` and holds
      `p` at offset `p % 256`. */
  lemma OffsetInTile(p: nat, x0: nat, x1: nat, x: nat)
    requires x == p / TileSize && x0 == x * 1 * TileSize
    requires p < x1
    ensures x0 + p % TileSize == p && p % TileSize < CeilDiv(x1 - x0, 1)
  {
  }

  /** At any zoom level, a frame number out of range is refused, however
      valid the tile coordinates. */
  lemma FrameChecked(f: Nd2File, g: Grid, x: int, y: int, z: int, frame: int)
    requires GridOf(f, g)
    requires TileCorners(g, x, y, z).Ok?
    ensures GetTile(f, g, x, y, z, Some(frame)).Ok? <==> 0 <= frame < f.frameCount
    ensures GetTile(f, g, x, y, z, None) == GetTile(f, g, x, y, z, Some(0))
  {
  }
}
