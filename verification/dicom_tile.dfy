/** The DICOM source's tile reader
    (sources/dicom/large_image_source_dicom/__init__.py:317-353): pick the
    coarsest stored level whose downsample factor does not exceed the
    tile's zoom step, read the tile's footprint at that level, pad it to
    the full footprint and shrink it to the tile size.

    `GetTileAsWritten` follows the source line by line; `GetTile` is the
    corrected reader the rest of the model uses (see the README's
    Findings). */
module DicomTile {
  import opened Wrappers
  import opened Arith
  import opened Pixels
  import opened TileGrid

  /** A stored level: its downsample factor relative to the base level (the
      rounded ratio of the two pixel spacings) and its size in pixels. */
  datatype Level = Level(factor: nat, width: nat, height: nat)

  /** An opened slide: its stored levels, finest first, the number of
      bands, the decoder's pixels, `pixel(level, x, y)`, and the filter
      Pillow's `resize` applies to its images. */
  datatype Slide = Slide(levels: seq<Level>, bands: nat, pixel: (nat, nat, nat) -> Pixel, resample: Filter)

  /** The chosen stored level and the factor the reader divides by. */
  datatype Choice = Choice(level: nat, factor: nat)

  datatype TileError =
    | OutOfRange(cause: RangeError)
    | ZeroFactor      // a level whose factor rounds to 0 makes `x0 // 0` fail
    | ReadRejected    // a read region of non-positive extent
    | NegativePad     // `np.pad` called with a negative pad amount

  /** The factor the reader uses for level `i`: 1 for the base level. */
  function FactorOf(levels: seq<Level>, i: nat): nat
    requires i < |levels|
  {
    if i == 0 then 1 else levels[i].factor
  }

  /** Level `L` is the outcome of the selection loop: every level up to
      `L` is accepted and the next one, if any, ends the loop. */
  predicate IsSelected(levels: seq<Level>, step: nat, L: nat)
  {
    && L < |levels|
    && (forall i | 1 <= i <= L :: Accepts(levels, step, i))
    && (L + 1 < |levels| ==> !Accepts(levels, step, L + 1))
  }

  /** The loop takes level `i`: its factor is at most the zoom step. */
  predicate Accepts(levels: seq<Level>, step: nat, i: int)
  {
    1 <= i < |levels| && levels[i].factor <= step
  }

  /** The selection loop over levels `1 ..`: a level is taken while its
      factor is at most `step`, the first larger factor stops the loop. */
  function SelectLevel(levels: seq<Level>, step: nat): (c: Choice)
    requires |levels| >= 1
    ensures IsSelected(levels, step, c.level)
    ensures c.factor == FactorOf(levels, c.level)
  {
    SelectFrom(levels, step, 1, Choice(0, 1))
  }

  function SelectFrom(levels: seq<Level>, step: nat, i: nat, c: Choice): (r: Choice)
    requires 1 <= i <= |levels|
    requires c.level == i - 1 && c.factor == FactorOf(levels, c.level)
    requires forall j | 1 <= j < i :: levels[j].factor <= step
    ensures IsSelected(levels, step, r.level)
    ensures r.factor == FactorOf(levels, r.level)
    decreases |levels| - i
  {
    if i == |levels| then c
    else if levels[i].factor <= step then SelectFrom(levels, step, i + 1, Choice(i, levels[i].factor))
    else c
  }

  /** Only one level satisfies the selection's characterisation. */
  lemma SelectedUnique(levels: seq<Level>, step: nat, L: nat)
    requires |levels| >= 1
    requires IsSelected(levels, step, L)
    ensures SelectLevel(levels, step).level == L
  {
    var M := SelectLevel(levels, step).level;
    assert M < L ==> Accepts(levels, step, M + 1);
    assert L < M ==> Accepts(levels, step, L + 1);
  }

  /** A coarser zoom level (a larger step) never selects a finer stored
      level. */
  lemma SelectMonotonic(levels: seq<Level>, step1: nat, step2: nat)
    requires |levels| >= 1 && step1 <= step2
    ensures SelectLevel(levels, step1).level <= SelectLevel(levels, step2).level
  {
    var a := SelectLevel(levels, step1).level;
    var b := SelectLevel(levels, step2).level;
    assert b < a ==> Accepts(levels, step1, b + 1);
  }

  /** The region read at the chosen level and the footprint size the tile
      is padded to: `(bw, bh)` is the tile's full-resolution span divided
      by the level's factor. */
  datatype Read = Read(level: nat, x0: nat, y0: nat, width: int, height: int, bw: nat, bh: nat)

  /** Floor division brackets its numerator. */
  lemma FloorBounds(a: nat, f: nat)
    requires f >= 1
    ensures (a / f) * f <= a < (a / f + 1) * f
  {
  }

  lemma SpanAtLeastTile(t: nat, step: nat, f: nat)
    requires 1 <= f <= step
    ensures t * step / f >= t
  {
    MulMonotonic(f, step, t);
    FloorBounds(t * step, f);
    var q := t * step / f;
    assert t * f < (q + 1) * f;
    assert q + 1 > t by { MulMonotonicInverse(t, q + 1, f); }
  }

  /** One axis of the plan: the floor of the start brackets it, and the
      footprint is at least one tile yet no more than the tile's span. */
  lemma AxisPlan(x0: nat, t: nat, step: nat, f: nat)
    requires 1 <= f <= step
    ensures (x0 / f) * f <= x0 < (x0 / f + 1) * f
    ensures t * step / f >= t
    ensures (t * step / f) * f <= t * step
  {
    FloorBounds(x0, f);
    FloorBounds(t * step, f);
    SpanAtLeastTile(t, step, f);
  }

  /** The read region and footprint `PlanRead` promises, for a level `lv`
      with factor `f`: the read starts at the floor of the corner, ends at
      the ceiling of the far corner clipped to the level, and the footprint
      is the tile's span floor-divided by the factor, hence at least a tile
      and at most the span. */
  predicate ReadWithin(rd: Read, lv: Level, f: nat, c: Corners, g: Grid)
  {
    && rd.x0 * f <= c.x0 < (rd.x0 + 1) * f
    && rd.y0 * f <= c.y0 < (rd.y0 + 1) * f
    && (f >= 1 ==> rd.x0 + rd.width == Min(CeilDiv(c.x1, f), lv.width))
    && (f >= 1 ==> rd.y0 + rd.height == Min(CeilDiv(c.y1, f), lv.height))
    && (f >= 1 ==> rd.bw == g.tileWidth * c.step / f && rd.bh == g.tileHeight * c.step / f)
    && rd.bw >= g.tileWidth && rd.bh >= g.tileHeight
    && rd.bw * f <= g.tileWidth * c.step
    && rd.bh * f <= g.tileHeight * c.step
  }

  /** `x0f = x0 // f` and `x1f = min(ceil(x1 / f), level width)`, likewise in
      y; the footprint is `tile * step // f`. */
  function PlanRead(s: Slide, g: Grid, c: Corners): (r: Result<Read, TileError>)
    requires |s.levels| >= 1 && c.step >= 1
    ensures r.Err? <==> SelectLevel(s.levels, c.step).factor == 0
    ensures r.Ok? ==>
      var ch := SelectLevel(s.levels, c.step);
      r.value.level == ch.level && ReadWithin(r.value, s.levels[ch.level], ch.factor, c, g)
  {
    var ch := SelectLevel(s.levels, c.step);
    var f := ch.factor;
    if f == 0 then
      Err(ZeroFactor)
    else
      var lv := s.levels[ch.level];
      var x0f := c.x0 / f;
      var y0f := c.y0 / f;
      var x1f := Min(CeilDiv(c.x1, f), lv.width);
      var y1f := Min(CeilDiv(c.y1, f), lv.height);
      var bw := g.tileWidth * c.step / f;
      var bh := g.tileHeight * c.step / f;
      assert f <= c.step by {
        assert ch.level > 0 ==> Accepts(s.levels, c.step, ch.level);
      }
      AxisPlan(c.x0, g.tileWidth, c.step, f);
      AxisPlan(c.y0, g.tileHeight, c.step, f);
      Ok(Read(ch.level, x0f, y0f, x1f - x0f, y1f - y0f, bw, bh))
  }

  /** `ReadWithin` leaves no freedom: the start is the floor of the corner
      and the extent runs to the clipped ceiling of the far corner. */
  lemma ReadWithinExact(rd: Read, lv: Level, f: nat, c: Corners, g: Grid)
    requires f >= 1 && ReadWithin(rd, lv, f, c, g)
    ensures rd.x0 == c.x0 / f && rd.y0 == c.y0 / f
    ensures rd.width == Min(CeilDiv(c.x1, f), lv.width) - c.x0 / f
    ensures rd.height == Min(CeilDiv(c.y1, f), lv.height) - c.y0 / f
  {
    FloorExact(c.x0, f, rd.x0);
    FloorExact(c.y0, f, rd.y0);
  }

  /** The only quotient bracketing `a` is its floor. */
  lemma FloorExact(a: nat, f: nat, q: nat)
    requires f >= 1 && q * f <= a < (q + 1) * f
    ensures q == a / f
  {
    DivModUnique(a, f, q, a - q * f);
  }

  /** The decoder's `read_region`: a block of the requested extent, or a
      rejection when the extent is not positive.  The rejection is an
      assumption about the decoder, which the tile source does not check. */
  function ReadRegion(s: Slide, rd: Read): (r: Result<Block, TileError>)
    ensures r.Ok? <==> rd.width > 0 && rd.height > 0
    ensures r.Ok? ==>
      && r.value.width == rd.width && r.value.height == rd.height && r.value.bands == s.bands
      && forall i: nat, j: nat | i < rd.width && j < rd.height ::
           r.value.at(i, j) == s.pixel(rd.level, rd.x0 + i, rd.y0 + j)
  {
    if rd.width <= 0 || rd.height <= 0 then
      Err(ReadRejected)
    else
      Ok(Block(rd.width, rd.height, s.bands, (i: nat, j: nat) => s.pixel(rd.level, rd.x0 + i, rd.y0 + j)))
  }

  /** The range checks and corners, then the read plan. */
  function Plan(s: Slide, g: Grid, x: int, y: int, z: int): (r: Result<Read, TileError>)
    requires ValidGrid(g) && |s.levels| >= 1
    ensures r.Err? && r.error.OutOfRange? <==> TileCorners(g, x, y, z).Err?
    ensures r.Err? && r.error.OutOfRange? ==> r.error.cause == TileCorners(g, x, y, z).error
  {
    match TileCorners(g, x, y, z)
    case Err(e) => Err(OutOfRange(e))
    case Ok(c) => PlanRead(s, g, c)
  }

  /** The tail of `getTile` as written, applied to the block read: pad
      only when the block is short in some axis, and shrink only when the
      footprint is larger than the tile. */
  function PadAndShrinkAsWritten(resample: Filter, b: Block, rd: Read, g: Grid): (r: Result<Block, TileError>)
    requires ValidGrid(g)
    ensures r.Err? <==> (b.width < rd.bw || b.height < rd.bh) && (b.width > rd.bw || b.height > rd.bh)
    ensures r.Err? ==> r.error == NegativePad
    ensures r.Ok? && (rd.bw > g.tileWidth || rd.bh > g.tileHeight) ==>
      r.value.width == g.tileWidth && r.value.height == g.tileHeight
    ensures r.Ok? && !(rd.bw > g.tileWidth || rd.bh > g.tileHeight) ==>
      r.value.width == Max(b.width, rd.bw) && r.value.height == Max(b.height, rd.bh)
  {
    if (b.width < rd.bw || b.height < rd.bh) && (b.width > rd.bw || b.height > rd.bh) then
      Err(NegativePad)
    else
      var padded := if b.width < rd.bw || b.height < rd.bh then Fit(b, rd.bw, rd.bh) else b;
      if rd.bw > g.tileWidth || rd.bh > g.tileHeight then
        Ok(Resize(resample, padded, g.tileWidth, g.tileHeight))
      else
        Ok(padded)
  }

  /** `getTile` as written. */
  function GetTileAsWritten(s: Slide, g: Grid, x: int, y: int, z: int): (r: Result<Block, TileError>)
    requires ValidGrid(g) && |s.levels| >= 1
    ensures r.Err? && r.error.OutOfRange? <==> TileCorners(g, x, y, z).Err?
  {
    match Plan(s, g, x, y, z)
    case Err(e) => Err(e)
    case Ok(rd) =>
      match ReadRegion(s, rd)
      case Err(e) => Err(e)
      case Ok(b) => PadAndShrinkAsWritten(s.resample, b, rd, g)
  }

  /** The tile's footprint at the chosen level: the region read, cut or
      zero-padded to exactly `bw x bh`. */
  function Footprint(s: Slide, g: Grid, x: int, y: int, z: int): (r: Result<Block, TileError>)
    requires ValidGrid(g) && |s.levels| >= 1
    ensures r.Err? && r.error.OutOfRange? <==> TileCorners(g, x, y, z).Err?
    ensures r.Err? ==> r.error != NegativePad
    ensures r.Ok? ==> Plan(s, g, x, y, z).Ok?
    ensures r.Ok? ==>
      var rd := Plan(s, g, x, y, z).value;
      && r.value.width == rd.bw && r.value.height == rd.bh && r.value.bands == s.bands
      && (forall i: nat, j: nat | i < rd.bw && j < rd.bh && i < rd.width && j < rd.height ::
            r.value.at(i, j) == s.pixel(rd.level, rd.x0 + i, rd.y0 + j))
      && (forall i: nat, j: nat | i < rd.bw && j < rd.bh && (rd.width <= i || rd.height <= j) ::
            r.value.at(i, j) == Zero(s.bands))
  {
    match Plan(s, g, x, y, z)
    case Err(e) => Err(e)
    case Ok(rd) =>
      match ReadRegion(s, rd)
      case Err(e) => Err(e)
      case Ok(b) => Ok(Fit(b, rd.bw, rd.bh))
  }

  /** The corrected `getTile`: the footprint, shrunk to the tile size when
      it is larger.  Every tile it returns is exactly one tile in size. */
  function GetTile(s: Slide, g: Grid, x: int, y: int, z: int): (r: Result<Block, TileError>)
    requires ValidGrid(g) && |s.levels| >= 1
    ensures r.Err? <==> Footprint(s, g, x, y, z).Err?
    ensures r.Err? ==> r.error == Footprint(s, g, x, y, z).error
    ensures r.Ok? ==> r.value.width == g.tileWidth && r.value.height == g.tileHeight
    ensures r.Ok? ==> r.value.bands == s.bands
  {
    match Footprint(s, g, x, y, z)
    case Err(e) => Err(e)
    case Ok(fp) =>
      if fp.width > g.tileWidth || fp.height > g.tileHeight then
        Ok(Resize(s.resample, fp, g.tileWidth, g.tileHeight))
      else
        Ok(fp)
  }

  /** Every stored level, scaled back up by its factor, covers the image:
      the pyramid the decoder reports is consistent with the base size. */
  predicate Covers(s: Slide, g: Grid)
  {
    forall i | 0 <= i < |s.levels| ::
      && FactorOf(s.levels, i) >= 1
      && g.sizeX <= FactorOf(s.levels, i) * s.levels[i].width
      && g.sizeY <= FactorOf(s.levels, i) * s.levels[i].height
  }

  /** A tile that starts inside the image reads a non-empty region of any
      level that covers the image. */
  lemma RegionNonEmpty(x0: nat, x1: nat, f: nat, w: nat)
    requires f >= 1 && x0 < x1 && x0 < f * w
    ensures x0 / f < Min(CeilDiv(x1, f), w)
  {
    var q, c := x0 / f, CeilDiv(x1, f);
    FloorBounds(x0, f);
    assert q * f < w * f by {
      assert f * w == w * f;
    }
    MulMonotonicInverse(q, w, f);
    assert q * f < c * f;
    MulMonotonicInverse(q, c, f);
  }

  /** On a covering pyramid every tile request the range checks accept is
      read successfully. */
  lemma GetTileSucceeds(s: Slide, g: Grid, x: int, y: int, z: int)
    requires ValidGrid(g) && |s.levels| >= 1 && Covers(s, g)
    requires TileCorners(g, x, y, z).Ok?
    ensures GetTile(s, g, x, y, z).Ok?
  {
    var c := TileCorners(g, x, y, z).value;
    var ch := SelectLevel(s.levels, c.step);
    var lv := s.levels[ch.level];
    assert ch.factor >= 1 && g.sizeX <= ch.factor * lv.width && g.sizeY <= ch.factor * lv.height;
    RegionNonEmpty(c.x0, c.x1, ch.factor, lv.width);
    RegionNonEmpty(c.y0, c.y1, ch.factor, lv.height);
  }

  /** Tile `t` at column `x`, row `y` of the full-resolution grid holds
      the base pixels it covers and zero beyond the image's edges. */
  predicate ShowsBase(t: Block, s: Slide, g: Grid, x: nat, y: nat)
  {
    forall i: nat, j: nat | i < g.tileWidth && j < g.tileHeight ::
      t.at(i, j) ==
        if x * g.tileWidth + i < g.sizeX && y * g.tileHeight + j < g.sizeY
        then s.pixel(0, x * g.tileWidth + i, y * g.tileHeight + j)
        else Zero(s.bands)
  }

  /** At full resolution on a pyramid whose second level is coarser than
      the base, the plan reads the tile's own rectangle of the base level
      into a footprint of exactly one tile. */
  lemma FullResolutionPlan(s: Slide, g: Grid, x: int, y: int)
    requires ValidGrid(g) && |s.levels| >= 1 && Covers(s, g)
    requires |s.levels| == 1 || s.levels[1].factor >= 2
    requires TileCorners(g, x, y, g.levels - 1).Ok?
    ensures x >= 0 && y >= 0
    ensures Plan(s, g, x, y, g.levels - 1).Ok?
    ensures var rd := Plan(s, g, x, y, g.levels - 1).value;
      && rd.level == 0
      && rd.x0 == x * g.tileWidth && rd.y0 == y * g.tileHeight
      && rd.bw == g.tileWidth && rd.bh == g.tileHeight
      && rd.x0 + rd.width == Min(rd.x0 + g.tileWidth, g.sizeX)
      && rd.y0 + rd.height == Min(rd.y0 + g.tileHeight, g.sizeY)
  {
    var z := g.levels - 1;
    var c := TileCorners(g, x, y, z).value;
    assert c.step == 1;
    SelectedUnique(s.levels, 1, 0);
    assert c.x0 == x * g.tileWidth && c.y0 == y * g.tileHeight;
    assert FactorOf(s.levels, 0) == 1;
    assert c.x1 <= s.levels[0].width && c.y1 <= s.levels[0].height;
  }

  /** At full resolution, on a pyramid whose second level (if any) is
      coarser than the base, a tile is the base pixels it covers, and zero
      beyond the image's right and bottom edges. */
  lemma FullResolutionTile(s: Slide, g: Grid, x: int, y: int)
    requires ValidGrid(g) && |s.levels| >= 1 && Covers(s, g)
    requires |s.levels| == 1 || s.levels[1].factor >= 2
    requires TileCorners(g, x, y, g.levels - 1).Ok?
    ensures x >= 0 && y >= 0
    ensures GetTile(s, g, x, y, g.levels - 1).Ok?
    ensures ShowsBase(GetTile(s, g, x, y, g.levels - 1).value, s, g, x, y)
  {
    var z := g.levels - 1;
    FullResolutionPlan(s, g, x, y);
    GetTileSucceeds(s, g, x, y, z);
    var rd := Plan(s, g, x, y, z).value;
    var fp := Footprint(s, g, x, y, z).value;
    assert GetTile(s, g, x, y, z).value == fp;
    forall i: nat, j: nat | i < g.tileWidth && j < g.tileHeight
      ensures fp.at(i, j) ==
        if x * g.tileWidth + i < g.sizeX && y * g.tileHeight + j < g.sizeY
        then s.pixel(0, x * g.tileWidth + i, y * g.tileHeight + j)
        else Zero(s.bands)
    {
      assert i < rd.width <==> x * g.tileWidth + i < g.sizeX;
      assert j < rd.height <==> y * g.tileHeight + j < g.sizeY;
    }
  }

  /** The example of a 1000 x 1000 image in 256-pixel tiles: it has three
      levels, and the bottom-right full-resolution tile `(3, 3, 2)` covers
      pixels 768 to 1000, so it is zero beyond column and row 232. */
  lemma ThousandPixelExample(s: Slide)
    requires |s.levels| == 1 && s.levels[0].width == 1000 && s.levels[0].height == 1000
    ensures LevelCount(1000, 1000, 256, 256) == 3
    ensures var g := Grid(1000, 1000, 256, 256, 3);
      && GetTile(s, g, 3, 3, 2).Ok?
      && ShowsBase(GetTile(s, g, 3, 3, 2).value, s, g, 3, 3)
      && forall i: nat, j: nat | i < 256 && j < 256 && (232 <= i || 232 <= j) ::
           GetTile(s, g, 3, 3, 2).value.at(i, j) == Zero(s.bands)
  {
    assert Pow2(1) == 2 && Pow2(2) == 4;
    LevelCountIsLeast(1000, 1000, 256, 256, 3);
    var g := Grid(1000, 1000, 256, 256, 3);
    assert TileCorners(g, 3, 3, 2).Ok?;
    FullResolutionTile(s, g, 3, 3);
  }

  /** A covering pyramid on which `getTile` as written calls `np.pad` with
      a negative amount: a 4096 x 1500 image in 256-pixel tiles (five
      levels) with one stored level at factor 3, 1366 x 500.  Tile
      `(1, 1, 2)` has step 4 and footprint 341 x 341 at that level; its read
      is 342 wide (columns 341 to 683) yet only 159 high (rows 341 to 500),
      so the width pad is -1.  The corrected reader returns one tile. */
  lemma NegativePadWitness(pixel: (nat, nat, nat) -> Pixel, resample: Filter)
    ensures var g := Grid(4096, 1500, 256, 256, 5);
      var s := Slide([Level(1, 4096, 1500), Level(3, 1366, 500)], 3, pixel, resample);
      && g.levels == LevelCount(4096, 1500, 256, 256)
      && Covers(s, g)
      && TileCorners(g, 1, 1, 2).Ok?
      && GetTileAsWritten(s, g, 1, 1, 2).Err?
      && GetTileAsWritten(s, g, 1, 1, 2).error == NegativePad
      && GetTile(s, g, 1, 1, 2).Ok?
      && GetTile(s, g, 1, 1, 2).value.width == 256
  {
    var g := Grid(4096, 1500, 256, 256, 5);
    var s := Slide([Level(1, 4096, 1500), Level(3, 1366, 500)], 3, pixel, resample);
    assert Pow2(1) == 2 && Pow2(2) == 4 && Pow2(3) == 8 && Pow2(4) == 16;
    LevelCountIsLeast(4096, 1500, 256, 256, 5);
    var c := TileCorners(g, 1, 1, 2).value;
    assert c == Corners(1024, 1024, 2048, 1500, 4);
    SelectedUnique(s.levels, 4, 1);
    assert CeilDiv(2048, 3) == 683 && CeilDiv(1500, 3) == 500;
    var rd := Plan(s, g, 1, 1, 2).value;
    assert rd == Read(1, 341, 341, 342, 159, 341, 341);
    GetTileSucceeds(s, g, 1, 1, 2);
  }

  /** A covering pyramid on which `getTile` as written returns a block
      larger than a tile: a 32768-pixel square image in 64-pixel tiles (ten
      levels) with one stored level at factor 127, 259 x 259.  Tile
      `(1, 1, 2)` has step 128, so the footprint `64 * 128 // 127` is 64 and
      no shrink happens, but the read spans columns 64 to 130: a 66 x 66
      block comes back.  The corrected reader returns 64 x 64. */
  lemma OversizeTileWitness(pixel: (nat, nat, nat) -> Pixel, resample: Filter)
    ensures var g := Grid(32768, 32768, 64, 64, 10);
      var s := Slide([Level(1, 32768, 32768), Level(127, 259, 259)], 3, pixel, resample);
      && g.levels == LevelCount(32768, 32768, 64, 64)
      && Covers(s, g)
      && GetTileAsWritten(s, g, 1, 1, 2).Ok?
      && GetTileAsWritten(s, g, 1, 1, 2).value.width == 66
      && GetTileAsWritten(s, g, 1, 1, 2).value.height == 66
      && GetTile(s, g, 1, 1, 2).Ok?
      && GetTile(s, g, 1, 1, 2).value.width == 64
  {
    var g := Grid(32768, 32768, 64, 64, 10);
    var s := Slide([Level(1, 32768, 32768), Level(127, 259, 259)], 3, pixel, resample);
    assert Pow2(1) == 2 && Pow2(2) == 4 && Pow2(3) == 8 && Pow2(4) == 16;
    assert Pow2(5) == 32 && Pow2(6) == 64 && Pow2(7) == 128 && Pow2(8) == 256 && Pow2(9) == 512;
    LevelCountIsLeast(32768, 32768, 64, 64, 10);
    var c := TileCorners(g, 1, 1, 2).value;
    assert c == Corners(8192, 8192, 16384, 16384, 128);
    SelectedUnique(s.levels, 128, 1);
    assert CeilDiv(16384, 127) == 130;
    var rd := Plan(s, g, 1, 1, 2).value;
    assert rd == Read(1, 64, 64, 66, 66, 64, 64);
    GetTileSucceeds(s, g, 1, 1, 2);
  }

  /** Every stored level's factor is a power of two, as in a pyramid built
      by repeated halving. */
  ghost predicate Dyadic(s: Slide)
  {
    forall i | 1 <= i < |s.levels| :: exists k: nat :: s.levels[i].factor == Pow2(k)
  }

  /** One axis of a tile whose step is `f * p`: the start divides exactly
      by `f`, and the read never exceeds the footprint. */
  lemma ExactAxis(x: nat, t: nat, p: nat, f: nat, x1: nat, w: nat)
    requires f >= 1 && x1 <= x * (f * p) * t + t * (f * p)
    ensures (x * (f * p) * t) / f == x * p * t
    ensures (t * (f * p)) / f == t * p
    ensures Min(CeilDiv(x1, f), w) - (x * (f * p) * t) / f <= (t * (f * p)) / f
  {
    var a, m := x * p * t, t * p;
    assert x * (f * p) * t == a * f;
    assert t * (f * p) == m * f;
    DivExact(a, f);
    DivExact(m, f);
    CeilAtMost(x1, f, a + m);
  }

  /** On a pyramid of power-of-two factors the source's reader and the
      corrected one agree on every request: the read is never larger than
      the footprint there, so neither defect can arise. */
  lemma AsWrittenAgreesOnDyadic(s: Slide, g: Grid, x: int, y: int, z: int)
    requires ValidGrid(g) && |s.levels| >= 1 && Dyadic(s)
    ensures GetTileAsWritten(s, g, x, y, z).Ok? <==> GetTile(s, g, x, y, z).Ok?
    ensures GetTile(s, g, x, y, z).Err? ==>
      GetTileAsWritten(s, g, x, y, z).error == GetTile(s, g, x, y, z).error
    ensures GetTile(s, g, x, y, z).Ok? ==>
      SameBlock(GetTileAsWritten(s, g, x, y, z).value, GetTile(s, g, x, y, z).value)
  {
    match Plan(s, g, x, y, z)
    case Err(_) =>
    case Ok(rd) =>
      DyadicReadFits(s, g, x, y, z);
      match ReadRegion(s, rd)
      case Err(_) =>
      case Ok(b) =>
        var fp := Fit(b, rd.bw, rd.bh);
        var padded := if b.width < rd.bw || b.height < rd.bh then fp else b;
        assert SameBlock(padded, fp);
        if rd.bw > g.tileWidth || rd.bh > g.tileHeight {
          ResizeRespectsSame(s.resample, padded, fp, g.tileWidth, g.tileHeight);
        }
  }

  /** On a power-of-two pyramid the read never exceeds the footprint. */
  lemma DyadicReadFits(s: Slide, g: Grid, x: int, y: int, z: int)
    requires ValidGrid(g) && |s.levels| >= 1 && Dyadic(s) && Plan(s, g, x, y, z).Ok?
    ensures var rd := Plan(s, g, x, y, z).value;
            rd.width <= rd.bw && rd.height <= rd.bh
  {
    var rd := Plan(s, g, x, y, z).value;
    var c := TileCorners(g, x, y, z).value;
    var ch := SelectLevel(s.levels, c.step);
    var lv := s.levels[ch.level];
    assert ch.level == 0 ==> ch.factor == Pow2(0);
    assert ch.level > 0 ==> exists k: nat :: s.levels[ch.level].factor == Pow2(k);
    var k: nat :| ch.factor == Pow2(k);
    var n := g.levels - 1 - z;
    assert ch.factor <= c.step by {
      assert ch.level > 0 ==> Accepts(s.levels, c.step, ch.level);
    }
    Pow2Divides(k, n);
    var p := Pow2(n - k);
    assert c.step == ch.factor * p;
    ExactAxis(x as nat, g.tileWidth, p, ch.factor, c.x1, lv.width);
    ExactAxis(y as nat, g.tileHeight, p, ch.factor, c.y1, lv.height);
  }
}
