/** The option builders of image conversion: the vips save parameters,
    the rasterio creation options and the gdal_translate command line
    (large_image/tilesource/utilities.py:311-456).  Keyword arguments and
    the built options are Python dicts whose order nothing depends on, so
    they are maps. */
module ConvertOptions {
  import opened Wrappers
  import opened Strings

  /** A keyword-argument value. */
  datatype OptVal = ONone | OStr(text: string) | OInt(number: int) | OBool(flag: bool)

  type Kwargs = map<string, OptVal>

  /** `v in (None, '')`: a keyword value that is ignored. */
  predicate IsBlank(v: OptVal) {
    v == ONone || v == OStr("")
  }

  /** Python truthiness. */
  predicate Truthy(v: OptVal) {
    match v
    case ONone => false
    case OStr(s) => s != ""
    case OInt(i) => i != 0
    case OBool(b) => b
  }

  /** `v == 0` in Python, where `False == 0` as well. */
  predicate IsZero(v: OptVal) {
    v == OInt(0) || v == OBool(false)
  }

  /** The value a keyword argument supplies: present and not blank. */
  function Given(kwargs: Kwargs, key: string): (r: Option<OptVal>)
    ensures r.Some? <==> key in kwargs && !IsBlank(kwargs[key])
    ensures r.Some? ==> r.value == kwargs[key]
  {
    if key in kwargs && !IsBlank(kwargs[key]) then Some(kwargs[key]) else None
  }

  /** `d[key] = value` when a value is supplied. */
  function Assign<K>(d: map<K, OptVal>, key: K, value: Option<OptVal>): map<K, OptVal> {
    if value.Some? then d[key := value.value] else d
  }

  // ---- vips ----

  /** The names of the vips save parameters: `tile`, `tile_width`,
      `tile_height`, `pyramid`, `bigtiff`, `compression`, `Q`,
      `predictor`, `region_shrink`, `level`, `lossless` and `rgbjpeg`. */
  datatype VipsKey =
    | Tile | TileWidth | TileHeight | Pyramid | Bigtiff | Compression
    | Q | Predictor | RegionShrink | Level | Lossless | RgbJpeg

  type VipsParams = map<VipsKey, OptVal>

  /** The order in which the `set` of two keyword aliases is visited: the
      alias visited last wins when both are given.  Python does not fix
      this order. */
  datatype AliasOrder = AliasOrder(tiffCompressionLast: bool, jpegQualityLast: bool)

  /** The two aliases of one vips parameter in the order they are visited. */
  function AliasPair(primary: string, alias: string, aliasLast: bool): (string, string) {
    if aliasLast then (primary, alias) else (alias, primary)
  }

  /** The value of a parameter with two keyword aliases: the one visited
      last among those given. */
  function Aliased(kwargs: Kwargs, primary: string, alias: string, aliasLast: bool): (r: Option<OptVal>)
    ensures r.None? <==> Given(kwargs, primary).None? && Given(kwargs, alias).None?
    ensures Given(kwargs, alias).None? ==> r == Given(kwargs, primary)
    ensures Given(kwargs, primary).None? ==> r == Given(kwargs, alias)
    ensures r.Some? ==> r == Given(kwargs, primary) || r == Given(kwargs, alias)
  {
    var (first, last) := AliasPair(primary, alias, aliasLast);
    if Given(kwargs, last).Some? then Given(kwargs, last) else Given(kwargs, first)
  }

  /** `defaultCompression or 'jpeg'`. */
  function DefaultCompression(defaultCompression: Option<string>): (c: string)
    ensures c != ""
    ensures defaultCompression.Some? && defaultCompression.value != "" ==> c == defaultCompression.value
  {
    if defaultCompression.Some? && defaultCompression.value != "" then defaultCompression.value else "jpeg"
  }

  /** An explicit `shrinkMode` other than `'default'`. */
  predicate ExplicitShrink(kwargs: Kwargs) {
    "shrinkMode" in kwargs && Truthy(kwargs["shrinkMode"]) && kwargs["shrinkMode"] != OStr("default")
  }

  /** The region-shrink mode of a tiled image: an explicit `shrinkMode`,
      else nearest-neighbour when the default compression is lossless,
      else vips's own choice (absent). */
  function ShrinkMode(compression: string, kwargs: Kwargs): (r: Option<OptVal>)
    ensures ExplicitShrink(kwargs) ==> r == Some(kwargs["shrinkMode"])
    ensures !ExplicitShrink(kwargs) ==> (r == Some(OStr("nearest")) <==> compression in {"none", "lzw"})
    ensures r.None? <==> !ExplicitShrink(kwargs) && compression !in {"none", "lzw"}
  {
    if ExplicitShrink(kwargs) then Some(kwargs["shrinkMode"])
    else if compression in {"none", "lzw"} then Some(OStr("nearest"))
    else None
  }

  /** The parameters of a tiled image before keyword overrides. */
  function TiledStart(compression: string, kwargs: Kwargs): (r: VipsParams)
    ensures Tile in r && r[Tile] == OBool(true)
    ensures Pyramid in r && r[Pyramid] == OBool(true) && Bigtiff in r && r[Bigtiff] == OBool(true)
    ensures TileWidth in r && r[TileWidth] == OInt(256) && TileHeight in r && r[TileHeight] == OInt(256)
    ensures Compression in r && r[Compression] == OStr(compression)
    ensures Q in r && r[Q] == OInt(90) && Predictor in r && r[Predictor] == OStr("horizontal")
    ensures RegionShrink in r <==> ShrinkMode(compression, kwargs).Some?
    ensures RegionShrink in r ==> r[RegionShrink] == ShrinkMode(compression, kwargs).value
    ensures Level !in r && Lossless !in r && RgbJpeg !in r
  {
    Assign(map[Tile := OBool(true), TileWidth := OInt(256), TileHeight := OInt(256),
               Pyramid := OBool(true), Bigtiff := OBool(true), Compression := OStr(compression),
               Q := OInt(90), Predictor := OStr("horizontal")],
           RegionShrink, ShrinkMode(compression, kwargs))
  }

  /** The keyword overrides, visited in the order of the source's table:
      tile width and height from `tileSize`, compression from
      `compression`/`tiffCompression`, Q from `quality`/`jpegQuality`,
      then `level` and `predictor`. */
  function Overrides(p: VipsParams, kwargs: Kwargs, order: AliasOrder): (r: VipsParams)
    ensures forall k | k !in {TileWidth, TileHeight, Compression, Q, Level, Predictor} ::
              (k in r <==> k in p) && (k in r ==> r[k] == p[k])
    ensures TileWidth in p ==> TileWidth in r && r[TileWidth] == Given(kwargs, "tileSize").GetOr(p[TileWidth])
    ensures TileHeight in p ==> TileHeight in r && r[TileHeight] == Given(kwargs, "tileSize").GetOr(p[TileHeight])
    ensures Compression in p ==>
              && Compression in r
              && r[Compression] == Aliased(kwargs, "compression", "tiffCompression", order.tiffCompressionLast)
                                   .GetOr(p[Compression])
    ensures Q in p ==>
              && Q in r
              && r[Q] == Aliased(kwargs, "quality", "jpegQuality", order.jpegQualityLast).GetOr(p[Q])
    ensures Level !in p ==> (Level in r <==> Given(kwargs, "level").Some?)
    ensures Level !in p && Level in r ==> r[Level] == kwargs["level"]
    ensures Predictor in p ==> Predictor in r && r[Predictor] == Given(kwargs, "predictor").GetOr(p[Predictor])
  {
    var p1 := SizeOverrides(p, kwargs);
    var p2 := AliasOverrides(p1, kwargs, order);
    var r := PlainOverrides(p2, kwargs);
    assert TileWidth !in {Compression, Q} && TileWidth !in {Level, Predictor};
    assert TileHeight !in {Compression, Q} && TileHeight !in {Level, Predictor};
    assert Compression !in {TileWidth, TileHeight} && Compression !in {Level, Predictor};
    assert Q !in {TileWidth, TileHeight} && Q !in {Level, Predictor};
    assert Level !in {TileWidth, TileHeight} && Level !in {Compression, Q};
    assert Predictor !in {TileWidth, TileHeight} && Predictor !in {Compression, Q};
    r
  }

  /** The tile size from `tileSize`. */
  function SizeOverrides(p: VipsParams, kwargs: Kwargs): (r: VipsParams)
    ensures forall k | k !in {TileWidth, TileHeight} :: (k in r <==> k in p) && (k in r ==> r[k] == p[k])
    ensures TileWidth in p ==> TileWidth in r && r[TileWidth] == Given(kwargs, "tileSize").GetOr(p[TileWidth])
    ensures TileHeight in p ==> TileHeight in r && r[TileHeight] == Given(kwargs, "tileSize").GetOr(p[TileHeight])
  {
    Assign(Assign(p, TileWidth, Given(kwargs, "tileSize")), TileHeight, Given(kwargs, "tileSize"))
  }

  /** The compression and Q from their two aliases each. */
  function AliasOverrides(p: VipsParams, kwargs: Kwargs, order: AliasOrder): (r: VipsParams)
    ensures forall k | k !in {Compression, Q} :: (k in r <==> k in p) && (k in r ==> r[k] == p[k])
    ensures Compression in p ==>
              && Compression in r
              && r[Compression] == Aliased(kwargs, "compression", "tiffCompression", order.tiffCompressionLast)
                                   .GetOr(p[Compression])
    ensures Q in p ==>
              && Q in r
              && r[Q] == Aliased(kwargs, "quality", "jpegQuality", order.jpegQualityLast).GetOr(p[Q])
  {
    var p2 := AssignAliased(p, Compression, kwargs, "compression", "tiffCompression", order.tiffCompressionLast);
    AssignAliased(p2, Q, kwargs, "quality", "jpegQuality", order.jpegQualityLast)
  }

  /** The level and predictor from their keywords. */
  function PlainOverrides(p: VipsParams, kwargs: Kwargs): (r: VipsParams)
    ensures forall k | k !in {Level, Predictor} :: (k in r <==> k in p) && (k in r ==> r[k] == p[k])
    ensures Level !in p ==> (Level in r <==> Given(kwargs, "level").Some?)
    ensures Level !in p && Level in r ==> r[Level] == kwargs["level"]
    ensures Predictor in p ==> Predictor in r && r[Predictor] == Given(kwargs, "predictor").GetOr(p[Predictor])
  {
    Assign(Assign(p, Level, Given(kwargs, "level")), Predictor, Given(kwargs, "predictor"))
  }

  /** Assigning `vkey` from each of two aliases in visiting order. */
  function AssignAliased(p: VipsParams, vkey: VipsKey, kwargs: Kwargs, primary: string, alias: string, aliasLast: bool)
    : (r: VipsParams)
    ensures r == match Aliased(kwargs, primary, alias, aliasLast) case Some(v) => p[vkey := v] case None => p
  {
    var (first, last) := AliasPair(primary, alias, aliasLast);
    Assign(Assign(p, vkey, Given(kwargs, first)), vkey, Given(kwargs, last))
  }

  /** A zero `quality` keyword. */
  predicate ZeroQuality(kwargs: Kwargs) {
    "quality" in kwargs && IsZero(kwargs["quality"])
  }

  /** The rewrites after the overrides: `jp2k` becomes no compression,
      `webp` with a zero `quality` becomes lossless without Q, predictor
      `yes` becomes `horizontal`, and JPEG gains `rgbjpeg`. */
  function Rewrites(p: VipsParams, kwargs: Kwargs): (r: VipsParams)
    requires Compression in p && Predictor in p
    ensures forall k | k !in {Compression, Q, Predictor, Lossless, RgbJpeg} ::
              (k in r <==> k in p) && (k in r ==> r[k] == p[k])
    ensures Compression in r && r[Compression] == (if p[Compression] == OStr("jp2k") then OStr("none") else p[Compression])
    ensures Predictor in r && r[Predictor] == (if p[Predictor] == OStr("yes") then OStr("horizontal") else p[Predictor])
    ensures var lossless := r[Compression] == OStr("webp") && ZeroQuality(kwargs);
            && (lossless ==> Lossless in r && r[Lossless] == OBool(true) && Q !in r)
            && (!lossless ==> (Lossless in r <==> Lossless in p) && (Q in r <==> Q in p))
            && (!lossless && Lossless in r ==> r[Lossless] == p[Lossless])
            && (!lossless && Q in r ==> r[Q] == p[Q])
    ensures r[Compression] == OStr("jpeg") ==> RgbJpeg in r && r[RgbJpeg] == OBool(true)
    ensures r[Compression] != OStr("jpeg") ==> (RgbJpeg in r <==> RgbJpeg in p)
  {
    var p2 := if p[Compression] == OStr("jp2k") then p[Compression := OStr("none")] else p;
    var p3 := if p2[Compression] == OStr("webp") && ZeroQuality(kwargs)
              then p2[Lossless := OBool(true)] - {Q}
              else p2;
    var p4 := if p3[Predictor] == OStr("yes") then p3[Predictor := OStr("horizontal")] else p3;
    if p4[Compression] == OStr("jpeg") then p4[RgbJpeg := OBool(true)] else p4
  }

  /** The compression asked for, before the `jp2k` rewrite. */
  function RequestedCompression(defaultCompression: Option<string>, kwargs: Kwargs, order: AliasOrder): OptVal {
    Aliased(kwargs, "compression", "tiffCompression", order.tiffCompressionLast)
      .GetOr(OStr(DefaultCompression(defaultCompression)))
  }

  /** `_vipsParameters(forTiled=True, ...)`: 256-pixel pyramidal BigTIFF
      tiles at Q 90 with the horizontal predictor unless overridden;
      `jp2k` is written uncompressed, `webp` at quality 0 is lossless,
      predictor `yes` means horizontal, and JPEG is written as RGB. */
  function VipsTiled(defaultCompression: Option<string>, kwargs: Kwargs, order: AliasOrder): (r: VipsParams)
    ensures Tile in r && r[Tile] == OBool(true)
    ensures Pyramid in r && r[Pyramid] == OBool(true) && Bigtiff in r && r[Bigtiff] == OBool(true)
    ensures TileWidth in r && r[TileWidth] == Given(kwargs, "tileSize").GetOr(OInt(256))
    ensures TileHeight in r && r[TileHeight] == Given(kwargs, "tileSize").GetOr(OInt(256))
    ensures RegionShrink in r <==> ShrinkMode(DefaultCompression(defaultCompression), kwargs).Some?
    ensures RegionShrink in r ==> r[RegionShrink] == ShrinkMode(DefaultCompression(defaultCompression), kwargs).value
    ensures Level in r <==> Given(kwargs, "level").Some?
    ensures Level in r ==> r[Level] == kwargs["level"]
    ensures var c := RequestedCompression(defaultCompression, kwargs, order);
            Compression in r && r[Compression] == (if c == OStr("jp2k") then OStr("none") else c)
    ensures var p := Given(kwargs, "predictor").GetOr(OStr("horizontal"));
            Predictor in r && r[Predictor] == (if p == OStr("yes") then OStr("horizontal") else p)
    ensures var lossless := r[Compression] == OStr("webp") && ZeroQuality(kwargs);
            && (Lossless in r <==> lossless)
            && (Lossless in r ==> r[Lossless] == OBool(true))
            && (Q in r <==> !lossless)
            && (Q in r ==> r[Q] == Aliased(kwargs, "quality", "jpegQuality", order.jpegQualityLast).GetOr(OInt(90)))
    ensures RgbJpeg in r <==> r[Compression] == OStr("jpeg")
    ensures RgbJpeg in r ==> r[RgbJpeg] == OBool(true)
  {
    TiledKept(defaultCompression, kwargs, order);
    TiledChosen(defaultCompression, kwargs, order);
    Rewrites(Overrides(TiledStart(DefaultCompression(defaultCompression), kwargs), kwargs, order), kwargs)
  }

  /** The tiling, pyramid, BigTIFF, shrink and level settings survive the
      rewrites unchanged. */
  lemma TiledKept(defaultCompression: Option<string>, kwargs: Kwargs, order: AliasOrder)
    ensures var r := Rewrites(Overrides(TiledStart(DefaultCompression(defaultCompression), kwargs), kwargs, order), kwargs);
            && Tile in r && r[Tile] == OBool(true)
            && Pyramid in r && r[Pyramid] == OBool(true) && Bigtiff in r && r[Bigtiff] == OBool(true)
            && TileWidth in r && r[TileWidth] == Given(kwargs, "tileSize").GetOr(OInt(256))
            && TileHeight in r && r[TileHeight] == Given(kwargs, "tileSize").GetOr(OInt(256))
            && (RegionShrink in r <==> ShrinkMode(DefaultCompression(defaultCompression), kwargs).Some?)
            && (RegionShrink in r ==> r[RegionShrink] == ShrinkMode(DefaultCompression(defaultCompression), kwargs).value)
            && (Level in r <==> Given(kwargs, "level").Some?)
            && (Level in r ==> r[Level] == kwargs["level"])
  {
    var s := TiledStart(DefaultCompression(defaultCompression), kwargs);
    var o := Overrides(s, kwargs, order);
    OverridesKeep(s, kwargs, order, Tile);
    OverridesKeep(s, kwargs, order, Pyramid);
    OverridesKeep(s, kwargs, order, Bigtiff);
    OverridesKeep(s, kwargs, order, RegionShrink);
    RewritesKeep(o, kwargs, Tile);
    RewritesKeep(o, kwargs, Pyramid);
    RewritesKeep(o, kwargs, Bigtiff);
    RewritesKeep(o, kwargs, RegionShrink);
    RewritesKeep(o, kwargs, TileWidth);
    RewritesKeep(o, kwargs, TileHeight);
    RewritesKeep(o, kwargs, Level);
  }

  /** The overrides leave every other parameter alone. */
  lemma OverridesKeep(p: VipsParams, kwargs: Kwargs, order: AliasOrder, k: VipsKey)
    requires k !in {TileWidth, TileHeight, Compression, Q, Level, Predictor}
    ensures var r := Overrides(p, kwargs, order);
            (k in r <==> k in p) && (k in r ==> r[k] == p[k])
  {
  }

  /** The rewrites leave every other parameter alone. */
  lemma RewritesKeep(p: VipsParams, kwargs: Kwargs, k: VipsKey)
    requires Compression in p && Predictor in p
    requires k !in {Compression, Q, Predictor, Lossless, RgbJpeg}
    ensures var r := Rewrites(p, kwargs);
            (k in r <==> k in p) && (k in r ==> r[k] == p[k])
  {
  }

  /** The compression, predictor, quality and JPEG settings after the
      rewrites. */
  lemma TiledChosen(defaultCompression: Option<string>, kwargs: Kwargs, order: AliasOrder)
    ensures var r := Rewrites(Overrides(TiledStart(DefaultCompression(defaultCompression), kwargs), kwargs, order), kwargs);
            var c := RequestedCompression(defaultCompression, kwargs, order);
            var p := Given(kwargs, "predictor").GetOr(OStr("horizontal"));
            var lossless := Compression in r && r[Compression] == OStr("webp") && ZeroQuality(kwargs);
            && Compression in r && r[Compression] == (if c == OStr("jp2k") then OStr("none") else c)
            && Predictor in r && r[Predictor] == (if p == OStr("yes") then OStr("horizontal") else p)
            && (Lossless in r <==> lossless)
            && (Lossless in r ==> r[Lossless] == OBool(true))
            && (Q in r <==> !lossless)
            && (Q in r ==> r[Q] == Aliased(kwargs, "quality", "jpegQuality", order.jpegQualityLast).GetOr(OInt(90)))
            && (RgbJpeg in r <==> r[Compression] == OStr("jpeg"))
            && (RgbJpeg in r ==> r[RgbJpeg] == OBool(true))
  {
    var o := Overrides(TiledStart(DefaultCompression(defaultCompression), kwargs), kwargs, order);
    assert Compression in o && o[Compression] == RequestedCompression(defaultCompression, kwargs, order);
    assert Lossless !in o && RgbJpeg !in o;
  }

  /** `_vipsParameters(forTiled=False, ...)`: untiled at Q 90 with the
      default compression, or LZW when a MIME type other than JPEG is
      asked for. */
  function VipsUntiled(defaultCompression: Option<string>, kwargs: Kwargs): (r: VipsParams)
    ensures r.Keys == {Compression, Q, Predictor, Tile}
    ensures r[Tile] == OBool(false) && r[Q] == OInt(90) && r[Predictor] == OStr("horizontal")
    ensures "mime" in kwargs && kwargs["mime"] != OStr("image/jpeg") ==> r[Compression] == OStr("lzw")
    ensures !("mime" in kwargs && kwargs["mime"] != OStr("image/jpeg"))
            ==> r[Compression] == OStr(DefaultCompression(defaultCompression))
  {
    var p := map[Compression := OStr(DefaultCompression(defaultCompression)), Q := OInt(90),
                 Predictor := OStr("horizontal"), Tile := OBool(false)];
    if "mime" in kwargs && kwargs["mime"] != OStr("image/jpeg") then p[Compression := OStr("lzw")] else p
  }

  /** When at most one alias of each aliased parameter is given, the
      order in which the aliases are visited makes no difference. */
  lemma AliasOrderIrrelevant(defaultCompression: Option<string>, kwargs: Kwargs, a: AliasOrder, b: AliasOrder)
    requires Given(kwargs, "compression").None? || Given(kwargs, "tiffCompression").None?
    requires Given(kwargs, "quality").None? || Given(kwargs, "jpegQuality").None?
    ensures VipsTiled(defaultCompression, kwargs, a) == VipsTiled(defaultCompression, kwargs, b)
  {
    OverridesOrderFree(TiledStart(DefaultCompression(defaultCompression), kwargs), kwargs, a, b);
  }

  /** The keyword overrides do not depend on the visiting order when at
      most one alias of each pair is given. */
  lemma OverridesOrderFree(p: VipsParams, kwargs: Kwargs, a: AliasOrder, b: AliasOrder)
    requires Given(kwargs, "compression").None? || Given(kwargs, "tiffCompression").None?
    requires Given(kwargs, "quality").None? || Given(kwargs, "jpegQuality").None?
    ensures Overrides(p, kwargs, a) == Overrides(p, kwargs, b)
  {
    var p1 := SizeOverrides(p, kwargs);
    var pc := AssignAliased(p1, Compression, kwargs, "compression", "tiffCompression", a.tiffCompressionLast);
    assert pc == AssignAliased(p1, Compression, kwargs, "compression", "tiffCompression", b.tiffCompressionLast);
    assert AssignAliased(pc, Q, kwargs, "quality", "jpegQuality", a.jpegQualityLast)
        == AssignAliased(pc, Q, kwargs, "quality", "jpegQuality", b.jpegQualityLast);
    assert AliasOverrides(p1, kwargs, a) == AliasOverrides(p1, kwargs, b);
  }

  /** With both compression aliases given and different, the visiting
      order decides the compression. */
  lemma AliasOrderMatters()
    ensures var kwargs := map["compression" := OStr("lzw"), "tiffCompression" := OStr("zstd")];
            VipsTiled(None, kwargs, AliasOrder(true, true))[Compression] == OStr("zstd")
            && VipsTiled(None, kwargs, AliasOrder(false, true))[Compression] == OStr("lzw")
  {
    var kwargs := map["compression" := OStr("lzw"), "tiffCompression" := OStr("zstd")];
    assert Given(kwargs, "compression") == Some(OStr("lzw"));
    assert Given(kwargs, "tiffCompression") == Some(OStr("zstd"));
    assert RequestedCompression(None, kwargs, AliasOrder(true, true)) == OStr("zstd");
    assert RequestedCompression(None, kwargs, AliasOrder(false, true)) == OStr("lzw");
  }

  // ---- rasterio and gdal ----

  /** The rasterio names of the predictor settings. */
  const PredictorNames: map<string, string> :=
    map["none" := "NO", "horizontal" := "STANDARD", "float" := "FLOATING_POINT", "yes" := "YES"]

  /** Why building the options raises: a predictor with no rasterio name
      (`KeyError`), a block size `%d` cannot format (`TypeError`), or a
      compression that is not a string (`AttributeError` on `upper`). */
  datatype OptionError = UnknownPredictor(predictor: OptVal) | NotAnInteger(blocksize: OptVal) | NotAString(compress: OptVal)

  /** The rasterio options every result starts from. */
  const RasterioDefaults: map<string, OptVal> := map["blocksize" := OInt(256), "compress" := OStr("lzw"), "quality" := OInt(90)]

  /** The predictor before translation: a given `predictor` keyword,
      else `yes` or `none` from a known bit depth, else none. */
  function PredictorChoice(eightbit: Option<bool>, kwargs: Kwargs): Option<OptVal> {
    if Given(kwargs, "predictor").Some? then Given(kwargs, "predictor")
    else if eightbit.Some? then Some(OStr(if eightbit.value then "yes" else "none"))
    else None
  }

  /** A predictor setting rasterio has a name for. */
  predicate KnownPredictor(v: OptVal) {
    v.OStr? && v.text in PredictorNames
  }

  /** `_rasterioParameters`: the defaults, then every non-blank keyword,
      then tiling and BigTIFF-if-safer, with the predictor translated to
      its rasterio name.  `defaultCompression` is accepted by the source
      and has no effect, so it is not a parameter here. */
  function RasterioOptions(eightbit: Option<bool>, kwargs: Kwargs): (r: Result<Kwargs, OptionError>)
    ensures r.Err? <==> PredictorChoice(eightbit, kwargs).Some? && !KnownPredictor(PredictorChoice(eightbit, kwargs).value)
    ensures r.Err? ==> r.error == UnknownPredictor(PredictorChoice(eightbit, kwargs).value)
    ensures r.Ok? ==> "tiled" in r.value && r.value["tiled"] == OBool(true)
    ensures r.Ok? ==> "bigtiff" in r.value && r.value["bigtiff"] == OStr("IF_SAFER")
    ensures r.Ok? ==> ("predictor" in r.value <==> PredictorChoice(eightbit, kwargs).Some?)
    ensures r.Ok? && "predictor" in r.value
            ==> r.value["predictor"] == OStr(PredictorNames[PredictorChoice(eightbit, kwargs).value.text])
    ensures r.Ok? ==> forall k | k !in {"tiled", "bigtiff", "predictor"} ::
              && (k in r.value <==> k in RasterioDefaults || Given(kwargs, k).Some?)
              && (k in r.value ==> r.value[k] == if Given(kwargs, k).Some? then kwargs[k] else RasterioDefaults[k])
  {
    var o := RasterioMerged(eightbit, kwargs);
    if "predictor" in o then
      var v := o["predictor"];
      if KnownPredictor(v) then Ok(o["predictor" := OStr(PredictorNames[v.text])]) else Err(UnknownPredictor(v))
    else Ok(o)
  }

  /** The rasterio options before the predictor is translated. */
  function RasterioMerged(eightbit: Option<bool>, kwargs: Kwargs): (o: Kwargs)
    ensures "tiled" in o && o["tiled"] == OBool(true)
    ensures "bigtiff" in o && o["bigtiff"] == OStr("IF_SAFER")
    ensures "predictor" in o <==> PredictorChoice(eightbit, kwargs).Some?
    ensures "predictor" in o ==> o["predictor"] == PredictorChoice(eightbit, kwargs).value
    ensures forall k | k !in {"tiled", "bigtiff", "predictor"} ::
              && (k in o <==> k in RasterioDefaults || Given(kwargs, k).Some?)
              && (k in o ==> o[k] == if Given(kwargs, k).Some? then kwargs[k] else RasterioDefaults[k])
  {
    var o1 := if eightbit.Some? then RasterioDefaults["predictor" := OStr(if eightbit.value then "yes" else "none")]
              else RasterioDefaults;
    Overlay(o1, kwargs)["tiled" := OBool(true)]["bigtiff" := OStr("IF_SAFER")]
  }

  /** `o.update(kwargs)` keeping only the non-blank keywords. */
  function Overlay(o: Kwargs, kwargs: Kwargs): (r: Kwargs)
    ensures forall k :: k in r <==> k in o || Given(kwargs, k).Some?
    ensures forall k | k in r :: r[k] == if Given(kwargs, k).Some? then kwargs[k] else o[k]
  {
    o + map k | k in kwargs && !IsBlank(kwargs[k]) :: kwargs[k]
  }

  /** `'%d' % v`. */
  function DecimalText(v: OptVal): Option<string> {
    match v
    case OInt(i) => Some(IntToString(i))
    case OBool(b) => Some(if b then "1" else "0")
    case _ => None
  }

  /** `'%s' % v`. */
  function Text(v: OptVal): string {
    match v
    case ONone => "None"
    case OStr(s) => s
    case OInt(i) => IntToString(i)
    case OBool(b) => if b then "True" else "False"
  }

  /** One `-co NAME=value` creation option. */
  function CreationOption(name: string, value: string): seq<string> {
    ["-co", name + "=" + value]
  }

  /** `_gdalParameters`: the rasterio options as a gdal_translate command
      line writing a cloud-optimised GeoTIFF.  The block size and the
      compression come from the rasterio keys `blocksize` and `compress`. */
  function GdalCommand(eightbit: Option<bool>, kwargs: Kwargs): (r: Result<seq<string>, OptionError>)
    ensures RasterioOptions(eightbit, kwargs).Err? ==> r == RasterioOptions(eightbit, kwargs).PropagateFailure()
    ensures RasterioOptions(eightbit, kwargs).Ok? ==> r == CommandOf(RasterioOptions(eightbit, kwargs).value)
  {
    var o :- RasterioOptions(eightbit, kwargs);
    CommandOf(o)
  }

  /** The options a gdal command is built from. */
  predicate GdalReady(o: Kwargs) {
    && "blocksize" in o && "compress" in o && "quality" in o
    && "bigtiff" in o && o["bigtiff"] == OStr("IF_SAFER")
  }

  /** The gdal_translate command line for built rasterio options. */
  function CommandOf(o: Kwargs): (r: Result<seq<string>, OptionError>)
    requires GdalReady(o)
    ensures DecimalText(o["blocksize"]).None? ==> r == Err(NotAnInteger(o["blocksize"]))
    ensures DecimalText(o["blocksize"]).Some? && !o["compress"].OStr? ==> r == Err(NotAString(o["compress"]))
    ensures DecimalText(o["blocksize"]).Some? && o["compress"].OStr? ==> r.Ok?
    ensures r.Ok? ==>
              && |r.value| == 10 + (if "predictor" in o then 2 else 0) + (if "level" in o then 2 else 0)
              && r.value[..4] == ["-of", "COG", "-co", "BIGTIFF=IF_SAFER"]
              && r.value[4..6] == CreationOption("BLOCKSIZE", DecimalText(o["blocksize"]).value)
              && r.value[6..8] == CreationOption("COMPRESS", Upper(o["compress"].text))
              && r.value[8..10] == CreationOption("QUALITY", Text(o["quality"]))
              && ("predictor" in o ==> r.value[10..12] == CreationOption("PREDICTOR", Text(o["predictor"])))
              && ("level" in o ==> r.value[|r.value| - 2..] == CreationOption("LEVEL", Text(o["level"])))
  {
    var tileSize := o["blocksize"];
    var compression := o["compress"];
    match DecimalText(tileSize)
    case None => Err(NotAnInteger(tileSize))
    case Some(blocksize) =>
      if !compression.OStr? then Err(NotAString(compression))
      else
        assert "BIGTIFF" + "=" + Text(o["bigtiff"]) == "BIGTIFF=IF_SAFER";
        var cmd := ["-of", "COG"] + CreationOption("BIGTIFF", Text(o["bigtiff"]))
                   + CreationOption("BLOCKSIZE", blocksize)
                   + CreationOption("COMPRESS", Upper(compression.text))
                   + CreationOption("QUALITY", Text(o["quality"]));
        var cmd2 := if "predictor" in o then cmd + CreationOption("PREDICTOR", Text(o["predictor"])) else cmd;
        var cmd3 := if "level" in o then cmd2 + CreationOption("LEVEL", Text(o["level"])) else cmd2;
        assert cmd3[..10] == cmd;
        Ok(cmd3)
  }

  /** The command reads only the block size, compression, quality,
      BigTIFF, predictor and level options. */
  lemma CommandOfReads(a: Kwargs, b: Kwargs)
    requires GdalReady(a) && GdalReady(b)
    requires forall k | k in {"blocksize", "compress", "quality", "bigtiff", "predictor", "level"} ::
               (k in a <==> k in b) && (k in a ==> a[k] == b[k])
    ensures CommandOf(a) == CommandOf(b)
  {
    assert a["blocksize"] == b["blocksize"] && a["compress"] == b["compress"] && a["quality"] == b["quality"];
    assert ("predictor" in a <==> "predictor" in b) && ("level" in a <==> "level" in b);
  }

  /** Built rasterio options are ready for the gdal command. */
  lemma RasterioReady(eightbit: Option<bool>, kwargs: Kwargs)
    requires RasterioOptions(eightbit, kwargs).Ok?
    ensures GdalReady(RasterioOptions(eightbit, kwargs).value)
  {
    var o := RasterioOptions(eightbit, kwargs).value;
    assert "blocksize" in RasterioDefaults && "compress" in RasterioDefaults && "quality" in RasterioDefaults;
    assert "blocksize" in o && "compress" in o && "quality" in o;
  }

  /** The generic `tileSize` and `compression` keywords never reach the
      gdal command: only `blocksize` and `compress` do. */
  lemma GdalIgnoresGenericKeywords(eightbit: Option<bool>, kwargs: Kwargs, size: OptVal, compression: OptVal)
    ensures GdalCommand(eightbit, kwargs["tileSize" := size]["compression" := compression])
            == GdalCommand(eightbit, kwargs)
  {
    var other := kwargs["tileSize" := size]["compression" := compression];
    GivenElsewhere(kwargs, size, compression, "predictor");
    var a, b := RasterioOptions(eightbit, other), RasterioOptions(eightbit, kwargs);
    if a.Ok? {
      RasterioReady(eightbit, other);
      RasterioReady(eightbit, kwargs);
      GivenElsewhere(kwargs, size, compression, "blocksize");
      GivenElsewhere(kwargs, size, compression, "compress");
      GivenElsewhere(kwargs, size, compression, "quality");
      GivenElsewhere(kwargs, size, compression, "level");
      SameRasterioEntry(eightbit, other, kwargs, "blocksize");
      SameRasterioEntry(eightbit, other, kwargs, "compress");
      SameRasterioEntry(eightbit, other, kwargs, "quality");
      SameRasterioEntry(eightbit, other, kwargs, "level");
      CommandOfReads(a.value, b.value);
    }
  }

  /** Setting `tileSize` and `compression` leaves every other keyword as
      given. */
  lemma GivenElsewhere(kwargs: Kwargs, size: OptVal, compression: OptVal, k: string)
    requires k != "tileSize" && k != "compression"
    ensures Given(kwargs["tileSize" := size]["compression" := compression], k) == Given(kwargs, k)
  {
  }

  /** Keyword lists that agree on a plain key build options that agree on
      it. */
  lemma SameRasterioEntry(eightbit: Option<bool>, a: Kwargs, b: Kwargs, k: string)
    requires k !in {"tiled", "bigtiff", "predictor"}
    requires RasterioOptions(eightbit, a).Ok? && RasterioOptions(eightbit, b).Ok?
    requires Given(a, k) == Given(b, k)
    ensures var ra, rb := RasterioOptions(eightbit, a).value, RasterioOptions(eightbit, b).value;
            (k in ra <==> k in rb) && (k in ra ==> ra[k] == rb[k])
  {
  }
}
