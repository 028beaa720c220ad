/** The JupyterLab viewer of a tile source (large_image/tilesource/jupyter.py):
    the conversion between image pixels and the map's coordinates for an
    image without a projection, the address of the local tile server, and
    the parameters of the ipyleaflet layer and map derived from the
    image's metadata.  Projected images are converted by pyproj, which is
    not part of this model. */
module Jupyter {
  import opened Wrappers
  import opened Strings
  import Arith

  /** The metadata keys the viewer reads.  `sourceLevels` may be absent;
      `projection` is absent when there is no `projection` key and holds the
      key's value, itself possibly `None`, otherwise; `hasBounds` says
      whether a `bounds` key is present. */
  datatype Metadata = Metadata(
    sizeX: nat, sizeY: nat, tileWidth: nat, levels: nat, sourceLevels: Option<int>,
    geospatial: bool, projection: Option<Option<string>>, hasBounds: bool)

  /** `metadata.get('geospatial') and metadata.get('projection')`: the
      projection must be present, not `None` and not empty. */
  predicate Geospatial(m: Metadata) {
    m.geospatial && m.projection.Some? && m.projection.value.Some? && m.projection.value.value != ""
  }

  /** A point of the map as (latitude, longitude), or of the image as
      (x, y). */
  type Point = (real, real)

  // ---- coordinates ----

  /** `Map.to_map` for an image without a projection: the map's first
      axis runs up the image from its bottom edge, the second along it. */
  function ToMap(sizeY: nat, coordinate: seq<real>): Point
    requires |coordinate| >= 2
  {
    (sizeY as real - coordinate[1], coordinate[0])
  }

  /** `Map.from_map` for an image without a projection. */
  function FromMap(sizeY: nat, coordinate: seq<real>): Point
    requires |coordinate| >= 2
  {
    (coordinate[1], sizeY as real - coordinate[0])
  }

  /** Converting to the map and back gives the pixel (its first two
      components). */
  lemma FromMapToMap(sizeY: nat, coordinate: seq<real>)
    requires |coordinate| >= 2
    ensures var p := ToMap(sizeY, coordinate);
            FromMap(sizeY, [p.0, p.1]) == (coordinate[0], coordinate[1])
  {
  }

  /** Converting from the map and back gives the map point. */
  lemma ToMapFromMap(sizeY: nat, coordinate: seq<real>)
    requires |coordinate| >= 2
    ensures var p := FromMap(sizeY, coordinate);
            ToMap(sizeY, [p.0, p.1]) == (coordinate[0], coordinate[1])
  {
  }

  // ---- the tile server address ----

  /** `JUPYTER_PROXY`: a string, or any other value (`True`, `False`,
      `None`) reduced to its truth. */
  datatype Proxy = Text(s: string) | Flag(on: bool)

  predicate Truthy(p: Proxy) {
    match p
    case Text(s) => s != ""
    case Flag(on) => on
  }

  /** The base URL of `as_leaflet_layer`: the proxy path (trailing slashes
      removed) followed by the port, `/proxy/<port>` for a proxy that is
      not a string, or `http://<host>:<port>` without a proxy. */
  function BaseUrl(proxy: Proxy, host: string, port: nat): string {
    if Truthy(proxy) then
      if proxy.Text? then RStrip(proxy.s, '/') + "/" + NatToString(port)
      else "/proxy/" + NatToString(port)
    else "http://" + host + ":" + NatToString(port)
  }

  /** The port a URL of that shape names: the digits after its last `/`
      or `:`. */
  function PortOf(url: string): Option<nat> {
    var slash, colon := LastIndexOf(url, '/'), LastIndexOf(url, ':');
    var tail := url[(if slash > colon then slash else colon) + 1..];
    if tail != "" && IsDigits(tail) then Some(DigitsValue(tail)) else None
  }

  /** The last `c` of `prefix + [sep] + digits` is `sep` when `c` is, and
      otherwise lies in `prefix`. */
  lemma LastBeforeDigits(prefix: string, sep: char, digits: string, c: char)
    requires IsDigits(digits) && !IsDigit(c)
    ensures var s := prefix + [sep] + digits;
            && (c == sep ==> LastIndexOf(s, c) == |prefix|)
            && (c != sep ==> LastIndexOf(s, c) < |prefix|)
  {
    var s := prefix + [sep] + digits;
    assert forall j | |prefix| < j < |s| :: s[j] == digits[j - |prefix| - 1];
    if c == sep {
      LastIndexOfAt(s, c, |prefix|);
    } else {
      var k := LastIndexOf(prefix, c);
      assert forall j | 0 <= j < |prefix| :: s[j] == prefix[j];
      LastIndexOfAt(s, c, k);
    }
  }

  /** Every base URL ends in the port of the server it addresses. */
  lemma BaseUrlPort(proxy: Proxy, host: string, port: nat)
    ensures PortOf(BaseUrl(proxy, host, port)) == Some(port)
  {
    var digits := NatToString(port);
    DigitsValueOfNatToString(port);
    if !Truthy(proxy) {
      assert BaseUrl(proxy, host, port) == "http://" + host + [':'] + digits;
      PortAfter("http://" + host, ':', digits);
    } else if proxy.Text? {
      assert BaseUrl(proxy, host, port) == RStrip(proxy.s, '/') + ['/'] + digits;
      PortAfter(RStrip(proxy.s, '/'), '/', digits);
    } else {
      assert BaseUrl(proxy, host, port) == "/proxy" + ['/'] + digits;
      PortAfter("/proxy", '/', digits);
    }
  }

  /** Digits after a final `/` or `:` are read back as the port. */
  lemma PortAfter(prefix: string, sep: char, digits: string)
    requires sep == '/' || sep == ':'
    requires digits != "" && IsDigits(digits)
    ensures PortOf(prefix + [sep] + digits) == Some(DigitsValue(digits))
  {
    var s := prefix + [sep] + digits;
    LastBeforeDigits(prefix, sep, digits, '/');
    LastBeforeDigits(prefix, sep, digits, ':');
    assert s[|prefix| + 1..] == digits;
  }

  /** A proxy path is joined to the port by exactly one `/`, however many
      it ends with. */
  lemma ProxyJoinedOnce(s: string, host: string, port: nat)
    requires s != ""
    ensures var u, n := BaseUrl(Text(s), host, port), |RStrip(s, '/')|;
            && u[..n] == RStrip(s, '/') && u[n] == '/'
            && (n == 0 || u[n - 1] != '/')
  {
  }

  /** A proxy, when set, overrides the host. */
  lemma ProxyOverridesHost(proxy: Proxy, host1: string, host2: string, port: nat)
    requires Truthy(proxy)
    ensures BaseUrl(proxy, host1, port) == BaseUrl(proxy, host2, port)
  {
  }

  // ---- the tile endpoint ----

  /** The parameters of the tile endpoint: the `{z}`, `{x}` and `{y}`
      placeholders, PNG encoding and the source's `repr`, which keeps tiles
      of different sources or styles from sharing a cache entry. */
  function EndpointParameters(repr: string): seq<(string, string)> {
    [("z", "{z}"), ("x", "{x}"), ("y", "{y}"), ("encoding", "png"), ("repr", repr)]
  }

  /** Each parameter written as `name=value`. */
  function Encode(params: seq<(string, string)>): (r: seq<string>)
    ensures |r| == |params|
    ensures forall i | 0 <= i < |params| :: r[i] == params[i].0 + "=" + params[i].1
  {
    seq(|params|, i requires 0 <= i < |params| => params[i].0 + "=" + params[i].1)
  }

  /** The endpoint template
      `tile?z={z}&x={x}&y={y}&encoding=png&repr=<repr>`. */
  function Endpoint(repr: string): string {
    "tile?" + JoinWith(Encode(EndpointParameters(repr)), '&')
  }

  /** The URL handed to the layer. */
  function LayerUrl(base: string, repr: string): string {
    base + "/" + Endpoint(repr)
  }

  /** One query parameter split at its first `=`. */
  function Param(p: string): (string, string) {
    var k := IndexOf(p, '=');
    if k < 0 then (p, "") else (p[..k], p[k + 1..])
  }

  /** The parameters of a query string after its first `?`. */
  function Params(url: string): seq<(string, string)> {
    var parts := Split(url[IndexOf(url, '?') + 1..], '&');
    seq(|parts|, i requires 0 <= i < |parts| => Param(parts[i]))
  }

  /** Parameters that read back as written: names without `=` or `&`,
      values without `&`. */
  predicate Plain(params: seq<(string, string)>) {
    forall i | 0 <= i < |params| :: '=' !in params[i].0 && '&' !in params[i].0 && '&' !in params[i].1
  }

  /** A parameter whose name holds no `=` splits into its name and
      value. */
  lemma ParamSplit(name: string, value: string)
    requires '=' !in name
    ensures Param(name + "=" + value) == (name, value)
  {
    var p := name + "=" + value;
    assert name + ['='] + value == p;
    IndexOfAfter(name, value, '=');
    assert p[..|name|] == name && p[|name| + 1..] == value;
  }

  /** A query written from plain parameters reads back as those
      parameters. */
  lemma QueryRoundTrip(prefix: string, params: seq<(string, string)>)
    requires '?' !in prefix && |params| >= 1 && Plain(params)
    ensures Params(prefix + "?" + JoinWith(Encode(params), '&')) == params
  {
    var parts := Encode(params);
    var url := prefix + "?" + JoinWith(parts, '&');
    forall i | 0 <= i < |parts| ensures '&' !in parts[i] {
      var n := params[i].0;
      forall j | 0 <= j < |parts[i]| ensures parts[i][j] != '&' {
        if j < |n| {
          assert parts[i][j] == n[j];
        } else if j > |n| {
          assert parts[i][j] == params[i].1[j - |n| - 1];
        }
      }
    }
    SplitJoin(parts, '&');
    assert prefix + ['?'] + JoinWith(parts, '&') == url;
    IndexOfAfter(prefix, JoinWith(parts, '&'), '?');
    assert url[|prefix| + 1..] == JoinWith(parts, '&');
    forall i | 0 <= i < |params| ensures Param(parts[i]) == params[i] {
      ParamSplit(params[i].0, params[i].1);
    }
  }

  /** The query of the endpoint reads back as its five parameters, the last
      one the `repr`, provided the `repr` holds no `&`. */
  lemma EndpointParams(repr: string)
    requires '&' !in repr
    ensures Params(Endpoint(repr))
            == [("z", "{z}"), ("x", "{x}"), ("y", "{y}"), ("encoding", "png"), ("repr", repr)]
  {
    QueryRoundTrip("tile", EndpointParameters(repr));
    assert "tile" + "?" == "tile?";
  }

  // ---- the layer ----

  /** A rectangle of the map as its two opposite corners. */
  type Box = (Point, Point)

  /** The parameters `make_layer` gives the tile layer. */
  datatype Layer = Layer(
    url: string, minZoom: int, maxNativeZoom: int, maxZoom: int, tileSize: nat, bounds: Option<Box>)

  /** The image as a map rectangle: from the origin to (`sizeY`, `sizeX`). */
  function ImageBox(m: Metadata): Box {
    ((0.0, 0.0), (m.sizeY as real, m.sizeX as real))
  }

  /** `make_layer`; `bounds` is the `bounds` keyword argument, if given. */
  function MakeLayer(m: Metadata, url: string, bounds: Option<Box>): (r: Layer)
    ensures r.url == url && r.tileSize == m.tileWidth
    ensures r.minZoom == 0 && r.maxZoom == 20
    ensures r.maxNativeZoom == m.levels - 1
    ensures bounds.Some? ==> r.bounds == bounds
    ensures bounds.None? ==> (r.bounds.None? <==> Geospatial(m))
  {
    Layer(url, 0, m.levels - 1, 20, m.tileWidth,
          if bounds.None? && !Geospatial(m) then Some(ImageBox(m)) else bounds)
  }

  /** Every pixel of an image without a projection lands inside the
      bounds its layer is given by default. */
  lemma PixelsInsideLayer(m: Metadata, url: string, x: real, y: real)
    requires !Geospatial(m)
    requires 0.0 <= x <= m.sizeX as real && 0.0 <= y <= m.sizeY as real
    ensures var b, p := MakeLayer(m, url, None).bounds.value, ToMap(m.sizeY, [x, y]);
            b.0.0 <= p.0 <= b.1.0 && b.0.1 <= p.1 <= b.1.1
  {
  }

  // ---- the map ----

  function Scale(e: int): real {
    if e >= 0 then Arith.Pow2(e) as real else 1.0 / Arith.Pow2(-e) as real
  }

  lemma ScaleStep(e: int)
    ensures Scale(e) == 2.0 * Scale(e - 1)
  {
    if e <= 0 {
      var p := Arith.Pow2(-e) as real;
      assert Arith.Pow2(1 - e) as real == 2.0 * p;
      assert Scale(e - 1) == 1.0 / (2.0 * p);
      assert 2.0 * (1.0 / (2.0 * p)) == 1.0 / p;
    }
  }

  /** The map's projection: Web Mercator for a projected image, otherwise
      a pixel space of 20 zoom levels whose resolution halves with each
      level, bounded by the image, with its origin at the image's first
      pixel. */
  datatype Crs =
    | WebMercator
    | PixelSpace(resolutions: seq<real>, bounds: Box, origin: Point)

  /** `[2 ** (levels - 1 - l) for l in range(20)]`. */
  function Resolutions(levels: nat): (r: seq<real>)
    ensures |r| == 20
    ensures forall l | 0 <= l < 20 :: r[l] == Scale(levels - 1 - l)
  {
    seq(20, l requires 0 <= l < 20 => Scale(levels - 1 - l))
  }

  /** Each zoom level of the pixel space shows twice the detail of the one
      before. */
  lemma ResolutionsHalve(levels: nat, l: nat)
    requires l + 1 < 20
    ensures Resolutions(levels)[l] == 2.0 * Resolutions(levels)[l + 1]
  {
    ScaleStep(levels - 1 - l);
  }

  /** At the layer's deepest native zoom, one map unit is one pixel. */
  lemma NativeZoomIsPixelScale(m: Metadata, url: string, bounds: Option<Box>)
    requires 1 <= m.levels <= 20
    ensures Resolutions(m.levels)[MakeLayer(m, url, bounds).maxNativeZoom] == 1.0
  {
  }

  /** What the map shows below the layer. */
  datatype Basemap = OpenStreetMap | TheLayer

  /** The parameters `make_map` gives the map.  `center` is absent when it
      would be projected from the metadata's bounds. */
  datatype View = View(
    crs: Crs, basemap: Basemap, center: Option<Point>, zoom: int, maxZoom: int, minZoom: int,
    layerAdded: bool)

  /** `make_map`; `center` is the caller's centre, if given. */
  function MakeMap(m: Metadata, center: Option<Point>): (r: View)
    ensures r.crs.WebMercator? <==> Geospatial(m)
    ensures r.basemap == OpenStreetMap <==> Geospatial(m)
    ensures r.layerAdded <==> Geospatial(m)
    ensures r.zoom == if m.sourceLevels.Some? then m.levels - m.sourceLevels.value else 0
    ensures r.minZoom == 0 && r.maxZoom == m.levels + 1
    ensures center.Some? ==> r.center == center
    ensures r.center.None? <==> center.None? && m.hasBounds && m.projection.Some?
  {
    var zoom := if m.sourceLevels.Some? then m.levels - m.sourceLevels.value else 0;
    var crs := if Geospatial(m) then WebMercator
               else PixelSpace(Resolutions(m.levels), ImageBox(m), (0.0, m.sizeY as real));
    var c := if center.Some? then center
             else if m.hasBounds && m.projection.Some? then None
             else Some((m.sizeY as real / 2.0, m.sizeX as real / 2.0));
    View(crs, if Geospatial(m) then OpenStreetMap else TheLayer, c, zoom, m.levels + 1, 0,
         Geospatial(m))
  }

  /** The default centre is the centre pixel of the image, in map
      coordinates. */
  lemma CentreIsImageCentre(m: Metadata)
    requires !(m.hasBounds && m.projection.Some?)
    ensures MakeMap(m, None).center == Some(ToMap(m.sizeY, [m.sizeX as real / 2.0, m.sizeY as real / 2.0]))
  {
  }

  /** The centre goes to pyproj on the keys alone: a bounded image whose
      `projection` key holds `None` is not geospatial, yet its centre is
      still left to be projected. */
  lemma NullProjectionCentre(m: Metadata)
    requires m.hasBounds && m.projection == Some(None)
    ensures !Geospatial(m) && MakeMap(m, None).center.None?
  {
  }

  /** In the pixel space the map and its default layer share the image's
      bounds, and the first pixel of the image sits at the origin (given
      as x, y where the map's points are y, x). */
  lemma PixelSpaceMatchesLayer(m: Metadata, url: string)
    requires !Geospatial(m)
    ensures var crs := MakeMap(m, None).crs;
            && crs.PixelSpace?
            && Some(crs.bounds) == MakeLayer(m, url, None).bounds
            && ToMap(m.sizeY, [0.0, 0.0]) == (crs.origin.1, crs.origin.0)
  {
  }
}
