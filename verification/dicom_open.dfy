/** What the DICOM source does when it opens a file
    (sources/dicom/large_image_source_dicom/__init__.py:110-154): gather
    the DICOM-looking files beside the given one, and derive the tile grid
    from the decoder's reported size and native tile size. */
module DicomOpen {
  import opened Wrappers
  import opened Arith
  import opened Strings
  import opened TileGrid
  import opened DicomPath

  /** The bounds the native tile size is clamped into. */
  const MinTileSize: nat := 64
  const MaxTileSize: nat := 4096

  datatype OpenError =
    | FileNotFound    // the path is not a regular file
    | ListingFailed   // the folder of the path cannot be listed
    | EmptyImage      // the level formula takes the logarithm of 0

  /** `min(max(t, 64), 4096)`. */
  function ClampTileSize(t: nat): (r: nat)
    ensures MinTileSize <= r <= MaxTileSize
  {
    Min(Max(t, MinTileSize), MaxTileSize)
  }

  /** The clamped size is the allowed size nearest the native one, and an
      allowed native size is kept. */
  lemma ClampIsNearest(t: nat, v: nat)
    requires MinTileSize <= v <= MaxTileSize
    ensures Dist(ClampTileSize(t), t) <= Dist(v, t)
    ensures MinTileSize <= t <= MaxTileSize ==> ClampTileSize(t) == t
  {
  }

  function Dist(a: int, b: int): nat {
    if a <= b then b - a else a - b
  }

  /** What the decoder reports about an opened slide. */
  datatype Decoded = Decoded(width: nat, height: nat, tileWidth: nat, tileHeight: nat)

  /** The grid: clamped tile size and
      `max(1, ceil(log2(max(sizeX / tw, sizeY / th))) + 1)` levels, the
      logarithm failing when the image is empty. */
  function OpenGrid(d: Decoded): (r: Result<Grid, OpenError>)
    ensures r.Err? <==> d.width == 0 && d.height == 0
    ensures r.Ok? ==>
      && ValidGrid(r.value)
      && r.value.sizeX == d.width && r.value.sizeY == d.height
      && MinTileSize <= r.value.tileWidth <= MaxTileSize
      && MinTileSize <= r.value.tileHeight <= MaxTileSize
      && Fits(d.width, d.height, r.value.tileWidth, r.value.tileHeight, r.value.levels)
      && (r.value.levels == 1 ||
          !Fits(d.width, d.height, r.value.tileWidth, r.value.tileHeight, r.value.levels - 1))
  {
    if d.width == 0 && d.height == 0 then
      Err(EmptyImage)
    else
      var tw, th := ClampTileSize(d.tileWidth), ClampTileSize(d.tileHeight);
      Ok(Grid(d.width, d.height, tw, th, LevelCount(d.width, d.height, tw, th)))
  }

  /** The slide of the DICOMweb example: 46336 x 44288 in 256-pixel tiles
      has 9 levels. */
  lemma DicomwebExample()
    ensures OpenGrid(Decoded(46336, 44288, 256, 256)).value.levels == 9
  {
    assert Pow2(1) == 2 && Pow2(2) == 4 && Pow2(3) == 8 && Pow2(4) == 16;
    assert Pow2(5) == 32 && Pow2(6) == 64 && Pow2(7) == 128 && Pow2(8) == 256;
    LevelCountIsLeast(46336, 44288, 256, 256, 9);
  }

  /** The folder the opened file sits in. */
  datatype Folder = Folder(listdir: string -> Option<seq<string>>, isFile: string -> bool)

  /** `[join(root, e) for e in entries if isfile(join(root, e)) and
      accept(e)]`, in listing order; the source's `accept` is
      `_pathMightBeDicom`. */
  function FilesIn(root: string, entries: seq<string>, isFile: string -> bool,
                   accept: string -> bool): (r: seq<string>)
    ensures |r| <= |entries|
    ensures forall i | 0 <= i < |r| :: isFile(r[i])
  {
    if |entries| == 0 then []
    else
      var rest := FilesIn(root, entries[1..], isFile, accept);
      var q := Join(root, entries[0]);
      if isFile(q) && accept(entries[0]) then [q] + rest else rest
  }

  /** The DICOM-looking files of a folder listing. */
  function DicomFilesIn(root: string, entries: seq<string>, isFile: string -> bool): seq<string>
  {
    FilesIn(root, entries, isFile, MightBeDicom)
  }

  /** The listing holds exactly the joined paths of the folder's entries
      that are files and look like DICOM. */
  lemma {:induction false} FilesInMembers(root: string, entries: seq<string>, isFile: string -> bool,
                                          accept: string -> bool, q: string)
    ensures q in FilesIn(root, entries, isFile, accept) <==>
      exists e | e in entries :: q == Join(root, e) && isFile(q) && accept(e)
  {
    if |entries| > 0 {
      FilesInMembers(root, entries[1..], isFile, accept, q);
      assert forall x :: x in entries <==> x == entries[0] || x in entries[1..];
    }
  }

  /** The files the source opens for `path`: every DICOM-looking file in its
      folder when that list includes `path` itself, otherwise `path`
      alone. */
  function SiblingFiles(path: string, fs: Folder): (r: Result<seq<string>, OpenError>)
    ensures r.Err? ==> (r.error == FileNotFound <==> !fs.isFile(path))
    ensures r.Ok? ==> fs.isFile(path) && path in r.value
    ensures r.Ok? ==> r.value == [path] || forall i | 0 <= i < |r.value| :: fs.isFile(r.value[i])
  {
    if !fs.isFile(path) then
      Err(FileNotFound)
    else
      var root := Dirname(path);
      match fs.listdir(root)
      case None => Err(ListingFailed)
      case Some(entries) =>
        var found := DicomFilesIn(root, entries, fs.isFile);
        if path in found then Ok(found) else Ok([path])
  }

  lemma DirnameOfChild(dir: string, name: string)
    requires |dir| > 0 && dir[|dir| - 1] != '/' && '/' !in name
    ensures Dirname(dir + "/" + name) == dir
    ensures Join(dir, name) == dir + "/" + name
  {
    var p := dir + "/" + name;
    assert forall j | |dir| < j < |p| :: p[j] == name[j - |dir| - 1];
    LastIndexOfAt(p, '/', |dir|);
    var head := p[..|dir| + 1];
    assert head == dir + "/";
    assert head[|dir| - 1] != '/';
    var r := RStrip(head, '/');
    assert |r| == |dir|;
    assert !StartsWith(name, "/");
    assert !EndsWith(dir, "/");
  }

  /** Opening a DICOM-looking file in a listable folder opens every
      DICOM-looking file there. */
  lemma SiblingsOfDicomFile(dir: string, name: string, fs: Folder)
    requires |dir| > 0 && dir[|dir| - 1] != '/' && '/' !in name
    requires fs.isFile(dir + "/" + name) && MightBeDicom(name)
    requires fs.listdir(dir).Some? && name in fs.listdir(dir).value
    ensures SiblingFiles(dir + "/" + name, fs) == Ok(DicomFilesIn(dir, fs.listdir(dir).value, fs.isFile))
  {
    DirnameOfChild(dir, name);
    FilesInMembers(dir, fs.listdir(dir).value, fs.isFile, MightBeDicom, dir + "/" + name);
  }
}
