# large_image core, modelled in Dafny

This project models the deterministic core of large_image, a Python
library that serves tiles of very large images:

- **The DICOM whole-slide tile source.** The model covers:
  - the tile grid fixed at open, with the native tile size clamped into
    [64, 4096] and the level count;
  - `getTile`: it picks the stored level from the per-level downsample
    factors, maps the tile's rectangle into that level, reads the region,
    zero-pads it and shrinks it to one tile;
  - negotiation of the DICOMweb transfer syntax against a fixed
    preference order of the JPEG and JPEG 2000 syntaxes of DICOM PS3.5
    Annex A.4;
  - `dicom_to_dict` over the DICOM JSON model of DICOM PS3.18 Annex F.2,
    and the merge of many datasets in `getInternalMetadata`;
  - the file-name classifier `_pathMightBeDicom`, whose UID rule follows
    section 9.1 of DICOM PS3.5;
  - the siblings gathered at open;
  - ownership of the slide handle in `__del__`;
  - the associated-image list.
- **The nd2 tile source:**
  - the level count and the tile coordinates and range checks;
  - the strided tile slice;
  - the mixed-radix split of a frame number into axis indices;
  - the frame list with its running `Index`, `IndexRange`, `IndexStride`
    and channel list;
  - the cleaning of raw metadata dictionaries.
- **The pure helpers of `large_image/tilesource/utilities.py`:**
  - channel-depth reconciliation;
  - letterbox geometry;
  - the vips, rasterio and gdal option builders;
  - `etreeToDict` and `dictToEtree`;
  - `histogramThreshold`;
  - the frame list, texture requests and quads of
    `getTileFramesQuadInfo`.
- **The Jupyter viewer.** The model covers the conversion between pixel
  and map coordinates, the tile server's base URL and tile endpoint, and
  the layer and map parameters.
- **The conversion task's output names** in `create_tiff`.

## How decoders and sizes are modelled

- Decoders, the file system and the network are parameters:
  - a slide is a list of stored levels, each with its integer downsample
    factor and size, and a pixel function;
  - a folder is a `listdir` function and an `isFile` predicate;
  - the DICOM keyword dictionary is a partial function.
- Pixel blocks are a width, a height, a band count and a pixel function.
- Where the source takes a logarithm, the level count is stated by its
  integer characterisation: the least `L >= 1` with
  `size <= tile * 2^(L-1)`.
- Histogram counts and the threshold are exact reals.
- Resampling is a filter given with the slide: a function of the block's
  pixels and the output size.
- Python dicts whose order nothing depends on are Dafny maps. The
  element trees and the nd2 metadata are ordered association lists.

## Model

| member | source | states |
|---|---|---|
| TileGrid.LevelCount | sources/nd2/large_image_source_nd2/__init__.py:92-93 | the level count is at least one, the pyramid of that many levels covers the image, and no smaller count does |
| TileGrid.LevelCountIsLeast | sources/nd2/large_image_source_nd2/__init__.py:92-93 | any least covering count is the level count |
| TileGrid.LevelCountDoubled | sources/nd2/large_image_source_nd2/__init__.py:92-93 | doubling both image sides adds exactly one level |
| TileGrid.TileCorners | sources/nd2/large_image_source_nd2/__init__.py:317-327 | z outside [0, levels) is rejected; an accepted tile has step 2^(levels-1-z), starts at x*step*tile, ends at the clipped next corner, and lies inside the image |
| TileGrid.TileCornersAcceptsGrid | sources/nd2/large_image_source_nd2/__init__.py:317-327 | a tile is accepted exactly when z is a level and x, y are below that level's tile counts |
| TileGrid.AxisAccepts | sources/nd2/large_image_source_nd2/__init__.py:324-327 | the range check `x >= 0 and x0 < size` equals `0 <= x < ceil(size / (tile*step))` |
| Pixels.Fit | sources/dicom/large_image_source_dicom/__init__.py:343-349 | zero-padding at the bottom and right: the block keeps its pixels where it has them, and every other pixel is zero |
| Pixels.Resize | sources/dicom/large_image_source_dicom/__init__.py:350-351 | a resize gives the requested size and keeps the band count |
| Pixels.ResizeRespectsSame | sources/dicom/large_image_source_dicom/__init__.py:350-351 | the filter sees only the pixels inside the block, so blocks that agree there resize to the same block |
| DicomOpen.ClampTileSize | sources/dicom/large_image_source_dicom/__init__.py:150-151 | the clamped tile size lies in [64, 4096] |
| DicomOpen.ClampIsNearest | sources/dicom/large_image_source_dicom/__init__.py:150-151 | the clamped size is the allowed size nearest the native one, and an allowed size is kept |
| DicomOpen.OpenGrid | sources/dicom/large_image_source_dicom/__init__.py:146-153 | fails exactly when both sides are 0; otherwise the grid has the image's size, tile sizes in [64, 4096] and the least covering level count |
| DicomOpen.DicomwebExample | sources/dicom/large_image_source_dicom/__init__.py:146-153 | a 46336 x 44288 slide in 256-pixel tiles has nine levels |
| DicomOpen.FilesIn | sources/dicom/large_image_source_dicom/__init__.py:131-134 | the gathered siblings are files, at most one per directory entry |
| DicomOpen.FilesInMembers | sources/dicom/large_image_source_dicom/__init__.py:131-134 | a path is gathered exactly when it is the directory joined with an entry that is a file and passes the filter |
| DicomOpen.SiblingFiles | sources/dicom/large_image_source_dicom/__init__.py:125-138 | a missing file fails; otherwise the list holds the path and is either the path alone or files only |
| DicomOpen.SiblingsOfDicomFile | sources/dicom/large_image_source_dicom/__init__.py:130-136 | a DICOM-named file listed in its directory opens with all DICOM-named siblings of that directory |
| DicomNegotiate.FirstOffered | sources/dicom/large_image_source_dicom/__init__.py:219-221 | the index found is the first preferred syntax that is offered; none before it is offered |
| DicomNegotiate.Choose | sources/dicom/large_image_source_dicom/__init__.py:217-235 | without the attribute the result is JPEG 2000 with a warning; with it the result is the first preferred syntax offered, or an error naming the offered list |
| DicomNegotiate.Negotiate | sources/dicom/large_image_source_dicom/__init__.py:213-235 | a search not returning exactly one instance fails; otherwise the choice is made on that instance |
| DicomNegotiate.ChoiceMonotonic | sources/dicom/large_image_source_dicom/__init__.py:203-221 | offering more syntaxes never yields a less preferred choice |
| DicomNegotiate.RankOfPreferred | sources/dicom/large_image_source_dicom/__init__.py:203-208 | the rank of each preferred syntax is its position in the preference list |
| DicomPath.Extension | sources/dicom/large_image_source_dicom/__init__.py:256 | the extension is a dot-free, slash-free ending of the name |
| DicomPath.BeforeFinalNewline | sources/dicom/large_image_source_dicom/__init__.py:258-260 | `$` matches before one final newline: the text loses exactly that newline, if any |
| DicomPath.ClassifiesBasename | sources/dicom/large_image_source_dicom/__init__.py:255 | only the last path component decides |
| DicomPath.UidNameClassified | sources/dicom/large_image_source_dicom/__init__.py:258-259 | a dotted decimal UID of two or more components is accepted exactly when it is at most 64 characters long |
| DicomPath.UidIsDottedNumbers | sources/dicom/large_image_source_dicom/__init__.py:258 | every name the UID pattern accepts is two or more decimal numerals without leading zeros joined by dots |
| DicomPath.MightBeDicom | sources/dicom/large_image_source_dicom/__init__.py:247-262 | a name is accepted only when its final path component is not empty |
| DicomPath.SlashEndedRejected | sources/dicom/large_image_source_dicom/__init__.py:255 | a path ending in a separator is rejected |
| DicomPath.DcmNameClassified | sources/dicom/large_image_source_dicom/__init__.py:260-261 | `DCM_` followed by a numeral is accepted |
| DicomPath.DcmDecimalClassified | sources/dicom/large_image_source_dicom/__init__.py:260-261 | `DCM_` followed by decimal digits of any script is accepted, as `\d` matches every Unicode decimal digit |
| DicomPath.ExtensionClassified | sources/dicom/large_image_source_dicom/__init__.py:92-97 | a name with a stem and the extension dcm, dic or dicom is accepted |
| DicomPath.TrailingNewlineAccepted | sources/dicom/large_image_source_dicom/__init__.py:258-259 | a UID followed by a newline is accepted too |
| DicomMetadata.EntryValue | sources/dicom/large_image_source_dicom/__init__.py:68-80 | an entry is kept exactly when it is a string or has a reported VR other than OB and a non-empty value; strings pass through, nested datasets become a list, and a single value is unwrapped |
| DicomMetadata.FlattenKeys | sources/dicom/large_image_source_dicom/__init__.py:61-82 | the keys are exactly the keyword-or-tag keys of the kept entries |
| DicomMetadata.FlattenLastWins | sources/dicom/large_image_source_dicom/__init__.py:81 | under a key is the value of the last kept entry with that key |
| DicomMetadata.QualifyUnique | sources/dicom/large_image_source_dicom/__init__.py:313 | `key:idx` names its colon-free key and its index uniquely |
| DicomMetadata.AbsorbAdds | sources/dicom/large_image_source_dicom/__init__.py:311-313 | a key absent from, or different in, the merge so far is added as `key:idx` with its value; an equal one adds nothing |
| DicomMetadata.MergeKeys | sources/dicom/large_image_source_dicom/__init__.py:302-315 | every merged key is a key of the first dataset or some later dataset's `key:idx` |
| DicomMetadata.MergeFirst | sources/dicom/large_image_source_dicom/__init__.py:308-309 | the first dataset's colon-free keys keep their values, and no other colon-free key appears |
| DicomMetadata.MergeQualified | sources/dicom/large_image_source_dicom/__init__.py:310-313 | `key:idx` appears exactly when the key is missing from the first dataset or differs there, and holds dataset idx's value |
| DicomMetadata.AllDatasets | sources/dicom/large_image_source_dicom/__init__.py:304-305 | the datasets of all levels, empty exactly when every level is |
| DicomMetadata.InternalMetadata | sources/dicom/large_image_source_dicom/__init__.py:302-315 | the result has a `dicom` entry exactly when some level has a dataset |
| DicomMetadata.InternalMetadataMerges | sources/dicom/large_image_source_dicom/__init__.py:302-315 | the report is the merge, with datasets numbered across levels |
| DicomMetadata.AssociatedImages | sources/dicom/large_image_source_dicom/__init__.py:355-377 | the list holds `label` and `macro`, in that order, each exactly when it can be read |
| DicomHandle.Del | sources/dicom/large_image_source_dicom/__init__.py:237-245 | discarding closes the handle exactly when it is open and the source is not derived, and then forgets it; otherwise nothing changes |
| DicomHandle.DelTwiceClosesOnce | sources/dicom/large_image_source_dicom/__init__.py:237-245 | a second discard closes nothing |
| DicomTile.SelectLevel | sources/dicom/large_image_source_dicom/__init__.py:324-333 | the chosen level is the one the scan stops at, with its factor |
| DicomTile.SelectedUnique | sources/dicom/large_image_source_dicom/__init__.py:324-333 | the scan's stopping level is unique: the last of the leading levels whose factor is at most the step, level 0 when there is none |
| DicomTile.SelectMonotonic | sources/dicom/large_image_source_dicom/__init__.py:327-333 | a larger step never picks a finer level |
| DicomTile.AxisPlan | sources/dicom/large_image_source_dicom/__init__.py:334-339 | with factor f <= step the floored start brackets the corner, and the footprint `tile*step//f` is at least one tile |
| DicomTile.PlanRead | sources/dicom/large_image_source_dicom/__init__.py:322-339 | fails exactly when the chosen level's factor is 0; otherwise the read is at the chosen level, starts at the floored corner, ends at the clipped ceiling, and has the floored footprint |
| DicomTile.ReadWithinExact | sources/dicom/large_image_source_dicom/__init__.py:334-339 | the read those bounds admit is unique: its start is the floor of the corner and its extent runs to the clipped ceiling |
| DicomTile.ReadRegion | sources/dicom/large_image_source_dicom/__init__.py:340-341 | the decoder returns a block of the requested size holding the level's pixels, and fails on an empty request |
| DicomTile.Plan | sources/dicom/large_image_source_dicom/__init__.py:319-341 | out-of-range requests fail with the range check's cause |
| DicomTile.PadAndShrinkAsWritten | sources/dicom/large_image_source_dicom/__init__.py:343-351 | as written: a block short in one axis and long in the other fails with a negative pad; otherwise it is padded and shrunk to a tile only when the footprint is larger than a tile |
| DicomTile.GetTileAsWritten | sources/dicom/large_image_source_dicom/__init__.py:317-353 | as written: fails on a range error exactly when the range check does |
| DicomTile.Footprint | sources/dicom/large_image_source_dicom/__init__.py:334-349 | the footprint block has the read's pixels where the read has them and zeros elsewhere |
| DicomTile.GetTile | sources/dicom/large_image_source_dicom/__init__.py:317-353 | corrected: every tile returned is exactly one tile in size with the slide's bands, and it fails only where the footprint does |
| DicomTile.GetTileSucceeds | sources/dicom/large_image_source_dicom/__init__.py:317-353 | on a pyramid whose levels cover the image, every in-range tile is returned |
| DicomTile.FullResolutionTile | sources/dicom/large_image_source_dicom/__init__.py:317-353 | at the finest level each tile shows the base image's pixels, zero past its edge |
| DicomTile.ThousandPixelExample | sources/dicom/large_image_source_dicom/__init__.py:317-353 | a 1000-pixel square slide has three levels, and its corner tile at full resolution shows the base image |
| DicomTile.AsWrittenAgreesOnDyadic | sources/dicom/large_image_source_dicom/__init__.py:317-353 | when every factor is a power of two, the source as written and the corrected tile agree |
| Nd2Tile.Nd2Grid | sources/nd2/large_image_source_nd2/__init__.py:89-93 | fails exactly when both sides are 0; otherwise 256-pixel tiles and the least level count whose top tile covers the larger side |
| Nd2Tile.GetTile | sources/nd2/large_image_source_nd2/__init__.py:316-340 | range errors are those of the corner check, a bad frame fails, and a tile is the strided slice of its frame |
| Nd2Tile.SliceSize | sources/nd2/large_image_source_nd2/__init__.py:338 | the strided slice of an accepted tile is between 1 and 256 pixels per side |
| Nd2Tile.Slice | sources/nd2/large_image_source_nd2/__init__.py:338 | the slice has `ceil(extent/step)` pixels per side, each pixel the frame's pixel at corner + index*step |
| Nd2Tile.FullResolutionCovers | sources/nd2/large_image_source_nd2/__init__.py:316-338 | every pixel of every frame appears in exactly the finest-level tile containing it, at its offset |
| Nd2Tile.FrameChecked | sources/nd2/large_image_source_nd2/__init__.py:328-331 | an in-range tile is returned exactly when the frame is in [0, frame count), and a missing frame means frame 0 |
| MixedRadix.ComposeDigits | sources/nd2/large_image_source_nd2/__init__.py:264-274 | the axis indices `(idx // basis) % size` recompose to the frame number |
| MixedRadix.DigitsCompose | sources/nd2/large_image_source_nd2/__init__.py:264-274 | in-range axis indices are those of exactly one frame number |
| MixedRadix.ComposeBelow | sources/nd2/large_image_source_nd2/__init__.py:264-274 | composed in-range indices stay below the product of the sizes |
| MixedRadix.BasisAll | sources/nd2/large_image_source_nd2/__init__.py:274 | the basis after the last axis is the product of all sizes |
| MixedRadix.FirstStep | sources/nd2/large_image_source_nd2/__init__.py:269-274 | an axis index is 0 below its basis, and reaches 1 first at its basis |
| MixedRadix.LastStep | sources/nd2/large_image_source_nd2/__init__.py:269-273 | an axis reaches its last index |
| Nd2Frames.Radices | sources/nd2/large_image_source_nd2/__init__.py:268-274 | the sizes of the iterated axes, in iteration order, all positive |
| Nd2Frames.AxisKeyInjective | sources/nd2/large_image_source_nd2/__init__.py:270-271 | the frame keys (`IndexC`, `IndexT`, `IndexZ`, `IndexXY` for v) name distinct axes |
| Nd2Frames.IndicesAt | sources/nd2/large_image_source_nd2/__init__.py:265-271 | a frame's index for each axis is that axis's mixed-radix digit |
| Nd2Frames.IndicesKeys | sources/nd2/large_image_source_nd2/__init__.py:265-271 | the index keys are `IndexZ`, `IndexXY` and those of the iterated axes |
| Nd2Frames.IndicesDefaults | sources/nd2/large_image_source_nd2/__init__.py:265 | `IndexZ` and `IndexXY` are 0 when their axis is not iterated |
| Nd2Frames.Position | sources/nd2/large_image_source_nd2/__init__.py:280-285 | the running `Index` never exceeds the frame number |
| Nd2Frames.PositionSteady | sources/nd2/large_image_source_nd2/__init__.py:280-285 | the running `Index` never decreases, and two frames share it exactly when IndexV, IndexXY and IndexZ stay put between them |
| Nd2Frames.ChannelOf | sources/nd2/large_image_source_nd2/__init__.py:275-277 | a frame has a channel name exactly when names are known, c is iterated and the index is below their count, and the name is one of them |
| Nd2Frames.ChannelOfIndexC | sources/nd2/large_image_source_nd2/__init__.py:275-277 | the channel name is the one at the frame's `IndexC` |
| Nd2Frames.FrameTotal | sources/nd2/large_image_source_nd2/__init__.py:296-297 | the number of frames generated never exceeds the reader's length |
| Nd2Frames.Frames | sources/nd2/large_image_source_nd2/__init__.py:264-297 | the list holds one record per frame number, in order |
| Nd2Frames.BuildFrames | sources/nd2/large_image_source_nd2/__init__.py:264-297 | the loop builds exactly that list |
| Nd2Frames.MaxIndex | sources/nd2/large_image_source_nd2/__init__.py:272-273 | `maxref` is one above every index seen and at most the axis size |
| Nd2Frames.MaxIndexAttained | sources/nd2/large_image_source_nd2/__init__.py:272-273 | some frame attains `maxref - 1` |
| Nd2Frames.MaxIndexValue | sources/nd2/large_image_source_nd2/__init__.py:272-273 | `maxref` exceeds 1 exactly when the axis is longer than 1 and the frames reach its basis, and is the full size once a full cycle is seen |
| Nd2Frames.KeyAxisOfAxisKey | sources/nd2/large_image_source_nd2/__init__.py:306 | the key names its axis back |
| Nd2Frames.IndexRange | sources/nd2/large_image_source_nd2/__init__.py:304-308 | `IndexRange` is absent exactly when no axis ranges over more than one index, and otherwise holds exactly the ranged axes' keys |
| Nd2Frames.IndexRangeOf | sources/nd2/large_image_source_nd2/__init__.py:304-308 | a ranged axis's entry is its `maxref` |
| Nd2Frames.IndexRangeAbsent | sources/nd2/large_image_source_nd2/__init__.py:304-308 | `IndexRange` is absent exactly when every axis has size 1 or its basis is past the frames |
| Nd2Frames.FirstOne | sources/nd2/large_image_source_nd2/__init__.py:310 | the first frame whose index under the key is 1, none before it |
| Nd2Frames.StrideOver | sources/nd2/large_image_source_nd2/__init__.py:309-312 | succeeds exactly when every ranged key reaches 1, with the first such frame per key |
| Nd2Frames.IndexStrideAsWritten | sources/nd2/large_image_source_nd2/__init__.py:309-312 | as written: fails when `IndexRange` is absent |
| Nd2Frames.IndexStride | sources/nd2/large_image_source_nd2/__init__.py:309-312 | corrected: empty when `IndexRange` is absent, otherwise as written |
| Nd2Frames.StrideIsBasis | sources/nd2/large_image_source_nd2/__init__.py:309-312 | the stride of a ranged axis is its mixed-radix basis |
| Nd2Frames.IndexStrideOfLayout | sources/nd2/large_image_source_nd2/__init__.py:304-312 | for the generated frames the stride map always exists, has the keys of `IndexRange`, and gives every ranged axis its basis |
| Nd2Frames.Channels | sources/nd2/large_image_source_nd2/__init__.py:298-303 | a channel list is reported exactly when there are distinct names for every channel, and it is the names cut to the channel count |
| Nd2Frames.ChannelMapInverse | sources/nd2/large_image_source_nd2/__init__.py:302-303 | `channelmap` inverts the channel list |
| Nd2Clean.Decode | sources/nd2/large_image_source_nd2/__init__.py:153-159 | bytes become text, and anything else is unchanged |
| Nd2Clean.CleanValue | sources/nd2/large_image_source_nd2/__init__.py:152-176 | blank values are dropped; a kept value is neither bytes nor an iterable, and kept lists and dicts are non-empty |
| Nd2Clean.CleanPrefix | sources/nd2/large_image_source_nd2/__init__.py:150-176 | the cleaned entries have distinct keys |
| Nd2Clean.CleanDictKeys | sources/nd2/large_image_source_nd2/__init__.py:149-177 | the keys are the decoded keys of the kept entries, distinct and never bytes, each holding the cleaned value of the last entry with that key |
| Nd2Clean.CleanPrefixLastWins | sources/nd2/large_image_source_nd2/__init__.py:176 | a later entry with the same decoded key replaces an earlier one |
| Nd2Clean.CleanValueOfClean | sources/nd2/large_image_source_nd2/__init__.py:152-176 | cleaning leaves a value of clean shape unchanged |
| Nd2Clean.CleanDictOfClean | sources/nd2/large_image_source_nd2/__init__.py:149-177 | cleaning leaves a clean dictionary unchanged |
| Nd2Clean.UnwrappedValueNotRechecked | sources/nd2/large_image_source_nd2/__init__.py:155-163 | the value unwrapped from a `''` wrapper is not checked for blankness or unwrapped again, so cleaning twice can differ from cleaning once |
| ChannelDepth.ToThree | large_image/tilesource/utilities.py:712-714 | a 2-D array becomes one channel with the same pixels |
| ChannelDepth.ToColour | large_image/tilesource/utilities.py:716-725 | against a colour array, one channel becomes three and two become four, keeping rows and columns |
| ChannelDepth.PadTo | large_image/tilesource/utilities.py:728-733 | a shallower array is padded up to the other's depth, keeping rows and columns; a deeper one keeps its depth |
| ChannelDepth.MakeSameDepth | large_image/tilesource/utilities.py:694-734 | both results keep their rows and columns and end with equal depths, at least 3 exactly when either input had at least 3, with each value given by the reference definition |
| ChannelDepth.MakeSameDepthSymmetric | large_image/tilesource/utilities.py:694-734 | swapping the arguments swaps the results |
| ChannelDepth.MakeSameDepthIdempotent | large_image/tilesource/utilities.py:694-734 | reconciling reconciled arrays changes nothing |
| ChannelDepth.EqualDepthsUnchanged | large_image/tilesource/utilities.py:728-734 | arrays of equal depth come back unchanged |
| Letterbox.Letterbox | large_image/tilesource/utilities.py:254-266 | unchanged exactly when the image already covers the target or the fill is falsy or `none`; otherwise the canvas is the larger of each side, with the image centred, or in the corner for a `corner:` fill |
| Letterbox.CentredMargins | large_image/tilesource/utilities.py:264-266 | the centred margins differ by at most one pixel on each axis |
| Letterbox.LetterboxOnce | large_image/tilesource/utilities.py:254-256 | letterboxing the letterboxed image changes nothing |
| Letterbox.CanvasIsLeastCover | large_image/tilesource/utilities.py:261-263 | the canvas is the smallest one holding both the image and the target |
| ConvertOptions.Given | large_image/tilesource/utilities.py:445 | a keyword counts exactly when present and not None or `''` |
| ConvertOptions.Aliased | large_image/tilesource/utilities.py:436-446 | the value of a pair of aliases: absent only when both are, and the one given when only one is |
| ConvertOptions.DefaultCompression | large_image/tilesource/utilities.py:426 | a non-empty default compression is used, and the result is never empty |
| ConvertOptions.ShrinkMode | large_image/tilesource/utilities.py:432-435 | an explicit shrink mode wins; otherwise `nearest` exactly for the lossless none and lzw compressions |
| ConvertOptions.TiledStart | large_image/tilesource/utilities.py:420-435 | the starting parameters: tiled, pyramid, bigtiff, 256 x 256, Q 90, predictor horizontal, and the shrink mode |
| ConvertOptions.Overrides | large_image/tilesource/utilities.py:436-446 | given keywords override tile size, compression, Q, level and predictor, and nothing else changes |
| ConvertOptions.Rewrites | large_image/tilesource/utilities.py:447-455 | jp2k becomes none; webp with quality 0 is lossless without Q; predictor yes becomes horizontal; jpeg adds rgbjpeg |
| ConvertOptions.VipsTiled | large_image/tilesource/utilities.py:420-456 | the tiled parameters, entry by entry, in terms of the keywords |
| ConvertOptions.VipsUntiled | large_image/tilesource/utilities.py:410-419 | the untiled parameters: lzw for any mime other than image/jpeg, else the default compression |
| ConvertOptions.AliasOrderIrrelevant | large_image/tilesource/utilities.py:436-446 | with at most one alias of each pair given, the order of the alias sets does not matter |
| ConvertOptions.AliasOrderMatters | large_image/tilesource/utilities.py:439-446 | with both compression aliases given, the order of the set decides the compression |
| ConvertOptions.RasterioOptions | large_image/tilesource/utilities.py:332-348 | fails exactly on a predictor with no rasterio name; otherwise it holds the defaults overridden by the given keywords, tiled, bigtiff IF_SAFER and the translated predictor |
| ConvertOptions.CommandOf | large_image/tilesource/utilities.py:376-386 | the command is `-of COG` then the BIGTIFF, BLOCKSIZE, COMPRESS (its ASCII letters upper-cased) and QUALITY options, then PREDICTOR and LEVEL when present; a non-integer block size or non-string compression fails |
| ConvertOptions.GdalCommand | large_image/tilesource/utilities.py:371-386 | the gdal command is built from the rasterio options, failing as they do |
| ConvertOptions.GdalIgnoresGenericKeywords | large_image/tilesource/utilities.py:376-386 | the `tileSize` and `compression` keywords have no effect on the gdal command |
| Etree.Local | large_image/tilesource/utilities.py:469 | a `{ns}` prefix is removed from a name |
| Etree.Group | large_image/tilesource/utilities.py:473-476 | children's values are grouped by tag in first-seen order, each tag's values in document order |
| Etree.ToDict | large_image/tilesource/utilities.py:459-488 | the key is the local tag; the value is a string exactly for a text-only leaf, and never a list |
| Etree.ToDictKeys | large_image/tilesource/utilities.py:472-485 | the keys are the child tags, the attribute names, and `text` when there is text |
| Etree.ToDictText | large_image/tilesource/utilities.py:483-485 | text beside children or attributes is kept, stripped, under `text` |
| Etree.BlankTextDropped | large_image/tilesource/utilities.py:483 | text of Python whitespace only, Unicode spaces included, strips to nothing and is not kept |
| Etree.ToDictAttribute | large_image/tilesource/utilities.py:480-482 | an attribute's value is that of the last attribute with its local name |
| Etree.ToDictChild | large_image/tilesource/utilities.py:477-478 | a tag seen once maps to the child's value, and a repeated tag to the list of values |
| Etree.ToElement | large_image/tilesource/utilities.py:504-509 | a value converts exactly when all its nested entries do, into an element with the given tag |
| Etree.Add | large_image/tilesource/utilities.py:511-523 | the element keeps its tag and the call fails exactly when the value cannot be converted; a string under `text` sets the text and under any other key sets an attribute |
| Etree.FromDict | large_image/tilesource/utilities.py:504-510 | a one-key dict gives its key as the root; any other dict is wrapped in `root` |
| Etree.ToDictRegular | large_image/tilesource/utilities.py:459-488 | for a regular element the dict holds child entries, then attributes, then text |
| Etree.RoundTrip | large_image/tilesource/utilities.py:459-524 | `dictToEtree(etreeToDict(e))` gives back every regular element; regular trees carry no tail text (see Left out) |
| Histogram.Scan | large_image/tilesource/utilities.py:991-1000 | the scan finds the first bin whose running total passes the limit, or none when no total does |
| Histogram.Threshold | large_image/tilesource/utilities.py:985-1000 | the result is the edge of the first bin whose running total passes the threshold's share of the samples, or the last edge when no running total does |
| Histogram.ThresholdOfMeaning | large_image/tilesource/utilities.py:985-1000 | the functional threshold means the same |
| Histogram.ExcludedWithinThreshold | large_image/tilesource/utilities.py:993-998 | the bins cut off below the edge hold at most the threshold's share |
| Histogram.FirstOverUnique | large_image/tilesource/utilities.py:993-999 | there is only one first bin |
| Histogram.FirstOverMonotone | large_image/tilesource/utilities.py:993-999 | a larger threshold never stops the scan earlier |
| Histogram.FromMaxMirrors | large_image/tilesource/utilities.py:988-996 | the threshold from the top is that of the mirrored histogram with the maximum in the minimum's place |
| FrameQuads.RangeSeq | large_image/tilesource/utilities.py:903-905 | `range(start, stop, step)`: each element start + i*step below stop, and no more |
| FrameQuads.FrameList | large_image/tilesource/utilities.py:902-905 | a zero stride with a positive group stride fails; a zero group stride gives no frames; otherwise the list holds each frame below the count that is on the stride from the base, each once |
| FrameQuads.GroupsMembers | large_image/tilesource/utilities.py:902-905 | groups g and later hold exactly the on-stride frames whose group is at least g |
| FrameQuads.GroupsDistinct | large_image/tilesource/utilities.py:902-905 | no frame appears twice |
| FrameQuads.IndexOf | large_image/tilesource/utilities.py:927 | `framesToIdx` has the listed frames as keys, each mapped to a position holding it |
| FrameQuads.IndexOfInverse | large_image/tilesource/utilities.py:927 | for distinct frames, `framesToIdx` inverts the list |
| FrameQuads.TextureLists | large_image/tilesource/utilities.py:928-929 | texture i takes the frames from i*perTexture to (i+1)*perTexture |
| FrameQuads.TexturesCoverFrames | large_image/tilesource/utilities.py:928-929 | the textures together hold the first count*perTexture frames in order |
| FrameQuads.QuadAt | large_image/tilesource/utilities.py:945-958 | each quad's crop is the used width and height, and spans the image |
| FrameQuads.QuadInTexture | large_image/tilesource/utilities.py:951-958 | each crop lies within the texture |
| FrameQuads.QuadCellsDistinct | large_image/tilesource/utilities.py:951-958 | two frames of one texture never share a cell |
| FrameQuads.RequestAsWritten | large_image/tilesource/utilities.py:930-938 | as written: the frame list is sent exactly when its length differs from the image's frame count |
| FrameQuads.ReorderedListDropped | large_image/tilesource/utilities.py:937-938 | a reordered list of all frames is dropped, so the texture shows frames in another order than `framesToIdx` assumes |
| FrameQuads.RequestFor | large_image/tilesource/utilities.py:930-938 | corrected: the texture always draws exactly the listed frames |
| FrameQuads.ConcatPlaces | large_image/tilesource/utilities.py:928-929 | the p-th frame of texture t is at position `Pos(lists, t, p)` of the joined texture lists |
| FrameQuads.LayOut | large_image/tilesource/utilities.py:942-961 | one quad per frame of each texture, appended texture by texture: the quad at `Pos(lists, t, p)` is `QuadAt` of cell p in a texture of `len(lists[t])` frames, and its `quadsToIdx` entry is t |
| FrameQuads.LayOutShowsFrames | large_image/tilesource/utilities.py:928-961 | when the texture lists join up to the frames, the quad at `Pos(lists, t, p)` is for the frame at that position of the list, the p-th frame of texture t |
| FrameQuads.Assemble | large_image/tilesource/utilities.py:914-961 | corrected (see Findings): the status holds the frames, their inverse, one request per texture drawing its slice, and one quad per frame held; quad `Pos(lists, t, p)` belongs to texture t, is cell p of it and shows frame `frames[Pos(lists, t, p)]`, the p-th of that texture |
| FrameQuads.AssembledCellsDistinct | large_image/tilesource/utilities.py:942-961 | two frames one texture draws get quads owned by that texture in different cells |
| FrameQuads.QuadInfo | large_image/tilesource/utilities.py:899-961 | corrected (see Findings): a zero stride with groups fails in `range`; an empty frame list (no groups, or a base at or past the frame count) fails by division by zero; otherwise the frame list is non-empty, distinct, every on-stride frame from the base, and the status is assembled from it |
| Jupyter.FromMapToMap | large_image/tilesource/jupyter.py:300-324 | `from_map(to_map(c))` is c |
| Jupyter.ToMapFromMap | large_image/tilesource/jupyter.py:300-324 | `to_map(from_map(p))` is p |
| Jupyter.BaseUrlPort | large_image/tilesource/jupyter.py:401-407 | every base URL ends in the server's port |
| Jupyter.ProxyJoinedOnce | large_image/tilesource/jupyter.py:402-403 | a proxy string loses its trailing slashes and gets exactly one before the port |
| Jupyter.ProxyOverridesHost | large_image/tilesource/jupyter.py:401-405 | with a truthy proxy the host is not used |
| Jupyter.QueryRoundTrip | large_image/tilesource/jupyter.py:410 | a query built from plain name/value pairs parses back to those pairs |
| Jupyter.EndpointParams | large_image/tilesource/jupyter.py:410 | the endpoint carries the z, x and y placeholders, `encoding=png` and the repr, in that order |
| Jupyter.MakeLayer | large_image/tilesource/jupyter.py:187-198 | zoom 0 to 20, native zoom levels - 1, tile size from the metadata; explicit bounds are kept, and otherwise a non-geospatial image gets default bounds and a geospatial one none |
| Jupyter.PixelsInsideLayer | large_image/tilesource/jupyter.py:187-198 | every image pixel maps inside the layer's default bounds |
| Jupyter.ResolutionsHalve | large_image/tilesource/jupyter.py:227 | each zoom level halves the previous resolution |
| Jupyter.NativeZoomIsPixelScale | large_image/tilesource/jupyter.py:195 | the native zoom has resolution 1: one map unit per pixel |
| Jupyter.MakeMap | large_image/tilesource/jupyter.py:205-273 | the map's CRS, basemap and added layer depend on being geospatial; zoom is levels - sourceLevels or 0; the zoom limits; the centre is only left to pyproj when the metadata has both a `bounds` and a `projection` key |
| Jupyter.NullProjectionCentre | large_image/tilesource/jupyter.py:217-246 | a bounded image whose `projection` key holds None is not geospatial, yet its centre is still left to pyproj |
| Jupyter.CentreIsImageCentre | large_image/tilesource/jupyter.py:256-257 | the default centre is the image centre in map coordinates |
| Jupyter.PixelSpaceMatchesLayer | large_image/tilesource/jupyter.py:223-233 | the pixel-space CRS has the layer's bounds and its origin at the image's top |
| CreateTiff.Suffix | utilities/tasks/large_image_tasks/tasks.py:52-53 | the hook's suffix wins; otherwise `.tiff`, or `.geo.tiff` exactly for a geospatial input |
| CreateTiff.RenamedDropsGeoStem | utilities/tasks/large_image_tasks/tasks.py:55-57 | the `.geo` is dropped exactly when the stem ends in it |
| CreateTiff.DefaultNameFresh | utilities/tasks/large_image_tasks/tasks.py:54-60 | the default name ends with the suffix and is never the input's name |
| CreateTiff.Output | utilities/tasks/large_image_tasks/tasks.py:49-74 | the written file always ends with the suffix |
| CreateTiff.DefaultNotRenamed | utilities/tasks/large_image_tasks/tasks.py:54-74 | without an output name the default name is written in the output directory and nothing is renamed |
| CreateTiff.RequestedNameKept | utilities/tasks/large_image_tasks/tasks.py:61-74 | a requested name is where the file ends up; it is written with the suffix appended when it lacks it |

## Left out

- Decoders, the network and the file system: wsidicom, pydicom, nd2reader, the DICOMweb client and `os` calls are parameters of the model, not modelled.
- Floating point: the DICOM pixel spacing division and `round`, `getNativeMagnification`, `nearPowerOfTwo`, `_vipsCast` and the `log` level formulas. Stored-level factors are integer inputs, and level counts are integer characterisations.
- DicomTile.PlanRead: a stored level whose factor rounds to 0, where the source divides by zero, is modelled as the error `ZeroFactor`.
- DicomTile.PlanRead: the tile corners are shared with the nd2 source's explicit computation; the base class helpers the DICOM source calls are not part of this model.
- DicomTile.ReadRegion: that wsidicom's `read_region` fails on a request with no width or no height, as `ReadRejected`, is an assumption about the decoder; the source neither checks nor documents it, and wsidicom is not part of this model.
- DicomMetadata: datasets enter already in the DICOM JSON model, so `to_json_dict` and its bulk-data placeholder text are not modelled; `keyword_for_tag` is an input; a `Value` list is either all objects or all atoms, so a list whose first item alone is an object is not represented. Numeric values are integers: the floating-point values of the FL, FD and DS representations and `null` items in a `Value` list are not represented, so the merge never compares an integer with an equal float (`1 == 1.0` in Python).
- Nd2Tile: the z-level repair of one malformed file (nd2 lines 96-106) and the choice of `iter_axes` are inputs: the model takes the iterated axes and their sizes as given.
- Nd2Frames: the per-frame position and timing fields (`PositionX`, `DeltaT` and the like) copied from metadata lists, and the `nd2`, `nd2_sizes` and `nd2_axes` metadata entries, are not modelled.
- Nd2Clean: the cleaning of the top-level metadata in `_getND2Metadata` is not modelled beyond the dictionary cleaning it calls.
- Nd2Clean: `numpy.ndarray` values (named at sources/nd2/large_image_source_nd2/__init__.py:165) are not represented; `PIter` stands only for ranges, generators and `array.array`. For an array, the blank test `value not in (None, b'', '')` at line 152 compares element by element. An array of more than one element makes it raise ValueError. A one-element array holding None, `b''` or `''` is dropped as blank, where the model would keep a one-element list. The empty array's truth value depends on the numpy version. So the conversion at line 165 only ever sees arrays of at most one element.
- ChannelDepth.MakeSameDepth: requires no array to have zero channels. The source fails on one only when the other array has at least 3 channels, where it broadcasts an empty slice into a one-channel slot (utilities.py:718); against fewer channels it pads it with ones without error, a case the model does not cover.
- ConvertOptions.CommandOf: case mapping is ASCII only. Python's `str.upper` maps every cased letter and can lengthen the text ('ß' becomes 'SS'), so a compression name with non-ASCII letters is upper-cased differently; gdal's compression names are ASCII.
- Nd2Frames.AxisKey: upper-cases ASCII letters only; the nd2 axis letters (`x`, `y`, `c`, `t`, `z`, `v`) are ASCII, where this agrees with `str.upper`.
- Histogram.Threshold: requires one more edge than bins, the shape numpy's histogram produces; the `_recentThresholds` cache is left out.
- Letterbox.Letterbox: the fill is only named, never resolved. The source maps it through `colormap` and `PIL.ImageColor.getcolor`, which raises ValueError for an unknown colour name; neither the lookup nor that error is modelled, and the pixel paste is not either.
- Histogram.Threshold: the comparison of running totals against `threshold * samples` is exact real arithmetic; the source compares floats, which can round differently at a bin boundary.
- Pixels.Resize: Pillow's resampling filter (bicubic for the L, RGB and RGBA modes) is not modelled; the filter is an input, and the model promises only the output size, the band count, and that the output depends on nothing outside the block.
- FrameQuads: `_computeFramesPerTexture` (square roots), the parsing of the frame options, the `auto` values, the recursion over a named `frameBase`, `minLevel` and the `format` and `query` entries copied into each request are not modelled; the texture geometry is an input.
- FrameQuads.QuadInfo: the geometry `_computeFramesPerTexture` would compute is an input, so only its division by zero frames per texture on an empty frame list is modelled, as the error `NoFrames`.
- Etree.RoundTrip: holds only for regular elements: no namespaces, distinct child tags, attribute names distinct from child tags and from `text`, text only where it survives stripping, and no tail text after any element, not even the whitespace of a pretty-printed tree. The model's `Element` has no tail, because `etreeToDict` never reads `.tail`; so `<a x="1"><b/>t</a>` loses its "t" in the source and is outside the claim. Other trees lose information in `etreeToDict`, as its documentation says.
- Etree.ToDict: requires well-formed names; a tag starting with `{` and lacking `}` makes the source raise.
- Jupyter: projected images go through pyproj and are not modelled; the map centre is left open whenever the metadata has both a `bounds` and a `projection` key.
- Jupyter.EndpointParams: requires the repr to contain no `&`; the source does not URL-encode it, so such a repr changes the query.
- Jupyter: the tornado tile server, the girder client and the other keyword arguments of `make_layer` are not modelled.
- CreateTiff.Output: the input path is taken as already absolute and user-expanded; the conversion call, the existence check and the file move are not modelled.
- CreateTiff.Output: an `inputName` passed explicitly as None is treated as absent; the source would pass None to `splitext` and fail.
- Caching and locking: `methodcache`, the LRU caches and nd2's tile lock are left out.

## Findings

| source | as written | input that shows it | evidently intended | confidence | as-written member | corrected member |
|---|---|---|---|---|---|---|
| sources/dicom/large_image_source_dicom/__init__.py:343-348 | pads whenever the read is short in either axis, even when the other axis is one pixel longer than the footprint, so `np.pad` gets a negative amount | a 4096 x 1500 image, 256-pixel tiles, a stored level at factor 3 of 1366 x 500; tile (1, 1, 2) reads 342 x 159 against a 341 x 341 footprint | cut or pad the read to exactly the footprint | not executed | DicomTile.GetTileAsWritten, DicomTile.NegativePadWitness | DicomTile.GetTile |
| sources/dicom/large_image_source_dicom/__init__.py:350-351 | shrinks only when the footprint is larger than a tile, so a read a pixel or two wider than a one-tile footprint is returned larger than a tile | a 32768-pixel square image, 64-pixel tiles, a stored level at factor 127 of 259 x 259; tile (1, 1, 2) comes back 66 x 66 | every tile is exactly one tile in size | not executed | DicomTile.GetTileAsWritten, DicomTile.OversizeTileWitness | DicomTile.GetTile |
| sources/nd2/large_image_source_nd2/__init__.py:309-312 | reads `result['IndexRange']`, which is only set when some axis ranges over more than one index | a file with one channel and one frame | an empty `IndexStride` | not executed | Nd2Frames.IndexStrideAsWritten, Nd2Frames.SingleFrameWitness | Nd2Frames.IndexStride |
| large_image/tilesource/utilities.py:937-938 | leaves out the frame list whenever it has as many frames as the image, even when the list is reordered by `frameGroupStride` | 4 frames, stride 1, group stride 2: the list is 0, 2, 1, 3 but the texture draws 0, 1, 2, 3 | leave the list out only when it is every frame in order | not executed | FrameQuads.RequestAsWritten, FrameQuads.ReorderedListDropped | FrameQuads.RequestFor, FrameQuads.Assemble, FrameQuads.QuadInfo |
