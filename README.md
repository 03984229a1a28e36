# Tiled background remover: tiling, compositing and export core

This project models the Rust backend of Tiled-BG-Remover, a desktop tool that
works in three steps:

1. It cuts a large image into an overlapping grid of tiles (`split_image`).
2. It sends each tile to an image-generation service; that part runs in the
   front end and is not modelled.
3. It stitches the processed tiles back together (`merge_tiles`). It can
   optionally key out a background colour. It can also export the merged
   image together with a layered PSD document (`save_export_bundle`).

The model covers these parts of the backend:

- **Tile geometry.** Per-axis tile extent, overlap and stride, and the
  clamped origin and clipped size of every cell. `split_image` and
  `merge_tiles` compute this the same way, so it is defined once
  (`Geometry`).
- **`split_image`.** The grid walk that emits tile records in row-major
  order, with their file names (`Split`).
- **`is_key_color`.** The key-colour classifier and the chroma-key pass
  (`KeyColor`).
- **`flatten_rgba_to_rgb_white`.** The flattening of RGBA onto white
  before JPEG encoding (`Flatten`).
- **The compositing loop of `merge_tiles`.** It works in place on a
  canvas of pixels, with per-pixel cases for copy, transparent
  destination, "content beats key colour", zero feather factor, and blend
  (`Composite`).
- **The rest of `merge_tiles`** (`Merge`):
  - the grid size read off the tile indices;
  - the tile jobs;
  - the fallback to the unprocessed `orig_tile_*` file;
  - loading with first-error propagation;
  - the sort by `(r, c)`;
  - the final encoding choice.
- **Path helpers.** `Path::file_name`, `extension`, `file_stem`,
  `join` and `parent` on `/`-separated paths (`parent` is lexical: the
  path without its last component, skipping trailing separators and `.`
  components, and nothing for the root or the empty path), `str::trim`,
  `image_format_from_path`, `file_extension`, and the mime mapping of
  `load_image` (`Paths`).
- **`lib.rs`** (`Export`):
  - `decode_data_url`;
  - the PNG pass-through of `ensure_png_bytes`;
  - the data URL of `load_image`;
  - `resolve_tile_source` and `resolve_input_source_path`;
  - the layer list of `write_psd`, as a `Document` class whose `Push`
    appends a layer;
  - `save_export_bundle`.
- **`sort_unstable_by_key`.** Sorting by `(r, c)` is a verified insertion
  sort (`Sorting`).

**Number model.**
- Rust's `u8`, `u16` and `u32` are subset types of `int` (`Bytes`).
- Saturating subtraction and addition are written out, as is the
  release-build wrap-around of `c * stride` and `max_r + 1`.
- The `f64` overlap ratio is an exact rational. `ceil` is an integer
  ceiling, and each `as u32` cast is a truncation that saturates.
- The `f32` feather factor is the exact fraction `x / overlap`.
- The blend `(inv * old + factor * new) as u8` is the floor of the same
  rational mean.

**Outside world.** The file system, the codecs, base64 and Lanczos
resampling enter as functions held in two datatypes: `Merge.Host` and
`Export.Env`. The model states its results in terms of them.

Where the written design description and the code disagree, the model
follows the code:
- **Merge is a sequential overwrite.** Tiles are applied in `(r, c)`
  order. A linear feather runs only across each tile's left and top
  overlap band, and the first column and first row of a band keep the
  canvas. There is no accumulate-and-normalise pass over a coverage
  buffer.
- **The key test is per channel.** It uses fixed thresholds (`240 - tol`,
  `15 + tol`, `50 + tol`), not a distance.
- **Tile extents are whole pixels.** For the 2000 by 1000, two-column,
  10 % overlap example, the extent is `ceil(2000 / 1.9) = 1053` and the
  second tile starts at `x = 948` (`Geometry.TwoColumnExample`). The
  fractional values 1052.6 and 947.4 do not occur.
- **The merged file is written first.** `save_export_bundle` writes it
  before any layer is read. Every later failure aborts the PSD and
  reports an error, but the merged file stays on disk.
- **`split_image` writes before its last check.** It writes
  `original_source.{ext}` before checking the grid denominators.

## Model

| member | source | states |
|---|---|---|
| KeyColor.IsKeyColor | src-tauri/src/image_processing.rs:153-172 | any pixel with alpha below 10 matches; otherwise a pixel matches exactly when the per-colour threshold rule for the named colour holds, with `240 - tol` and `15 + tol` / `50 + tol` saturating |
| KeyColor.UnknownColorIsWhite | src-tauri/src/image_processing.rs:164-171 | a colour name other than white, black, red, green and blue classifies exactly like "white" |
| KeyColor.ToleranceMonotone | src-tauri/src/image_processing.rs:158-171 | widening the tolerance never turns a matching pixel into a non-matching one |
| KeyColor.KeyColorUnitTest | src-tauri/src/image_processing.rs:578-583 | the three cases of `test_is_key_color`: opaque white and transparent black match "white", opaque red does not |
| KeyColor.KeyOut | src-tauri/src/image_processing.rs:556-564 | one pixel of the chroma-key pass becomes (0,0,0,0) exactly when it matches the key (or already is (0,0,0,0)) and is otherwise unchanged; its result matches the key only if it is transparent |
| KeyColor.KeyOutIdempotent | src-tauri/src/image_processing.rs:551-565 | applying the chroma-key step twice equals applying it once |
| KeyColor.GreenKeyScenario | src-tauri/src/image_processing.rs:551-565 | keying green with tolerance 10 makes a pure green pixel transparent and keeps an opaque red pixel |
| Flatten.WhiteComposite | src-tauri/src/image_processing.rs:81-85 | the `u16` intermediate `c*a + 255*(255-a) + 127` lies in 127..65152, so it cannot overflow |
| Flatten.FlattenChannel | src-tauri/src/image_processing.rs:81-85 | alpha 255 keeps the channel, alpha 0 gives 255, the result never darkens the channel and is the rounded quotient of the intermediate by 255 |
| Flatten.FlattenChannelMonotone | src-tauri/src/image_processing.rs:83-85 | for a fixed alpha, flattening preserves the order of channel values |
| Flatten.FlattenRgbaToRgbWhite | src-tauri/src/image_processing.rs:78-89 | the output has three bytes per pixel, in pixel order, each the flattened red, green and blue of that pixel |
| Geometry.TileExtent | src-tauri/src/image_processing.rs:232-239 | the tile extent is the least whole number of pixels whose `n` overlapping tiles reach the image size (saturated at `u32::MAX`), and at least 1 for a non-empty image |
| Geometry.OverlapExtent | src-tauri/src/image_processing.rs:240-241 | the overlap is `tile * ratio` truncated toward zero: never above the exact value, within one of it, and 0 for a non-positive ratio |
| Geometry.Stride | src-tauri/src/image_processing.rs:242-243 | the stride is at least 1, at least `tile - overlap`, and at most the tile extent |
| Geometry.PlanLayout | src-tauri/src/image_processing.rs:232-243 | planning fails with "Invalid overlap/grid configuration" exactly when a denominator `n - (n-1)*ratio` is not positive; otherwise both strides are at least 1 and at most the tile extent |
| Geometry.Place | src-tauri/src/image_processing.rs:248-251 | a cell's origin lies inside the image and equals `i * stride` when that is inside; its extent is at most the tile extent, positive for a non-empty image, and ends inside the image |
| Geometry.TileRectInBounds | src-tauri/src/image_processing.rs:245-257 | every cell rectangle satisfies `x <= w-1`, `0 < width <= tile_w`, `x + width <= w`, and the same vertically |
| Geometry.AxisCovers | src-tauri/src/image_processing.rs:232-251 | for a non-negative ratio, every pixel position on an axis lies in the span of some cell index below `n` |
| Geometry.GridCoversImage | src-tauri/src/image_processing.rs:245-257 | for non-negative ratios, every pixel of the image lies in the rectangle of some cell of the grid |
| Geometry.TwoColumnExample | src-tauri/src/image_processing.rs:232-251 | a 2000 by 1000 image in one row of two columns at ratio 1/10 gives tiles of 1053 by 1000 with overlap 105 and stride 948, at (0,0) and (948,0) |
| Split.SplitImage | src-tauri/src/image_processing.rs:205-285 | zero rows or columns fail with their message, a non-positive denominator fails with its message, and otherwise the result is the split grid, the image size and `original_source.{ext}` in the output directory |
| Split.GridTiles | src-tauri/src/image_processing.rs:245-282 | the nested row and column loop emits one tile per cell in row-major order (none for an empty image), each with its cell's rectangle and its `tile_r_c` and `orig_tile_r_c` paths |
| Split.SplitTilesInBounds | src-tauri/src/image_processing.rs:245-257 | every emitted tile has `r < rows`, `c < cols` and a rectangle inside the image no larger than the tile extent |
| Split.SplitRowMajor | src-tauri/src/image_processing.rs:246-257 | emitted tiles are strictly increasing in `(r, c)` order |
| Split.SplitCoversImage | src-tauri/src/image_processing.rs:245-257 | every pixel of the image lies in some emitted tile |
| Split.CellTile | src-tauri/src/image_processing.rs:246-255 | each cell of the grid has an emitted tile carrying that cell's rectangle |
| Split.SplitTileRect | src-tauri/src/image_processing.rs:248-255 | each emitted tile's position and size are those the layout gives its `(r, c)` |
| Split.SplitGridCell | src-tauri/src/image_processing.rs:246-255 | the tile at index `r * cols + c` is the one for row `r`, column `c` |
| Split.TileParent | src-tauri/src/image_processing.rs:264-269 | the parent of each tile path and of each original path `split_image` writes is the output directory, as `Path::parent` spells it |
| Split.TileFileNameInjective | src-tauri/src/image_processing.rs:264-268 | two cells with the same tile file name are the same cell |
| Split.JoinInjective | src-tauri/src/image_processing.rs:265-269 | joining one directory with two relative names gives equal paths exactly when the names are equal |
| Split.SplitFilesDistinct | src-tauri/src/image_processing.rs:264-279 | distinct tiles have distinct processed paths and distinct original paths, and no tile's processed path is its original path |
| Merge.MaxOf | src-tauri/src/image_processing.rs:304-305 | the maximum row or column index bounds every tile's index, is attained by some tile, and is 0 for no tiles |
| Merge.JobOf | src-tauri/src/image_processing.rs:344-363 | a tile's job keeps its `r`, `c` and path and takes the rectangle of its cell, and it is dropped exactly when that rectangle is empty |
| Merge.NoTileDropped | src-tauri/src/image_processing.rs:342-368 | with a non-empty image and positive tile extents no tile is dropped, so the "No valid tiles to merge" branch cannot be taken |
| Merge.FirstExisting | src-tauri/src/image_processing.rs:377-383 | the fallback search finds nothing exactly when no candidate exists, and what it finds is an existing candidate |
| Merge.FirstExistingIs | src-tauri/src/image_processing.rs:377-383 | the search returns the first existing candidate in the order png, jpg, jpeg |
| Merge.TileSource | src-tauri/src/image_processing.rs:373-392 | an existing tile path is used as is; otherwise a path without a parent fails with "Invalid tile path", and with a parent the source is an existing `orig_tile_r_c` candidate in that parent, failing with "Tile result and original both missing for r,c" exactly when no candidate exists; any source chosen exists and is the tile path or one of its candidates |
| Merge.TileSourceFallback | src-tauri/src/image_processing.rs:374-386 | with the processed tile missing, the source is the first existing `orig_tile_r_c` candidate |
| Merge.FallbackFindsSplitOriginal | src-tauri/src/image_processing.rs:374-386 | for a tile whose path `split_image` wrote into an output directory written without trailing separators or `.` components, when the processed tile is missing, merging falls back to exactly the original crop `split_image` wrote for that cell; the directory is derived from the tile path by `Path::parent`, not assumed |
| Merge.LoadedTile | src-tauri/src/image_processing.rs:372-411 | a loaded tile keeps its job's cell and origin and its image is the chosen source file, opened and resized to exactly the expected size only when its size differs; a source failure is its error, and a file that does not open fails with "Failed to open {path}: {error}" |
| Merge.LoadTile | src-tauri/src/image_processing.rs:372-411 | the loading code with its fallback loop computes `LoadedTile` |
| Merge.LoadAll | src-tauri/src/image_processing.rs:370-412 | loading all jobs fails exactly when some job fails, and otherwise yields one loaded tile per job, in order |
| Merge.LoadAllFirstError | src-tauri/src/image_processing.rs:370-412 | the error reported is that of the first failing job |
| Merge.LoadTiles | src-tauri/src/image_processing.rs:370-412 | the loading loop computes `LoadAll` |
| Merge.Rendered | src-tauri/src/image_processing.rs:416-565 | the merged canvas has the original width and height |
| Merge.RenderedAt | src-tauri/src/image_processing.rs:416-565 | each canvas pixel is the result of compositing all tiles in order over transparent, then keying it out when background removal is on |
| Merge.RenderedKeyFree | src-tauri/src/image_processing.rs:551-565 | with background removal on, no pixel of the result matches the key unless it is fully transparent |
| Merge.RenderedUncovered | src-tauri/src/image_processing.rs:416-465 | a pixel no tile covers stays transparent |
| Merge.RenderedInterior | src-tauri/src/image_processing.rs:478-484 | without background removal, a pixel in the interior of the last tile covering it is that tile's pixel verbatim |
| Merge.RenderCanvas | src-tauri/src/image_processing.rs:416-565 | allocating the canvas, running the compositing loop and the chroma-key pass in place, and reading the canvas back gives `Rendered` |
| Merge.MergedImage | src-tauri/src/image_processing.rs:287-565 | an empty tile list fails with "No tiles to merge", a zero dimension with "Invalid original image dimensions", and a merged image has the original size |
| Merge.MergeTiles | src-tauri/src/image_processing.rs:287-571 | merging fails exactly when `MergedImage` fails, with its message; on success it is the PNG of the merged image with background removal, or else a JPEG at quality 90 of its pixels flattened onto white |
| Merge.SplitMergeAgree | src-tauri/src/image_processing.rs:304-364 | for the tiles of a split, the merge reads back the same number of rows and columns and gives each tile the same origin and size the split gave it |
| Composite.MaxWeight | src-tauri/src/image_processing.rs:524 | the larger of two feather factors is one of them and bounds both |
| Composite.Factor | src-tauri/src/image_processing.rs:519-525 | inside an overlap band the factor is below 1, and at the first column of a left band (outside a top band) it is 0 |
| Composite.BlendChannel | src-tauri/src/image_processing.rs:538-545 | a blended channel lies between the old and new values, equals the old at factor 0 and the new at factor 1 |
| Composite.BlendBounds | src-tauri/src/image_processing.rs:538-545 | the floor of the weighted mean lies between its two inputs and hits them at the end factors |
| Composite.CompositePixel | src-tauri/src/image_processing.rs:467-545 | outside the bands the new pixel is copied, over a transparent pixel it is copied, with removal on a key pixel never replaces content and content always replaces a key pixel; whenever there is no such key clash (in particular with removal off), a zero factor in a band keeps the old pixel and a factor of 1 gives the new one; any result lies channel-wise between old and new |
| Composite.TileWeight | src-tauri/src/image_processing.rs:443-457 | inside a tile's left or top overlap band its feather factor is below 1 |
| Composite.UncoveredUnchanged | src-tauri/src/image_processing.rs:446-465 | tiles that do not cover a pixel leave it unchanged |
| Composite.LastInteriorWins | src-tauri/src/image_processing.rs:437-484 | a pixel in the interior of the last tile covering it ends up as that tile's pixel |
| Composite.AfterTileBetween | src-tauri/src/image_processing.rs:467-545 | applying one tile leaves each channel between the canvas value and the tile value |
| Composite.KeyNeverOverwritesContent | src-tauri/src/image_processing.rs:501-509 | with background removal, a key-coloured tile pixel in a band never replaces a non-key canvas pixel |
| Composite.SeamStartKeepsCanvas | src-tauri/src/image_processing.rs:519-529 | unless background removal sees a key clash between the canvas and tile pixels, the first column of a tile's left band keeps the canvas pixel, because its factor is 0 |
| Composite.CompositeTile | src-tauri/src/image_processing.rs:437-548 | the loops over one tile change each canvas pixel to the tile applied to its old value, and only pixels inside the canvas |
| Composite.CompositeRow | src-tauri/src/image_processing.rs:461-546 | the inner loop over one row changes only that row, pixel by pixel, as applying the tile prescribes |
| Composite.CompositeTiles | src-tauri/src/image_processing.rs:437-548 | the loop over all tiles leaves each canvas pixel equal to its old value with every tile applied in order |
| Composite.ChromaKeyPass | src-tauri/src/image_processing.rs:551-565 | the final pass turns every key-matching pixel into (0,0,0,0) and leaves every other pixel unchanged |
| Sorting.Insert | src-tauri/src/image_processing.rs:414 | inserting into a sorted list keeps it sorted and adds exactly the one element |
| Sorting.SortByKey | src-tauri/src/image_processing.rs:414 | sorting by `(r, c)` yields a sorted permutation of its input |
| Bytes.ResizeExact | src-tauri/src/image_processing.rs:398-402 | resampling yields an image of exactly the requested size |
| Bytes.Fit | src-tauri/src/lib.rs:364-372 | the image is resized only when its size differs from the target, and the result always has the target size |
| Bytes.Snapshot | src-tauri/src/image_processing.rs:416-417 | reading the canvas back gives an image of the canvas's width and height |
| Bytes.SnapshotAt | src-tauri/src/image_processing.rs:416-417 | each pixel read back is the canvas cell at that row and column |
| Paths.AfterLast | src-tauri/src/lib.rs:141 | the last field after splitting at a separator is a suffix free of the separator and preceded by it, or the whole string |
| Paths.TrimStartSuffix | src-tauri/src/lib.rs:161 | trimming the start leaves a suffix whose first character is not white space, after white space only |
| Paths.TrimEndPrefix | src-tauri/src/lib.rs:161 | trimming the end leaves a prefix whose last character is not white space, before white space only |
| Paths.TrimInfix | src-tauri/src/lib.rs:161 | `trim` yields the infix between leading and trailing white space; it is empty exactly when the text is all white space |
| Paths.AsciiLower | src-tauri/src/image_processing.rs:63 | lower-casing maps exactly the ASCII capitals to their small letters and keeps every other character |
| Paths.LowerFileExtensions | src-tauri/src/image_processing.rs:71-75 | the extensions `file_extension` writes are already lower case |
| Paths.Decimal | src-tauri/src/image_processing.rs:264 | a number prints as a non-empty string of digits without a leading zero |
| Paths.DecimalInjective | src-tauri/src/image_processing.rs:264-268 | distinct numbers print differently |
| Paths.FileName | src-tauri/src/image_processing.rs:59-60 | a file name is non-empty, holds no separator and is neither `.` nor `..` |
| Paths.NameExtension | src-tauri/src/image_processing.rs:59-62 | an extension holds no dot |
| Paths.NameStem | src-tauri/src/lib.rs:338-342 | a stem is a non-empty prefix of its file name |
| Paths.Extension | src-tauri/src/image_processing.rs:59-62 | a path has an extension only if it has a file name, and the extension holds no dot |
| Paths.FileStem | src-tauri/src/lib.rs:338-342 | a path has a stem exactly when it has a file name, and the stem is never empty |
| Paths.FileStemNoSeparator | src-tauri/src/lib.rs:338-343 | a stem holds no separator |
| Paths.NamedFileName | src-tauri/src/image_processing.rs:265 | a name placed after a separator is the file name of the result |
| Paths.DottedName | src-tauri/src/image_processing.rs:264 | `stem.ext` is a valid file name whose last dot is followed by `ext` and preceded by `stem` |
| Paths.Join | src-tauri/src/image_processing.rs:265 | joining ends with the joined name, and an absolute name replaces the directory |
| Paths.JoinFileName | src-tauri/src/image_processing.rs:265 | joining a directory and a valid file name gives a path with that file name |
| Paths.NamedFile | src-tauri/src/lib.rs:343 | the path `dir/stem.ext` has file name `stem.ext`, extension `ext` and stem `stem` |
| Paths.ImageFormatFromPath | src-tauri/src/image_processing.rs:58-69 | a path is JPEG exactly when its lower-cased extension is `jpg` or `jpeg`, and PNG otherwise, including with no extension |
| Paths.FormatOfExtension | src-tauri/src/image_processing.rs:58-76 | a path whose extension is `file_extension(f)` is read back as format `f` |
| Paths.FormatRoundTrip | src-tauri/src/image_processing.rs:58-76 | a file saved as `stem.{file_extension(f)}` in any directory is read back as format `f` |
| Paths.ParentTrimmed | src-tauri/src/image_processing.rs:375 | a parent never ends in a separator or a `.` component, except a lone root or `.` |
| Paths.ParentOfJoin | src-tauri/src/image_processing.rs:375-378 | the parent of `dir.join(name)` for a plain file name is `dir` without trailing separators and `.` components, so joining and taking the parent round-trip |
| Paths.ParentExample | src-tauri/src/image_processing.rs:375-378 | the parent of `out/tile_0_0.png` is `out` |
| Paths.RootHasNoParent | src-tauri/src/image_processing.rs:375 | the root and the empty path have no parent, the case that fails with "Invalid tile path" |
| Paths.MimeType | src-tauri/src/lib.rs:31-40 | a path without an extension is `image/png`; the mime type is `application/octet-stream` exactly when the path has an extension whose lower case is none of `jpg`, `jpeg`, `png`, `webp`; it is always one of the four the match names |
| Paths.MimeOfExtension | src-tauri/src/lib.rs:35-40 | lower-cased `jpg`/`jpeg` give `image/jpeg`, `png` gives `image/png`, `webp` gives `image/webp`, and any other extension gives `application/octet-stream` |
| Paths.MimeMatchesFormat | src-tauri/src/lib.rs:31-40 | a file named with `file_extension(f)` gets the mime type of format `f` |
| Paths.MimeOfFormat | src-tauri/src/lib.rs:31-40 | a path whose extension is `file_extension(f)` gets the mime type of format `f` |
| Export.DecodeDataUrl | src-tauri/src/lib.rs:140-145 | text without a comma is decoded whole as base64 |
| Export.DecodeIgnoresHeader | src-tauri/src/lib.rs:140-145 | whatever header precedes the last comma, decoding gives what decoding the comma-free payload alone gives |
| Export.DataUrlPayload | src-tauri/src/lib.rs:140-141 | the payload is the text after the last comma, a comma-free suffix preceded by a comma, or the whole text if it has no comma |
| Export.PayloadOfDataUrl | src-tauri/src/lib.rs:140-141 | the payload of `data:{mime};base64,{b64}` is `b64` for any base64 text |
| Export.LoadImage | src-tauri/src/lib.rs:28-42 | `load_image` fails exactly when reading the file fails, with the read error; otherwise it is `data:{mime};base64,{b64}` with the mime type of the path and the base64 of the bytes read |
| Export.LoadThenDecode | src-tauri/src/lib.rs:28-42 | decoding the data URL `load_image` builds gives back the file's bytes, for a base64 codec that round-trips |
| Export.EnsurePngBytes | src-tauri/src/lib.rs:147-158 | bytes starting with the 8-byte PNG signature pass through unchanged, only non-PNG bytes can fail, and undecodable non-PNG bytes fail |
| Export.EnsurePngIdempotent | src-tauri/src/lib.rs:147-158 | the output is PNG data, and converting it again changes nothing, for an encoder that writes the signature |
| Export.ReadImage | src-tauri/src/lib.rs:378-382 | reading an image fails whenever reading its file fails |
| Export.ResolveTileSource | src-tauri/src/lib.rs:160-181 | a chosen source is a non-empty path naming a file, and the only error is "Missing tile files for r,c (processed: …, original: …)" with the paths as given |
| Export.TileSourceChoice | src-tauri/src/lib.rs:160-181 | the trimmed processed path is chosen (flag false) exactly when it is a non-empty file, otherwise the trimmed original path (flag true) if it is, and otherwise the "Missing tile files" error |
| Export.FirstSource | src-tauri/src/lib.rs:191-206 | the tile scan finds nothing exactly when no tile's original directory holds `original_source.png`, and what it finds is a file |
| Export.FirstSourceIs | src-tauri/src/lib.rs:191-204 | the scan returns the candidate of the first tile, in order, whose candidate is a file |
| Export.InputSource | src-tauri/src/lib.rs:183-207 | a trimmed explicit path that is a file wins; otherwise the first tile candidate is taken; it is None exactly when neither exists |
| Export.ResolveInputSourcePath | src-tauri/src/lib.rs:183-207 | the loop with early return computes `InputSource` |
| Export.Document.constructor | src-tauri/src/lib.rs:215 | a new document has no layers |
| Export.Document.Push | src-tauri/src/lib.rs:226 | pushing appends the layer after all earlier ones |
| Export.PsdLayers | src-tauri/src/lib.rs:217-251 | the layers are "Input Source" at (0,0), then "Merged Result" at (0,0), then one "Tile r{r} c{c}" per tile at its `(x, y)`, in the given order |
| Export.WritePsd | src-tauri/src/lib.rs:209-251 | the pushes build a fresh document holding exactly `PsdLayers` |
| Export.TileLayerNameInjective | src-tauri/src/lib.rs:241 | distinct cells get distinct layer names |
| Export.PsdPath | src-tauri/src/lib.rs:331-343 | the PSD path ends in `.psd` |
| Export.PsdBesideOutput | src-tauri/src/lib.rs:331-343 | the PSD file's parent is the output's parent, or `.` when the output has none |
| Export.PsdNamedAfterOutput | src-tauri/src/lib.rs:331-343 | the PSD path has the output's stem, or `upscaled_image` when it has none, and the extension `psd` |
| Export.LayerOf | src-tauri/src/lib.rs:377-393 | a tile's layer keeps the tile, and its image is the file `resolve_tile_source` picks, read and decoded, resized to exactly the tile's width and height only when its size differs; the error of resolving or of reading is passed on |
| Export.LayersOf | src-tauri/src/lib.rs:374-394 | building layers fails exactly when some tile fails, and otherwise yields one layer per tile, in order |
| Export.LayersOfFirstError | src-tauri/src/lib.rs:376-382 | the error reported is that of the first failing tile |
| Export.LoadLayers | src-tauri/src/lib.rs:374-394 | the loop pushing into `layers` computes `LayersOf` |
| Export.MergedPng | src-tauri/src/lib.rs:345-346 | a decoding error of the data URL is passed on, a PNG payload is written exactly as decoded, and the bytes written exist only if decoding succeeded |
| Export.Assemble | src-tauri/src/lib.rs:356-402 | without a resolvable input source the export fails with its message, and an input source that cannot be read fails with the read error; otherwise the bundle carries the output and PSD paths, the layers of the sorted tiles and their count, and the PSD layer list whose first layer is the input image read and fitted to the merged image's size |
| Export.ExportBundle | src-tauri/src/lib.rs:320-403 | no tiles fail with "No tile metadata available for export."; a bundle comes from the merged PNG, its decoded image and the sorted tiles |
| Export.ExportLayers | src-tauri/src/lib.rs:353-401 | `tile_count` is the number of input tiles, the layers are a `(r, c)`-sorted permutation of them with their sizes; the PSD holds "Input Source" (the input image fitted to the merged size) at (0,0), "Merged Result" (the image decoded from the bytes written) at (0,0), and then one layer per tile at its `(x, y)` |
| Export.ExportFiles | src-tauri/src/lib.rs:338-347 | the merged file is written to the given path as PNG data, and the PSD path has the output's stem and the `psd` extension |
| Export.ExportWithoutSource | src-tauri/src/lib.rs:356-357 | with no usable explicit path and no tile pointing at `original_source.png`, the export fails with "Failed to resolve input source image for PSD export." |
| Export.SaveExportBundle | src-tauri/src/lib.rs:320-403 | the step-by-step export, with its early returns, computes `ExportBundle` |

## Left out

- File and directory I/O is not modelled in itself. This covers reading files, `exists`, `is_file`, `create_dir_all`, writing the tiles, the merged file and the PSD, and `TempDir`. Existence and reading are functions supplied by the caller; `Path::parent` is lexical and is modelled as `Paths.Parent`. Failures of `create_dir_all`, `fs::write`, `set_image`, `push` and `save` are not modelled, nor is the file left on disk when a later step fails.
- Image codecs, base64 (RFC 4648, section 4) and EXIF orientation are library calls. They are parameters of `Merge.Host` and `Export.Env`. The only assumptions are the ones a lemma names in its own `requires`.
- `Bytes.ResizeExact`: Lanczos3 resampling is a resampler function supplied by the caller. Only the size of its output is stated.
- `Composite.BlendChannel`: does not model `f32` rounding. The factor `x / overlap` and the blend are exact rationals with a floor; the truncating `as u8` of a non-negative value agrees with the floor.
- `Geometry.TileExtent`: does not model `f64` rounding of `w / denom`. The overlap ratio is an exact rational and the ceiling is exact.
- `Composite.CompositeRow`: `tile.start_x + x` is an unbounded sum. A loaded tile has its expected size, so the sum stays below the canvas width and cannot overflow.
- `Merge.MergedImage`: the grid size `max_r + 1` wraps to 0 when a row index is `u32::MAX`. This is modelled but no property about that edge is proved.
- Work spread with rayon (`into_par_iter`, `par_chunks_exact_mut`) is a sequential map. With several failing tiles the source reports whichever error the pool meets; the model reports the first one in order.
- `Sorting.SortByKey`: `sort_unstable_by_key` is an insertion sort. Its result is sorted and a permutation; the order of tiles with equal `(r, c)` is unspecified in the source and is insertion order here. The in-place sort of `sorted_tiles` is modelled as a function on the sequence.
- `Merge.MergeTiles`: the canvas holds pixels rather than raw bytes, so the `* 4` byte offsets are not modelled. The PNG and JPEG encodings are the `Encoded` values handed to the encoder, not bytes.
- `Paths.AsciiLower`: lower-casing covers ASCII letters only. `str::to_lowercase` in `load_image` also maps other letters, which cannot change the four extensions it matches.
- `Merge.FallbackFindsSplitOriginal`: requires the output directory to be written without trailing separators or `.` components. Existence is a function of the path text, so `out/` and `out` are different paths to it, while `Path::parent` of a tile path gives the directory without them.
- `Paths.FileName`: paths are `/`-separated only. There are no Windows prefixes, and `to_str` never fails, because text has no non-UTF-8 paths.
- `Export.ResolveTileSource`: the pair `(PathBuf, bool)` is a `TileSourcePick`. The error message is modelled as text, and its numbers as decimal digits.
- `Export.EnsurePngBytes`: the non-PNG branch decodes and re-encodes through the supplied codec, so the intermediate `DynamicImage` is an RGBA image.
- The `split_img`, `merge_img`, `crop_img`, `save_image`, `save_image_resized` and `save_merged_image` commands are left out. So are `crop_image`, `save_resized_tile`, the `AppState` mutex and `run()`. They are Tauri plumbing around the modelled functions, or single library calls.
- The split and merge commands in `lib.rs` pass one overlap ratio for both axes and no `prefer_jpeg`. The model follows the separate x and y signatures of `split_image` and `merge_tiles`.
- `src-tauri/vendor/psd-sys-0.2.1/build.rs` is a build script and is not part of this model.
