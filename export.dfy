/**
 * The export side of the backend: the payload of a data URL, the PNG
 * pass-through of `ensure_png_bytes`, the data URL `load_image` builds,
 * the choice of the file a tile layer and the input layer are read from,
 * the layer list `write_psd` pushes into the PSD document, and
 * `save_export_bundle`, which ties them together.
 */
module Export {
  import opened Wrappers
  import opened Bytes
  import opened Paths
  import opened Sorting

  /** `ExportTile`: one tile as the front end describes it for the export. */
  datatype ExportTile = ExportTile(r: U32, c: U32, x: U32, y: U32, width: U32, height: U32, path: string, originalPath: string)

  /**
   * What the export asks of the file system and the codec libraries:
   * `Path::is_file`, `fs::read`, base64 encoding and
   * decoding, `image::load_from_memory(..).to_rgba8()`, PNG encoding of a
   * decoded image, and the Lanczos3 resampler.
   */
  datatype Env = Env(
    isFile: string -> bool,
    read: string -> Result<seq<U8>>,
    base64Encode: seq<U8> -> string,
    base64Decode: string -> Result<seq<U8>>,
    decode: seq<U8> -> Result<RgbaImage>,
    encodePng: RgbaImage -> Result<seq<U8>>,
    resample: Resampler)

  // ---------------------------------------------------------------------
  // Data URLs

  /**
   * `data.split(',').last().unwrap_or(data)`: the text after the last
   * comma, or all of `data` when it has none.
   */
  function DataUrlPayload(data: string): (p: string)
    ensures ',' !in p
    ensures |p| <= |data| && p == data[|data| - |p|..]
    ensures |p| < |data| ==> data[|data| - |p| - 1] == ','
    ensures ',' !in data ==> p == data
  {
    AfterLast(data, ',')
  }

  /**
   * `decode_data_url`: base64-decode the payload of a data URL. Text
   * without a comma is taken to be bare base64 and decoded whole.
   */
  function DecodeDataUrl(data: string, env: Env): (r: Result<seq<U8>>)
    ensures ',' !in data ==> r == env.base64Decode(data)
  {
    env.base64Decode(DataUrlPayload(data))
  }

  /** Whatever header precedes the last comma, only the text after it is decoded. */
  lemma DecodeIgnoresHeader(header: string, b64: string, env: Env)
    requires ',' !in b64
    ensures DecodeDataUrl(header + "," + b64, env) == DecodeDataUrl(b64, env)
  {
    assert header + "," + b64 == header + [','] + b64;
    AfterLastOfSuffix(header, ',', b64);
  }

  /** The standard base64 alphabet of section 4 of RFC 4648, with its `=` padding. */
  predicate IsBase64Char(ch: char) {
    ('A' <= ch <= 'Z') || ('a' <= ch <= 'z') || ('0' <= ch <= '9') || ch == '+' || ch == '/' || ch == '='
  }

  /** `format!("data:{};base64,{}", mime, b64)` */
  function DataUrl(mime: string, b64: string): string {
    "data:" + mime + ";base64," + b64
  }

  /** Whatever the mime type, the payload of a data URL is its base64 text. */
  lemma PayloadOfDataUrl(mime: string, b64: string)
    requires forall i :: 0 <= i < |b64| ==> IsBase64Char(b64[i])
    ensures DataUrlPayload(DataUrl(mime, b64)) == b64
  {
    assert ',' !in b64 by {
      forall i | 0 <= i < |b64| ensures b64[i] != ',' {
        assert IsBase64Char(b64[i]);
      }
    }
    var head := "data:" + mime + ";base64";
    assert DataUrl(mime, b64) == head + [','] + b64;
    AfterLastOfSuffix(head, ',', b64);
  }

  /** `load_image`: the file's bytes as a base64 data URL whose mime type comes from the extension. */
  function LoadImage(path: string, env: Env): (r: Result<string>)
    ensures env.read(path).Err? <==> r.Err?
    ensures env.read(path).Err? ==> r.error == env.read(path).error
    ensures r.Ok? ==> r.value == DataUrl(MimeType(path), env.base64Encode(env.read(path).value))
  {
    match env.read(path)
    case Err(e) => Err(e)
    case Ok(data) => Ok(DataUrl(MimeType(path), env.base64Encode(data)))
  }

  /**
   * A data URL made by `load_image` decodes, through `decode_data_url`, to
   * the bytes of the file it was made from, provided the base64 codec
   * writes only its own alphabet and decodes what it encodes.
   */
  lemma LoadThenDecode(path: string, env: Env)
    requires forall d :: forall i :: 0 <= i < |env.base64Encode(d)| ==> IsBase64Char(env.base64Encode(d)[i])
    requires forall d :: env.base64Decode(env.base64Encode(d)) == Ok(d)
    requires env.read(path).Ok?
    ensures LoadImage(path, env).Ok? && DecodeDataUrl(LoadImage(path, env).value, env) == env.read(path)
  {
    var b64 := env.base64Encode(env.read(path).value);
    PayloadOfDataUrl(MimeType(path), b64);
  }

  // ---------------------------------------------------------------------
  // PNG pass-through

  /** The 8-byte PNG file signature of section 5.2 of the PNG specification (ISO/IEC 15948). */
  const PngSignature: seq<U8> := [0x89, 0x50, 0x4E, 0x47, 0x0D, 0x0A, 0x1A, 0x0A]

  /** `data.starts_with(PNG_SIGNATURE)` */
  predicate IsPng(data: seq<U8>) {
    |data| >= |PngSignature| && data[..|PngSignature|] == PngSignature
  }

  /**
   * `ensure_png_bytes`: bytes that already start with the PNG signature
   * are returned unchanged and never fail; anything else is decoded and
   * re-encoded as PNG.
   */
  function EnsurePngBytes(data: seq<U8>, env: Env): (r: Result<seq<U8>>)
    ensures IsPng(data) ==> r == Ok(data)
    ensures r.Err? ==> !IsPng(data)
    ensures !IsPng(data) && env.decode(data).Err? ==> r.Err?
  {
    if IsPng(data) then Ok(data)
    else
      match env.decode(data)
      case Err(e) => Err(e)
      case Ok(img) => env.encodePng(img)
  }

  /**
   * With an encoder that writes PNG files, `ensure_png_bytes` always
   * produces PNG bytes, and applying it again changes nothing.
   */
  lemma EnsurePngIdempotent(data: seq<U8>, env: Env)
    requires forall img :: env.encodePng(img).Ok? ==> IsPng(env.encodePng(img).value)
    requires EnsurePngBytes(data, env).Ok?
    ensures IsPng(EnsurePngBytes(data, env).value)
    ensures EnsurePngBytes(EnsurePngBytes(data, env).value, env) == EnsurePngBytes(data, env)
  {
    if !IsPng(data) {
      var img := env.decode(data).value;
      assert EnsurePngBytes(data, env) == env.encodePng(img);
    }
  }

  /** `fs::read`, `ensure_png_bytes` and `load_from_memory(..).to_rgba8()` on one file. */
  function ReadImage(p: string, env: Env): (r: Result<RgbaImage>)
    ensures env.read(p).Err? ==> r.Err?
  {
    match env.read(p)
    case Err(e) => Err(e)
    case Ok(bytes) =>
      match EnsurePngBytes(bytes, env)
      case Err(e) => Err(e)
      case Ok(png) => env.decode(png)
  }

  // ---------------------------------------------------------------------
  // Choosing source files

  /** A path that, once trimmed, is not empty and names a file. */
  predicate Usable(p: string, env: Env) {
    Trim(p) != [] && env.isFile(Trim(p))
  }

  /** The `(PathBuf, bool)` of `resolve_tile_source`: the file chosen and whether it is the original. */
  datatype TileSourcePick = TileSourcePick(path: string, isOriginal: bool)

  function MissingTileError(tile: ExportTile): string {
    "Missing tile files for " + Decimal(tile.r) + "," + Decimal(tile.c) +
    " (processed: " + tile.path + ", original: " + tile.originalPath + ")"
  }

  /**
   * `resolve_tile_source`: the processed file when its trimmed path names
   * a file, otherwise the original file under the same test, otherwise an
   * error naming the cell and both paths as given.
   */
  function ResolveTileSource(tile: ExportTile, env: Env): (r: Result<TileSourcePick>)
    ensures r.Ok? ==> r.value.path != [] && env.isFile(r.value.path)
    ensures r.Err? ==> r.error == MissingTileError(tile)
  {
    var processed := Trim(tile.path);
    if processed != [] && env.isFile(processed) then Ok(TileSourcePick(processed, false))
    else
      var original := Trim(tile.originalPath);
      if original != [] && env.isFile(original) then Ok(TileSourcePick(original, true))
      else Err(MissingTileError(tile))
  }

  /**
   * What `resolve_tile_source` picks: a non-empty trimmed path that names a
   * file; the processed file exactly when it is usable; the original only
   * when the processed file is not; an error exactly when neither is.
   */
  lemma TileSourceChoice(tile: ExportTile, env: Env)
    ensures var r := ResolveTileSource(tile, env);
      (r.Ok? ==> r.value.path != [] && env.isFile(r.value.path)) &&
      (r.Ok? ==> r.value.path == Trim(if r.value.isOriginal then tile.originalPath else tile.path)) &&
      (Usable(tile.path, env) <==> r.Ok? && !r.value.isOriginal) &&
      (r.Err? <==> !Usable(tile.path, env) && !Usable(tile.originalPath, env)) &&
      (r.Err? ==> r.error == MissingTileError(tile))
  {
  }

  /** The file name looked for beside a tile's original: `original_source.png`. */
  const SourceFileName: string := "original_source.png"

  /** `parent.join("original_source.png")` for a tile whose trimmed original path is not empty and has a parent. */
  function SourceCandidate(t: ExportTile, env: Env): Option<string> {
    var original := Trim(t.originalPath);
    if original == [] then None
    else
      match Parent(original)
      case None => None
      case Some(dir) => Some(Join(dir, SourceFileName))
  }

  /** The tile offers a candidate and that candidate is a file. */
  predicate Hit(t: ExportTile, env: Env) {
    SourceCandidate(t, env).Some? && env.isFile(SourceCandidate(t, env).value)
  }

  /** The candidate of the first tile, in order, that offers a candidate that is a file. */
  function FirstSource(tiles: seq<ExportTile>, env: Env): (r: Option<string>)
    ensures r.None? <==> forall i :: 0 <= i < |tiles| ==> !Hit(tiles[i], env)
    ensures r.Some? ==> env.isFile(r.value)
  {
    if tiles == [] then None
    else if Hit(tiles[0], env) then SourceCandidate(tiles[0], env)
    else
      assert forall i :: 1 <= i < |tiles| ==> tiles[i] == tiles[1..][i - 1];
      FirstSource(tiles[1..], env)
  }

  /** The first hit decides: later tiles are never looked at. */
  lemma {:induction false} FirstSourceIs(tiles: seq<ExportTile>, env: Env, i: nat)
    requires i < |tiles| && Hit(tiles[i], env)
    requires forall j :: 0 <= j < i ==> !Hit(tiles[j], env)
    ensures FirstSource(tiles, env) == SourceCandidate(tiles[i], env)
  {
    if i > 0 {
      assert !Hit(tiles[0], env);
      forall j | 0 <= j < i - 1 ensures !Hit(tiles[1..][j], env) {
        assert tiles[1..][j] == tiles[j + 1];
      }
      FirstSourceIs(tiles[1..], env, i - 1);
    }
  }

  /**
   * `resolve_input_source_path`: the trimmed explicit path when it names a
   * file, otherwise `FirstSource` over the tiles.
   */
  function InputSource(input: Option<string>, tiles: seq<ExportTile>, env: Env): (r: Option<string>)
    ensures input.Some? && Usable(input.value, env) ==> r == Some(Trim(input.value))
    ensures r.Some? ==> env.isFile(r.value)
    ensures r.None? <==> !(input.Some? && Usable(input.value, env)) && forall i :: 0 <= i < |tiles| ==> !Hit(tiles[i], env)
  {
    if input.Some? && Usable(input.value, env) then Some(Trim(input.value))
    else FirstSource(tiles, env)
  }

  /** The explicit path is tried first; then the tiles in order, returning at the first hit. */
  method ResolveInputSourcePath(input: Option<string>, tiles: seq<ExportTile>, env: Env) returns (r: Option<string>)
    ensures r == InputSource(input, tiles, env)
  {
    if input.Some? {
      var path := Trim(input.value);
      if path != [] && env.isFile(path) {
        return Some(path);
      }
    }
    var i := 0;
    while i < |tiles|
      invariant i <= |tiles|
      invariant forall j :: 0 <= j < i ==> !Hit(tiles[j], env)
    {
      var candidate := SourceCandidate(tiles[i], env);
      if candidate.Some? && env.isFile(candidate.value) {
        FirstSourceIs(tiles, env, i);
        return candidate;
      }
      i := i + 1;
    }
    return None;
  }

  // ---------------------------------------------------------------------
  // The PSD document

  /** A decoded tile ready to become a layer: `LayerExport`. */
  datatype LayerExport = LayerExport(tile: ExportTile, image: RgbaImage)

  /** One layer of the PSD document: its name, its pixels and its offset. */
  datatype PsdLayer = PsdLayer(name: string, image: RgbaImage, left: nat, top: nat)

  /** The PSD document being assembled: its layers, bottom first. */
  class Document {
    var layers: seq<PsdLayer>

    constructor ()
      ensures layers == []
    {
      layers := [];
    }

    method Push(layer: PsdLayer)
      modifies this
      ensures layers == old(layers) + [layer]
    {
      layers := layers + [layer];
    }
  }

  /** `format!("Tile r{} c{}", r, c)` */
  function TileLayerName(r: U32, c: U32): string {
    "Tile r" + Decimal(r) + " c" + Decimal(c)
  }

  function TileLayer(l: LayerExport): PsdLayer {
    PsdLayer(TileLayerName(l.tile.r, l.tile.c), l.image, l.tile.x, l.tile.y)
  }

  /**
   * The layers `write_psd` pushes: "Input Source" and "Merged Result", both
   * at the origin, then one layer per tile, in the order given, at the
   * tile's offset.
   */
  function PsdLayers(source: RgbaImage, merged: RgbaImage, layers: seq<LayerExport>): (ls: seq<PsdLayer>)
    ensures |ls| == |layers| + 2
    ensures ls[0] == PsdLayer("Input Source", source, 0, 0) && ls[1] == PsdLayer("Merged Result", merged, 0, 0)
    ensures forall k :: 0 <= k < |layers| ==> ls[k + 2] == TileLayer(layers[k])
  {
    [PsdLayer("Input Source", source, 0, 0), PsdLayer("Merged Result", merged, 0, 0)] +
    seq(|layers|, k requires 0 <= k < |layers| => TileLayer(layers[k]))
  }

  /** `write_psd`, up to the save: a new document holding the layers of `PsdLayers`. */
  method WritePsd(source: RgbaImage, merged: RgbaImage, layers: seq<LayerExport>) returns (doc: Document)
    ensures fresh(doc) && doc.layers == PsdLayers(source, merged, layers)
  {
    doc := new Document();
    doc.Push(PsdLayer("Input Source", source, 0, 0));
    doc.Push(PsdLayer("Merged Result", merged, 0, 0));
    var i := 0;
    while i < |layers|
      invariant i <= |layers| && |doc.layers| == i + 2
      invariant doc.layers[0] == PsdLayer("Input Source", source, 0, 0)
      invariant doc.layers[1] == PsdLayer("Merged Result", merged, 0, 0)
      invariant forall k :: 0 <= k < i ==> doc.layers[k + 2] == TileLayer(layers[k])
    {
      doc.Push(TileLayer(layers[i]));
      i := i + 1;
    }
    ghost var want := PsdLayers(source, merged, layers);
    assert forall k :: 2 <= k < |want| ==> doc.layers[k] == want[k] by {
      forall k | 2 <= k < |want| ensures doc.layers[k] == want[k] {
        assert doc.layers[(k - 2) + 2] == TileLayer(layers[k - 2]);
      }
    }
  }

  /** Tiles in different cells get differently named layers. */
  lemma {:induction false} TileLayerNameInjective(r1: U32, c1: U32, r2: U32, c2: U32)
    requires TileLayerName(r1, c1) == TileLayerName(r2, c2)
    ensures r1 == r2 && c1 == c2
  {
    var n := TileLayerName(r1, c1);
    var a1, a2 := "Tile r" + Decimal(r1), "Tile r" + Decimal(r2);
    assert Decimal(c1) == Decimal(c2) by {
      assert ' ' !in Decimal(c1) && ' ' !in Decimal(c2) by {
        assert !IsDigit(' ');
      }
      assert n == (a1 + " ") + ['c'] + Decimal(c1);
      assert n == (a2 + " ") + ['c'] + Decimal(c2);
      assert 'c' !in Decimal(c1) && 'c' !in Decimal(c2) by {
        assert !IsDigit('c');
      }
      AfterLastOfSuffix(a1 + " ", 'c', Decimal(c1));
      AfterLastOfSuffix(a2 + " ", 'c', Decimal(c2));
    }
    DecimalInjective(c1, c2);
    assert Decimal(r1) == Decimal(r2) by {
      assert |a1| == |a2|;
      assert a1 == n[..|a1|] && a2 == n[..|a2|];
      assert Decimal(r1) == a1[6..] && Decimal(r2) == a2[6..];
    }
    DecimalInjective(r1, r2);
  }

  // ---------------------------------------------------------------------
  // save_export_bundle

  /** The sort key of an export tile: `(t.r, t.c)`. */
  function ExportKey(t: ExportTile): GridKey {
    GridKey(t.r, t.c)
  }

  /**
   * `parent/stem.psd`: beside the output file (in `.` when the path has no
   * parent), named after the output's stem, or `upscaled_image` when it
   * has none.
   */
  function PsdPath(path: string): (r: string)
    ensures |r| >= 5 && r[|r| - 4..] == ".psd"
  {
    var dir := Parent(path).GetOr(".");
    var stem := FileStem(path);
    Join(dir, (if stem.Some? && stem.value != [] then stem.value else DefaultStem) + "." + PsdExtension)
  }

  const DefaultStem: string := "upscaled_image"
  const PsdExtension: string := "psd"

  /** The PSD file is named after the output file: same stem, extension `psd`. */
  lemma PsdNamedAfterOutput(path: string)
    ensures FileStem(PsdPath(path)) == Some(FileStem(path).GetOr(DefaultStem))
    ensures Extension(PsdPath(path)) == Some(PsdExtension)
  {
    var stem := FileStem(path).GetOr(DefaultStem);
    var dir := Parent(path).GetOr(".");
    PsdStemUsable(path);
    PsdExtensionUsable();
    PsdPathJoin(path);
    NamedFile(dir, stem, PsdExtension);
  }

  /** The stem the PSD file takes is a non-empty name without a separator. */
  lemma PsdStemUsable(path: string)
    ensures var stem := FileStem(path).GetOr(DefaultStem); stem != [] && '/' !in stem
  {
    if FileStem(path).None? {
      assert forall i :: 0 <= i < |DefaultStem| ==> DefaultStem[i] != '/';
    } else {
      FileStemNoSeparator(path);
    }
  }

  lemma PsdExtensionUsable()
    ensures PsdExtension != [] && '/' !in PsdExtension && '.' !in PsdExtension
  {
    assert PsdExtension[0] == 'p' && PsdExtension[1] == 's' && PsdExtension[2] == 'd';
  }

  /** The PSD file lies beside the output file: its parent is the output's parent, or `.` when the output has none. */
  lemma PsdBesideOutput(path: string)
    ensures Parent(PsdPath(path)) == Some(Parent(path).GetOr("."))
  {
    var dir := Parent(path).GetOr(".");
    PsdNamePlain(path);
    PsdPathJoin(path);
    ParentOfJoin(dir, FileStem(path).GetOr(DefaultStem) + "." + PsdExtension);
    if Parent(path).Some? {
      ParentTrimmed(path);
    } else {
      assert TrimTail(dir) == dir;
    }
  }

  /** `{stem}.psd` is a plain file name: not empty, not `.`, without a separator. */
  lemma PsdNamePlain(path: string)
    ensures var name := FileStem(path).GetOr(DefaultStem) + "." + PsdExtension;
      name != [] && '/' !in name && name != "."
  {
    var stem := FileStem(path).GetOr(DefaultStem);
    var name := stem + "." + PsdExtension;
    PsdStemUsable(path);
    PsdExtensionUsable();
    assert |name| > 1;
    forall i | 0 <= i < |name| ensures name[i] != '/' {
      if i < |stem| { assert name[i] == stem[i]; }
      else if i > |stem| { assert name[i] == PsdExtension[i - |stem| - 1]; }
    }
  }

  /** The PSD path is the output's directory joined with `{stem}.psd`. */
  lemma PsdPathJoin(path: string)
    ensures PsdPath(path) == Join(Parent(path).GetOr("."), FileStem(path).GetOr(DefaultStem) + "." + PsdExtension)
  {
  }

  datatype Bundle = Bundle(mergedPath: string, psdPath: string, tileCount: nat,
                           mergedPng: seq<U8>, layers: seq<LayerExport>, psd: seq<PsdLayer>)

  const NoTilesError: string := "No tile metadata available for export."
  const NoSourceError: string := "Failed to resolve input source image for PSD export."

  /**
   * The body of the tile loop for one tile: the file `resolve_tile_source`
   * picks, read and decoded and brought to the tile's extent; or the
   * error of whichever of those steps fails first.
   */
  function LayerOf(tile: ExportTile, env: Env): (r: Result<LayerExport>)
    ensures r.Ok? ==> r.value.tile == tile && r.value.image.width == tile.width && r.value.image.height == tile.height
    ensures r.Ok? ==> (ResolveTileSource(tile, env).Ok? && ReadImage(ResolveTileSource(tile, env).value.path, env).Ok? &&
      r.value.image == Fit(ReadImage(ResolveTileSource(tile, env).value.path, env).value, tile.width, tile.height, env.resample))
    ensures ResolveTileSource(tile, env).Err? ==> r == Err(ResolveTileSource(tile, env).error)
    ensures ResolveTileSource(tile, env).Ok? && ReadImage(ResolveTileSource(tile, env).value.path, env).Err? ==>
      r == Err(ReadImage(ResolveTileSource(tile, env).value.path, env).error)
  {
    match ResolveTileSource(tile, env)
    case Err(e) => Err(e)
    case Ok(pick) =>
      match ReadImage(pick.path, env)
      case Err(e) => Err(e)
      case Ok(img) => Ok(LayerExport(tile, Fit(img, tile.width, tile.height, env.resample)))
  }

  /** The tile loop: every tile's layer, in order, or the error of the first tile that fails. */
  function LayersOf(tiles: seq<ExportTile>, env: Env): (res: Result<seq<LayerExport>>)
    ensures res.Ok? ==> |res.value| == |tiles|
    ensures res.Ok? ==> forall i :: 0 <= i < |tiles| ==> LayerOf(tiles[i], env) == Ok(res.value[i])
    ensures res.Err? <==> exists i :: 0 <= i < |tiles| && LayerOf(tiles[i], env).Err?
  {
    if tiles == [] then Ok([])
    else
      assert forall i :: 1 <= i < |tiles| ==> tiles[i] == tiles[1..][i - 1];
      match LayerOf(tiles[0], env)
      case Err(e) => Err(e)
      case Ok(l) =>
        match LayersOf(tiles[1..], env)
        case Err(e) => Err(e)
        case Ok(ls) => Ok([l] + ls)
  }

  /** When every tile before `i` loads and tile `i` fails, the loop stops with tile `i`'s error. */
  lemma {:induction false} LayersOfFirstError(tiles: seq<ExportTile>, env: Env, i: nat)
    requires i < |tiles| && LayerOf(tiles[i], env).Err?
    requires forall j :: 0 <= j < i ==> LayerOf(tiles[j], env).Ok?
    ensures LayersOf(tiles, env) == Err(LayerOf(tiles[i], env).error)
  {
    if i > 0 {
      assert LayerOf(tiles[0], env).Ok?;
      forall j | 0 <= j < i - 1 ensures LayerOf(tiles[1..][j], env).Ok? {
        assert tiles[1..][j] == tiles[j + 1];
      }
      LayersOfFirstError(tiles[1..], env, i - 1);
    }
  }

  /** When every tile loads, the loop yields their layers in order. */
  lemma LayersOfLoaded(tiles: seq<ExportTile>, env: Env, layers: seq<LayerExport>)
    requires |layers| == |tiles|
    requires forall j :: 0 <= j < |tiles| ==> LayerOf(tiles[j], env) == Ok(layers[j])
    ensures LayersOf(tiles, env) == Ok(layers)
  {
    var all := LayersOf(tiles, env);
    assert all.Ok?;
    assert all.value == layers;
  }

  /** The layers made so far, extended by the next tile's layer. */
  lemma LayersStep(tiles: seq<ExportTile>, env: Env, layers: seq<LayerExport>, l: LayerExport)
    requires |layers| < |tiles| && LayerOf(tiles[|layers|], env) == Ok(l)
    requires forall j :: 0 <= j < |layers| ==> LayerOf(tiles[j], env) == Ok(layers[j])
    ensures forall j :: 0 <= j <= |layers| ==> LayerOf(tiles[j], env) == Ok((layers + [l])[j])
  {
  }

  /** `for tile in sorted_tiles { .. layers.push(..) }`, returning at the first failing tile. */
  method LoadLayers(tiles: seq<ExportTile>, env: Env) returns (res: Result<seq<LayerExport>>)
    ensures res == LayersOf(tiles, env)
  {
    var layers: seq<LayerExport> := [];
    var i := 0;
    while i < |tiles|
      invariant i <= |tiles| && |layers| == i
      invariant forall j :: 0 <= j < i ==> LayerOf(tiles[j], env) == Ok(layers[j])
    {
      var pick := ResolveTileSource(tiles[i], env);
      if pick.Err? {
        LayersOfFirstError(tiles, env, i);
        return Err(pick.error);
      }
      var img := ReadImage(pick.value.path, env);
      if img.Err? {
        LayersOfFirstError(tiles, env, i);
        return Err(img.error);
      }
      var image := img.value;
      if image.width != tiles[i].width || image.height != tiles[i].height {
        image := ResizeExact(image, tiles[i].width, tiles[i].height, env.resample);
      }
      var l := LayerExport(tiles[i], image);
      LayersStep(tiles, env, layers, l);
      layers := layers + [l];
      i := i + 1;
    }
    LayersOfLoaded(tiles, env, layers);
    return Ok(layers);
  }

  /**
   * The bytes written to the output file: the merged data URL decoded and
   * passed through `ensure_png_bytes`, so a PNG payload is written as sent.
   */
  function MergedPng(mergedUrl: string, env: Env): (r: Result<seq<U8>>)
    ensures DecodeDataUrl(mergedUrl, env).Err? ==> r == Err(DecodeDataUrl(mergedUrl, env).error)
    ensures DecodeDataUrl(mergedUrl, env).Ok? && IsPng(DecodeDataUrl(mergedUrl, env).value) ==>
      r == DecodeDataUrl(mergedUrl, env)
    ensures r.Ok? ==> DecodeDataUrl(mergedUrl, env).Ok?
  {
    match DecodeDataUrl(mergedUrl, env)
    case Err(e) => Err(e)
    case Ok(raw) => EnsurePngBytes(raw, env)
  }

  /**
   * The rest of the export once the merged image is decoded: the input
   * image is found among the sorted tiles and brought to the merged
   * image's extent, every tile becomes a layer, and the PSD gets the input,
   * the merged image and the tile layers.
   */
  function Assemble(path: string, png: seq<U8>, merged: RgbaImage, sorted: seq<ExportTile>, sourcePath: Option<string>, env: Env): (r: Result<Bundle>)
    ensures r.Ok? ==> r.value.mergedPath == path && r.value.psdPath == PsdPath(path) && r.value.mergedPng == png
    ensures r.Ok? ==> LayersOf(sorted, env) == Ok(r.value.layers) && r.value.tileCount == |r.value.layers|
    ensures r.Ok? ==> (InputSource(sourcePath, sorted, env).Some? && ReadImage(InputSource(sourcePath, sorted, env).value, env).Ok? &&
      r.value.psd == PsdLayers(Fit(ReadImage(InputSource(sourcePath, sorted, env).value, env).value, merged.width, merged.height, env.resample),
                                merged, r.value.layers))
    ensures InputSource(sourcePath, sorted, env).None? ==> r == Err(NoSourceError)
    ensures InputSource(sourcePath, sorted, env).Some? && ReadImage(InputSource(sourcePath, sorted, env).value, env).Err? ==>
      r == Err(ReadImage(InputSource(sourcePath, sorted, env).value, env).error)
  {
    match InputSource(sourcePath, sorted, env)
    case None => Err(NoSourceError)
    case Some(src) =>
      match ReadImage(src, env)
      case Err(e) => Err(e)
      case Ok(source) =>
        match LayersOf(sorted, env)
        case Err(e) => Err(e)
        case Ok(layers) =>
          Ok(Bundle(path, PsdPath(path), |layers|, png, layers, PsdLayers(Fit(source, merged.width, merged.height, env.resample), merged, layers)))
  }

  /**
   * `save_export_bundle` on an output path, the merged image as a data
   * URL, the tiles and the optional explicit input path: an empty tile
   * list is refused, then the merged image is made PNG and decoded, and the
   * tiles are taken in `(r, c)` order for the rest.
   */
  function ExportBundle(path: string, mergedUrl: string, tiles: seq<ExportTile>, sourcePath: Option<string>, env: Env): (r: Result<Bundle>)
    ensures tiles == [] ==> r == Err(NoTilesError)
    ensures r.Ok? ==> (MergedPng(mergedUrl, env) == Ok(r.value.mergedPng) && env.decode(r.value.mergedPng).Ok? &&
      r == Assemble(path, r.value.mergedPng, env.decode(r.value.mergedPng).value, SortByKey(tiles, ExportKey), sourcePath, env))
  {
    if tiles == [] then Err(NoTilesError)
    else
      match MergedPng(mergedUrl, env)
      case Err(e) => Err(e)
      case Ok(png) =>
        match env.decode(png)
        case Err(e) => Err(e)
        case Ok(merged) => Assemble(path, png, merged, SortByKey(tiles, ExportKey), sourcePath, env)
  }

  /**
   * A successful export reports one layer per input tile. The PSD starts
   * with the input image, fitted to the merged image's extent, and the
   * merged image decoded from the PNG bytes written out, both at the
   * origin; its tile layers hold exactly the input tiles, each once, in
   * `(r, c)` order, each at its tile's offset with its tile's extent.
   */
  lemma ExportLayers(path: string, mergedUrl: string, tiles: seq<ExportTile>, sourcePath: Option<string>, env: Env)
    requires ExportBundle(path, mergedUrl, tiles, sourcePath, env).Ok?
    ensures var b := ExportBundle(path, mergedUrl, tiles, sourcePath, env).value;
      var src := InputSource(sourcePath, SortByKey(tiles, ExportKey), env);
      MergedPng(mergedUrl, env) == Ok(b.mergedPng) && env.decode(b.mergedPng).Ok? &&
      src.Some? && ReadImage(src.value, env).Ok? && |b.psd| >= 2 &&
      var merged := env.decode(b.mergedPng).value;
      b.psd[0] == PsdLayer("Input Source", Fit(ReadImage(src.value, env).value, merged.width, merged.height, env.resample), 0, 0) &&
      b.psd[1] == PsdLayer("Merged Result", merged, 0, 0)
    ensures var b := ExportBundle(path, mergedUrl, tiles, sourcePath, env).value;
      b.tileCount == |tiles| && |b.psd| == |tiles| + 2 &&
      SortedBy(TilesOf(b.layers), ExportKey) && multiset(TilesOf(b.layers)) == multiset(tiles) &&
      forall k :: 0 <= k < |tiles| ==>
        var t := b.layers[k].tile;
        b.psd[k + 2] == PsdLayer(TileLayerName(t.r, t.c), b.layers[k].image, t.x, t.y) &&
        b.layers[k].image.width == t.width && b.layers[k].image.height == t.height
  {
    var b := ExportBundle(path, mergedUrl, tiles, sourcePath, env).value;
    var sorted := SortByKey(tiles, ExportKey);
    assert LayersOf(sorted, env) == Ok(b.layers);
    assert TilesOf(b.layers) == sorted by {
      forall k | 0 <= k < |sorted| ensures TilesOf(b.layers)[k] == sorted[k] {
        assert LayerOf(sorted[k], env) == Ok(b.layers[k]);
      }
    }
  }

  /** The tiles of a list of layers, in order. */
  function TilesOf(layers: seq<LayerExport>): (ts: seq<ExportTile>)
    ensures |ts| == |layers| && forall k :: 0 <= k < |layers| ==> ts[k] == layers[k].tile
  {
    seq(|layers|, k requires 0 <= k < |layers| => layers[k].tile)
  }

  /**
   * A successful export writes PNG bytes to the output file (given an
   * encoder that writes PNG files) and names the PSD after the output file.
   */
  lemma ExportFiles(path: string, mergedUrl: string, tiles: seq<ExportTile>, sourcePath: Option<string>, env: Env)
    requires forall img :: env.encodePng(img).Ok? ==> IsPng(env.encodePng(img).value)
    requires ExportBundle(path, mergedUrl, tiles, sourcePath, env).Ok?
    ensures var b := ExportBundle(path, mergedUrl, tiles, sourcePath, env).value;
      b.mergedPath == path && IsPng(b.mergedPng) &&
      FileStem(b.psdPath) == Some(FileStem(path).GetOr(DefaultStem)) && Extension(b.psdPath) == Some(PsdExtension)
  {
    var b := ExportBundle(path, mergedUrl, tiles, sourcePath, env).value;
    assert b.mergedPath == path && b.psdPath == PsdPath(path);
    var raw := DecodeDataUrl(mergedUrl, env).value;
    assert EnsurePngBytes(raw, env) == Ok(b.mergedPng);
    EnsurePngIdempotent(raw, env);
    PsdNamedAfterOutput(path);
  }

  /**
   * When neither the explicit path nor any tile leads to an input image,
   * an export whose merged image decodes fails with the resolution error.
   */
  lemma ExportWithoutSource(path: string, mergedUrl: string, tiles: seq<ExportTile>, sourcePath: Option<string>, env: Env)
    requires tiles != []
    requires MergedPng(mergedUrl, env).Ok? && env.decode(MergedPng(mergedUrl, env).value).Ok?
    requires !(sourcePath.Some? && Usable(sourcePath.value, env))
    requires forall i :: 0 <= i < |tiles| ==> !Hit(tiles[i], env)
    ensures ExportBundle(path, mergedUrl, tiles, sourcePath, env) == Err(NoSourceError)
  {
    var sorted := SortByKey(tiles, ExportKey);
    forall i | 0 <= i < |sorted| ensures !Hit(sorted[i], env) {
      assert sorted[i] in multiset(sorted);
    }
  }

  /** `save_export_bundle`, with the tile loop and the PSD document written out step by step. */
  method SaveExportBundle(path: string, mergedUrl: string, tiles: seq<ExportTile>, sourcePath: Option<string>, env: Env)
    returns (r: Result<Bundle>)
    ensures r == ExportBundle(path, mergedUrl, tiles, sourcePath, env)
  {
    if tiles == [] {
      return Err(NoTilesError);
    }
    var psdPath := PsdPath(path);
    var raw := DecodeDataUrl(mergedUrl, env);
    if raw.Err? {
      return Err(raw.error);
    }
    var mergedPng := EnsurePngBytes(raw.value, env);
    if mergedPng.Err? {
      return Err(mergedPng.error);
    }
    var merged := env.decode(mergedPng.value);
    if merged.Err? {
      return Err(merged.error);
    }
    var sorted := SortByKey(tiles, ExportKey);
    var src := ResolveInputSourcePath(sourcePath, sorted, env);
    if src.None? {
      return Err(NoSourceError);
    }
    var source := ReadImage(src.value, env);
    if source.Err? {
      return Err(source.error);
    }
    var input := source.value;
    if input.width != merged.value.width || input.height != merged.value.height {
      input := ResizeExact(input, merged.value.width, merged.value.height, env.resample);
    }
    var layers := LoadLayers(sorted, env);
    if layers.Err? {
      return Err(layers.error);
    }
    var doc := WritePsd(input, merged.value, layers.value);
    return Ok(Bundle(path, psdPath, |layers.value|, mergedPng.value, layers.value, doc.layers));
  }
}
