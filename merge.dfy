/**
 * `merge_tiles`: reassemble the processed tiles of one split into an image
 * of the original size. The grid size is read off the largest row and
 * column index among the tiles, the layout is recomputed exactly as
 * `split_image` computed it, every tile is loaded (falling back to the
 * unprocessed `orig_tile_*` file when the processed one is missing) and
 * resized to its expected extent, and the tiles are composited in `(r, c)`
 * order onto a transparent canvas.
 */
module Merge {
  import opened Bytes
  import opened Wrappers
  import opened Geometry
  import opened Paths
  import opened Sorting
  import opened KeyColor
  import opened Composite
  import opened Flatten
  import opened Split

  /** One `(r, c, path)` entry of `tile_paths`. */
  datatype TilePath = TilePath(r: U32, c: U32, path: string)

  /**
   * What `merge_tiles` asks of the file system and the image codecs:
   * `Path::exists`, `image::open(..).to_rgba8()` (with its error text) and
   * the Lanczos3 resampler, as the pixel it produces at `(x, y)` of a `w`
   * by `h` resize.
   */
  datatype Host = Host(
    pathExists: string -> bool,
    openImage: string -> Result<RgbaImage>,
    resample: Resampler)

  /** The key colour settings `merge_tiles` is called with. */
  datatype Keying = Keying(keyColor: string, removeBg: bool, tolerance: U8)

  /** `TileJob`: a tile to load, where it goes and the extent it must have. */
  datatype TileJob = TileJob(r: U32, c: U32, startX: U32, startY: U32, expectedW: U32, expectedH: U32, path: string)

  /** What is handed to the encoder: the RGBA canvas as PNG, or its RGB flattening as JPEG at `quality`. */
  datatype Encoded = PngData(image: RgbaImage) | JpegData(width: U32, height: U32, rgb: seq<U8>, quality: U8)

  /** `iter().map(key).max().unwrap_or(0)` */
  function MaxOf(tps: seq<TilePath>, key: TilePath -> U32): (m: U32)
    ensures forall i :: 0 <= i < |tps| ==> key(tps[i]) <= m
    ensures tps != [] ==> exists i :: 0 <= i < |tps| && key(tps[i]) == m
    ensures tps == [] ==> m == 0
  {
    if tps == [] then 0
    else
      var m := MaxOf(tps[1..], key);
      assert forall i :: 1 <= i < |tps| ==> tps[i] == tps[1..][i - 1];
      if key(tps[0]) >= m then key(tps[0]) else m
  }

  function RowOf(tp: TilePath): U32 { tp.r }

  function ColOf(tp: TilePath): U32 { tp.c }

  /** `max_r + 1`, a `u32` addition that wraps around in a release build. */
  function GridRows(tps: seq<TilePath>): U32 {
    var m := MaxOf(tps, RowOf);
    if m < U32_MAX then m + 1 else 0
  }

  /** `max_c + 1` */
  function GridCols(tps: seq<TilePath>): U32 {
    var m := MaxOf(tps, ColOf);
    if m < U32_MAX then m + 1 else 0
  }

  /**
   * The `filter_map` closure: the tile in row `r`, column `c` is placed
   * where `split_image` cut it, and dropped when that rectangle is empty.
   */
  function JobOf(tp: TilePath, lay: Layout, w: U32, h: U32): (j: Option<TileJob>)
    ensures j.Some? ==> j.value.r == tp.r && j.value.c == tp.c && j.value.path == tp.path
    ensures j.Some? ==>
      Rect(j.value.startX, j.value.startY, j.value.expectedW, j.value.expectedH) == TileRect(lay, w, h, tp.r, tp.c)
    ensures j.None? <==> TileRect(lay, w, h, tp.r, tp.c).width == 0 || TileRect(lay, w, h, tp.r, tp.c).height == 0
  {
    var sx := Place(lay.x, w, tp.c);
    var sy := Place(lay.y, h, tp.r);
    if sx.extent == 0 || sy.extent == 0 then None
    else Some(TileJob(tp.r, tp.c, sx.origin, sy.origin, sx.extent, sy.extent, tp.path))
  }

  /** `jobs`: the placed tiles, in the order of `tile_paths`. */
  function Jobs(tps: seq<TilePath>, lay: Layout, w: U32, h: U32): (jobs: seq<TileJob>)
    ensures |jobs| <= |tps|
  {
    if tps == [] then []
    else
      var rest := Jobs(tps[1..], lay, w, h);
      match JobOf(tps[0], lay, w, h)
      case None => rest
      case Some(j) => [j] + rest
  }

  /**
   * Once the image is known to be non-empty and the layout is valid, no
   * tile is dropped: every job is the placement of the tile at the same
   * index. So `jobs` is never empty there and the "No valid tiles to merge"
   * error cannot be returned.
   */
  lemma {:induction false} NoTileDropped(tps: seq<TilePath>, lay: Layout, w: U32, h: U32)
    requires w > 0 && h > 0 && lay.x.tile >= 1 && lay.y.tile >= 1
    ensures |Jobs(tps, lay, w, h)| == |tps|
    ensures forall i :: 0 <= i < |tps| ==> JobOf(tps[i], lay, w, h) == Some(Jobs(tps, lay, w, h)[i])
  {
    if tps != [] {
      NoTileDropped(tps[1..], lay, w, h);
      var rest := Jobs(tps[1..], lay, w, h);
      assert JobOf(tps[0], lay, w, h).Some?;
      assert Jobs(tps, lay, w, h) == [JobOf(tps[0], lay, w, h).value] + rest;
      forall i | 1 <= i < |tps| ensures JobOf(tps[i], lay, w, h) == Some(Jobs(tps, lay, w, h)[i]) {
        assert tps[i] == tps[1..][i - 1];
      }
    }
  }

  /** The extensions tried, in order, for the unprocessed copy of a missing tile. */
  const FallbackExtensions: seq<string> := ["png", "jpg", "jpeg"]

  /** `dir.join(format!("orig_tile_{}_{}.{}", r, c, ext))` */
  function FallbackCandidate(dir: string, r: U32, c: U32, ext: string): string {
    Join(dir, TileFileName("orig_tile_", r, c, ext))
  }

  function Candidates(dir: string, r: U32, c: U32): (cs: seq<string>)
    ensures |cs| == |FallbackExtensions|
  {
    seq(|FallbackExtensions|, i requires 0 <= i < |FallbackExtensions| => FallbackCandidate(dir, r, c, FallbackExtensions[i]))
  }

  /** The first of `cands` that exists. */
  function FirstExisting(cands: seq<string>, ex: string -> bool): (o: Option<string>)
    ensures o.None? <==> forall i :: 0 <= i < |cands| ==> !ex(cands[i])
    ensures o.Some? ==> o.value in cands && ex(o.value)
  {
    if cands == [] then None
    else if ex(cands[0]) then Some(cands[0])
    else
      assert forall i :: 1 <= i < |cands| ==> cands[i] == cands[1..][i - 1];
      FirstExisting(cands[1..], ex)
  }

  /** The candidate at `i` is found when it exists and none before it does. */
  lemma {:induction false} FirstExistingIs(cands: seq<string>, ex: string -> bool, i: nat)
    requires i < |cands| && ex(cands[i])
    requires forall j :: 0 <= j < i ==> !ex(cands[j])
    ensures FirstExisting(cands, ex) == Some(cands[i])
  {
    if i > 0 {
      assert !ex(cands[0]);
      FirstExistingIs(cands[1..], ex, i - 1);
    }
  }

  /** The error for a cell neither of whose files exists. */
  function BothMissing(r: U32, c: U32): string {
    "Tile result and original both missing for " + Decimal(r) + "," + Decimal(c)
  }

  /**
   * The file a job is read from: its own path when that exists, otherwise
   * the first unprocessed copy found in its parent directory. It fails
   * with "Invalid tile path" when the path has no parent, and names the
   * cell when none of the copies exists either.
   */
  function TileSource(job: TileJob, host: Host): (res: Result<string>)
    ensures host.pathExists(job.path) ==> res == Ok(job.path)
    ensures res.Ok? ==> host.pathExists(res.value)
    ensures res.Ok? ==> (res.value == job.path ||
      (Parent(job.path).Some? && res.value in Candidates(Parent(job.path).value, job.r, job.c)))
    ensures !host.pathExists(job.path) && Parent(job.path).None? ==> res == Err("Invalid tile path")
    ensures !host.pathExists(job.path) && Parent(job.path).Some? ==>
      (res.Err? <==> FirstExisting(Candidates(Parent(job.path).value, job.r, job.c), host.pathExists).None?)
    ensures res.Err? && Parent(job.path).Some? ==> res.error == BothMissing(job.r, job.c)
  {
    if host.pathExists(job.path) then Ok(job.path)
    else
      match Parent(job.path)
      case None => Err("Invalid tile path")
      case Some(dir) =>
        match FirstExisting(Candidates(dir, job.r, job.c), host.pathExists)
        case None => Err(BothMissing(job.r, job.c))
        case Some(p) => Ok(p)
  }

  /**
   * A job whose own file is missing is read from the first fallback
   * candidate that exists.
   */
  lemma TileSourceFallback(job: TileJob, host: Host, dir: string, i: nat)
    requires !host.pathExists(job.path) && Parent(job.path) == Some(dir)
    requires i < |FallbackExtensions| && host.pathExists(Candidates(dir, job.r, job.c)[i])
    requires forall j :: 0 <= j < i ==> !host.pathExists(Candidates(dir, job.r, job.c)[j])
    ensures TileSource(job, host) == Ok(Candidates(dir, job.r, job.c)[i])
  {
    FirstExistingIs(Candidates(dir, job.r, job.c), host.pathExists, i);
  }

  /**
   * A tile `split_image` wrote whose processed file has gone missing is
   * read from the unprocessed copy `split_image` wrote beside it (for a
   * JPEG split, provided no PNG copy of the same cell shadows it). The
   * output directory is spelled as `Path::parent` gives a directory back:
   * without trailing separators or `.` components.
   */
  lemma FallbackFindsSplitOriginal(cfg: TileConfig, dir: string, preferJpeg: bool, job: TileJob, host: Host)
    requires job.r == cfg.r && job.c == cfg.c
    requires job.path == Describe(cfg, dir, TileExtension(preferJpeg)).path
    requires TrimTail(dir) == dir
    requires !host.pathExists(job.path)
    requires host.pathExists(Describe(cfg, dir, TileExtension(preferJpeg)).originalPath)
    requires preferJpeg ==> !host.pathExists(FallbackCandidate(dir, cfg.r, cfg.c, FallbackExtensions[0]))
    ensures TileSource(job, host) == Ok(Describe(cfg, dir, TileExtension(preferJpeg)).originalPath)
  {
    SplitTileDir(cfg, dir, preferJpeg, job.path);
    FallbackFindsOriginalIn(cfg, dir, preferJpeg, job, host);
  }

  /** `FallbackFindsSplitOriginal`, once the job's parent directory is known to be `dir`. */
  lemma FallbackFindsOriginalIn(cfg: TileConfig, dir: string, preferJpeg: bool, job: TileJob, host: Host)
    requires job.r == cfg.r && job.c == cfg.c
    requires !host.pathExists(job.path) && Parent(job.path) == Some(dir)
    requires host.pathExists(Describe(cfg, dir, TileExtension(preferJpeg)).originalPath)
    requires preferJpeg ==> !host.pathExists(FallbackCandidate(dir, cfg.r, cfg.c, FallbackExtensions[0]))
    ensures TileSource(job, host) == Ok(Describe(cfg, dir, TileExtension(preferJpeg)).originalPath)
  {
    var cs := Candidates(dir, job.r, job.c);
    if preferJpeg {
      assert cs[1] == Describe(cfg, dir, TileExtension(preferJpeg)).originalPath by {
        assert FallbackExtensions[1] == TileExtension(preferJpeg);
      }
      assert !host.pathExists(cs[0]);
      TileSourceFallback(job, host, dir, 1);
    } else {
      assert cs[0] == Describe(cfg, dir, TileExtension(preferJpeg)).originalPath by {
        assert FallbackExtensions[0] == TileExtension(preferJpeg);
      }
      TileSourceFallback(job, host, dir, 0);
    }
  }

  /** The parent of a tile file written into `dir` is `dir`. */
  lemma SplitTileDir(cfg: TileConfig, dir: string, preferJpeg: bool, path: string)
    requires path == Describe(cfg, dir, TileExtension(preferJpeg)).path && TrimTail(dir) == dir
    ensures Parent(path) == Some(dir)
  {
    TileParent(cfg, dir, preferJpeg);
  }

  /**
   * The outcome of the `map` closure for one job: the image decoded from
   * the job's source file, brought to the expected extent and placed at
   * the job's origin; or the source's error, or the decoder's prefixed
   * with the file it failed on.
   */
  function LoadedTile(job: TileJob, host: Host): (res: Result<Placed>)
    ensures res.Ok? ==> (res.value.r == job.r && res.value.c == job.c &&
                         res.value.startX == job.startX && res.value.startY == job.startY &&
                         res.value.image.width == job.expectedW && res.value.image.height == job.expectedH)
    ensures res.Ok? ==> (TileSource(job, host).Ok? && host.openImage(TileSource(job, host).value).Ok? &&
      res.value.image == Fit(host.openImage(TileSource(job, host).value).value, job.expectedW, job.expectedH, host.resample))
    ensures TileSource(job, host).Err? ==> res == Err(TileSource(job, host).error)
    ensures TileSource(job, host).Ok? && host.openImage(TileSource(job, host).value).Err? ==>
      res == Err("Failed to open " + TileSource(job, host).value + ": " + host.openImage(TileSource(job, host).value).error)
  {
    match TileSource(job, host)
    case Err(e) => Err(e)
    case Ok(p) =>
      match host.openImage(p)
      case Err(e) => Err("Failed to open " + p + ": " + e)
      case Ok(img) => Ok(Placed(job.r, job.c, job.startX, job.startY, Fit(img, job.expectedW, job.expectedH, host.resample)))
  }

  /** Load one job: find its file, decode it and resize it to the expected extent. */
  method LoadTile(job: TileJob, host: Host) returns (res: Result<Placed>)
    ensures res == LoadedTile(job, host)
  {
    var finalPath := job.path;
    if !host.pathExists(job.path) {
      var parent := Parent(job.path);
      if parent.None? {
        return Err("Invalid tile path");
      }
      var dir := parent.value;
      ghost var cs := Candidates(dir, job.r, job.c);
      var fallback: Option<string> := None;
      var i := 0;
      while i < |FallbackExtensions|
        invariant i <= |FallbackExtensions|
        invariant fallback.None? ==> forall j :: 0 <= j < i ==> !host.pathExists(cs[j])
        invariant fallback.Some? ==> fallback == FirstExisting(cs, host.pathExists)
      {
        var candidate := FallbackCandidate(dir, job.r, job.c, FallbackExtensions[i]);
        if host.pathExists(candidate) {
          assert candidate == cs[i];
          FirstExistingIs(cs, host.pathExists, i);
          fallback := Some(candidate);
          break;
        }
        i := i + 1;
      }
      if fallback.None? {
        return Err(BothMissing(job.r, job.c));
      }
      finalPath := fallback.value;
    }
    var decoded := host.openImage(finalPath);
    if decoded.Err? {
      return Err("Failed to open " + finalPath + ": " + decoded.error);
    }
    var img := decoded.value;
    if img.width != job.expectedW || img.height != job.expectedH {
      img := ResizeExact(img, job.expectedW, job.expectedH, host.resample);
    }
    return Ok(Placed(job.r, job.c, job.startX, job.startY, img));
  }

  /**
   * `collect::<Result<_, String>>()` over the loaded tiles: all of them, in
   * job order, or the error of the first job that fails.
   */
  function LoadAll(jobs: seq<TileJob>, host: Host): (res: Result<seq<Placed>>)
    ensures res.Ok? ==> |res.value| == |jobs|
    ensures res.Ok? ==> forall i :: 0 <= i < |jobs| ==> LoadedTile(jobs[i], host) == Ok(res.value[i])
    ensures res.Err? <==> exists i :: 0 <= i < |jobs| && LoadedTile(jobs[i], host).Err?
  {
    if jobs == [] then Ok([])
    else
      assert forall i :: 1 <= i < |jobs| ==> jobs[i] == jobs[1..][i - 1];
      match LoadedTile(jobs[0], host)
      case Err(e) => Err(e)
      case Ok(t) =>
        match LoadAll(jobs[1..], host)
        case Err(e) => Err(e)
        case Ok(ts) => Ok([t] + ts)
  }

  /** When every job before `i` loads and job `i` fails, the collected result is job `i`'s error. */
  lemma {:induction false} LoadAllFirstError(jobs: seq<TileJob>, host: Host, i: nat)
    requires i < |jobs| && LoadedTile(jobs[i], host).Err?
    requires forall j :: 0 <= j < i ==> LoadedTile(jobs[j], host).Ok?
    ensures LoadAll(jobs, host) == Err(LoadedTile(jobs[i], host).error)
  {
    if i > 0 {
      assert LoadedTile(jobs[0], host).Ok?;
      forall j | 0 <= j < i - 1 ensures LoadedTile(jobs[1..][j], host).Ok? {
        assert jobs[1..][j] == jobs[j + 1];
      }
      LoadAllFirstError(jobs[1..], host, i - 1);
    }
  }

  /** Load every job in order, stopping at the first failure. */
  method LoadTiles(jobs: seq<TileJob>, host: Host) returns (res: Result<seq<Placed>>)
    ensures res == LoadAll(jobs, host)
  {
    var loaded: seq<Placed> := [];
    var i := 0;
    while i < |jobs|
      invariant i <= |jobs| && |loaded| == i
      invariant forall j :: 0 <= j < i ==> LoadedTile(jobs[j], host) == Ok(loaded[j])
    {
      var t := LoadTile(jobs[i], host);
      if t.Err? {
        LoadAllFirstError(jobs, host, i);
        return Err(t.error);
      }
      LoadedStep(jobs, host, loaded, t.value);
      loaded := loaded + [t.value];
      i := i + 1;
    }
    LoadAllLoaded(jobs, host, loaded);
    return Ok(loaded);
  }

  /** The tiles loaded so far, extended by the next job's tile. */
  lemma LoadedStep(jobs: seq<TileJob>, host: Host, loaded: seq<Placed>, t: Placed)
    requires |loaded| < |jobs| && LoadedTile(jobs[|loaded|], host) == Ok(t)
    requires forall j :: 0 <= j < |loaded| ==> LoadedTile(jobs[j], host) == Ok(loaded[j])
    ensures forall j :: 0 <= j <= |loaded| ==> LoadedTile(jobs[j], host) == Ok((loaded + [t])[j])
  {
  }

  /** When every job loads, the collected result is the loaded tiles in job order. */
  lemma LoadAllLoaded(jobs: seq<TileJob>, host: Host, loaded: seq<Placed>)
    requires |loaded| == |jobs|
    requires forall j :: 0 <= j < |jobs| ==> LoadedTile(jobs[j], host) == Ok(loaded[j])
    ensures LoadAll(jobs, host) == Ok(loaded)
  {
    var all := LoadAll(jobs, host);
    assert all.Ok?;
    assert all.value == loaded;
  }

  /** The sort key of a loaded tile: `(t.r, t.c)`. */
  function TileKey(t: Placed): GridKey {
    GridKey(t.r, t.c)
  }

  /** The output pixel at `(x, y)`: the tiles composited over transparency, then keyed out when removing the background. */
  function FinalPixel(x: nat, y: nat, tiles: seq<Placed>, opts: Blend): Pixel {
    var p := Composited(Transparent, x, y, tiles, opts);
    if opts.removeBg then KeyOut(p, opts.keyColor, opts.tolerance) else p
  }

  /** The `w` by `h` image made of the final pixels. */
  function Rendered(w: U32, h: U32, tiles: seq<Placed>, opts: Blend): (img: RgbaImage)
    ensures img.width == w && img.height == h
  {
    Tabulate(w, h, (x: nat, y: nat) => FinalPixel(x, y, tiles, opts))
  }

  /** Pixel `(x, y)` of the rendered image is the final pixel there. */
  lemma RenderedAt(w: U32, h: U32, tiles: seq<Placed>, opts: Blend, x: nat, y: nat)
    requires x < w && y < h
    ensures Rendered(w, h, tiles, opts).At(x, y) == FinalPixel(x, y, tiles, opts)
  {
    TabulateAt(w, h, (x: nat, y: nat) => FinalPixel(x, y, tiles, opts), x, y);
  }

  /**
   * With background removal on, no pixel of the output has the key colour,
   * except fully transparent ones.
   */
  lemma RenderedKeyFree(w: U32, h: U32, tiles: seq<Placed>, opts: Blend, x: nat, y: nat)
    requires x < w && y < h && opts.removeBg
    ensures var p := Rendered(w, h, tiles, opts).At(x, y);
      IsKeyColor(p, opts.keyColor, opts.tolerance) ==> p == Transparent
  {
    RenderedAt(w, h, tiles, opts, x, y);
  }

  /** A pixel no tile covers stays transparent. */
  lemma RenderedUncovered(w: U32, h: U32, tiles: seq<Placed>, opts: Blend, x: nat, y: nat)
    requires x < w && y < h
    requires forall i :: 0 <= i < |tiles| ==> !Covers(tiles[i], x, y)
    ensures Rendered(w, h, tiles, opts).At(x, y) == Transparent
  {
    RenderedAt(w, h, tiles, opts, x, y);
    UncoveredUnchanged(Transparent, x, y, tiles, opts);
  }

  /**
   * Without background removal, a pixel whose last covering tile covers it
   * outside that tile's overlap bands is that tile's pixel.
   */
  lemma RenderedInterior(w: U32, h: U32, tiles: seq<Placed>, opts: Blend, x: nat, y: nat, i: nat)
    requires x < w && y < h && !opts.removeBg
    requires i < |tiles| && Covers(tiles[i], x, y)
    requires !InBandX(tiles[i], x - tiles[i].startX, opts) && !InBandY(tiles[i], y - tiles[i].startY, opts)
    requires forall j :: i < j < |tiles| ==> !Covers(tiles[j], x, y)
    ensures Rendered(w, h, tiles, opts).At(x, y) == tiles[i].image.At(x - tiles[i].startX, y - tiles[i].startY)
  {
    RenderedAt(w, h, tiles, opts, x, y);
    LastInteriorWins(Transparent, x, y, tiles, i, opts);
  }

  /** Composite `tiles` onto a fresh transparent `w` by `h` canvas and key out the background when asked. */
  method RenderCanvas(w: U32, h: U32, tiles: seq<Placed>, opts: Blend) returns (img: RgbaImage)
    ensures img == Rendered(w, h, tiles, opts)
  {
    var canvas := new Pixel[h, w]((y, x) => Transparent);
    CompositeTiles(canvas, tiles, opts);
    if opts.removeBg {
      ChromaKeyPass(canvas, opts);
    }
    img := Snapshot(canvas);
    forall x: nat, y: nat | x < w && y < h ensures img.At(x, y) == Rendered(w, h, tiles, opts).At(x, y) {
      SnapshotAt(canvas, x, y);
      RenderedAt(w, h, tiles, opts, x, y);
    }
    SameImage(img, Rendered(w, h, tiles, opts));
  }

  /** The blend settings of a merge: the key colour settings and the layout's overlap widths. */
  function BlendOf(key: Keying, lay: Layout): Blend {
    Blend(key.keyColor, key.removeBg, key.tolerance, lay.x.overlap, lay.y.overlap)
  }

  /** The image `merge_tiles` encodes, or the error it returns (encoder failures aside). */
  function MergedImage(tps: seq<TilePath>, w: U32, h: U32, rx: Ratio, ry: Ratio, key: Keying, host: Host): (res: Result<RgbaImage>)
    ensures tps == [] ==> res == Err("No tiles to merge")
    ensures tps != [] && (w == 0 || h == 0) ==> res == Err("Invalid original image dimensions")
    ensures res.Ok? ==> res.value.width == w && res.value.height == h
  {
    if tps == [] then Err("No tiles to merge")
    else if w == 0 || h == 0 then Err("Invalid original image dimensions")
    else
      var plan := PlanLayout(GridRows(tps), GridCols(tps), rx, ry, w, h);
      if plan.Err? then Err(plan.error)
      else
        var loaded := LoadAll(Jobs(tps, plan.value, w, h), host);
        if loaded.Err? then Err(loaded.error)
        else Ok(Rendered(w, h, SortByKey(loaded.value, TileKey), BlendOf(key, plan.value)))
  }

  /**
   * `merge_tiles`: the merged image as PNG when removing the background,
   * otherwise flattened onto white as JPEG at quality 90.
   */
  method MergeTiles(tps: seq<TilePath>, w: U32, h: U32, rx: Ratio, ry: Ratio, key: Keying, host: Host)
    returns (res: Result<Encoded>)
    ensures var m := MergedImage(tps, w, h, rx, ry, key, host);
      (res.Err? <==> m.Err?) && (res.Err? ==> res.error == m.error)
    ensures res.Ok? && key.removeBg ==> res.value == PngData(MergedImage(tps, w, h, rx, ry, key, host).value)
    ensures res.Ok? && !key.removeBg ==>
      res.value.JpegData? && res.value.width == w && res.value.height == h && res.value.quality == 90 &&
      WhiteFlattened(MergedImage(tps, w, h, rx, ry, key, host).value, res.value.rgb)
  {
    if |tps| == 0 {
      return Err("No tiles to merge");
    }
    if w == 0 || h == 0 {
      return Err("Invalid original image dimensions");
    }
    var rows := GridRows(tps);
    var cols := GridCols(tps);
    var plan := PlanLayout(rows, cols, rx, ry, w, h);
    if plan.Err? {
      return Err(plan.error);
    }
    var lay := plan.value;
    var jobs := Jobs(tps, lay, w, h);
    // `jobs.is_empty()` cannot hold: no tile is dropped once `w`, `h` and the layout are valid.
    NoTileDropped(tps, lay, w, h);
    assert |jobs| > 0;
    var loaded := LoadTiles(jobs, host);
    if loaded.Err? {
      return Err(loaded.error);
    }
    var sorted := SortByKey(loaded.value, TileKey);
    var img := RenderCanvas(w, h, sorted, BlendOf(key, lay));
    if key.removeBg {
      return Ok(PngData(img));
    }
    var rgb := FlattenRgbaToRgbWhite(img);
    return Ok(JpegData(w, h, rgb, 90));
  }

  /** The `(r, c, path)` list handed back to `merge_tiles` for the tiles of a split. */
  function SplitTilePaths(tiles: seq<TileInfo>): (tps: seq<TilePath>)
    ensures |tps| == |tiles|
  {
    seq(|tiles|, i requires 0 <= i < |tiles| => TilePath(tiles[i].r, tiles[i].c, tiles[i].path))
  }

  /**
   * Merging the tiles of a split recovers the split's grid and layout: the
   * grid size read off the tile indices is the one split used, and each
   * tile is placed where it was cut, with the extent it was cut to.
   */
  lemma SplitMergeAgree(tiles: seq<TileInfo>, rows: U32, cols: U32, rx: Ratio, ry: Ratio, w: U32, h: U32,
                        dir: string, ext: string)
    requires rows >= 1 && w > 0 && h > 0 && PlanLayout(rows, cols, rx, ry, w, h).Ok?
    requires IsSplitGrid(tiles, PlanLayout(rows, cols, rx, ry, w, h).value, rows, cols, w, h, dir, ext)
    ensures GridRows(SplitTilePaths(tiles)) == rows && GridCols(SplitTilePaths(tiles)) == cols
    ensures var lay := PlanLayout(rows, cols, rx, ry, w, h).value;
      var jobs := Jobs(SplitTilePaths(tiles), lay, w, h);
      |jobs| == |tiles| &&
      forall k :: 0 <= k < |tiles| ==>
        jobs[k] == TileJob(tiles[k].r, tiles[k].c, tiles[k].x, tiles[k].y, tiles[k].width, tiles[k].height, tiles[k].path)
  {
    var lay := PlanLayout(rows, cols, rx, ry, w, h).value;
    var tps := SplitTilePaths(tiles);
    assert forall k :: 0 <= k < |tps| ==> tps[k].r < rows && tps[k].c < cols by {
      forall k | 0 <= k < |tiles| ensures tps[k].r < rows && tps[k].c < cols {
        SplitTilesInBounds(tiles, rows, cols, rx, ry, w, h, dir, ext, k);
      }
    }
    var last := BottomRightTile(tiles, rows, cols);
    GridSizeOfCells(tps, rows, cols, last);
    SplitJobs(tiles, lay, w, h, dir, ext);
  }

  /** Every tile of a split becomes, at the same index, the job that places it where it was cut. */
  lemma SplitJobs(tiles: seq<TileInfo>, lay: Layout, w: U32, h: U32, dir: string, ext: string)
    requires w > 0 && h > 0 && lay.x.tile >= 1 && lay.y.tile >= 1
    requires DescribedByLayout(tiles, lay, w, h, dir, ext)
    ensures var jobs := Jobs(SplitTilePaths(tiles), lay, w, h);
      |jobs| == |tiles| &&
      forall k :: 0 <= k < |tiles| ==>
        jobs[k] == TileJob(tiles[k].r, tiles[k].c, tiles[k].x, tiles[k].y, tiles[k].width, tiles[k].height, tiles[k].path)
  {
    var tps := SplitTilePaths(tiles);
    NoTileDropped(tps, lay, w, h);
    var jobs := Jobs(tps, lay, w, h);
    forall k | 0 <= k < |tiles|
      ensures jobs[k] == TileJob(tiles[k].r, tiles[k].c, tiles[k].x, tiles[k].y, tiles[k].width, tiles[k].height, tiles[k].path)
    {
      SplitTileJob(tiles, lay, w, h, dir, ext, k);
    }
  }

  /** The job made for a tile of a split places it where the split cut it. */
  lemma SplitTileJob(tiles: seq<TileInfo>, lay: Layout, w: U32, h: U32, dir: string, ext: string, k: nat)
    requires DescribedByLayout(tiles, lay, w, h, dir, ext) && k < |tiles|
    requires JobOf(SplitTilePaths(tiles)[k], lay, w, h).Some?
    ensures JobOf(SplitTilePaths(tiles)[k], lay, w, h).value ==
      TileJob(tiles[k].r, tiles[k].c, tiles[k].x, tiles[k].y, tiles[k].width, tiles[k].height, tiles[k].path)
  {
    SplitTileRect(tiles, lay, w, h, dir, ext, k);
  }

  /** In a complete row-major grid, some tile sits in the bottom-right cell. */
  lemma BottomRightTile(tiles: seq<TileInfo>, rows: U32, cols: U32) returns (last: nat)
    requires rows >= 1 && cols >= 1 && IndexedByCell(tiles, cols) && |tiles| == rows * cols
    ensures last < |tiles| && SplitTilePaths(tiles)[last].r == rows - 1 && SplitTilePaths(tiles)[last].c == cols - 1
  {
    last := (rows - 1) * cols + (cols - 1);
    SplitGridCell(tiles, rows, cols, rows - 1, cols - 1);
  }

  /**
   * When the tile at `last` sits in the bottom-right cell and every tile
   * lies inside the grid, the grid size read off the tile indices is
   * `rows` by `cols`.
   */
  lemma GridSizeOfCells(tps: seq<TilePath>, rows: U32, cols: U32, last: nat)
    requires rows >= 1 && cols >= 1
    requires last < |tps| && tps[last].r == rows - 1 && tps[last].c == cols - 1
    requires forall k :: 0 <= k < |tps| ==> tps[k].r < rows && tps[k].c < cols
    ensures GridRows(tps) == rows && GridCols(tps) == cols
  {
    MaxIs(tps, RowOf, rows - 1, last);
    MaxIs(tps, ColOf, cols - 1, last);
  }

  /** A key value reached at `k` and bounding every other is the maximum. */
  lemma MaxIs(tps: seq<TilePath>, key: TilePath -> U32, m: U32, k: nat)
    requires k < |tps| && key(tps[k]) == m
    requires forall i :: 0 <= i < |tps| ==> key(tps[i]) <= m
    ensures MaxOf(tps, key) == m
  {
  }


}
