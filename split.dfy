/**
 * `split_image`: the tile grid of an image, tile records in row-major
 * order, and the names of the files the tiles are written to. Decoding
 * the input and encoding the tiles are not modelled; the image enters as
 * its width and height.
 */
module Split {
  import opened Bytes
  import opened Wrappers
  import opened Geometry
  import opened Paths

  /** `TileInfo`: grid cell, placement in the image, and the two file paths of a tile. */
  datatype TileInfo = TileInfo(r: U32, c: U32, x: U32, y: U32, width: U32, height: U32, path: string, originalPath: string)

  /** The successful result of `split_image`: tiles, image width and height, and the path of the copied original. */
  datatype SplitOutput = SplitOutput(tiles: seq<TileInfo>, width: U32, height: U32, newInputPath: string)

  /** One entry of `tile_configs`: a grid cell and the rectangle it covers. */
  datatype TileConfig = TileConfig(r: U32, c: U32, rect: Rect)

  /** `format!("{prefix}{r}_{c}.{ext}")`, the file name of a tile. */
  function TileFileName(prefix: string, r: nat, c: nat, ext: string): string {
    prefix + Decimal(r) + "_" + Decimal(c) + "." + ext
  }

  /** The extension every file of one split is written with. */
  function TileExtension(preferJpeg: bool): string {
    FileExtension(if preferJpeg then Jpeg else Png)
  }

  /** The `TileInfo` recorded for a cell: its rectangle, its processed path and its original path. */
  function Describe(cfg: TileConfig, outputDir: string, ext: string): TileInfo {
    TileInfo(cfg.r, cfg.c, cfg.rect.x, cfg.rect.y, cfg.rect.width, cfg.rect.height,
      Join(outputDir, TileFileName("tile_", cfg.r, cfg.c, ext)),
      Join(outputDir, TileFileName("orig_tile_", cfg.r, cfg.c, ext)))
  }

  /** Tile `k` is the one in row `r`, column `c` with `k == r * cols + c`: row-major order, no cell twice. */
  ghost predicate IndexedByCell(tiles: seq<TileInfo>, cols: U32) {
    forall k :: 0 <= k < |tiles| ==> tiles[k].c < cols && k == tiles[k].r * cols + tiles[k].c
  }

  /** Each tile records the rectangle `TileRect` gives its cell and the file names of that cell. */
  ghost predicate DescribedByLayout(tiles: seq<TileInfo>, lay: Layout, w: U32, h: U32, outputDir: string, ext: string) {
    forall k :: 0 <= k < |tiles| ==>
      tiles[k] == Describe(TileConfig(tiles[k].r, tiles[k].c, TileRect(lay, w, h, tiles[k].r, tiles[k].c)), outputDir, ext)
  }

  /**
   * The tiles of a split, described without the loop: none when the image
   * is empty, otherwise one tile per cell of the grid in row-major order,
   * each placed by `TileRect`.
   */
  ghost predicate IsSplitGrid(tiles: seq<TileInfo>, lay: Layout, rows: U32, cols: U32, w: U32, h: U32, outputDir: string, ext: string) {
    cols > 0 &&
    (if w == 0 || h == 0 then tiles == [] else |tiles| == rows * cols) &&
    IndexedByCell(tiles, cols) &&
    DescribedByLayout(tiles, lay, w, h, outputDir, ext)
  }

  /**
   * `split_image` on an image of `w` by `h` pixels. Fails when `rows` or
   * `cols` is zero, then when the grid's denominators are not positive;
   * otherwise returns the tiles of `IsSplitGrid`, the image size, and the
   * path `original_source.{ext}` in the output directory.
   */
  method SplitImage(rows: U32, cols: U32, rx: Ratio, ry: Ratio, preferJpeg: bool, w: U32, h: U32, outputDir: string)
    returns (res: Result<SplitOutput>)
    ensures rows == 0 || cols == 0 ==> res == Err("Rows and cols must be greater than zero")
    ensures rows > 0 && cols > 0 ==>
      (res.Err? <==> PlanLayout(rows, cols, rx, ry, w, h).Err?) &&
      (res.Err? ==> res.error == "Invalid overlap/grid configuration")
    ensures res.Ok? ==>
      PlanLayout(rows, cols, rx, ry, w, h).Ok? &&
      res.value.width == w && res.value.height == h &&
      res.value.newInputPath == Join(outputDir, "original_source." + TileExtension(preferJpeg)) &&
      IsSplitGrid(res.value.tiles, PlanLayout(rows, cols, rx, ry, w, h).value, rows, cols, w, h, outputDir, TileExtension(preferJpeg))
  {
    if rows == 0 || cols == 0 {
      return Err("Rows and cols must be greater than zero");
    }
    var ext := TileExtension(preferJpeg);
    var newInputPath := Join(outputDir, "original_source." + ext);
    var plan := PlanLayout(rows, cols, rx, ry, w, h);
    if plan.Err? {
      return Err(plan.error);
    }
    var tiles := GridTiles(plan.value, rows, cols, w, h, outputDir, ext);
    return Ok(SplitOutput(tiles, w, h, newInputPath));
  }

  /**
   * The rest of `split_image` once the layout is planned: the row-major
   * walk over the grid that skips empty tiles, then the map from each cell
   * to its `TileInfo` (run in parallel in the source, a plain map here).
   */
  method GridTiles(lay: Layout, rows: U32, cols: U32, w: U32, h: U32, outputDir: string, ext: string)
    returns (tiles: seq<TileInfo>)
    requires cols > 0
    requires w > 0 ==> lay.x.tile >= 1
    requires h > 0 ==> lay.y.tile >= 1
    ensures IsSplitGrid(tiles, lay, rows, cols, w, h, outputDir, ext)
  {
    var configs: seq<TileConfig> := [];
    var r: U32 := 0;
    while r < rows
      invariant 0 <= r <= rows
      invariant w == 0 || h == 0 ==> configs == []
      invariant w > 0 && h > 0 ==> |configs| == r * cols
      invariant ConfigGrid(configs, lay, cols, w, h)
    {
      var c: U32 := 0;
      while c < cols
        invariant 0 <= c <= cols
        invariant w == 0 || h == 0 ==> configs == []
        invariant w > 0 && h > 0 ==> |configs| == r * cols + c
        invariant ConfigGrid(configs, lay, cols, w, h)
      {
        var sx := Place(lay.x, w, c);
        var sy := Place(lay.y, h, r);
        assert sx.extent != 0 && sy.extent != 0 <==> w != 0 && h != 0;
        if sx.extent != 0 && sy.extent != 0 {
          var cfg := TileConfig(r, c, Rect(sx.origin, sy.origin, sx.extent, sy.extent));
          ConfigGridSnoc(configs, lay, cols, w, h, r, c);
          configs := configs + [cfg];
        }
        c := c + 1;
      }
      assert r * cols + cols == (r + 1) * cols;
      r := r + 1;
    }

    tiles := seq(|configs|, k requires 0 <= k < |configs| => Describe(configs[k], outputDir, ext));
    SplitGridOfConfigs(configs, tiles, lay, rows, cols, w, h, outputDir, ext);
  }

  /** The cells pushed so far, in row-major order, each with the rectangle `TileRect` gives it. */
  ghost predicate ConfigGrid(configs: seq<TileConfig>, lay: Layout, cols: U32, w: U32, h: U32) {
    forall k :: 0 <= k < |configs| ==>
      configs[k].c < cols && k == configs[k].r * cols + configs[k].c &&
      configs[k].rect == TileRect(lay, w, h, configs[k].r, configs[k].c)
  }

  /** Pushing the next cell in row-major order keeps `ConfigGrid`. */
  lemma ConfigGridSnoc(configs: seq<TileConfig>, lay: Layout, cols: U32, w: U32, h: U32, r: U32, c: U32)
    requires ConfigGrid(configs, lay, cols, w, h) && c < cols && |configs| == r * cols + c
    ensures ConfigGrid(configs + [TileConfig(r, c, TileRect(lay, w, h, r, c))], lay, cols, w, h)
  {
  }

  /** The tiles described from the pushed cells form the grid of `IsSplitGrid`. */
  lemma SplitGridOfConfigs(configs: seq<TileConfig>, tiles: seq<TileInfo>, lay: Layout, rows: U32, cols: U32, w: U32, h: U32,
                           outputDir: string, ext: string)
    requires cols > 0 && ConfigGrid(configs, lay, cols, w, h)
    requires w == 0 || h == 0 ==> configs == []
    requires w > 0 && h > 0 ==> |configs| == rows * cols
    requires |tiles| == |configs| && forall k :: 0 <= k < |tiles| ==> tiles[k] == Describe(configs[k], outputDir, ext)
    ensures IsSplitGrid(tiles, lay, rows, cols, w, h, outputDir, ext)
  {
  }

  /**
   * Every tile of a split lies inside the image, is no larger than the
   * planned tile size, is not empty, and names a cell of the grid.
   */
  lemma SplitTilesInBounds(tiles: seq<TileInfo>, rows: U32, cols: U32, rx: Ratio, ry: Ratio, w: U32, h: U32,
                           outputDir: string, ext: string, k: nat)
    requires PlanLayout(rows, cols, rx, ry, w, h).Ok?
    requires IsSplitGrid(tiles, PlanLayout(rows, cols, rx, ry, w, h).value, rows, cols, w, h, outputDir, ext)
    requires k < |tiles|
    ensures var lay := PlanLayout(rows, cols, rx, ry, w, h).value; var t := tiles[k];
      t.r < rows && t.c < cols &&
      t.x <= w - 1 && 0 < t.width <= lay.x.tile && t.x + t.width <= w &&
      t.y <= h - 1 && 0 < t.height <= lay.y.tile && t.y + t.height <= h
  {
    RowMajorLess(tiles[k].r, tiles[k].c, rows, 0, cols);
    TileRectInBounds(rows, cols, rx, ry, w, h, tiles[k].r, tiles[k].c);
  }

  /** Tiles come out in strictly ascending row-major `(r, c)` order. */
  lemma SplitRowMajor(tiles: seq<TileInfo>, lay: Layout, rows: U32, cols: U32, w: U32, h: U32,
                      outputDir: string, ext: string, i: nat, j: nat)
    requires IsSplitGrid(tiles, lay, rows, cols, w, h, outputDir, ext)
    requires i < j < |tiles|
    ensures tiles[i].r < tiles[j].r || (tiles[i].r == tiles[j].r && tiles[i].c < tiles[j].c)
  {
    RowMajorLess(tiles[i].r, tiles[i].c, tiles[j].r, tiles[j].c, cols);
  }

  /**
   * With overlap ratios that are not negative, every pixel of a non-empty
   * image lies in at least one tile, the tile at index `k`.
   */
  lemma SplitCoversImage(tiles: seq<TileInfo>, rows: U32, cols: U32, rx: Ratio, ry: Ratio, w: U32, h: U32,
                         outputDir: string, ext: string, px: nat, py: nat) returns (k: nat)
    requires rows >= 1 && rx.num >= 0 && ry.num >= 0 && px < w && py < h
    requires PlanLayout(rows, cols, rx, ry, w, h).Ok?
    requires IsSplitGrid(tiles, PlanLayout(rows, cols, rx, ry, w, h).value, rows, cols, w, h, outputDir, ext)
    ensures k < |tiles|
    ensures tiles[k].x <= px < tiles[k].x + tiles[k].width && tiles[k].y <= py < tiles[k].y + tiles[k].height
  {
    var lay := PlanLayout(rows, cols, rx, ry, w, h).value;
    var r, c := GridCoversImage(rows, cols, rx, ry, w, h, px, py);
    k := CellTile(tiles, lay, rows, cols, w, h, outputDir, ext, r, c);
  }

  /** The tile of a split for cell `(r, c)` of a non-empty image covers the rectangle of that cell. */
  lemma CellTile(tiles: seq<TileInfo>, lay: Layout, rows: U32, cols: U32, w: U32, h: U32,
                 outputDir: string, ext: string, r: nat, c: nat) returns (k: nat)
    requires IndexedByCell(tiles, cols) && DescribedByLayout(tiles, lay, w, h, outputDir, ext)
    requires |tiles| == rows * cols && r < rows && c < cols
    ensures k < |tiles|
    ensures var t := TileRect(lay, w, h, r, c);
      tiles[k].x == t.x && tiles[k].y == t.y && tiles[k].width == t.width && tiles[k].height == t.height
  {
    k := r * cols + c;
    assert k < |tiles| && tiles[k].r == r && tiles[k].c == c by {
      SplitGridCell(tiles, rows, cols, r, c);
    }
    SplitTileRect(tiles, lay, w, h, outputDir, ext, k);
  }

  /** The placement a split records for a tile is the rectangle of its cell. */
  lemma SplitTileRect(tiles: seq<TileInfo>, lay: Layout, w: U32, h: U32, outputDir: string, ext: string, k: nat)
    requires DescribedByLayout(tiles, lay, w, h, outputDir, ext) && k < |tiles|
    ensures var t := TileRect(lay, w, h, tiles[k].r, tiles[k].c);
      tiles[k].x == t.x && tiles[k].y == t.y && tiles[k].width == t.width && tiles[k].height == t.height
  {
  }

  /** The cell in row `r`, column `c` of a non-empty image is the tile at index `r * cols + c`. */
  lemma SplitGridCell(tiles: seq<TileInfo>, rows: U32, cols: U32, r: nat, c: nat)
    requires IndexedByCell(tiles, cols) && |tiles| == rows * cols
    requires r < rows && c < cols
    ensures r * cols + c < |tiles| && tiles[r * cols + c].r == r && tiles[r * cols + c].c == c
  {
    var k := r * cols + c;
    RowMajorBound(c, r, cols, rows);
    var t := tiles[k];
    assert t.c < cols && k == t.r * cols + t.c;
    RowMajorUnique(t.r, t.c, r, c, cols);
  }

  /** A tile file name is a plain name: not empty, not `.`, and free of separators. */
  lemma TileFileNamePlain(prefix: string, r: nat, c: nat, ext: string)
    requires '/' !in prefix && '/' !in ext
    ensures var n := TileFileName(prefix, r, c, ext); n != [] && '/' !in n && n != "."
  {
    assert '/' !in Decimal(r) && '/' !in Decimal(c) by {
      assert !IsDigit('/');
    }
    assert '/' !in "_" + "." by {
      assert ("_" + ".")[0] == '_' && ("_" + ".")[1] == '.';
    }
    assert |TileFileName(prefix, r, c, ext)| >= 4;
  }

  /** Both files of a tile lie in the output directory, as `Path::parent` spells it. */
  lemma TileParent(cfg: TileConfig, outputDir: string, preferJpeg: bool)
    ensures var t := Describe(cfg, outputDir, TileExtension(preferJpeg));
      Parent(t.path) == Some(TrimTail(outputDir)) && Parent(t.originalPath) == Some(TrimTail(outputDir))
  {
    var ext := TileExtension(preferJpeg);
    var p, o := "tile_", "orig_tile_";
    assert '/' !in ext by {
      assert ext[0] != '/' && ext[1] != '/' && ext[2] != '/';
    }
    assert '/' !in p by {
      assert p[0] != '/' && p[1] != '/' && p[2] != '/' && p[3] != '/' && p[4] != '/';
    }
    assert '/' !in o by {
      assert o == "orig_" + p;
      assert o[0] != '/' && o[1] != '/' && o[2] != '/' && o[3] != '/' && o[4] != '/';
    }
    TileFileNamePlain(p, cfg.r, cfg.c, ext);
    TileFileNamePlain(o, cfg.r, cfg.c, ext);
    ParentOfJoin(outputDir, TileFileName(p, cfg.r, cfg.c, ext));
    ParentOfJoin(outputDir, TileFileName(o, cfg.r, cfg.c, ext));
  }

  /** Distinct cells get distinct file names. */
  lemma {:induction false} TileFileNameInjective(prefix: string, r1: nat, c1: nat, r2: nat, c2: nat, ext: string)
    requires TileFileName(prefix, r1, c1, ext) == TileFileName(prefix, r2, c2, ext)
    ensures r1 == r2 && c1 == c2
  {
    var a1 := prefix + Decimal(r1) + "_" + Decimal(c1);
    var a2 := prefix + Decimal(r2) + "_" + Decimal(c2);
    assert a1 == a2 by {
      var n := TileFileName(prefix, r1, c1, ext);
      assert |a1| == |a2|;
      assert a1 == n[..|a1|] && a2 == n[..|a2|];
    }
    assert Decimal(c1) == Decimal(c2) by {
      assert '_' !in Decimal(c1) && '_' !in Decimal(c2);
      assert a1 == prefix + Decimal(r1) + ['_'] + Decimal(c1);
      assert a2 == prefix + Decimal(r2) + ['_'] + Decimal(c2);
      AfterLastOfSuffix(prefix + Decimal(r1), '_', Decimal(c1));
      AfterLastOfSuffix(prefix + Decimal(r2), '_', Decimal(c2));
    }
    DecimalInjective(c1, c2);
    assert Decimal(r1) == Decimal(r2) by {
      var b1 := prefix + Decimal(r1);
      assert b1 == a1[..|b1|];
      assert prefix + Decimal(r2) == a2[..|b1|];
      assert Decimal(r1) == b1[|prefix|..];
    }
    DecimalInjective(r1, r2);
  }

  /** Joining relative names onto the same directory gives equal paths only for equal names. */
  lemma JoinInjective(dir: string, n1: string, n2: string)
    requires n1 != [] && n2 != [] && n1[0] != '/' && n2[0] != '/'
    ensures Join(dir, n1) == Join(dir, n2) <==> n1 == n2
  {
    var p := if dir == [] then [] else if dir[|dir| - 1] == '/' then dir else dir + "/";
    assert Join(dir, n1) == p + n1 && Join(dir, n2) == p + n2;
    assert n1 == (p + n1)[|p|..] && n2 == (p + n2)[|p|..];
  }

  /**
   * No two tiles of a split share a file, and no tile's processed file is
   * its original file.
   */
  lemma SplitFilesDistinct(tiles: seq<TileInfo>, lay: Layout, rows: U32, cols: U32, w: U32, h: U32,
                           outputDir: string, ext: string, i: nat, j: nat)
    requires IsSplitGrid(tiles, lay, rows, cols, w, h, outputDir, ext)
    requires i < |tiles| && j < |tiles|
    ensures i != j ==> tiles[i].path != tiles[j].path && tiles[i].originalPath != tiles[j].originalPath
    ensures tiles[i].path != tiles[i].originalPath
  {
    var ti, tj := tiles[i], tiles[j];
    var pi, pj := TileFileName("tile_", ti.r, ti.c, ext), TileFileName("tile_", tj.r, tj.c, ext);
    var oi, oj := TileFileName("orig_tile_", ti.r, ti.c, ext), TileFileName("orig_tile_", tj.r, tj.c, ext);
    JoinInjective(outputDir, pi, pj);
    JoinInjective(outputDir, oi, oj);
    JoinInjective(outputDir, pi, oi);
    if i != j {
      assert ti.r != tj.r || ti.c != tj.c;
      if pi == pj {
        TileFileNameInjective("tile_", ti.r, ti.c, tj.r, tj.c, ext);
      }
      if oi == oj {
        TileFileNameInjective("orig_tile_", ti.r, ti.c, tj.r, tj.c, ext);
      }
    }
    assert pi[0] == 't' && oi[0] == 'o';
  }
}
