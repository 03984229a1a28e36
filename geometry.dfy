/**
 * The tile placement shared by `split_image` and `merge_tiles`: per axis,
 * the tile extent, the overlap width and the stride, then the clamped origin
 * and clipped extent of the tile in a given row or column.
 *
 * The source computes the first three in `f64`. Here an overlap ratio is an
 * exact rational, `ceil` is an integer ceiling, and each `as u32` cast is a
 * truncation toward zero that saturates at `u32::MAX`.
 */
module Geometry {
  import opened Bytes
  import opened Wrappers

  type PosInt = n: int | n > 0 witness 1

  /** An overlap ratio as the exact rational `num / den`. */
  datatype Ratio = Ratio(num: int, den: PosInt)

  /** Per-axis layout: `tile_w`, `overlap_w`, `stride_w` (or their `_h` twins). */
  datatype Axis = Axis(tile: U32, overlap: U32, stride: U32)

  datatype Layout = Layout(x: Axis, y: Axis)

  /** One tile's interval on one axis. */
  datatype Span = Span(origin: U32, extent: U32)

  /** A tile's rectangle in image pixels. */
  datatype Rect = Rect(x: U32, y: U32, width: U32, height: U32)

  function Min(a: int, b: int): int {
    if a <= b then a else b
  }

  /** `n - (n - 1) * ratio`, multiplied by the ratio's (positive) denominator. */
  function ScaledDenom(n: U32, q: Ratio): int {
    n * q.den - (n - 1) * q.num
  }

  /**
   * `(size as f64 / denom).ceil() as u32`: the least extent whose `n` tiles,
   * overlapping by the ratio, reach `size`; saturated at `u32::MAX`.
   */
  function TileExtent(size: U32, n: U32, q: Ratio): (t: U32)
    requires ScaledDenom(n, q) > 0
    ensures t * ScaledDenom(n, q) >= size * q.den || t == U32_MAX
    ensures (t - 1) * ScaledDenom(n, q) < size * q.den
    ensures size > 0 ==> t >= 1
  {
    var d := ScaledDenom(n, q);
    var x := size * q.den;
    var c := (x + d - 1) / d;
    assert d * c <= x + d - 1 < d * c + d;
    assert (c - 1) * d == c * d - d;
    if c <= U32_MAX then c
    else
      MulLeMonotone(U32_MAX - 1, c - 1, d);
      U32_MAX
  }

  /** `(tile as f64 * ratio) as u32`: truncated toward zero, negative values give 0. */
  function OverlapExtent(tile: U32, q: Ratio): (o: U32)
    ensures q.num >= 0 ==> o * q.den <= tile * q.num
    ensures q.num <= 0 ==> o == 0
    ensures o == U32_MAX || tile * q.num < (o + 1) * q.den
  {
    var p := tile * q.num;
    if p <= 0 then 0
    else
      var f := p / q.den;
      assert q.den * f <= p < q.den * f + q.den;
      if f <= U32_MAX then f
      else
        MulLeMonotone(U32_MAX, f, q.den);
        U32_MAX
  }

  /** `tile.saturating_sub(overlap).max(1)` */
  function Stride(tile: U32, overlap: U32): (s: U32)
    ensures s >= 1 && s >= tile - overlap
    ensures tile >= 1 ==> s <= tile
  {
    var d := SatSubU32(tile, overlap);
    if d >= 1 then d else 1
  }

  function PlanAxis(size: U32, n: U32, q: Ratio): Axis
    requires ScaledDenom(n, q) > 0
  {
    var t := TileExtent(size, n, q);
    var o := OverlapExtent(t, q);
    Axis(t, o, Stride(t, o))
  }

  /**
   * The layout both `split_image` and `merge_tiles` compute for a `rows` by
   * `cols` grid over a `w` by `h` image; it fails exactly when one of the
   * two denominators `n - (n - 1) * ratio` is not positive.
   */
  function PlanLayout(rows: U32, cols: U32, rx: Ratio, ry: Ratio, w: U32, h: U32): (r: Result<Layout>)
    ensures r.Err? <==> ScaledDenom(cols, rx) <= 0 || ScaledDenom(rows, ry) <= 0
    ensures r.Err? ==> r.error == "Invalid overlap/grid configuration"
    ensures r.Ok? ==> r.value.x.stride >= 1 && r.value.y.stride >= 1
    ensures r.Ok? && w > 0 ==> 1 <= r.value.x.tile && r.value.x.stride <= r.value.x.tile
    ensures r.Ok? && h > 0 ==> 1 <= r.value.y.tile && r.value.y.stride <= r.value.y.tile
  {
    if ScaledDenom(cols, rx) <= 0 || ScaledDenom(rows, ry) <= 0 then
      Err("Invalid overlap/grid configuration")
    else
      Ok(Layout(PlanAxis(w, cols, rx), PlanAxis(h, rows, ry)))
  }

  /**
   * Tile `i` on one axis: origin `(i * stride).min(size.saturating_sub(1))`
   * (the product wraps around as `u32`), extent `tile.min(size - origin)`.
   */
  function Place(a: Axis, size: U32, i: nat): (s: Span)
    ensures size == 0 ==> s.extent == 0
    ensures size > 0 ==> s.origin < size && s.origin + s.extent <= size && s.extent <= a.tile
    ensures size > 0 && a.tile > 0 ==> s.extent > 0
    ensures i * a.stride < size ==> s.origin == i * a.stride
  {
    var origin := Min(WrapU32(i * a.stride), SatSubU32(size, 1));
    Span(origin, Min(a.tile, size - origin))
  }

  /** The rectangle of the tile in row `r`, column `c`. */
  function TileRect(lay: Layout, w: U32, h: U32, r: nat, c: nat): Rect {
    var sx := Place(lay.x, w, c);
    var sy := Place(lay.y, h, r);
    Rect(sx.origin, sy.origin, sx.extent, sy.extent)
  }

  /** Every tile lies inside the image, is no larger than the planned tile and is never empty. */
  lemma TileRectInBounds(rows: U32, cols: U32, rx: Ratio, ry: Ratio, w: U32, h: U32, r: nat, c: nat)
    requires PlanLayout(rows, cols, rx, ry, w, h).Ok? && w > 0 && h > 0
    ensures var lay := PlanLayout(rows, cols, rx, ry, w, h).value;
      var t := TileRect(lay, w, h, r, c);
      t.x <= w - 1 && 0 < t.width <= lay.x.tile && t.x + t.width <= w &&
      t.y <= h - 1 && 0 < t.height <= lay.y.tile && t.y + t.height <= h
  {
  }

  /**
   * The arithmetic behind `AxisReach`: if `t` tiles of the scaled size reach
   * `size` and each overlap is at most `t * num / den`, then `n - 1` strides
   * plus one tile reach `size`.
   */
  lemma ReachArith(size: nat, n: nat, num: nat, den: PosInt, t: nat, o: nat, s: nat)
    requires n >= 1
    requires t * (n * den - (n - 1) * num) >= size * den
    requires o * den <= t * num && s >= t - o
    ensures (n - 1) * s + t >= size
  {
    var m := n - 1;
    calc {
      size * den;
    <=
      t * (n * den - m * num);
    ==  { Expand(t, m, den, num); }
      t * den + m * (t * den) - m * (t * num);
    <=  { MulLeMonotone(o * den, t * num, m); }
      t * den + m * (t * den) - m * (o * den);
    ==  { Factor(m, t, o, den); }
      t * den + (m * (t - o)) * den;
    <=  { MulLeMonotone(t - o, s, m); MulLeMonotone(m * (t - o), m * s, den); }
      t * den + (m * s) * den;
    ==
      (m * s + t) * den;
    }
    MulLeCancel(size, m * s + t, den);
  }

  lemma Expand(t: int, m: int, den: int, num: int)
    ensures t * ((m + 1) * den - m * num) == t * den + m * (t * den) - m * (t * num)
  {
  }

  lemma Factor(m: int, t: int, o: int, den: int)
    ensures m * (t * den) - m * (o * den) == (m * (t - o)) * den
  {
  }

  /** `n` tiles laid out with this axis' stride reach the end of the axis. */
  lemma AxisReach(size: U32, n: U32, q: Ratio)
    requires ScaledDenom(n, q) > 0 && q.num >= 0 && n >= 1
    ensures var a := PlanAxis(size, n, q); (n - 1) * a.stride + a.tile >= size
  {
    WideTileReach(size, n, q);
    NarrowTileReach(size, n, q);
  }

  lemma WideTileReach(size: U32, n: U32, q: Ratio)
    requires ScaledDenom(n, q) > 0 && n >= 1
    ensures var a := PlanAxis(size, n, q); a.tile >= size ==> (n - 1) * a.stride + a.tile >= size
  {
    var a := PlanAxis(size, n, q);
    if a.tile >= size {
      WideReach(size, n - 1, a.stride, a.tile);
    }
  }

  lemma WideReach(size: nat, m: nat, s: nat, t: nat)
    requires t >= size
    ensures m * s + t >= size
  {
    MulLeMonotone(0, s, m);
  }

  lemma NarrowTileReach(size: U32, n: U32, q: Ratio)
    requires ScaledDenom(n, q) > 0 && q.num >= 0 && n >= 1
    ensures var a := PlanAxis(size, n, q); a.tile < size ==> (n - 1) * a.stride + a.tile >= size
  {
    var a := PlanAxis(size, n, q);
    if a.tile < size {
      TileExtentCovers(size, n, q);
      ReachArith(size, n, q.num, q.den, a.tile, a.overlap, a.stride);
    }
  }

  /** An unsaturated tile extent, times the scaled denominator, reaches `size`. */
  lemma TileExtentCovers(size: U32, n: U32, q: Ratio)
    requires ScaledDenom(n, q) > 0 && TileExtent(size, n, q) < size
    ensures TileExtent(size, n, q) * (n * q.den - (n - 1) * q.num) >= size * q.den
  {
  }

  /** Position `p` lies in span `s`. */
  predicate Contains(s: Span, p: nat) {
    s.origin <= p < s.origin + s.extent
  }

  /**
   * With a non-negative ratio, the `n` tiles of an axis cover every pixel
   * position of that axis: `p` lies in tile `i`.
   */
  lemma AxisCovers(size: U32, n: U32, q: Ratio, p: nat) returns (i: nat)
    requires ScaledDenom(n, q) > 0 && q.num >= 0 && n >= 1 && p < size
    ensures i < n && Contains(Place(PlanAxis(size, n, q), size, i), p)
  {
    AxisReach(size, n, q);
    var a := PlanAxis(size, n, q);
    assert 1 <= a.stride <= a.tile;
    i := StridesCover(a, size, n, p);
  }

  /**
   * Any axis whose stride is at most its tile extent, and whose last tile
   * reaches `size`, covers every position below `size`.
   */
  lemma StridesCover(a: Axis, size: U32, n: nat, p: nat) returns (i: nat)
    requires 1 <= a.stride <= a.tile && n >= 1 && p < size
    requires (n - 1) * a.stride + a.tile >= size
    ensures i < n && Contains(Place(a, size, i), p)
  {
    i := CellStart(p, a.stride, a.tile, n);
    PlaceContains(a, size, i, p);
  }

  /** A tile that starts at or before `p` and would reach past it contains `p`, clipping and all. */
  lemma PlaceContains(a: Axis, size: U32, i: nat, p: nat)
    requires i * a.stride <= p < i * a.stride + a.tile && p < size
    ensures Contains(Place(a, size, i), p)
  {
    var sp := Place(a, size, i);
    assert sp.origin == i * a.stride;
  }

  /**
   * The arithmetic of `StridesCover`: with `n` tiles of extent `t` every
   * `s` positions reaching past `p`, tile `min(p / s, n - 1)` starts at or
   * before `p` and ends after it.
   */
  lemma CellStart(p: nat, s: nat, t: nat, n: nat) returns (i: nat)
    requires 1 <= s <= t && n >= 1 && p < (n - 1) * s + t
    ensures i < n && i * s <= p < i * s + t
  {
    var q := p / s;
    assert q * s <= p < q * s + s by {
      assert p == q * s + p % s;
    }
    if q <= n - 1 {
      i := q;
    } else {
      i := n - 1;
      MulLeMonotone(n - 1, q, s);
    }
  }

  /**
   * With non-negative ratios the planned tiles cover the whole image: pixel
   * `(px, py)` lies in the rectangle of the tile in row `r`, column `c`.
   */
  lemma GridCoversImage(rows: U32, cols: U32, rx: Ratio, ry: Ratio, w: U32, h: U32, px: nat, py: nat)
    returns (r: nat, c: nat)
    requires rows >= 1 && cols >= 1 && rx.num >= 0 && ry.num >= 0
    requires PlanLayout(rows, cols, rx, ry, w, h).Ok? && px < w && py < h
    ensures r < rows && c < cols
    ensures var t := TileRect(PlanLayout(rows, cols, rx, ry, w, h).value, w, h, r, c);
      t.x <= px < t.x + t.width && t.y <= py < t.y + t.height
  {
    c := AxisCovers(w, cols, rx, px);
    r := AxisCovers(h, rows, ry, py);
  }

  /**
   * A 2000 by 1000 image in one row of two columns with ratio 0.1: tiles are
   * 1053 pixels wide (the ceiling of 2000 / 1.9), the overlap is 105 pixels,
   * and the second tile starts at x = 948 and is clipped to 1052 pixels.
   */
  lemma TwoColumnExample()
    ensures var lay := PlanLayout(1, 2, Ratio(1, 10), Ratio(1, 10), 2000, 1000);
      lay.Ok? && lay.value.x == Axis(1053, 105, 948) && lay.value.y == Axis(1000, 100, 900) &&
      TileRect(lay.value, 2000, 1000, 0, 0) == Rect(0, 0, 1053, 1000) &&
      TileRect(lay.value, 2000, 1000, 0, 1) == Rect(948, 0, 1052, 1000)
  {
    var q := Ratio(1, 10);
    var ax, ay := Axis(1053, 105, 948), Axis(1000, 100, 900);
    assert PlanAxis(2000, 2, q) == ax by {
      assert ScaledDenom(2, q) == 19;
      assert TileExtent(2000, 2, q) == 1053;
      assert OverlapExtent(1053, q) == 105;
    }
    assert PlanAxis(1000, 1, q) == ay by {
      assert ScaledDenom(1, q) == 10;
      assert TileExtent(1000, 1, q) == 1000;
      assert OverlapExtent(1000, q) == 100;
    }
    assert Place(ax, 2000, 0) == Span(0, 1053);
    assert Place(ax, 2000, 1) == Span(948, 1052) by {
      assert WrapU32(948) == 948;
    }
    assert Place(ay, 1000, 0) == Span(0, 1000);
  }
}
