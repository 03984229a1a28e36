/**
 * The compositing stage of `merge_tiles`: every loaded tile is written into
 * the output canvas in ascending `(r, c)` order; inside the overlap band
 * along a tile's left and top edges the incoming pixel is blended with what
 * earlier tiles left there, with a weight that ramps linearly from 0 at the
 * tile's edge towards 1 at the end of the band. With background removal on,
 * a key-coloured pixel never overwrites real content in a band, and a final
 * pass turns every key-coloured pixel transparent.
 *
 * The canvas is the `original_h` by `original_w` grid of pixels, indexed
 * `canvas[y, x]`.
 */
module Composite {
  import opened Bytes
  import opened Geometry
  import opened KeyColor

  /** The settings the compositing loop reads: the key colour and the overlap band widths. */
  datatype Blend = Blend(keyColor: string, removeBg: bool, tolerance: U8, overlapW: U32, overlapH: U32)

  /** The weight `num / den` of the incoming pixel (`factor`); the source holds it as an `f32`. */
  datatype Weight = Weight(num: nat, den: PosInt)

  predicate WeightLe(a: Weight, b: Weight) {
    a.num * b.den <= b.num * a.den
  }

  /** `f32::max` of two weights. */
  function MaxWeight(a: Weight, b: Weight): (m: Weight)
    ensures m == a || m == b
    ensures WeightLe(a, m) && WeightLe(b, m)
  {
    if WeightLe(a, b) then b else a
  }

  /**
   * `factor`: `x_ramp[x] = x / overlap_w` for a pixel only in the left band,
   * `y_ramp[y] = y / overlap_h` for one only in the top band, the larger of
   * the two in the corner where the bands cross.
   */
  function Factor(inX: bool, inY: bool, x: nat, y: nat, opts: Blend): (f: Weight)
    requires inX || inY
    requires inX ==> opts.overlapW > 0
    requires inY ==> opts.overlapH > 0
    ensures (inX ==> x < opts.overlapW) && (inY ==> y < opts.overlapH) ==> f.num < f.den
    ensures inX && x == 0 && !inY ==> f.num == 0
  {
    if inX && !inY then Weight(x, opts.overlapW)
    else if inY && !inX then Weight(y, opts.overlapH)
    else MaxWeight(Weight(x, opts.overlapW), Weight(y, opts.overlapH))
  }

  /** `(inv * old + factor * new) as u8`: the weighted mean, truncated. */
  function BlendChannel(o: U8, n: U8, f: Weight): (r: U8)
    requires f.num <= f.den
    ensures Min(o, n) <= r <= Max(o, n)
    ensures f.num == 0 ==> r == o
    ensures f.num == f.den ==> r == n
  {
    BlendBounds(o, n, f.num, f.den);
    ((f.den - f.num) * o + f.num * n) / f.den
  }

  function Max(a: int, b: int): int {
    if a <= b then b else a
  }

  /** The truncated weighted mean of `o` and `n` lies between them and meets each at its end of the ramp. */
  lemma BlendBounds(o: nat, n: nat, num: nat, den: PosInt)
    requires num <= den
    ensures var q := ((den - num) * o + num * n) / den;
      Min(o, n) <= q <= Max(o, n) && (num == 0 ==> q == o) && (num == den ==> q == n)
  {
    var s := (den - num) * o + num * n;
    MeanBounds(o, n, num, den, Min(o, n), Max(o, n));
    DivBetween(s, den, Min(o, n), Max(o, n));
    if num == 0 {
      DivBetween(s, den, o, o);
    } else if num == den {
      DivBetween(s, den, n, n);
    }
  }

  lemma MeanBounds(o: nat, n: nat, num: nat, den: PosInt, lo: nat, hi: nat)
    requires num <= den && lo <= o <= hi && lo <= n <= hi
    ensures den * lo <= (den - num) * o + num * n <= den * hi
  {
    var m := den - num;
    MulLeMonotone(lo, o, m);
    MulLeMonotone(lo, n, num);
    MulLeMonotone(o, hi, m);
    MulLeMonotone(n, hi, num);
    Distrib(m, num, lo);
    Distrib(m, num, hi);
  }

  lemma Distrib(a: int, b: int, x: int)
    ensures a * x + b * x == (a + b) * x
  {
  }

  lemma DivBetween(s: nat, den: PosInt, lo: nat, hi: nat)
    requires den * lo <= s <= den * hi
    ensures lo <= s / den <= hi
  {
    var q := s / den;
    var r := s % den;
    assert s == den * q + r && 0 <= r < den;
    if q < lo {
      MulLeMonotone(q + 1, lo, den);
    }
    if q > hi {
      MulLeMonotone(hi + 1, q, den);
    }
  }

  function BlendPixel(o: Pixel, n: Pixel, f: Weight): Pixel
    requires f.num <= f.den
  {
    Pixel(BlendChannel(o.r, n.r, f), BlendChannel(o.g, n.g, f),
          BlendChannel(o.b, n.b, f), BlendChannel(o.a, n.a, f))
  }

  /** Every channel of `p` lies between the same channels of `o` and `n`. */
  predicate Between(o: Pixel, n: Pixel, p: Pixel) {
    Min(o.r, n.r) <= p.r <= Max(o.r, n.r) && Min(o.g, n.g) <= p.g <= Max(o.g, n.g) &&
    Min(o.b, n.b) <= p.b <= Max(o.b, n.b) && Min(o.a, n.a) <= p.a <= Max(o.a, n.a)
  }

  /** With removal on, exactly one of the canvas pixel and the tile pixel has the key colour: a key rule decides. */
  predicate KeyClash(o: Pixel, n: Pixel, opts: Blend) {
    opts.removeBg && IsKeyColor(n, opts.keyColor, opts.tolerance) != IsKeyColor(o, opts.keyColor, opts.tolerance)
  }

  /**
   * The pixel the loop body leaves in the canvas when tile pixel `n` lands
   * on canvas pixel `o`; `inX` and `inY` say whether it lies in the tile's
   * left or top overlap band, and `f` is the weight of `n` there.
   */
  function CompositePixel(o: Pixel, n: Pixel, inX: bool, inY: bool, f: Weight, opts: Blend): (p: Pixel)
    ensures Between(o, n, p)
    ensures p != o && p != n ==> 0 < f.num < f.den
    ensures !inX && !inY ==> p == n
    ensures o.a == 0 ==> p == n
    ensures ((inX || inY) && o.a != 0 && opts.removeBg &&
             IsKeyColor(n, opts.keyColor, opts.tolerance) && !IsKeyColor(o, opts.keyColor, opts.tolerance)) ==> p == o
    ensures (o.a != 0 && opts.removeBg &&
             !IsKeyColor(n, opts.keyColor, opts.tolerance) && IsKeyColor(o, opts.keyColor, opts.tolerance)) ==> p == n
    ensures (inX || inY) && o.a != 0 && !KeyClash(o, n, opts) && f.num == 0 ==> p == o
    ensures o.a != 0 && !KeyClash(o, n, opts) && f.num >= f.den ==> p == n
  {
    if !inX && !inY then n
    else if o.a == 0 then n
    else if opts.removeBg && IsKeyColor(n, opts.keyColor, opts.tolerance)
         && !IsKeyColor(o, opts.keyColor, opts.tolerance) then o
    else if opts.removeBg && !IsKeyColor(n, opts.keyColor, opts.tolerance)
         && IsKeyColor(o, opts.keyColor, opts.tolerance) then n
    else if f.num == 0 then o
    else if f.num >= f.den then n
    else BlendPixel(o, n, f)
  }

  /** One decoded tile at its place in the output (`LoadedTile`). */
  datatype Placed = Placed(r: U32, c: U32, startX: U32, startY: U32, image: RgbaImage)

  /** Tile `t` covers canvas pixel `(gx, gy)`. */
  predicate Covers(t: Placed, gx: nat, gy: nat) {
    t.startX <= gx < t.startX + t.image.width && t.startY <= gy < t.startY + t.image.height
  }

  /** Column `x` of the tile lies in its left overlap band (`in_overlap_x`). */
  predicate InBandX(t: Placed, x: nat, opts: Blend) {
    t.c > 0 && opts.overlapW > 0 && x < opts.overlapW
  }

  /** Row `y` of the tile lies in its top overlap band (`in_overlap_y`). */
  predicate InBandY(t: Placed, y: nat, opts: Blend) {
    t.r > 0 && opts.overlapH > 0 && y < opts.overlapH
  }

  /** The weight of the tile's pixel `(x, y)`; only consulted inside a band. */
  function TileWeight(t: Placed, x: nat, y: nat, opts: Blend): (f: Weight)
    ensures InBandX(t, x, opts) || InBandY(t, y, opts) ==> f.num < f.den
  {
    var inX := InBandX(t, x, opts);
    var inY := InBandY(t, y, opts);
    if inX || inY then Factor(inX, inY, x, y, opts) else Weight(1, 1)
  }

  /**
   * Canvas pixel `(gx, gy)` after tile `t` has been composited over its
   * value `p`: unchanged where the tile does not reach, otherwise the loop
   * body's result for the tile pixel landing there.
   */
  function AfterTile(p: Pixel, gx: nat, gy: nat, t: Placed, opts: Blend): Pixel {
    if !Covers(t, gx, gy) then p
    else
      var x := gx - t.startX;
      var y := gy - t.startY;
      CompositePixel(p, t.image.At(x, y), InBandX(t, x, opts), InBandY(t, y, opts), TileWeight(t, x, y, opts), opts)
  }

  /** Canvas pixel `(gx, gy)` after all of `tiles`, in order, have been composited over `p`. */
  function Composited(p: Pixel, gx: nat, gy: nat, tiles: seq<Placed>, opts: Blend): Pixel {
    if tiles == [] then p
    else AfterTile(Composited(p, gx, gy, tiles[..|tiles| - 1], opts), gx, gy, tiles[|tiles| - 1], opts)
  }

  /** A pixel no tile covers keeps its value. */
  lemma {:induction false} UncoveredUnchanged(p: Pixel, gx: nat, gy: nat, tiles: seq<Placed>, opts: Blend)
    requires forall i :: 0 <= i < |tiles| ==> !Covers(tiles[i], gx, gy)
    ensures Composited(p, gx, gy, tiles, opts) == p
  {
    if tiles != [] {
      UncoveredUnchanged(p, gx, gy, tiles[..|tiles| - 1], opts);
    }
  }

  /**
   * Where the last tile to cover a pixel covers it outside its overlap
   * bands, the output is exactly that tile's pixel: earlier tiles leave no
   * trace there.
   */
  lemma {:induction false} LastInteriorWins(p: Pixel, gx: nat, gy: nat, tiles: seq<Placed>, i: nat, opts: Blend)
    requires i < |tiles| && Covers(tiles[i], gx, gy)
    requires !InBandX(tiles[i], gx - tiles[i].startX, opts) && !InBandY(tiles[i], gy - tiles[i].startY, opts)
    requires forall j :: i < j < |tiles| ==> !Covers(tiles[j], gx, gy)
    ensures Composited(p, gx, gy, tiles, opts) == tiles[i].image.At(gx - tiles[i].startX, gy - tiles[i].startY)
  {
    if i < |tiles| - 1 {
      LastInteriorWins(p, gx, gy, tiles[..|tiles| - 1], i, opts);
    }
  }

  /**
   * Every channel a tile leaves in the canvas lies between the value that
   * was there and the tile's own pixel: blending never invents a colour.
   */
  lemma AfterTileBetween(p: Pixel, gx: nat, gy: nat, t: Placed, opts: Blend)
    requires Covers(t, gx, gy)
    ensures Between(p, t.image.At(gx - t.startX, gy - t.startY), AfterTile(p, gx, gy, t, opts))
  {
  }

  /**
   * With background removal on, a key-coloured tile pixel landing in a band
   * on an opaque, non-key canvas pixel leaves that pixel alone.
   */
  lemma KeyNeverOverwritesContent(p: Pixel, gx: nat, gy: nat, t: Placed, opts: Blend)
    requires Covers(t, gx, gy) && opts.removeBg && p.a != 0
    requires InBandX(t, gx - t.startX, opts) || InBandY(t, gy - t.startY, opts)
    requires IsKeyColor(t.image.At(gx - t.startX, gy - t.startY), opts.keyColor, opts.tolerance)
    requires !IsKeyColor(p, opts.keyColor, opts.tolerance)
    ensures AfterTile(p, gx, gy, t, opts) == p
  {
  }

  /**
   * At a tile's left edge, in its left band only, an opaque canvas pixel is
   * kept as it was (weight 0), unless a key rule decides.
   */
  lemma SeamStartKeepsCanvas(p: Pixel, gy: nat, t: Placed, opts: Blend)
    requires Covers(t, t.startX, gy) && p.a != 0 && !KeyClash(p, t.image.At(0, gy - t.startY), opts)
    requires t.c > 0 && opts.overlapW > 0 && !InBandY(t, gy - t.startY, opts)
    ensures AfterTile(p, t.startX, gy, t, opts) == p
  {
  }

  /**
   * Composite tile `t` row by row into `canvas`; rows and columns that fall
   * outside the canvas are skipped.
   */
  method CompositeTile(canvas: array2<Pixel>, t: Placed, opts: Blend)
    modifies canvas
    ensures forall gy, gx :: 0 <= gy < canvas.Length0 && 0 <= gx < canvas.Length1 ==>
      canvas[gy, gx] == AfterTile(old(canvas[gy, gx]), gx, gy, t, opts)
  {
    var y: nat := 0;
    while y < t.image.height
      invariant y <= t.image.height
      invariant forall gy, gx :: 0 <= gy < canvas.Length0 && 0 <= gx < canvas.Length1 ==>
        canvas[gy, gx] == if t.startY <= gy < t.startY + y then AfterTile(old(canvas[gy, gx]), gx, gy, t, opts) else old(canvas[gy, gx])
    {
      if t.startY + y < canvas.Length0 {
        CompositeRow(canvas, t, y, opts);
      }
      y := y + 1;
    }
  }

  /** Composite row `y` of tile `t` into canvas row `start_y + y`. */
  method CompositeRow(canvas: array2<Pixel>, t: Placed, y: nat, opts: Blend)
    requires y < t.image.height && t.startY + y < canvas.Length0
    modifies canvas
    ensures forall gy, gx :: 0 <= gy < canvas.Length0 && 0 <= gx < canvas.Length1 ==>
      canvas[gy, gx] == if gy == t.startY + y then AfterTile(old(canvas[gy, gx]), gx, gy, t, opts) else old(canvas[gy, gx])
  {
    var gy := t.startY + y;
    var inY := InBandY(t, y, opts);
    var x: nat := 0;
    while x < t.image.width
      invariant x <= t.image.width
      invariant forall gy', gx :: 0 <= gy' < canvas.Length0 && 0 <= gx < canvas.Length1 ==>
        canvas[gy', gx] == if gy' == gy && t.startX <= gx < t.startX + x then AfterTile(old(canvas[gy', gx]), gx, gy', t, opts) else old(canvas[gy', gx])
    {
      var gx := t.startX + x;
      if gx < canvas.Length1 {
        var inX := InBandX(t, x, opts);
        var f := TileWeight(t, x, y, opts);
        canvas[gy, gx] := CompositePixel(canvas[gy, gx], t.image.At(x, y), inX, inY, f, opts);
      }
      x := x + 1;
    }
  }

  /** Composite every tile, in the order given, into `canvas`. */
  method CompositeTiles(canvas: array2<Pixel>, tiles: seq<Placed>, opts: Blend)
    modifies canvas
    ensures forall gy, gx :: 0 <= gy < canvas.Length0 && 0 <= gx < canvas.Length1 ==>
      canvas[gy, gx] == Composited(old(canvas[gy, gx]), gx, gy, tiles, opts)
  {
    var i := 0;
    while i < |tiles|
      invariant i <= |tiles|
      invariant forall gy, gx :: 0 <= gy < canvas.Length0 && 0 <= gx < canvas.Length1 ==>
        canvas[gy, gx] == Composited(old(canvas[gy, gx]), gx, gy, tiles[..i], opts)
    {
      CompositeTile(canvas, tiles[i], opts);
      assert tiles[..i + 1][..i] == tiles[..i];
      i := i + 1;
    }
    assert tiles[..i] == tiles;
  }

  /** The final pass with background removal on: every key-coloured pixel becomes transparent. */
  method ChromaKeyPass(canvas: array2<Pixel>, opts: Blend)
    modifies canvas
    ensures forall gy, gx :: 0 <= gy < canvas.Length0 && 0 <= gx < canvas.Length1 ==>
      canvas[gy, gx] == KeyOut(old(canvas[gy, gx]), opts.keyColor, opts.tolerance)
  {
    var y := 0;
    while y < canvas.Length0
      invariant y <= canvas.Length0
      invariant forall gy, gx :: 0 <= gy < canvas.Length0 && 0 <= gx < canvas.Length1 ==>
        canvas[gy, gx] == if gy < y then KeyOut(old(canvas[gy, gx]), opts.keyColor, opts.tolerance) else old(canvas[gy, gx])
    {
      var x := 0;
      while x < canvas.Length1
        invariant x <= canvas.Length1
        invariant forall gy, gx :: 0 <= gy < canvas.Length0 && 0 <= gx < canvas.Length1 ==>
          canvas[gy, gx] ==
            if gy < y || (gy == y && gx < x) then KeyOut(old(canvas[gy, gx]), opts.keyColor, opts.tolerance)
            else old(canvas[gy, gx])
      {
        if IsKeyColor(canvas[y, x], opts.keyColor, opts.tolerance) {
          canvas[y, x] := Transparent;
        }
        x := x + 1;
      }
      y := y + 1;
    }
  }

}
