/**
 * `flatten_rgba_to_rgb_white`: composite an RGBA image over a white
 * background in `u16` integer arithmetic, producing the RGB bytes handed to
 * the JPEG encoder.
 */
module Flatten {
  import opened Bytes

  /**
   * The `u16` intermediate `c * a + 255 * (255 - a) + 127`. Its largest value
   * is 65152, so the `u16` arithmetic of the source never overflows.
   */
  function WhiteComposite(c: U8, a: U8): (t: U16)
    ensures 127 <= t <= 65152
    ensures t == 255 * 255 + 127 - (255 - c) * a
  {
    var inv: U16 := 255 - a;  // `255u16.saturating_sub(alpha)` never saturates
    CompositeArith(c, a);
    c * a + 255 * inv + 127
  }

  lemma CompositeArith(c: int, a: int)
    requires 0 <= c <= 255 && 0 <= a <= 255
    ensures c * a + 255 * (255 - a) == 255 * 255 - (255 - c) * a
    ensures 0 <= (255 - c) * a <= 255 * 255
  {
    MulLeMonotone(a, 255, 255 - c);
    MulLeMonotone(255 - c, 255, 255);
  }

  /** One output channel: the rounded value of `c` composited with alpha `a` over 255. */
  function FlattenChannel(c: U8, a: U8): (r: U8)
    ensures a == 255 ==> r == c
    ensures a == 0 ==> r == 255
    ensures c <= r
    ensures 255 * r <= WhiteComposite(c, a) < 255 * r + 255
  {
    var t := WhiteComposite(c, a);
    var q := t / 255;
    assert 255 * q <= t < 255 * q + 255;
    var m := (255 - c) * a;
    assert m <= (255 - c) * 255 by { MulLeMonotone(a, 255, 255 - c); }
    assert a == 255 ==> m == (255 - c) * 255;
    assert a == 0 ==> m == 0;
    q
  }

  /** The channel is monotone in the colour value, whatever the alpha. */
  lemma FlattenChannelMonotone(c1: U8, c2: U8, a: U8)
    requires c1 <= c2
    ensures FlattenChannel(c1, a) <= FlattenChannel(c2, a)
  {
    MulLeMonotone(255 - c2, 255 - c1, a);
    var t1: int, t2: int := WhiteComposite(c1, a), WhiteComposite(c2, a);
    assert t1 <= t2;
    var q1: int, q2: int := FlattenChannel(c1, a), FlattenChannel(c2, a);
    assert 255 * q1 <= t1 <= t2 < 255 * q2 + 255;
  }

  /** `rgb` holds, pixel by pixel and in the same order, the red, green and blue of `img` flattened onto white. */
  predicate WhiteFlattened(img: Image, rgb: seq<U8>) {
    |rgb| == 3 * |img.pixels| &&
    forall i :: 0 <= i < |img.pixels| ==>
      var p := img.pixels[i];
      rgb[3 * i] == FlattenChannel(p.r, p.a) &&
      rgb[3 * i + 1] == FlattenChannel(p.g, p.a) &&
      rgb[3 * i + 2] == FlattenChannel(p.b, p.a)
  }

  /**
   * The pixel loop of `flatten_rgba_to_rgb_white`: three bytes per pixel,
   * in pixel order.
   */
  method FlattenRgbaToRgbWhite(img: Image) returns (rgb: seq<U8>)
    requires img.Valid()
    ensures |rgb| == 3 * img.width * img.height
    ensures WhiteFlattened(img, rgb)
  {
    rgb := [];
    var k := 0;
    while k < |img.pixels|
      invariant 0 <= k <= |img.pixels|
      invariant |rgb| == 3 * k
      invariant forall i :: 0 <= i < k ==>
        var p := img.pixels[i];
        rgb[3 * i] == FlattenChannel(p.r, p.a) &&
        rgb[3 * i + 1] == FlattenChannel(p.g, p.a) &&
        rgb[3 * i + 2] == FlattenChannel(p.b, p.a)
    {
      var px := img.pixels[k];
      var r := FlattenChannel(px.r, px.a);
      var g := FlattenChannel(px.g, px.a);
      var b := FlattenChannel(px.b, px.a);
      rgb := rgb + [r, g, b];
      k := k + 1;
    }
  }
}
