/**
 * Machine integers, RGBA pixels and row-major images (`image::RgbaImage`).
 * Rust's unsigned integers are subset types of `int`; every saturating or
 * wrapping operation the source relies on is written out here.
 */
module Bytes {

  type U8 = x: int | 0 <= x < 0x100
  type U16 = x: int | 0 <= x < 0x1_0000
  type U32 = x: int | 0 <= x < 0x1_0000_0000

  const U32_MAX: U32 := 0xFFFF_FFFF

  /** `u8::saturating_sub` */
  function SatSubU8(a: U8, b: U8): U8 {
    if a >= b then a - b else 0
  }

  /** `u8::saturating_add` */
  function SatAddU8(a: U8, b: U8): U8 {
    if a + b <= 255 then a + b else 255
  }

  /** `u32::saturating_sub` */
  function SatSubU32(a: U32, b: U32): U32 {
    if a >= b then a - b else 0
  }

  /** `u32` arithmetic in a release build, where overflow wraps around modulo 2^32. */
  function WrapU32(x: nat): U32 {
    x % 0x1_0000_0000
  }

  /** One `Rgba<u8>` pixel. */
  datatype Pixel = Pixel(r: U8, g: U8, b: U8, a: U8)

  /** The zero pixel: what `RgbaImage::new` fills a fresh image with, and what keyed pixels become. */
  const Transparent: Pixel := Pixel(0, 0, 0, 0)

  /** An `RgbaImage`: `width * height` pixels stored row by row. */
  datatype Image = Image(width: U32, height: U32, pixels: seq<Pixel>) {

    ghost predicate Valid() {
      |pixels| == width * height
    }

    /** The pixel in column `x` of row `y`. */
    function At(x: nat, y: nat): Pixel
      requires Valid() && x < width && y < height
    {
      RowMajorBound(x, y, width, height);
      pixels[y * width + x]
    }
  }

  /** An image whose pixel buffer has exactly `width * height` pixels, as every `RgbaImage` has. */
  type RgbaImage = img: Image | img.Valid() witness Image(0, 0, [])

  /** The row-major index of a pixel inside a `w` by `h` grid lies inside the grid. */
  lemma RowMajorBound(x: nat, y: nat, w: nat, h: nat)
    requires x < w && y < h
    ensures y * w + x < w * h
  {
    MulLeMonotone(y, h - 1, w);
  }

  /** Multiplying by a natural number keeps the order. */
  lemma MulLeMonotone(a: int, b: int, k: nat)
    ensures a <= b ==> a * k <= b * k
  {
  }

  /** A positive factor common to both sides of an inequality can be cancelled. */
  lemma MulLeCancel(a: int, b: int, k: nat)
    requires k > 0 && a * k <= b * k
    ensures a <= b
  {
    if a > b {
      MulLeMonotone(b + 1, a, k);
    }
  }

  /** The `w` by `h` image whose pixel at `(x, y)` is `f(x, y)`. */
  function Tabulate(w: U32, h: U32, f: (nat, nat) -> Pixel): (img: RgbaImage)
    ensures img.width == w && img.height == h
  {
    Image(w, h, seq(w * h, k requires 0 <= k < w * h => RowMajorCell(k, w, h); f(k % w, k / w)))
  }

  lemma TabulateAt(w: U32, h: U32, f: (nat, nat) -> Pixel, x: nat, y: nat)
    requires x < w && y < h
    ensures Tabulate(w, h, f).At(x, y) == f(x, y)
  {
    RowMajorBound(x, y, w, h);
    RowMajorDivMod(x, y, w);
  }

  /**
   * A resampling filter (Lanczos3 in the program): the pixel at `(x, y)` of
   * the source image resized to `w` by `h`.
   */
  type Resampler = (RgbaImage, U32, U32, nat, nat) -> Pixel

  /** `resize_exact(w, h, Lanczos3)`: a `w` by `h` image of resampled pixels. */
  function ResizeExact(img: RgbaImage, w: U32, h: U32, resample: Resampler): (out: RgbaImage)
    ensures out.width == w && out.height == h
  {
    Tabulate(w, h, (x: nat, y: nat) => resample(img, w, h, x, y))
  }

  /** An image brought to `w` by `h`; an image already that size is kept as it is. */
  function Fit(img: RgbaImage, w: U32, h: U32, resample: Resampler): (out: RgbaImage)
    ensures out.width == w && out.height == h
    ensures img.width == w && img.height == h ==> out == img
  {
    if img.width != w || img.height != h then ResizeExact(img, w, h, resample) else img
  }

  /** Two images of the same size that agree at every pixel are equal. */
  lemma SameImage(a: RgbaImage, b: RgbaImage)
    requires a.width == b.width && a.height == b.height
    requires forall x: nat, y: nat :: x < a.width && y < a.height ==> a.At(x, y) == b.At(x, y)
    ensures a == b
  {
    forall k | 0 <= k < |a.pixels| ensures a.pixels[k] == b.pixels[k] {
      RowMajorCell(k, a.width, a.height);
      assert a.At(k % a.width, k / a.width) == b.At(k % a.width, k / a.width);
    }
  }

  /** Index `k` of a `w` by `h` grid lies in row `k / w`, column `k % w`, both inside the grid. */
  lemma RowMajorCell(k: nat, w: nat, h: nat)
    requires k < w * h
    ensures w > 0 && k / w < h && k % w < w && k == (k / w) * w + k % w
  {
    var q := k / w;
    assert k == q * w + k % w;
    if q >= h {
      MulLeMonotone(h, q, w);
    }
  }

  lemma RowMajorDivMod(x: nat, y: nat, w: nat)
    requires x < w
    ensures (y * w + x) / w == y && (y * w + x) % w == x
  {
    var i := y * w + x;
    var q, m := i / w, i % w;
    assert i == q * w + m && 0 <= m < w;
    MulLeMonotone(q + 1, y, w);
    MulLeMonotone(y + 1, q, w);
  }

  /** Row-major indices are ordered by row first, then by column. */
  lemma RowMajorLess(r1: nat, c1: nat, r2: nat, c2: nat, w: nat)
    requires c1 < w && c2 < w && r1 * w + c1 < r2 * w + c2
    ensures r1 < r2 || (r1 == r2 && c1 < c2)
  {
    MulLeMonotone(r2 + 1, r1, w);
  }

  /** A row-major index determines its row and its column. */
  lemma RowMajorUnique(r1: nat, c1: nat, r2: nat, c2: nat, w: nat)
    requires c1 < w && c2 < w && r1 * w + c1 == r2 * w + c2
    ensures r1 == r2 && c1 == c2
  {
    MulLeMonotone(r1 + 1, r2, w);
    MulLeMonotone(r2 + 1, r1, w);
  }

  /** Pixel `k`, counted row by row, of a canvas indexed `canvas[y, x]`. */
  function CanvasCell(canvas: array2<Pixel>, k: nat): Pixel
    requires k < canvas.Length0 * canvas.Length1
    reads canvas
  {
    RowMajorCell(k, canvas.Length1, canvas.Length0);
    canvas[k / canvas.Length1, k % canvas.Length1]
  }

  /** The canvas read as an image, row by row (`final_img`). */
  function Snapshot(canvas: array2<Pixel>): (img: RgbaImage)
    requires canvas.Length0 <= U32_MAX && canvas.Length1 <= U32_MAX
    reads canvas
    ensures img.width == canvas.Length1 && img.height == canvas.Length0
  {
    var n := canvas.Length1 * canvas.Length0;
    Image(canvas.Length1, canvas.Length0, seq(n, k requires 0 <= k < n reads canvas => CanvasCell(canvas, k)))
  }

  /** Pixel `(x, y)` of the snapshot is `canvas[y, x]`. */
  lemma SnapshotAt(canvas: array2<Pixel>, x: nat, y: nat)
    requires canvas.Length0 <= U32_MAX && canvas.Length1 <= U32_MAX
    requires x < canvas.Length1 && y < canvas.Length0
    ensures Snapshot(canvas).At(x, y) == canvas[y, x]
  {
    RowMajorBound(x, y, canvas.Length1, canvas.Length0);
    RowMajorDivMod(x, y, canvas.Length1);
  }
}
