/**
 * The key-colour classifier `is_key_color` and the per-pixel step of the
 * chroma-key pass that `merge_tiles` runs when background removal is on.
 */
module KeyColor {
  import opened Bytes

  /**
   * The same thresholds as `IsKeyColor`, in exact integer arithmetic and
   * without saturation: a channel is "high" at `240 - tol` or above and
   * "low" at `15 + tol` (black) or `50 + tol` (the primaries) or below.
   */
  predicate WithinKey(p: Pixel, color: string, tol: U8) {
    var high := (c: U8) => c + tol >= 240;
    var dark := (c: U8) => c <= 15 + tol;
    var low := (c: U8) => c <= 50 + tol;
    if color == "black" then dark(p.r) && dark(p.g) && dark(p.b)
    else if color == "red" then high(p.r) && low(p.g) && low(p.b)
    else if color == "blue" then low(p.r) && low(p.g) && high(p.b)
    else if color == "green" then low(p.r) && high(p.g) && low(p.b)
    else high(p.r) && high(p.g) && high(p.b)
  }

  /**
   * `is_key_color`: a nearly transparent pixel always matches; otherwise the
   * named colour's thresholds, widened by `tol` with `u8` saturating
   * arithmetic, decide. A colour name outside the five known ones is white.
   */
  function IsKeyColor(p: Pixel, color: string, tol: U8): (r: bool)
    ensures p.a < 10 ==> r
    ensures p.a >= 10 ==> (r <==> WithinKey(p, color, tol))
  {
    if p.a < 10 then true
    else
      var whiteMin := SatSubU8(240, tol);
      var blackMax := SatAddU8(15, tol);
      var colorMin := SatSubU8(240, tol);
      var colorMax := SatAddU8(50, tol);
      match color
      case "white" => p.r >= whiteMin && p.g >= whiteMin && p.b >= whiteMin
      case "black" => p.r <= blackMax && p.g <= blackMax && p.b <= blackMax
      case "red" => p.r >= colorMin && p.g <= colorMax && p.b <= colorMax
      case "blue" => p.r <= colorMax && p.g <= colorMax && p.b >= colorMin
      case "green" => p.r <= colorMax && p.g >= colorMin && p.b <= colorMax
      case _ => p.r >= whiteMin && p.g >= whiteMin && p.b >= whiteMin
  }

  /** A colour name the classifier does not know is classified exactly like "white". */
  lemma UnknownColorIsWhite(p: Pixel, color: string, tol: U8)
    requires color !in {"white", "black", "red", "green", "blue"}
    ensures IsKeyColor(p, color, tol) == IsKeyColor(p, "white", tol)
  {
  }

  /** Widening the tolerance never turns a key pixel into a non-key pixel. */
  lemma ToleranceMonotone(p: Pixel, color: string, t1: U8, t2: U8)
    requires t1 <= t2 && IsKeyColor(p, color, t1)
    ensures IsKeyColor(p, color, t2)
  {
  }

  /** The three cases of the unit test `test_is_key_color`. */
  lemma KeyColorUnitTest()
    ensures IsKeyColor(Pixel(255, 255, 255, 255), "white", 10)
    ensures IsKeyColor(Pixel(0, 0, 0, 0), "white", 10)
    ensures !IsKeyColor(Pixel(255, 0, 0, 255), "white", 10)
  {
  }

  /**
   * One pixel of the chroma-key pass: a pixel matching the key becomes
   * fully transparent black, every other pixel is kept.
   */
  function KeyOut(p: Pixel, color: string, tol: U8): (r: Pixel)
    ensures r == p || r == Transparent
    ensures r == Transparent <==> (p == Transparent || IsKeyColor(p, color, tol))
    ensures IsKeyColor(r, color, tol) ==> r == Transparent
  {
    if IsKeyColor(p, color, tol) then Transparent else p
  }

  /** The chroma-key step is idempotent: the transparent pixel it writes still matches the key. */
  lemma KeyOutIdempotent(p: Pixel, color: string, tol: U8)
    ensures KeyOut(KeyOut(p, color, tol), color, tol) == KeyOut(p, color, tol)
  {
  }

  /**
   * Keying out green with tolerance 10: a pure green background pixel becomes
   * transparent, an opaque red subject pixel keeps its full opacity.
   */
  lemma GreenKeyScenario()
    ensures KeyOut(Pixel(0, 255, 0, 255), "green", 10) == Transparent
    ensures KeyOut(Pixel(255, 0, 0, 255), "green", 10) == Pixel(255, 0, 0, 255)
  {
  }
}
