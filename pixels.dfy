/**
 * ARGB_8888 pixels as the 32-bit patterns that android.graphics.Color uses,
 * and the per-pixel grayscale filter applied outside the detected figure.
 */
module Pixels {

  /** A pixel as the bit pattern of a Java `int` in ARGB order. */
  type Pixel = bv32

  /** Color.WHITE: opaque white, the foreground colour of a mask. */
  const WHITE: Pixel := 0xFFFF_FFFF
  /** Color.BLACK: opaque black, the background colour of a mask. */
  const BLACK: Pixel := 0xFF00_0000
  /** The pixel of a freshly allocated ARGB_8888 bitmap (all channels zero). */
  const TRANSPARENT: Pixel := 0

  /** The four 8-bit channels, as (rgb >> shift) & 0xff extracts them. */
  function Alpha(p: Pixel): bv8 { ((p >> 24) & 0xff) as bv8 }
  function Red(p: Pixel): bv8 { ((p >> 16) & 0xff) as bv8 }
  function Green(p: Pixel): bv8 { ((p >> 8) & 0xff) as bv8 }
  function Blue(p: Pixel): bv8 { (p & 0xff) as bv8 }

  /**
   * The truncated average (r + g + b) / 3 of three channels: the one v with
   * 3v <= r + g + b < 3v + 3. The sum, at most 765, fits in 16 bits, so the
   * bit-vector arithmetic here is the integer arithmetic of the source.
   */
  function Average(r: bv8, g: bv8, b: bv8): (v: bv8)
    ensures var s := r as bv16 + g as bv16 + b as bv16;
      s <= 765 && 3 * (v as bv16) <= s < 3 * (v as bv16) + 3
  {
    ((r as bv16 + g as bv16 + b as bv16) / 3) as bv8
  }

  /** 0xff000000 | v << 16 | v << 8 | v: the opaque pixel with all three channels v. */
  function OpaqueGray(v: bv8): (p: Pixel)
    ensures Alpha(p) == 0xff && Red(p) == v && Green(p) == v && Blue(p) == v
  {
    var c := v as bv32;
    0xff00_0000 | (c << 16) | (c << 8) | c
  }

  /** True of an opaque pixel whose three colour channels are equal. */
  predicate IsOpaqueGray(p: Pixel) {
    Alpha(p) == 0xff && Red(p) == Green(p) && Green(p) == Blue(p)
  }

  /**
   * The grayscale replacement of one pixel: the truncated average of its
   * three channels, written to all three, with full opacity.
   */
  function Gray(p: Pixel): (q: Pixel)
    ensures IsOpaqueGray(q)
    ensures Red(q) == Average(Red(p), Green(p), Blue(p))
  {
    OpaqueGray(Average(Red(p), Green(p), Blue(p)))
  }

  /**
   * One step of the mask filter: a pixel whose mask pixel is WHITE is kept,
   * every other pixel is replaced by its gray.
   */
  function MaskPixel(p: Pixel, m: Pixel): (q: Pixel)
    ensures m == WHITE ==> q == p
    ensures m != WHITE ==> IsOpaqueGray(q) && Red(q) == Average(Red(p), Green(p), Blue(p))
  {
    if m != WHITE then Gray(p) else p
  }

  /** An opaque gray pixel with channel value v is its own gray: (3v)/3 = v. */
  lemma GrayFixesOpaqueGray(p: Pixel)
    requires IsOpaqueGray(p)
    ensures Gray(p) == p
  {
    var v := Red(p);
    assert Average(v, v, v) == v;
  }

  /** The gray filter is idempotent. */
  lemma GrayIdempotent(p: Pixel)
    ensures Gray(Gray(p)) == Gray(p)
  {
    GrayFixesOpaqueGray(Gray(p));
  }

  /** Filtering a pixel twice with the same mask pixel equals filtering it once. */
  lemma MaskPixelIdempotent(p: Pixel, m: Pixel)
    ensures MaskPixel(MaskPixel(p, m), m) == MaskPixel(p, m)
  {
    if m != WHITE {
      GrayIdempotent(p);
    }
  }
}
