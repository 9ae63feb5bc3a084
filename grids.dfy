/**
 * Images as values: a grid of pixels indexed [x][y] (x the column, y the
 * row, as Bitmap.getPixel(x, y)), and the library operations on bitmaps the
 * pipeline relies on: copying a region (Bitmap.createBitmap(src, x, y, w, h))
 * and resizing by centered cropping or zero padding (ResizeWithCropOrPadOp).
 */
module Grids {
  import opened Pixels

  /** Column x of a grid is g[x]; pixel (x, y) is g[x][y]. */
  type Grid = seq<seq<Pixel>>

  function Width(g: Grid): nat { |g| }

  function Height(g: Grid): nat { if |g| == 0 then 0 else |g[0]| }

  /** Every column has the same length. */
  predicate IsRect(g: Grid) {
    forall x :: 0 <= x < |g| ==> |g[x]| == Height(g)
  }

  /** The grid has w columns of h pixels. */
  predicate HasSize(g: Grid, w: nat, h: nat) {
    |g| == w && forall x :: 0 <= x < w ==> |g[x]| == h
  }

  lemma HasSizeIsRect(g: Grid, w: nat, h: nat)
    requires HasSize(g, w, h)
    ensures IsRect(g) && Width(g) == w && (w > 0 ==> Height(g) == h)
  {
  }

  /** Every pixel of the grid has full alpha. */
  predicate IsOpaque(g: Grid) {
    forall x, y :: 0 <= x < |g| && 0 <= y < |g[x]| ==> Alpha(g[x][y]) == 0xff
  }

  /** The w by h region of g whose top-left corner is (x0, y0), as a new image. */
  function Region(g: Grid, x0: nat, y0: nat, w: nat, h: nat): (r: Grid)
    requires IsRect(g) && x0 + w <= Width(g) && y0 + h <= Height(g)
    ensures HasSize(r, w, h)
    ensures forall x, y :: 0 <= x < w && 0 <= y < h ==> r[x][y] == g[x0 + x][y0 + y]
  {
    seq(w, x requires 0 <= x < w => seq(h, y requires 0 <= y < h => g[x0 + x][y0 + y]))
  }

  /**
   * Where the source axis of length `source` starts on a target axis of
   * length `target` when the content is centered: a non-negative offset when
   * the target is larger (padding), a non-positive one when it is smaller
   * (cropping). The same half of the difference is taken both ways.
   */
  function Offset(target: nat, source: nat): int {
    if target >= source then (target - source) / 2 else -((source - target) / 2)
  }

  /** Pixel (x, y) of g, or TRANSPARENT outside g. */
  function PixelOrPad(g: Grid, x: int, y: int): Pixel
    requires IsRect(g)
  {
    if 0 <= x < Width(g) && 0 <= y < Height(g) then g[x][y] else TRANSPARENT
  }

  /**
   * The image resized to w by h: on each axis the content is centered, the
   * surplus is cut off evenly when the target is smaller, and the missing
   * part is filled with zero pixels when it is larger.
   */
  function ResizeWithCropOrPad(g: Grid, w: nat, h: nat): (r: Grid)
    requires IsRect(g)
    ensures HasSize(r, w, h)
  {
    var dx := Offset(w, Width(g));
    var dy := Offset(h, Height(g));
    seq(w, x requires 0 <= x < w => seq(h, y requires 0 <= y < h => PixelOrPad(g, x - dx, y - dy)))
  }

  /** Pixel (x, y) of a resized image comes from the centered position of the source. */
  lemma ResizeAt(g: Grid, w: nat, h: nat, x: nat, y: nat)
    requires IsRect(g) && x < w && y < h
    ensures ResizeWithCropOrPad(g, w, h)[x][y] ==
      PixelOrPad(g, x - Offset(w, Width(g)), y - Offset(h, Height(g)))
  {
  }

  /** Cropping a pw by ph image to w by h keeps the centered part of it. */
  lemma CropAt(g: Grid, pw: nat, ph: nat, w: nat, h: nat, x: nat, y: nat)
    requires IsRect(g) && Width(g) == pw && Height(g) == ph
    requires w <= pw && h <= ph && x < w && y < h
    ensures ResizeWithCropOrPad(g, w, h)[x][y] == g[x + (pw - w) / 2][y + (ph - h) / 2]
  {
    ResizeAt(g, w, h, x, y);
  }

  /**
   * Growing an image and then shrinking it back to its own size gives the
   * image back: the crop removes exactly the border that the pad added.
   */
  lemma CropUndoesPad(g: Grid, w: nat, h: nat)
    requires IsRect(g) && Width(g) > 0
    requires w >= Width(g) && h >= Height(g)
    ensures ResizeWithCropOrPad(ResizeWithCropOrPad(g, w, h), Width(g), Height(g)) == g
  {
    var p := ResizeWithCropOrPad(g, w, h);
    HasSizeIsRect(p, w, h);
    var c := ResizeWithCropOrPad(p, Width(g), Height(g));
    var dx, dy := Offset(w, Width(g)), Offset(h, Height(g));
    assert Offset(Width(g), Width(p)) == -dx;
    assert Offset(Height(g), Height(p)) == -dy;
    forall x | 0 <= x < Width(g)
      ensures c[x] == g[x]
    {
      forall y | 0 <= y < Height(g)
        ensures c[x][y] == g[x][y]
      {
        ResizeAt(p, Width(g), Height(g), x, y);
        ResizeAt(g, w, h, x + dx, y + dy);
      }
    }
  }

  /** Resizing to the size an image already has changes nothing. */
  lemma ResizeToOwnSize(g: Grid)
    requires IsRect(g)
    ensures ResizeWithCropOrPad(g, Width(g), Height(g)) == g
  {
    var r := ResizeWithCropOrPad(g, Width(g), Height(g));
    forall x | 0 <= x < Width(g)
      ensures r[x] == g[x]
    {
      forall y | 0 <= y < Height(g)
        ensures r[x][y] == g[x][y]
      {
        ResizeAt(g, Width(g), Height(g), x, y);
      }
    }
  }

  /**
   * Padding keeps every original pixel, moved by the centering offset, and
   * fills every other position with TRANSPARENT.
   */
  lemma PadKeepsContent(g: Grid, w: nat, h: nat, x: nat, y: nat)
    requires IsRect(g) && w >= Width(g) && h >= Height(g)
    requires x < w && y < h
    ensures var dx, dy := (w - Width(g)) / 2, (h - Height(g)) / 2;
      ResizeWithCropOrPad(g, w, h)[x][y] ==
        if dx <= x < dx + Width(g) && dy <= y < dy + Height(g) then g[x - dx][y - dy] else TRANSPARENT
  {
    ResizeAt(g, w, h, x, y);
  }

  /** The grid held by a bitmap. */
  function Snapshot(a: array2<Pixel>): (g: Grid)
    reads a
    ensures HasSize(g, a.Length0, a.Length1)
    ensures forall x, y :: 0 <= x < a.Length0 && 0 <= y < a.Length1 ==> g[x][y] == a[x, y]
  {
    seq(a.Length0, x requires 0 <= x < a.Length0 reads a =>
      seq(a.Length1, y requires 0 <= y < a.Length1 reads a => a[x, y]))
  }

  /** A grid equal pixel by pixel to a bitmap, and of its size, is its snapshot. */
  lemma SnapshotEquals(a: array2<Pixel>, g: Grid)
    requires HasSize(g, a.Length0, a.Length1)
    requires forall x, y :: 0 <= x < a.Length0 && 0 <= y < a.Length1 ==> g[x][y] == a[x, y]
    ensures Snapshot(a) == g
  {
    var s := Snapshot(a);
    forall x | 0 <= x < a.Length0
      ensures s[x] == g[x]
    {
    }
  }

  /** A new mutable bitmap holding the pixels of g. */
  method NewBitmap(g: Grid, w: nat, h: nat) returns (a: array2<Pixel>)
    requires HasSize(g, w, h)
    ensures fresh(a) && a.Length0 == w && a.Length1 == h
    ensures Snapshot(a) == g
  {
    a := new Pixel[w, h];
    forall x, y | 0 <= x < w && 0 <= y < h {
      a[x, y] := g[x][y];
    }
    SnapshotEquals(a, g);
  }
}
