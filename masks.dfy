/**
 * Building the full mask from the tiles' futures, and applying it to the
 * padded image.
 */
module Masks {
  import opened Pixels
  import opened Geometry
  import opened Grids
  import opened Tasks

  datatype Option<T> = None | Some(value: T)

  /** numX*numY mask tiles, each SIZE by SIZE. */
  predicate AreTiles(tiles: seq<Grid>, numX: nat, numY: nat) {
    |tiles| == numX * numY &&
    forall k :: 0 <= k < |tiles| ==> HasSize(tiles[k], SUB_IMAGE_SIZE, SUB_IMAGE_SIZE)
  }

  /** Pixel (x, y) of the stitched mask: local pixel of the tile that holds (x, y). */
  function StitchedAt(tiles: seq<Grid>, numX: nat, numY: nat, x: nat, y: nat): Pixel
    requires AreTiles(tiles, numX, numY)
    requires x < numX * SUB_IMAGE_SIZE && y < numY * SUB_IMAGE_SIZE
  {
    PixelTileIndexInRange(x, y, numX, numY);
    tiles[TileIndex(x / SUB_IMAGE_SIZE, y / SUB_IMAGE_SIZE, numX)][x % SUB_IMAGE_SIZE][y % SUB_IMAGE_SIZE]
  }

  /** The mask assembled from the tiles, the size of the padded image. */
  function Stitched(tiles: seq<Grid>, numX: nat, numY: nat): (mask: Grid)
    requires AreTiles(tiles, numX, numY)
    ensures HasSize(mask, numX * SUB_IMAGE_SIZE, numY * SUB_IMAGE_SIZE)
  {
    seq(numX * SUB_IMAGE_SIZE, x requires 0 <= x < numX * SUB_IMAGE_SIZE =>
      seq(numY * SUB_IMAGE_SIZE, y requires 0 <= y < numY * SUB_IMAGE_SIZE => StitchedAt(tiles, numX, numY, x, y)))
  }

  /**
   * Pixel (x, y) of the stitched mask is local pixel (x % SIZE, y % SIZE) of
   * tile x/SIZE + (y/SIZE)*numX, the one tile that covers (x, y).
   */
  lemma StitchedPixel(tiles: seq<Grid>, numX: nat, numY: nat, x: nat, y: nat)
    requires AreTiles(tiles, numX, numY)
    requires x < numX * SUB_IMAGE_SIZE && y < numY * SUB_IMAGE_SIZE
    ensures x / SUB_IMAGE_SIZE + (y / SUB_IMAGE_SIZE) * numX < |tiles|
    ensures Stitched(tiles, numX, numY)[x][y] ==
      tiles[x / SUB_IMAGE_SIZE + (y / SUB_IMAGE_SIZE) * numX][x % SUB_IMAGE_SIZE][y % SUB_IMAGE_SIZE]
  {
    PixelTileIndexInRange(x, y, numX, numY);
  }

  /**
   * Tile i + j*numX appears whole in the stitched mask with its origin at
   * (i*SIZE, j*SIZE): its local pixel (u, v) is mask pixel (i*SIZE + u, j*SIZE + v).
   */
  lemma StitchedPlacesTile(tiles: seq<Grid>, numX: nat, numY: nat, i: nat, j: nat, u: nat, v: nat)
    requires AreTiles(tiles, numX, numY)
    requires i < numX && j < numY && u < SUB_IMAGE_SIZE && v < SUB_IMAGE_SIZE
    ensures i * SUB_IMAGE_SIZE + u < numX * SUB_IMAGE_SIZE && j * SUB_IMAGE_SIZE + v < numY * SUB_IMAGE_SIZE
    ensures TileIndex(i, j, numX) < |tiles|
    ensures Stitched(tiles, numX, numY)[i * SUB_IMAGE_SIZE + u][j * SUB_IMAGE_SIZE + v] == tiles[TileIndex(i, j, numX)][u][v]
  {
    var x, y := i * SUB_IMAGE_SIZE + u, j * SUB_IMAGE_SIZE + v;
    DivModUnique(x, SUB_IMAGE_SIZE, i, u);
    DivModUnique(y, SUB_IMAGE_SIZE, j, v);
    TileIndexBijective(i, j, numX, numY);
  }

  /** The message of the first failed future in task order, if any. */
  function FirstFailure(results: seq<Future>): (r: Option<string>)
    ensures r.None? <==> forall k :: 0 <= k < |results| ==> results[k].Done?
    ensures r.Some? ==> exists k :: 0 <= k < |results| && results[k] == Failed(r.value) &&
                                    forall n :: 0 <= n < k ==> results[n].Done?
  {
    if |results| == 0 then None
    else if results[0].Failed? then Some(results[0].message)
    else
      var rest := FirstFailure(results[1..]);
      assert forall k :: 1 <= k < |results| ==> results[k] == results[1..][k - 1];
      rest
  }

  /** A failure preceded only by successes is the first failure. */
  lemma FirstFailureAt(results: seq<Future>, k: nat)
    requires k < |results| && results[k].Failed?
    requires forall n :: 0 <= n < k ==> results[n].Done?
    ensures FirstFailure(results) == Some(results[k].message)
  {
  }

  /** The mask tiles when every future succeeded. */
  function DoneTiles(results: seq<Future>): (tiles: seq<Grid>)
    requires forall k :: 0 <= k < |results| ==> results[k].Done?
    ensures |tiles| == |results|
    ensures forall k :: 0 <= k < |results| ==> tiles[k] == results[k].tile
  {
    seq(|results|, k requires 0 <= k < |results| => results[k].tile)
  }

  /** The outcome of stitching: the mask bitmap, or the message of the first failed task. */
  datatype MaskResult = Built(mask: array2<Pixel>) | Threw(message: string)

  /** A tile as a successful task returns it: SUB_IMAGE_SIZE square and opaque. */
  predicate IsMaskTile(tile: Grid) {
    HasSize(tile, SUB_IMAGE_SIZE, SUB_IMAGE_SIZE) && IsOpaque(tile)
  }

  /**
   * Canvas.drawBitmap(tile, left, top, null) on the mask. Source-over
   * blending of an opaque tile leaves exactly the tile's pixels.
   */
  method DrawBitmap(mask: array2<Pixel>, tile: Grid, left: nat, top: nat)
    requires IsMaskTile(tile)
    requires left + SUB_IMAGE_SIZE <= mask.Length0 && top + SUB_IMAGE_SIZE <= mask.Length1
    modifies mask
    ensures forall x, y :: 0 <= x < mask.Length0 && 0 <= y < mask.Length1 ==>
      mask[x, y] == if left <= x < left + SUB_IMAGE_SIZE && top <= y < top + SUB_IMAGE_SIZE
                    then tile[x - left][y - top] else old(mask[x, y])
  {
    forall x, y | left <= x < left + SUB_IMAGE_SIZE && top <= y < top + SUB_IMAGE_SIZE {
      mask[x, y] := tile[x - left][y - top];
    }
  }

  /**
   * Draws the tile of future i + j*numX at (i*SIZE, j*SIZE), row by row;
   * reading a failed future ends the stitching with its message.
   */
  method ComposeSubMasks(image: array2<Pixel>, results: seq<Future>, numX: nat, numY: nat) returns (r: MaskResult)
    requires image.Length0 == numX * SUB_IMAGE_SIZE && image.Length1 == numY * SUB_IMAGE_SIZE
    requires |results| == numX * numY
    requires forall k :: 0 <= k < |results| && results[k].Done? ==> IsMaskTile(results[k].tile)
    ensures r.Built? <==> FirstFailure(results).None?
    ensures r.Threw? ==> FirstFailure(results) == Some(r.message)
    ensures r.Built? ==> fresh(r.mask) && r.mask.Length0 == image.Length0 && r.mask.Length1 == image.Length1
    ensures r.Built? ==> AreTiles(DoneTiles(results), numX, numY) &&
                         Snapshot(r.mask) == Stitched(DoneTiles(results), numX, numY)
  {
    var width, height := image.Length0, image.Length1;
    var mask := new Pixel[width, height];
    for j := 0 to numY
      invariant forall k :: 0 <= k < j * numX ==> results[k].Done?
      invariant forall x, y :: 0 <= x < width && 0 <= y < j * SUB_IMAGE_SIZE ==>
        TileOwns(results, numX, numY, x, y, mask[x, y])
    {
      MulLeft(j + 1, numY, numX);
      for i := 0 to numX
        invariant forall k :: 0 <= k < i + j * numX ==> results[k].Done?
        invariant forall x, y :: 0 <= x < width && 0 <= y < j * SUB_IMAGE_SIZE ==>
          TileOwns(results, numX, numY, x, y, mask[x, y])
        invariant forall x, y :: 0 <= x < i * SUB_IMAGE_SIZE && j * SUB_IMAGE_SIZE <= y < j * SUB_IMAGE_SIZE + SUB_IMAGE_SIZE ==>
          TileOwns(results, numX, numY, x, y, mask[x, y])
      {
        TileIndexBijective(i, j, numX, numY);
        var k := i + j * numX;
        match results[k]
        case Failed(message) =>
          FirstFailureAt(results, k);
          return Threw(message);
        case Done(tile) =>
          DrawTile(mask, results, numX, numY, i, j);
      }
    }
    var tiles := DoneTiles(results);
    forall x, y | 0 <= x < width && 0 <= y < height
      ensures Stitched(tiles, numX, numY)[x][y] == mask[x, y]
    {
      PixelTileIndexInRange(x, y, numX, numY);
    }
    SnapshotEquals(mask, Stitched(tiles, numX, numY));
    r := Built(mask);
  }

  /** Draws the tile of the successful future i + j*numX at (i*SIZE, j*SIZE). */
  method DrawTile(mask: array2<Pixel>, results: seq<Future>, numX: nat, numY: nat, i: nat, j: nat)
    requires mask.Length0 == numX * SUB_IMAGE_SIZE && mask.Length1 == numY * SUB_IMAGE_SIZE
    requires |results| == numX * numY && i < numX && j < numY
    requires i + j * numX < |results|
    requires results[i + j * numX].Done? && IsMaskTile(results[i + j * numX].tile)
    modifies mask
    ensures forall x, y :: 0 <= x < mask.Length0 && 0 <= y < mask.Length1 ==>
      if i * SUB_IMAGE_SIZE <= x < i * SUB_IMAGE_SIZE + SUB_IMAGE_SIZE &&
         j * SUB_IMAGE_SIZE <= y < j * SUB_IMAGE_SIZE + SUB_IMAGE_SIZE
      then TileOwns(results, numX, numY, x, y, mask[x, y])
      else mask[x, y] == old(mask[x, y])
  {
    DrawBitmap(mask, results[i + j * numX].tile, i * SUB_IMAGE_SIZE, j * SUB_IMAGE_SIZE);
    forall x, y | 0 <= x < mask.Length0 && 0 <= y < mask.Length1 &&
                  i * SUB_IMAGE_SIZE <= x < i * SUB_IMAGE_SIZE + SUB_IMAGE_SIZE &&
                  j * SUB_IMAGE_SIZE <= y < j * SUB_IMAGE_SIZE + SUB_IMAGE_SIZE
      ensures TileOwns(results, numX, numY, x, y, mask[x, y])
    {
      DivModUnique(x, SUB_IMAGE_SIZE, i, x - i * SUB_IMAGE_SIZE);
      DivModUnique(y, SUB_IMAGE_SIZE, j, y - j * SUB_IMAGE_SIZE);
    }
  }

  /**
   * p is pixel (x mod SIZE, y mod SIZE) of the tile of the future that holds
   * (x, y), which succeeded.
   */
  predicate TileOwns(results: seq<Future>, numX: nat, numY: nat, x: nat, y: nat, p: Pixel)
    requires |results| == numX * numY
    requires x < numX * SUB_IMAGE_SIZE && y < numY * SUB_IMAGE_SIZE
  {
    PixelTileIndexInRange(x, y, numX, numY);
    var f := results[TileIndex(x / SUB_IMAGE_SIZE, y / SUB_IMAGE_SIZE, numX)];
    f.Done? && x % SUB_IMAGE_SIZE < |f.tile| && y % SUB_IMAGE_SIZE < |f.tile[x % SUB_IMAGE_SIZE]| &&
    p == f.tile[x % SUB_IMAGE_SIZE][y % SUB_IMAGE_SIZE]
  }

  /** The image with the mask applied: every pixel not WHITE in the mask turned gray. */
  function Masked(image: Grid, mask: Grid): (r: Grid)
    requires IsRect(image) && IsRect(mask)
    requires Width(mask) >= Width(image) && Height(mask) >= Height(image)
    ensures HasSize(r, Width(image), Height(image))
  {
    seq(Width(image), x requires 0 <= x < Width(image) =>
      seq(Height(image), y requires 0 <= y < Height(image) => MaskPixel(image[x][y], mask[x][y])))
  }

  /** Pixel (x, y) of the filtered image is the image's pixel filtered by the mask's. */
  lemma MaskedAt(image: Grid, mask: Grid, x: nat, y: nat)
    requires IsRect(image) && IsRect(mask)
    requires Width(mask) >= Width(image) && Height(mask) >= Height(image)
    requires x < Width(image) && y < Height(image)
    ensures Masked(image, mask)[x][y] == MaskPixel(image[x][y], mask[x][y])
  {
  }

  /**
   * One pixel of an image padded to pw by ph, filtered by a mask of that
   * size and cropped back: the image's own pixel, filtered by the cropped
   * mask's pixel at the same place.
   */
  lemma CroppedMaskedPixel(g: Grid, mask: Grid, pw: nat, ph: nat, x: nat, y: nat)
    requires IsRect(g) && pw >= Width(g) && ph >= Height(g)
    requires HasSize(mask, pw, ph)
    requires x < Width(g) && y < Height(g)
    ensures IsRect(mask) && IsRect(ResizeWithCropOrPad(g, pw, ph))
    ensures IsRect(Masked(ResizeWithCropOrPad(g, pw, ph), mask))
    ensures ResizeWithCropOrPad(Masked(ResizeWithCropOrPad(g, pw, ph), mask), Width(g), Height(g))[x][y] ==
      MaskPixel(g[x][y], ResizeWithCropOrPad(mask, Width(g), Height(g))[x][y])
  {
    var padded := ResizeWithCropOrPad(g, pw, ph);
    HasSizeIsRect(padded, pw, ph);
    HasSizeIsRect(mask, pw, ph);
    var filtered := Masked(padded, mask);
    HasSizeIsRect(filtered, pw, ph);
    assert Width(filtered) == Width(mask) == pw && Height(filtered) == Height(mask) == ph;
    var x', y' := x + (pw - Width(g)) / 2, y + (ph - Height(g)) / 2;
    CropAt(mask, pw, ph, Width(g), Height(g), x, y);
    CropAt(filtered, pw, ph, Width(g), Height(g), x, y);
    MaskedAt(padded, mask, x', y');
    PadKeepsContent(g, pw, ph, x', y');
    assert filtered[x'][y'] == MaskPixel(g[x][y], mask[x'][y']);
  }

  /**
   * Padding an image, filtering it by a mask of the padded size and cropping
   * it back filters every pixel of the image by the cropped mask.
   */
  lemma CroppedMaskedImage(g: Grid, mask: Grid, pw: nat, ph: nat)
    requires IsRect(g) && pw >= Width(g) && ph >= Height(g)
    requires HasSize(mask, pw, ph)
    ensures IsRect(mask) && IsRect(ResizeWithCropOrPad(g, pw, ph))
    ensures IsRect(Masked(ResizeWithCropOrPad(g, pw, ph), mask))
    ensures var image := ResizeWithCropOrPad(Masked(ResizeWithCropOrPad(g, pw, ph), mask), Width(g), Height(g));
      var cropped := ResizeWithCropOrPad(mask, Width(g), Height(g));
      forall x, y :: 0 <= x < Width(g) && 0 <= y < Height(g) ==> image[x][y] == MaskPixel(g[x][y], cropped[x][y])
  {
    HasSizeIsRect(mask, pw, ph);
    HasSizeIsRect(ResizeWithCropOrPad(g, pw, ph), pw, ph);
    HasSizeIsRect(Masked(ResizeWithCropOrPad(g, pw, ph), mask), pw, ph);
    forall x: nat, y: nat | x < Width(g) && y < Height(g)
      ensures ResizeWithCropOrPad(Masked(ResizeWithCropOrPad(g, pw, ph), mask), Width(g), Height(g))[x][y] ==
        MaskPixel(g[x][y], ResizeWithCropOrPad(mask, Width(g), Height(g))[x][y])
    {
      CroppedMaskedPixel(g, mask, pw, ph, x, y);
    }
  }

  /** Every pixel of the mask is WHITE or BLACK. */
  predicate IsBlackAndWhite(mask: Grid)
    requires IsRect(mask)
  {
    forall x, y :: 0 <= x < Width(mask) && 0 <= y < Height(mask) ==> mask[x][y] == WHITE || mask[x][y] == BLACK
  }

  /** A crop of a black and white mask is black and white. */
  lemma CropKeepsBlackAndWhite(mask: Grid, w: nat, h: nat)
    requires IsRect(mask) && IsBlackAndWhite(mask)
    requires w <= Width(mask) && h <= Height(mask)
    ensures IsRect(ResizeWithCropOrPad(mask, w, h))
    ensures w > 0 ==> IsBlackAndWhite(ResizeWithCropOrPad(mask, w, h))
  {
    var cropped := ResizeWithCropOrPad(mask, w, h);
    HasSizeIsRect(cropped, w, h);
    forall x, y | 0 <= x < w && 0 <= y < h
      ensures cropped[x][y] == WHITE || cropped[x][y] == BLACK
    {
      CropAt(mask, Width(mask), Height(mask), w, h, x, y);
    }
  }

  /** Applying the same mask a second time changes nothing more. */
  lemma MaskedIdempotent(image: Grid, mask: Grid)
    requires IsRect(image) && IsRect(mask)
    requires Width(mask) >= Width(image) && Height(mask) >= Height(image)
    ensures var once := Masked(image, mask);
      IsRect(once) && Masked(once, mask) == once
  {
    var once := Masked(image, mask);
    HasSizeIsRect(once, Width(image), Height(image));
    var twice := Masked(once, mask);
    forall x | 0 <= x < Width(image)
      ensures twice[x] == once[x]
    {
      forall y | 0 <= y < Height(image)
        ensures twice[x][y] == once[x][y]
      {
        MaskPixelIdempotent(image[x][y], mask[x][y]);
      }
    }
  }

  /** Turns gray, in place, every pixel of the image that is not WHITE in the mask. */
  method ApplyMask(image: array2<Pixel>, mask: array2<Pixel>)
    requires mask.Length0 >= image.Length0 && mask.Length1 >= image.Length1
    modifies image
    ensures forall x, y :: 0 <= x < image.Length0 && 0 <= y < image.Length1 ==>
      image[x, y] == MaskPixel(old(image[x, y]), old(mask[x, y]))
    ensures Snapshot(image) == Masked(old(Snapshot(image)), old(Snapshot(mask)))
  {
    ghost var before, maskBefore := Snapshot(image), Snapshot(mask);
    HasSizeIsRect(before, image.Length0, image.Length1);
    HasSizeIsRect(maskBefore, mask.Length0, mask.Length1);
    var width, height := image.Length0, image.Length1;
    for y := 0 to height
      invariant forall x', y' :: 0 <= x' < width && 0 <= y' < y ==>
        image[x', y'] == MaskPixel(old(image[x', y']), old(mask[x', y']))
      invariant forall x', y' :: 0 <= x' < width && y <= y' < height ==>
        image[x', y'] == old(image[x', y'])
      invariant forall x', y' :: 0 <= x' < mask.Length0 && y <= y' < mask.Length1 ==>
        mask[x', y'] == old(mask[x', y'])
    {
      ApplyMaskToRow(image, mask, y);
    }
    MaskedSnapshot(image, before, maskBefore);
  }

  /** Turns gray, in place, every pixel of row y of the image that is not WHITE in the mask. */
  method ApplyMaskToRow(image: array2<Pixel>, mask: array2<Pixel>, y: nat)
    requires mask.Length0 >= image.Length0 && mask.Length1 >= image.Length1 && y < image.Length1
    modifies image
    ensures forall x :: 0 <= x < image.Length0 ==> image[x, y] == MaskPixel(old(image[x, y]), old(mask[x, y]))
    ensures forall x, y' :: 0 <= x < image.Length0 && 0 <= y' < image.Length1 && y' != y ==>
      image[x, y'] == old(image[x, y'])
    ensures forall x, y' :: 0 <= x < mask.Length0 && 0 <= y' < mask.Length1 && y' != y ==>
      mask[x, y'] == old(mask[x, y'])
  {
    for x := 0 to image.Length0
      invariant forall x' :: 0 <= x' < x ==> image[x', y] == MaskPixel(old(image[x', y]), old(mask[x', y]))
      invariant forall x' :: x <= x' < image.Length0 ==> image[x', y] == old(image[x', y])
      invariant forall x' :: x <= x' < mask.Length0 ==> mask[x', y] == old(mask[x', y])
      invariant forall x', y' :: 0 <= x' < image.Length0 && 0 <= y' < image.Length1 && y' != y ==>
        image[x', y'] == old(image[x', y'])
      invariant forall x', y' :: 0 <= x' < mask.Length0 && 0 <= y' < mask.Length1 && y' != y ==>
        mask[x', y'] == old(mask[x', y'])
    {
      if mask[x, y] != WHITE {
        var rgb := image[x, y];
        image[x, y] := Gray(rgb);
      }
    }
  }

  /** A bitmap whose every pixel is the filtered pixel of an image holds the masked image. */
  lemma MaskedSnapshot(a: array2<Pixel>, image: Grid, mask: Grid)
    requires HasSize(image, a.Length0, a.Length1) && IsRect(image) && IsRect(mask)
    requires Width(mask) >= Width(image) && Height(mask) >= Height(image)
    requires forall x, y :: 0 <= x < a.Length0 && 0 <= y < a.Length1 ==> a[x, y] == MaskPixel(image[x][y], mask[x][y])
    ensures Snapshot(a) == Masked(image, mask)
  {
    SnapshotEquals(a, Masked(image, mask));
  }
}
