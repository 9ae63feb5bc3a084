/**
 * Tile geometry of the tiled inference: padding each dimension to a multiple
 * of the sub-image size, and the row-major numbering of the tiles.
 */
module Geometry {

  /** SUB_IMAGE_SIZE: width and height of every tile. */
  const SUB_IMAGE_SIZE: nat := 256

  /** A dimension rounded up to the next multiple of SUB_IMAGE_SIZE. */
  function PaddedSize(n: nat): (r: nat)
    ensures r % SUB_IMAGE_SIZE == 0
    ensures n <= r < n + SUB_IMAGE_SIZE
  {
    if n % SUB_IMAGE_SIZE != 0 then n + (SUB_IMAGE_SIZE - n % SUB_IMAGE_SIZE) else n
  }

  /** No multiple of SUB_IMAGE_SIZE that is at least n is below PaddedSize(n). */
  lemma PaddedSizeIsSmallest(n: nat, m: nat)
    requires m % SUB_IMAGE_SIZE == 0 && n <= m
    ensures PaddedSize(n) <= m
  {
  }

  /** A dimension that is already a multiple is left as it is. */
  lemma PaddedSizeOfMultiple(n: nat)
    requires n % SUB_IMAGE_SIZE == 0
    ensures PaddedSize(n) == n
  {
  }

  /** The number of tiles along one axis of a padded dimension; the division is exact. */
  function TileCount(padded: nat): (c: nat)
    requires padded % SUB_IMAGE_SIZE == 0
    ensures c * SUB_IMAGE_SIZE == padded
  {
    padded / SUB_IMAGE_SIZE
  }

  /** The list index of tile (i, j) in a grid that is numX tiles wide. */
  function TileIndex(i: nat, j: nat, numX: nat): nat {
    i + j * numX
  }

  lemma MulLeft(a: nat, b: nat, n: nat)
    requires a <= b
    ensures a * n <= b * n
  {
  }

  /**
   * Row-major numbering is a bijection from the tiles of a numX by numY grid
   * onto 0 .. numX*numY - 1: tile (i, j) gets an index in range, and the
   * index gives back i as its remainder and j as its quotient by numX.
   */
  lemma TileIndexBijective(i: nat, j: nat, numX: nat, numY: nat)
    requires i < numX && j < numY
    ensures TileIndex(i, j, numX) < numX * numY
    ensures TileIndex(i, j, numX) % numX == i
    ensures TileIndex(i, j, numX) / numX == j
  {
    var k := i + j * numX;
    MulLeft(j + 1, numY, numX);
    assert k < (j + 1) * numX;
    DivModUnique(k, numX, j, i);
  }

  /** Every index of the task list belongs to exactly the tile (k % numX, k / numX). */
  lemma TileOfIndex(k: nat, numX: nat, numY: nat)
    requires k < numX * numY
    ensures numX > 0
    ensures k % numX < numX && k / numX < numY
    ensures TileIndex(k % numX, k / numX, numX) == k
  {
    if k / numX >= numY {
      MulLeft(numY, k / numX, numX);
      assert false;
    }
  }

  lemma DivModUnique(k: nat, n: nat, q: nat, r: nat)
    requires k == q * n + r && r < n
    ensures k / n == q && k % n == r
  {
    var q', r' := k / n, k % n;
    assert k == q' * n + r';
    if q < q' {
      MulLeft(q + 1, q', n);
      assert false;
    } else if q' < q {
      MulLeft(q' + 1, q, n);
      assert false;
    }
  }

  /** Pixel (x, y) lies in the SUB_IMAGE_SIZE square whose origin is (i*SIZE, j*SIZE). */
  predicate InTile(x: nat, y: nat, i: nat, j: nat) {
    i * SUB_IMAGE_SIZE <= x < i * SUB_IMAGE_SIZE + SUB_IMAGE_SIZE &&
    j * SUB_IMAGE_SIZE <= y < j * SUB_IMAGE_SIZE + SUB_IMAGE_SIZE
  }

  /**
   * The tiling of a numX*SIZE by numY*SIZE image is exact: each pixel lies in
   * the tile (x / SIZE, y / SIZE), which is one of the grid, at local offset
   * (x % SIZE, y % SIZE), and in no other tile.
   */
  lemma TilingIsExact(x: nat, y: nat, numX: nat, numY: nat)
    requires x < numX * SUB_IMAGE_SIZE && y < numY * SUB_IMAGE_SIZE
    ensures x / SUB_IMAGE_SIZE < numX && y / SUB_IMAGE_SIZE < numY
    ensures InTile(x, y, x / SUB_IMAGE_SIZE, y / SUB_IMAGE_SIZE)
    ensures x - (x / SUB_IMAGE_SIZE) * SUB_IMAGE_SIZE == x % SUB_IMAGE_SIZE
    ensures y - (y / SUB_IMAGE_SIZE) * SUB_IMAGE_SIZE == y % SUB_IMAGE_SIZE
    ensures forall i: nat, j: nat :: InTile(x, y, i, j) ==> i == x / SUB_IMAGE_SIZE && j == y / SUB_IMAGE_SIZE
  {
    forall i: nat, j: nat | InTile(x, y, i, j)
      ensures i == x / SUB_IMAGE_SIZE && j == y / SUB_IMAGE_SIZE
    {
      DivModUnique(x, SUB_IMAGE_SIZE, i, x - i * SUB_IMAGE_SIZE);
      DivModUnique(y, SUB_IMAGE_SIZE, j, y - j * SUB_IMAGE_SIZE);
    }
  }

  /** The task index of the tile holding pixel (x, y) is in range. */
  lemma PixelTileIndexInRange(x: nat, y: nat, numX: nat, numY: nat)
    requires x < numX * SUB_IMAGE_SIZE && y < numY * SUB_IMAGE_SIZE
    ensures TileIndex(x / SUB_IMAGE_SIZE, y / SUB_IMAGE_SIZE, numX) < numX * numY
  {
    TilingIsExact(x, y, numX, numY);
    TileIndexBijective(x / SUB_IMAGE_SIZE, y / SUB_IMAGE_SIZE, numX, numY);
  }

  /** A 300 by 100 image is padded to 512 by 256, which is two tiles. */
  lemma PaddingExample()
    ensures PaddedSize(300) == 512 && PaddedSize(100) == 256
    ensures TileCount(PaddedSize(300)) * TileCount(PaddedSize(100)) == 2
  {
  }
}
