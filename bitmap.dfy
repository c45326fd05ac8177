/** The part of android.graphics.Bitmap the pixel transforms use: a
    width x height raster of packed ARGB words, read with getPixel and
    written in place with setPixel.  The raster is held column by column,
    cells[x][y], matching the (x, y) arguments of getPixel/setPixel. */
module Bitmaps {
  import opened Color

  type Grid = seq<seq<Argb>>

  /** g has w columns of h cells each. */
  ghost predicate IsGrid(g: Grid, w: nat, h: nat)
  {
    |g| == w && forall i :: 0 <= i < w ==> |g[i]| == h
  }

  /** (x, y) is a coordinate of a w x h raster. */
  predicate InBounds(w: nat, h: nat, x: int, y: int)
  {
    0 <= x < w && 0 <= y < h
  }

  /** g with the cell at (x, y) replaced by c. */
  function Put(g: Grid, x: int, y: int, c: Argb): Grid
    requires 0 <= x < |g| && 0 <= y < |g[x]|
  {
    var column: seq<Argb> := g[x][y := c];
    g[x := column]
  }

  class Bitmap {
    const width: nat
    const height: nat
    var cells: Grid

    ghost predicate Valid()
      reads this
    {
      IsGrid(cells, width, height)
    }

    /** Bitmap.createBitmap(width, height, ARGB_8888): a fresh raster whose
        every pixel is 0 (transparent black). */
    constructor Create(width: nat, height: nat)
      ensures Valid() && this.width == width && this.height == height
      ensures forall x, y :: InBounds(width, height, x, y) ==> cells[x][y] == 0
    {
      this.width := width;
      this.height := height;
      cells := seq(width, i => seq(height, j => 0));
    }

    /** getPixel(x, y); Android throws on a coordinate outside the raster. */
    function GetPixel(x: int, y: int): (c: Argb)
      reads this
      requires Valid() && InBounds(width, height, x, y)
      ensures c == cells[x][y]
    {
      cells[x][y]
    }

    /** setPixel(x, y, c): only the one cell changes. */
    method SetPixel(x: int, y: int, c: Argb)
      requires Valid() && InBounds(width, height, x, y)
      modifies this
      ensures Valid()
      ensures cells == Put(old(cells), x, y, c)
    {
      cells := Put(cells, x, y, c);
    }
  }
}
