/** Decoded raster data: the RGBA grid that the converter reads after Pillow's
    `convert("RGBA")`. Decoding itself is not part of this model; an image is
    given as a grid of byte quadruples. */
module Pixels {

  /** One 8-bit channel value. */
  type Byte = x: int | 0 <= x < 256

  /** One pixel. Two pixels are "the same colour" exactly when all four
      channels are equal, as the tuple comparison of the scan demands. */
  datatype Rgba = Rgba(r: Byte, g: Byte, b: Byte, a: Byte)

  /** The pixel an empty canvas holds: nothing painted. */
  const Transparent := Rgba(0, 0, 0, 0)

  predicate IsTransparent(p: Rgba) {
    p.a == 0
  }

  /** A decoded image of `width` columns and `height` rows; `pixels[y][x]` is
      the pixel at column `x` of row `y`. */
  datatype Image = Image(width: nat, height: nat, pixels: seq<seq<Rgba>>) {
    predicate Valid() {
      && |pixels| == height
      && forall y :: 0 <= y < |pixels| ==> |pixels[y]| == width
    }

    /** No pixel of the image has a non-zero alpha. */
    predicate AllTransparent()
      requires Valid()
    {
      forall y, x :: 0 <= y < height && 0 <= x < width ==> IsTransparent(pixels[y][x])
    }
  }

  /** What survives of a pixel once it has been drawn: a fully transparent
      pixel keeps no colour. */
  function Normalize(p: Rgba): (q: Rgba)
    ensures IsTransparent(p) ==> q == Transparent
    ensures !IsTransparent(p) ==> q == p
  {
    if p.a == 0 then Transparent else p
  }

  function NormalizeRow(row: seq<Rgba>): (n: seq<Rgba>)
    ensures |n| == |row|
    ensures forall i :: 0 <= i < |row| ==> n[i] == Normalize(row[i])
  {
    seq(|row|, i requires 0 <= i < |row| => Normalize(row[i]))
  }

  function NormalizeGrid(grid: seq<seq<Rgba>>): (n: seq<seq<Rgba>>)
    ensures |n| == |grid|
    ensures forall y :: 0 <= y < |grid| ==> n[y] == NormalizeRow(grid[y])
  {
    seq(|grid|, y requires 0 <= y < |grid| => NormalizeRow(grid[y]))
  }

  /** The all-transparent `width` x `height` canvas. */
  function Blank(width: nat, height: nat): (g: seq<seq<Rgba>>)
    ensures |g| == height
    ensures forall y :: 0 <= y < height ==> g[y] == BlankRow(width)
  {
    seq(height, _ => BlankRow(width))
  }

  function BlankRow(width: nat): (row: seq<Rgba>)
    ensures |row| == width
    ensures forall x :: 0 <= x < width ==> row[x] == Transparent
  {
    seq(width, _ => Transparent)
  }
}
