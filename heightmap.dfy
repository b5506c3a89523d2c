/**
 * The image the lithophane is built from, and the two preprocessing steps the
 * window applies before the grid walk: inverting every pixel and mirroring the
 * image vertically (src/mainwindow.cpp:66-67).
 *
 * Only the red channel is modelled, since it is the only one the walk reads,
 * and only for a grayscale or direct-colour image. An indexed image is
 * inverted on its palette indices instead, which this module does not model.
 */
module Heightmap {

  /** Pixel rows: g[y][x] is the value of column x in row y. */
  type Grid = seq<seq<int>>

  /** The width of the image: the length of its first row. */
  function Cols(g: Grid): nat {
    if |g| == 0 then 0 else |g[0]|
  }

  /** What a loaded image guarantees: all rows are equally wide, and an image with rows has columns. */
  predicate WellFormed(g: Grid) {
    && (forall y :: 0 <= y < |g| ==> |g[y]| == Cols(g))
    && (|g| > 0 ==> Cols(g) > 0)
  }

  /** Every channel value fits in one byte. */
  predicate EightBit(g: Grid) {
    forall y, x :: 0 <= y < |g| && 0 <= x < |g[y]| ==> 0 <= g[y][x] <= 255
  }

  predicate SameShape(g: Grid, h: Grid) {
    |g| == |h| && forall y :: 0 <= y < |g| ==> |g[y]| == |h[y]|
  }

  /** Inverted pixels of a grayscale or direct-colour image: each 8-bit value v becomes 255 - v. */
  function Invert(g: Grid): (r: Grid)
    ensures SameShape(g, r)
  {
    seq(|g|, y requires 0 <= y < |g| => seq(|g[y]|, x requires 0 <= x < |g[y]| => 255 - g[y][x]))
  }

  /** The image flipped top to bottom: row y of the result is row |g|-1-y of g. */
  function Mirror(g: Grid): (r: Grid)
    ensures |r| == |g|
  {
    seq(|g|, y requires 0 <= y < |g| => g[|g| - 1 - y])
  }

  /** The image the grid walk reads: inverted, then mirrored vertically. */
  function Prepare(g: Grid): Grid {
    Mirror(Invert(g))
  }

  lemma InvertInvolutive(g: Grid)
    ensures Invert(Invert(g)) == g
  {
    var r := Invert(Invert(g));
    forall y | 0 <= y < |g|
      ensures r[y] == g[y]
    {
      assert |r[y]| == |g[y]|;
    }
  }

  lemma InvertKeepsRange(g: Grid)
    ensures EightBit(g) ==> EightBit(Invert(g))
    ensures WellFormed(g) ==> WellFormed(Invert(g))
  {
  }

  lemma MirrorInvolutive(g: Grid)
    ensures Mirror(Mirror(g)) == g
  {
  }

  /** Mirroring and inverting are independent: the order of the two calls does not matter. */
  lemma InvertMirrorCommute(g: Grid)
    ensures Mirror(Invert(g)) == Invert(Mirror(g))
  {
  }

  /** The processed image keeps the shape of the original. */
  lemma PrepareShape(g: Grid)
    requires WellFormed(g)
    ensures WellFormed(Prepare(g)) && |Prepare(g)| == |g| && Cols(Prepare(g)) == Cols(g)
  {
  }

  /**
   * What the walk samples: processed pixel (x, y) is the inverse of the
   * original pixel in the same column and the mirrored row, and the
   * processed image keeps the range of the original.
   */
  lemma PrepareAt(g: Grid)
    requires WellFormed(g)
    ensures EightBit(g) ==> EightBit(Prepare(g))
    ensures forall y, x :: 0 <= y < |g| && 0 <= x < Cols(g) ==>
              Prepare(g)[y][x] == 255 - g[|g| - 1 - y][x]
  {
  }
}
