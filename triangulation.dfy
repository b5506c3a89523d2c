/**
 * The facets the grid walk in MainWindow::MainWindow emits
 * (src/mainwindow.cpp:69-145), as a list in emission order. The grid g is the
 * processed image: H = |g| rows, W = Cols(g) columns. Rows y in [0, H-2] are
 * walked; in each, columns x in [0, W-2].
 */
module Triangulation {
  import opened Heightmap
  import opened Geometry

  /** The pixel (x, y) exists: every sample the walk takes must satisfy this. */
  predicate InImage(g: Grid, x: int, y: int) {
    0 <= y < |g| && 0 <= x < |g[y]|
  }

  /** The vertex at (x, y) on the surface: the height of pixel (x, y). */
  function Sample(g: Grid, x: int, y: int): Vertex
    requires InImage(g, x, y)
  {
    Vertex(x, y, Pix(g[y][x]))
  }

  /** The vertex at (x, y) on the minThickness plane. */
  function Base(x: int, y: int): Vertex {
    Vertex(x, y, Floor)
  }

  /** The number of rows the outer loop visits: H - 1, and none for an empty image. */
  function RowCount(g: Grid): nat {
    if |g| == 0 then 0 else |g| - 1
  }

  /** Close left side: two facets in column 0 between rows y and y+1. */
  function LeftWallPair(g: Grid, y: int): seq<Facet>
    requires WellFormed(g) && 0 <= y < |g| - 1
  {
    [Facet(LeftWall, Base(0, y), Sample(g, 0, y), Sample(g, 0, y + 1)),
     Facet(LeftWall, Sample(g, 0, y + 1), Base(0, y + 1), Base(0, y))]
  }

  /** Close top: two facets in row 0 between columns x and x+1. */
  function TopEdgePair(g: Grid, x: int): seq<Facet>
    requires WellFormed(g) && |g| >= 1 && 0 <= x < Cols(g) - 1
  {
    [Facet(TopEdge, Sample(g, x + 1, 0), Sample(g, x, 0), Base(x, 0)),
     Facet(TopEdge, Base(x, 0), Base(x + 1, 0), Sample(g, x + 1, 0))]
  }

  /** Close bottom: two facets in the last row H-1 between columns x and x+1. */
  function BottomEdgePair(g: Grid, x: int): seq<Facet>
    requires WellFormed(g) && |g| >= 1 && 0 <= x < Cols(g) - 1
  {
    var h := |g| - 1;
    [Facet(BottomEdge, Base(x, h), Sample(g, x, h), Sample(g, x + 1, h)),
     Facet(BottomEdge, Sample(g, x + 1, h), Base(x + 1, h), Base(x, h))]
  }

  /** The two surface facets over the cell whose lower corner is (x, y). */
  function SurfacePair(g: Grid, x: int, y: int): seq<Facet>
    requires WellFormed(g) && 0 <= x < Cols(g) - 1 && 0 <= y < |g| - 1
  {
    [Facet(Surface, Sample(g, x, y), Sample(g, x + 1, y + 1), Sample(g, x, y + 1)),
     Facet(Surface, Sample(g, x, y), Sample(g, x + 1, y), Sample(g, x + 1, y + 1))]
  }

  /** Close right side: two facets in column W-1 between rows y and y+1. */
  function RightWallPair(g: Grid, y: int): seq<Facet>
    requires WellFormed(g) && 0 <= y < |g| - 1
  {
    var w := Cols(g) - 1;
    [Facet(RightWall, Sample(g, w, y + 1), Sample(g, w, y), Base(w, y)),
     Facet(RightWall, Base(w, y), Base(w, y + 1), Sample(g, w, y + 1))]
  }

  /** Create flat backside: two facets on the minThickness plane over the corners of the image. */
  function BackplatePair(g: Grid): seq<Facet> {
    var w, h := Cols(g) - 1, |g| - 1;
    [Facet(Backplate, Base(0, 0), Base(w, h), Base(0, h)),
     Facet(Backplate, Base(0, 0), Base(w, 0), Base(w, h))]
  }

  /** One pass of the inner loop: the closures while y == 0, then the cell's surface. */
  function Cell(g: Grid, x: int, y: int): seq<Facet>
    requires WellFormed(g) && 0 <= x < Cols(g) - 1 && 0 <= y < |g| - 1
  {
    (if y == 0 then TopEdgePair(g, x) + BottomEdgePair(g, x) else []) + SurfacePair(g, x, y)
  }

  /** The first n passes of the inner loop in row y. */
  function Cells(g: Grid, y: int, n: nat): seq<Facet>
    requires WellFormed(g) && 0 <= y < |g| - 1 && n <= Cols(g) - 1
  {
    if n == 0 then [] else Cells(g, y, n - 1) + Cell(g, n - 1, y)
  }

  /** One pass of the outer loop: left side, the cells of row y, right side. */
  function Row(g: Grid, y: int): seq<Facet>
    requires WellFormed(g) && 0 <= y < |g| - 1
  {
    LeftWallPair(g, y) + Cells(g, y, Cols(g) - 1) + RightWallPair(g, y)
  }

  /** The first n passes of the outer loop. */
  function Body(g: Grid, n: nat): seq<Facet>
    requires WellFormed(g) && n <= RowCount(g)
  {
    if n == 0 then [] else Body(g, n - 1) + Row(g, n - 1)
  }

  /** Every facet the walk writes, in order: the walked rows, then the backplate. */
  function Mesh(g: Grid): seq<Facet>
    requires WellFormed(g)
  {
    Body(g, RowCount(g)) + BackplatePair(g)
  }

  // ---- How many facets each stage writes -------------------------------------

  /** A pass of the inner loop writes six facets while y == 0 and two after. */
  lemma {:induction false} CellsSize(g: Grid, y: int, n: nat)
    requires WellFormed(g) && 0 <= y < |g| - 1 && n <= Cols(g) - 1
    ensures |Cells(g, y, n)| == if y == 0 then 6 * n else 2 * n
  {
    if n > 0 {
      CellsSize(g, y, n - 1);
    }
  }

  /**
   * a * b as repeated addition. Facet counts and offsets are stated with it so
   * that reasoning about them stays linear; MulIsProduct ties it to a * b.
   */
  function Mul(a: int, b: nat): (m: int)
    ensures a >= 0 ==> m >= 0
  {
    if b == 0 then 0 else Mul(a, b - 1) + a
  }

  lemma {:induction false} MulIsProduct(a: int, b: nat)
    ensures Mul(a, b) == a * b
  {
    if b > 0 {
      MulIsProduct(a, b - 1);
    }
  }

  /**
   * The first n rows hold 4 side facets each and 2 surface facets per cell,
   * plus the 4 closing facets per column written in row 0.
   */
  lemma {:induction false} BodySize(g: Grid, n: nat)
    requires WellFormed(g) && n <= RowCount(g)
    ensures |Body(g, n)| == 4 * n + 2 * Mul(Cols(g) - 1, n) + (if n >= 1 then 4 * (Cols(g) - 1) else 0)
  {
    if n > 0 {
      BodySize(g, n - 1);
      CellsSize(g, n - 1, Cols(g) - 1);
    }
  }

  /**
   * For W, H >= 2 the walk writes 2(H-1) facets on each side wall,
   * 2(W-1)(H-1) on the surface, 4(W-1) closing top and bottom, and 2 on the
   * backplate; an image with fewer than two rows gets the backplate only.
   */
  lemma MeshSize(g: Grid)
    requires WellFormed(g)
    ensures |g| >= 2 ==>
              |Mesh(g)| == 2 * (|g| - 1) + 2 * (|g| - 1) + 2 * ((Cols(g) - 1) * (|g| - 1)) + 4 * (Cols(g) - 1) + 2
    ensures |g| < 2 ==> |Mesh(g)| == 2
  {
    BodySize(g, RowCount(g));
    MulIsProduct(Cols(g) - 1, RowCount(g));
  }
}
