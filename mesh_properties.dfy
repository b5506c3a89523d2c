/**
 * What the walk's facet list is, part by part. The walk interleaves the parts
 * (each row writes its left side, then per column the closures and the
 * surface, then its right side); here each part is also listed on its own,
 * and the lemmas show that picking one part out of the walk's list gives
 * exactly that part's list, in the same order.
 */
module MeshProperties {
  import opened Heightmap
  import opened Geometry
  import opened Triangulation

  // ---- Each part on its own -------------------------------------------------

  /** The left side pairs of rows 0 .. n-1. */
  function LeftWalls(g: Grid, n: nat): (r: seq<Facet>)
    requires WellFormed(g) && n <= RowCount(g)
    ensures |r| == 2 * n
  {
    if n == 0 then [] else LeftWalls(g, n - 1) + LeftWallPair(g, n - 1)
  }

  /** The right side pairs of rows 0 .. n-1. */
  function RightWalls(g: Grid, n: nat): (r: seq<Facet>)
    requires WellFormed(g) && n <= RowCount(g)
    ensures |r| == 2 * n
  {
    if n == 0 then [] else RightWalls(g, n - 1) + RightWallPair(g, n - 1)
  }

  /** The top closing pairs of columns 0 .. n-1. */
  function TopEdges(g: Grid, n: nat): (r: seq<Facet>)
    requires WellFormed(g) && |g| >= 1 && n <= Cols(g) - 1
    ensures |r| == 2 * n
  {
    if n == 0 then [] else TopEdges(g, n - 1) + TopEdgePair(g, n - 1)
  }

  /** The bottom closing pairs of columns 0 .. n-1. */
  function BottomEdges(g: Grid, n: nat): (r: seq<Facet>)
    requires WellFormed(g) && |g| >= 1 && n <= Cols(g) - 1
    ensures |r| == 2 * n
  {
    if n == 0 then [] else BottomEdges(g, n - 1) + BottomEdgePair(g, n - 1)
  }

  /** The surface pairs of the cells (0, y) .. (n-1, y). */
  function SurfaceRow(g: Grid, y: int, n: nat): (r: seq<Facet>)
    requires WellFormed(g) && 0 <= y < |g| - 1 && n <= Cols(g) - 1
    ensures |r| == 2 * n
  {
    if n == 0 then [] else SurfaceRow(g, y, n - 1) + SurfacePair(g, n - 1, y)
  }

  /** The surface pairs of every cell of rows 0 .. n-1, row by row. */
  function Surfaces(g: Grid, n: nat): (r: seq<Facet>)
    requires WellFormed(g) && n <= RowCount(g)
    ensures |r| == 2 * Mul(Cols(g) - 1, n)
  {
    if n == 0 then [] else Surfaces(g, n - 1) + SurfaceRow(g, n - 1, Cols(g) - 1)
  }

  /** The closures the walk writes: both edges, once per column, when it has a y == 0 pass at all. */
  function ClosuresOf(g: Grid, top: bool): (r: seq<Facet>)
    requires WellFormed(g)
    ensures |r| == if |g| >= 2 then 2 * (Cols(g) - 1) else 0
  {
    if |g| < 2 then []
    else if top then TopEdges(g, Cols(g) - 1)
    else BottomEdges(g, Cols(g) - 1)
  }

  // ---- Picking the parts out of the walk --------------------------------------

  /** What part p of one inner-loop pass is. */
  function CellPart(g: Grid, x: int, y: int, p: Part): seq<Facet>
    requires WellFormed(g) && 0 <= x < Cols(g) - 1 && 0 <= y < |g| - 1
  {
    match p
    case Surface => SurfacePair(g, x, y)
    case TopEdge => if y == 0 then TopEdgePair(g, x) else []
    case BottomEdge => if y == 0 then BottomEdgePair(g, x) else []
    case _ => []
  }

  /** What part p of the first n inner-loop passes of row y is. */
  function CellsPart(g: Grid, y: int, n: nat, p: Part): seq<Facet>
    requires WellFormed(g) && 0 <= y < |g| - 1 && n <= Cols(g) - 1
  {
    match p
    case Surface => SurfaceRow(g, y, n)
    case TopEdge => if y == 0 then TopEdges(g, n) else []
    case BottomEdge => if y == 0 then BottomEdges(g, n) else []
    case _ => []
  }

  /** What part p of the first n outer-loop passes is. */
  function BodyPart(g: Grid, n: nat, p: Part): seq<Facet>
    requires WellFormed(g) && n <= RowCount(g)
  {
    match p
    case LeftWall => LeftWalls(g, n)
    case RightWall => RightWalls(g, n)
    case Surface => Surfaces(g, n)
    case TopEdge => if n >= 1 then TopEdges(g, Cols(g) - 1) else []
    case BottomEdge => if n >= 1 then BottomEdges(g, Cols(g) - 1) else []
    case Backplate => []
  }

  lemma CellByPart(g: Grid, x: int, y: int, p: Part)
    requires WellFormed(g) && 0 <= x < Cols(g) - 1 && 0 <= y < |g| - 1
    ensures OfPart(Cell(g, x, y), p) == CellPart(g, x, y, p)
  {
    var t, b, s := TopEdgePair(g, x), BottomEdgePair(g, x), SurfacePair(g, x, y);
    var sp := if p == Surface then s else [];
    OfPartUniform(s, Surface, p);
    if y == 0 {
      calc {
        OfPart(Cell(g, x, y), p);
        OfPart(t + b + s, p);
        { OfPartAppend3(t, b, s, p); }
        OfPart(t, p) + OfPart(b, p) + OfPart(s, p);
        { OfPartUniform(t, TopEdge, p); OfPartUniform(b, BottomEdge, p); }
        (if p == TopEdge then t else []) + (if p == BottomEdge then b else []) + sp;
      }
    } else {
      assert Cell(g, x, y) == [] + s;
    }
  }

  lemma {:induction false} CellsByPart(g: Grid, y: int, n: nat, p: Part)
    requires WellFormed(g) && 0 <= y < |g| - 1 && n <= Cols(g) - 1
    ensures OfPart(Cells(g, y, n), p) == CellsPart(g, y, n, p)
  {
    if n > 0 {
      var x := n - 1;
      CellsByPart(g, y, x, p);
      CellByPart(g, x, y, p);
      OfPartAppend(Cells(g, y, x), Cell(g, x, y), p);
      assert CellsPart(g, y, n, p) == CellsPart(g, y, x, p) + CellPart(g, x, y, p);
    }
  }

  /** What part p of one outer-loop pass is: its left side, its cells' part p, its right side. */
  function RowPart(g: Grid, y: int, p: Part): seq<Facet>
    requires WellFormed(g) && 0 <= y < |g| - 1
  {
    (if p == LeftWall then LeftWallPair(g, y) else []) +
    CellsPart(g, y, Cols(g) - 1, p) +
    (if p == RightWall then RightWallPair(g, y) else [])
  }

  lemma RowByPart(g: Grid, y: int, p: Part)
    requires WellFormed(g) && 0 <= y < |g| - 1
    ensures OfPart(Row(g, y), p) == RowPart(g, y, p)
  {
    var l, c, r := LeftWallPair(g, y), Cells(g, y, Cols(g) - 1), RightWallPair(g, y);
    CellsByPart(g, y, Cols(g) - 1, p);
    Bracketed(l, c, r, p);
  }

  /** Picking part p out of a list between a left-side pair and a right-side pair. */
  lemma Bracketed(l: seq<Facet>, c: seq<Facet>, r: seq<Facet>, p: Part)
    requires |l| == 2 && l[0].part == LeftWall && l[1].part == LeftWall
    requires |r| == 2 && r[0].part == RightWall && r[1].part == RightWall
    ensures OfPart(l + c + r, p) == (if p == LeftWall then l else []) + OfPart(c, p) + (if p == RightWall then r else [])
  {
    OfPartAppend3(l, c, r, p);
    OfPartUniform(l, LeftWall, p);
    OfPartUniform(r, RightWall, p);
  }

  lemma {:induction false} BodyByPart(g: Grid, n: nat, p: Part)
    requires WellFormed(g) && n <= RowCount(g)
    ensures OfPart(Body(g, n), p) == BodyPart(g, n, p)
  {
    if n > 0 {
      BodyByPart(g, n - 1, p);
      BodyStep(g, n, p);
    }
  }

  /** Part p of outer-loop pass n-1, added to part p of the passes before it, is part p of n passes. */
  lemma RowStep(g: Grid, n: nat, p: Part)
    requires WellFormed(g) && 1 <= n <= RowCount(g)
    ensures BodyPart(g, n - 1, p) + OfPart(Row(g, n - 1), p) == BodyPart(g, n, p)
  {
    RowByPart(g, n - 1, p);
    BodyPartStep(g, n, p);
  }

  /** If part p of n-1 outer-loop passes is BodyPart(g, n - 1, p), then that of n passes is BodyPart(g, n, p). */
  lemma BodyStep(g: Grid, n: nat, p: Part)
    requires WellFormed(g) && 1 <= n <= RowCount(g) && OfPart(Body(g, n - 1), p) == BodyPart(g, n - 1, p)
    ensures OfPart(Body(g, n), p) == BodyPart(g, n, p)
  {
    OfPartAppend(Body(g, n - 1), Row(g, n - 1), p);
    RowStep(g, n, p);
  }

  /** Outer-loop pass n-1 adds its own part p to the part p of the passes before it. */
  lemma BodyPartStep(g: Grid, n: nat, p: Part)
    requires WellFormed(g) && 1 <= n <= RowCount(g)
    ensures BodyPart(g, n, p) == BodyPart(g, n - 1, p) + RowPart(g, n - 1, p)
  {
    var y, c := n - 1, Cols(g) - 1;
    var prev, row, cur := BodyPart(g, y, p), RowPart(g, y, p), BodyPart(g, n, p);
    match p
    case LeftWall =>
      assert row == LeftWallPair(g, y) + [] + [];
    case RightWall =>
      assert row == [] + [] + RightWallPair(g, y);
    case Surface =>
      assert row == [] + SurfaceRow(g, y, c) + [];
    case TopEdge =>
      assert row == [] + (if y == 0 then TopEdges(g, c) else []) + [];
      assert prev + row == cur;
    case BottomEdge =>
      assert row == [] + (if y == 0 then BottomEdges(g, c) else []) + [];
      assert prev + row == cur;
    case Backplate =>
      assert prev + row == [] + ([] + [] + []);
  }

  /**
   * The walk writes, part by part: the left and right side pairs of every
   * walked row, the surface pairs of every cell, the top and bottom closures
   * of every column exactly once (and only if the y == 0 pass exists), and
   * one backplate pair.
   */
  lemma MeshByPart(g: Grid)
    requires WellFormed(g)
    ensures OfPart(Mesh(g), LeftWall) == LeftWalls(g, RowCount(g))
    ensures OfPart(Mesh(g), RightWall) == RightWalls(g, RowCount(g))
    ensures OfPart(Mesh(g), Surface) == Surfaces(g, RowCount(g))
    ensures OfPart(Mesh(g), TopEdge) == ClosuresOf(g, true)
    ensures OfPart(Mesh(g), BottomEdge) == ClosuresOf(g, false)
    ensures OfPart(Mesh(g), Backplate) == BackplatePair(g)
  {
    MeshPartOf(g, LeftWall);
    MeshPartOf(g, RightWall);
    MeshPartOf(g, Surface);
    MeshPartOf(g, TopEdge);
    MeshPartOf(g, BottomEdge);
    MeshPartOf(g, Backplate);
  }

  /** Part p of the whole file: part p of the walked rows, then the backplate if p is Backplate. */
  lemma MeshPartOf(g: Grid, p: Part)
    requires WellFormed(g)
    ensures OfPart(Mesh(g), p) == BodyPart(g, RowCount(g), p) + (if p == Backplate then BackplatePair(g) else [])
  {
    var body, back := Body(g, RowCount(g)), BackplatePair(g);
    calc {
      OfPart(Mesh(g), p);
      OfPart(body + back, p);
      { OfPartAppend(body, back, p); }
      OfPart(body, p) + OfPart(back, p);
      { BodyByPart(g, RowCount(g), p); }
      BodyPart(g, RowCount(g), p) + OfPart(back, p);
      { OfPartUniform(back, Backplate, p); }
      BodyPart(g, RowCount(g), p) + (if p == Backplate then back else []);
    }
  }

  /** The number of facets of each part, for an image with at least two rows. */
  lemma PartCounts(g: Grid)
    requires WellFormed(g) && |g| >= 2
    ensures |OfPart(Mesh(g), LeftWall)| == 2 * (|g| - 1)
    ensures |OfPart(Mesh(g), RightWall)| == 2 * (|g| - 1)
    ensures |OfPart(Mesh(g), Surface)| == 2 * ((Cols(g) - 1) * (|g| - 1))
    ensures |OfPart(Mesh(g), TopEdge)| + |OfPart(Mesh(g), BottomEdge)| == 4 * (Cols(g) - 1)
    ensures |OfPart(Mesh(g), Backplate)| == 2
  {
    MeshByPart(g);
    MulIsProduct(Cols(g) - 1, |g| - 1);
  }

  // ---- Where each pair sits in its part's list ---------------------------------

  lemma {:induction false} LeftWallsAt(g: Grid, n: nat, y: nat)
    requires WellFormed(g) && n <= RowCount(g) && y < n
    ensures LeftWalls(g, n)[2 * y .. 2 * y + 2] == LeftWallPair(g, y)
  {
    if y < n - 1 {
      LeftWallsAt(g, n - 1, y);
    }
  }

  lemma {:induction false} RightWallsAt(g: Grid, n: nat, y: nat)
    requires WellFormed(g) && n <= RowCount(g) && y < n
    ensures RightWalls(g, n)[2 * y .. 2 * y + 2] == RightWallPair(g, y)
  {
    if y < n - 1 {
      RightWallsAt(g, n - 1, y);
    }
  }

  lemma {:induction false} TopEdgesAt(g: Grid, n: nat, x: nat)
    requires WellFormed(g) && |g| >= 1 && n <= Cols(g) - 1 && x < n
    ensures TopEdges(g, n)[2 * x .. 2 * x + 2] == TopEdgePair(g, x)
  {
    if x < n - 1 {
      TopEdgesAt(g, n - 1, x);
    }
  }

  lemma {:induction false} BottomEdgesAt(g: Grid, n: nat, x: nat)
    requires WellFormed(g) && |g| >= 1 && n <= Cols(g) - 1 && x < n
    ensures BottomEdges(g, n)[2 * x .. 2 * x + 2] == BottomEdgePair(g, x)
  {
    if x < n - 1 {
      BottomEdgesAt(g, n - 1, x);
    }
  }

  lemma {:induction false} SurfaceRowAt(g: Grid, y: int, n: nat, x: nat)
    requires WellFormed(g) && 0 <= y < |g| - 1 && n <= Cols(g) - 1 && x < n
    ensures SurfaceRow(g, y, n)[2 * x .. 2 * x + 2] == SurfacePair(g, x, y)
  {
    if x < n - 1 {
      SurfaceRowAt(g, y, n - 1, x);
    }
  }
  /**
   * Cell (x, y) owns exactly the two surface facets at positions
   * 2((W-1)y + x) and 2((W-1)y + x) + 1 of the surface list (SurfaceOffset):
   * row-major order.
   */
  lemma {:induction false} SurfacesAt(g: Grid, n: nat, x: nat, y: nat)
    requires WellFormed(g) && n <= RowCount(g) && y < n && x < Cols(g) - 1
    ensures SurfaceOffset(g, x, y) + 2 <= |Surfaces(g, n)|
    ensures Surfaces(g, n)[SurfaceOffset(g, x, y) .. SurfaceOffset(g, x, y) + 2] == SurfacePair(g, x, y)
  {
    if y < n - 1 {
      SurfacesAt(g, n - 1, x, y);
      SurfacesKeep(g, n, x, y);
    } else {
      SurfacesLastRow(g, n, x, y);
    }
  }

  /** A surface pair of the first n-1 rows keeps its place when row n-1 is added. */
  lemma SurfacesKeep(g: Grid, n: nat, x: nat, y: nat)
    requires WellFormed(g) && 1 <= n <= RowCount(g) && y < n - 1 && x < Cols(g) - 1
    requires SurfaceOffset(g, x, y) + 2 <= |Surfaces(g, n - 1)|
    requires Surfaces(g, n - 1)[SurfaceOffset(g, x, y) .. SurfaceOffset(g, x, y) + 2] == SurfacePair(g, x, y)
    ensures SurfaceOffset(g, x, y) + 2 <= |Surfaces(g, n)|
    ensures Surfaces(g, n)[SurfaceOffset(g, x, y) .. SurfaceOffset(g, x, y) + 2] == SurfacePair(g, x, y)
  {
    var k := SurfaceOffset(g, x, y);
    SliceOfPrefix(Surfaces(g, n - 1), SurfaceRow(g, n - 1, Cols(g) - 1), k, k + 2);
  }

  /** The surface pairs of row n-1 come right after those of rows 0 .. n-2. */
  lemma SurfacesLastRow(g: Grid, n: nat, x: nat, y: nat)
    requires WellFormed(g) && 1 <= n <= RowCount(g) && y == n - 1 && x < Cols(g) - 1
    ensures SurfaceOffset(g, x, y) + 2 <= |Surfaces(g, n)|
    ensures Surfaces(g, n)[SurfaceOffset(g, x, y) .. SurfaceOffset(g, x, y) + 2] == SurfacePair(g, x, y)
  {
    var prev, row := Surfaces(g, y), SurfaceRow(g, y, Cols(g) - 1);
    assert Surfaces(g, n) == prev + row;
    SurfaceRowAt(g, y, Cols(g) - 1, x);
    assert SurfaceOffset(g, x, y) == |prev| + 2 * x;
    SliceOfSuffix(prev, row, 2 * x, 2 * x + 2);
  }

  /** Where the surface pair of cell (x, y) starts in the row-major surface list. */
  function SurfaceOffset(g: Grid, x: int, y: nat): int {
    2 * Mul(Cols(g) - 1, y) + 2 * x
  }

  /** A slice that ends within a is the same slice of a + b. */
  lemma SliceOfPrefix(a: seq<Facet>, b: seq<Facet>, i: nat, j: nat)
    requires i <= j <= |a|
    ensures (a + b)[i .. j] == a[i .. j]
  {
    assert forall k :: 0 <= k < j - i ==> (a + b)[i .. j][k] == a[i .. j][k];
  }

  /** A slice of b sits |a| further on in a + b. */
  lemma SliceOfSuffix(a: seq<Facet>, b: seq<Facet>, i: nat, j: nat)
    requires i <= j <= |b|
    ensures (a + b)[|a| + i .. |a| + j] == b[i .. j]
  {
    assert forall k :: 0 <= k < j - i ==> (a + b)[|a| + i .. |a| + j][k] == b[i .. j][k];
  }

  // ---- Every sample is in range and every vertex sits where its part says ------

  /** A corner lies on the image, and a surface corner carries the height of the pixel under it. */
  predicate Within(g: Grid, v: Vertex) {
    InImage(g, v.x, v.y) && (v.z.Pix? ==> v.z.v == g[v.y][v.x])
  }

  /** The shape each part has: walls in the first or last column, closures in the first or last row,
      the backplate on the minThickness plane, the surface on the pixel heights. */
  predicate Placed(g: Grid, f: Facet) {
    && Within(g, f.a) && Within(g, f.b) && Within(g, f.c)
    && match f.part
       case LeftWall => f.a.x == 0 && f.b.x == 0 && f.c.x == 0
       case RightWall => var w := Cols(g) - 1; f.a.x == w && f.b.x == w && f.c.x == w
       case TopEdge => f.a.y == 0 && f.b.y == 0 && f.c.y == 0
       case BottomEdge => var h := |g| - 1; f.a.y == h && f.b.y == h && f.c.y == h
       case Backplate => f.a.z == Floor && f.b.z == Floor && f.c.z == Floor
       case Surface => f.a.z.Pix? && f.b.z.Pix? && f.c.z.Pix?
  }

  lemma {:induction false} CellsPlaced(g: Grid, y: int, n: nat)
    requires WellFormed(g) && 0 <= y < |g| - 1 && n <= Cols(g) - 1
    ensures forall f :: f in Cells(g, y, n) ==> Placed(g, f)
  {
    if n > 0 {
      CellsPlaced(g, y, n - 1);
      CellPlaced(g, n - 1, y);
    }
  }

  lemma CellPlaced(g: Grid, x: int, y: int)
    requires WellFormed(g) && 0 <= x < Cols(g) - 1 && 0 <= y < |g| - 1
    ensures forall f :: f in Cell(g, x, y) ==> Placed(g, f)
  {
    if y == 0 {
      assert forall f :: f in TopEdgePair(g, x) ==> Placed(g, f);
      assert forall f :: f in BottomEdgePair(g, x) ==> Placed(g, f);
    }
    assert forall f :: f in SurfacePair(g, x, y) ==> Placed(g, f);
  }

  lemma RowPlaced(g: Grid, y: int)
    requires WellFormed(g) && 0 <= y < |g| - 1
    ensures forall f :: f in Row(g, y) ==> Placed(g, f)
  {
    var l, c, r := LeftWallPair(g, y), Cells(g, y, Cols(g) - 1), RightWallPair(g, y);
    CellsPlaced(g, y, Cols(g) - 1);
    assert forall f :: f in l ==> Placed(g, f);
    assert forall f :: f in r ==> Placed(g, f);
  }

  lemma {:induction false} BodyPlaced(g: Grid, n: nat)
    requires WellFormed(g) && n <= RowCount(g)
    ensures forall f :: f in Body(g, n) ==> Placed(g, f)
  {
    if n > 0 {
      BodyPlaced(g, n - 1);
      RowPlaced(g, n - 1);
    }
  }

  /**
   * No sample outside the image: every corner the walk writes lies in
   * [0, W-1] x [0, H-1], every surface corner carries the value of the pixel
   * at its own coordinates, and each facet has the shape of its part.
   */
  lemma MeshPlaced(g: Grid)
    requires WellFormed(g) && |g| >= 1
    ensures forall f :: f in Mesh(g) ==> Placed(g, f)
  {
    BodyPlaced(g, RowCount(g));
  }

  // ---- The backplate -----------------------------------------------------------

  function Corners(f: Facet): set<Vertex> {
    {f.a, f.b, f.c}
  }

  /**
   * The backplate is two facets on the minThickness plane whose corners are
   * exactly the four corners of the image, split along the diagonal from
   * (0, 0) to (W-1, H-1).
   */
  lemma BackplateCorners(g: Grid)
    requires WellFormed(g)
    ensures var b, w, h := OfPart(Mesh(g), Backplate), Cols(g) - 1, |g| - 1;
      && |b| == 2
      && Corners(b[0]) + Corners(b[1]) == {Base(0, 0), Base(w, 0), Base(w, h), Base(0, h)}
      && (forall v :: v in Corners(b[0]) + Corners(b[1]) ==> v.z == Floor)
      && Base(0, 0) in Corners(b[0]) * Corners(b[1]) && Base(w, h) in Corners(b[0]) * Corners(b[1])
  {
    MeshByPart(g);
  }
}
