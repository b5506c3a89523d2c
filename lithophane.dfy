/**
 * The conversion in MainWindow::MainWindow (src/mainwindow.cpp:65-147): the
 * loaded image is inverted and mirrored, then walked row by row and column
 * by column while facet text is appended to one string buffer.
 *
 * Loading the file and writing the buffer to disk are not modelled: the
 * image comes in as a grid and the buffer is returned.
 */
module Lithophane {
  import opened Heightmap
  import opened Geometry
  import opened Triangulation
  import opened MeshProperties
  import opened AsciiStl

  /**
   * Builds the STL text for image `orig`: the image is inverted and mirrored
   * (src/mainwindow.cpp:66-67), then walked.
   */
  method BuildStl(orig: Grid, num: Number -> string) returns (stl: string)
    requires WellFormed(orig)
    ensures stl == StlText(Mesh(Prepare(orig)), num)
  {
    var img := Prepare(orig);
    PrepareShape(orig);
    stl := Walk(img, num);
  }

  /**
   * The grid walk over the processed image (src/mainwindow.cpp:68-147).
   * Every pixel it samples is inside the image (Dafny checks each Sample
   * call against InImage), and the buffer comes out as the text of Mesh(img).
   */
  method Walk(img: Grid, num: Number -> string) returns (stl: string)
    requires WellFormed(img)
    ensures stl == StlText(Mesh(img), num)
  {
    var h := |img|;
    stl := Header;
    var y := 0;
    while y < h - 1
      invariant AfterRows(img, y, num, stl)
    {
      stl := CloseLeft(img, y, num, stl);
      stl := WalkRow(img, y, num, stl);
      stl := CloseRight(img, y, num, stl);
      y := y + 1;
    }
    stl := CloseBack(img, num, stl);
  }

  /** The buffer once the outer loop has finished rows 0 .. y-1. */
  ghost predicate AfterRows(img: Grid, y: int, num: Number -> string, stl: string) {
    && WellFormed(img) && 0 <= y <= RowCount(img)
    && stl == Header + FacetsText(Body(img, y), num)
  }

  /** The buffer in row y once the left side and the cells of columns 0 .. x-1 are written. */
  ghost predicate InRow(img: Grid, y: int, x: int, num: Number -> string, stl: string) {
    && WellFormed(img) && 0 <= y < |img| - 1 && 0 <= x <= Cols(img) - 1
    && stl == Header + FacetsText(Body(img, y) + LeftWallPair(img, y) + Cells(img, y, x), num)
  }

  /** Close left side (src/mainwindow.cpp:70-81). */
  method CloseLeft(img: Grid, y: int, num: Number -> string, stl: string) returns (r: string)
    requires AfterRows(img, y, num, stl) && y < |img| - 1
    ensures InRow(img, y, 0, num, r)
  {
    var left := LeftWallPair(img, y);
    r := stl + FacetsText(left, num);
    AppendStep(Body(img, y), left, num);
    assert Cells(img, y, 0) == [];
    assert Body(img, y) + left + [] == Body(img, y) + left;
  }

  /** The inner loop over the cells of row y (src/mainwindow.cpp:82-121). */
  method WalkRow(img: Grid, y: int, num: Number -> string, stl0: string) returns (stl: string)
    requires InRow(img, y, 0, num, stl0)
    ensures InRow(img, y, Cols(img) - 1, num, stl)
  {
    var w := Cols(img);
    stl := stl0;
    var x := 0;
    while x < w - 1
      invariant InRow(img, y, x, num, stl)
    {
      stl := EmitCell(img, y, x, num, stl);
      x := x + 1;
    }
    assert x == Cols(img) - 1;
  }

  /** One pass of the inner loop: close top and bottom while y == 0, then the surface of cell (x, y). */
  method EmitCell(img: Grid, y: int, x: int, num: Number -> string, stl: string) returns (r: string)
    requires InRow(img, y, x, num, stl) && x < Cols(img) - 1
    ensures InRow(img, y, x + 1, num, r)
  {
    var cell: seq<Facet> := [];
    if y == 0 {
      // Close top, close bottom
      cell := TopEdgePair(img, x) + BottomEdgePair(img, x);
    }
    cell := cell + SurfacePair(img, x, y);
    r := stl + FacetsText(cell, num);
    assert cell == Cell(img, x, y);
    var start := Body(img, y) + LeftWallPair(img, y);
    AppendStep(start + Cells(img, y, x), cell, num);
    Assoc(start, Cells(img, y, x), cell);
  }

  /** Close right side (src/mainwindow.cpp:122-133), which ends outer-loop pass y. */
  method CloseRight(img: Grid, y: int, num: Number -> string, stl: string) returns (r: string)
    requires InRow(img, y, Cols(img) - 1, num, stl)
    ensures AfterRows(img, y + 1, num, r)
  {
    var right := RightWallPair(img, y);
    r := stl + FacetsText(right, num);
    var left, cells := LeftWallPair(img, y), Cells(img, y, Cols(img) - 1);
    AppendStep(Body(img, y) + left + cells, right, num);
    Assoc(Body(img, y), left, cells);
    Assoc(Body(img, y), left + cells, right);
  }

  /** Create flat backside (src/mainwindow.cpp:135-145), then close the file (line 147). */
  method CloseBack(img: Grid, num: Number -> string, stl: string) returns (r: string)
    requires AfterRows(img, RowCount(img), num, stl)
    ensures r == StlText(Mesh(img), num)
  {
    var back := BackplatePair(img);
    r := stl + FacetsText(back, num);
    AppendStep(Body(img, RowCount(img)), back, num);
    r := r + Footer;
  }

  /** Appending the text of more facets to the buffer for `done` gives the buffer for done + more. */
  lemma AppendStep(done: seq<Facet>, more: seq<Facet>, num: Number -> string)
    ensures Header + FacetsText(done, num) + FacetsText(more, num) == Header + FacetsText(done + more, num)
  {
    FacetsTextAppend(done, more, num);
    Assoc(Header, FacetsText(done, num), FacetsText(more, num));
  }

  /**
   * Corner v lies on the original image, and a surface corner carries 255
   * minus the original pixel in its column and in the mirrored row H-1-y.
   */
  predicate FromSource(orig: Grid, v: Vertex)
    requires WellFormed(orig)
  {
    0 <= v.x < Cols(orig) && 0 <= v.y < |orig| &&
    (v.z.Pix? ==> v.z.v == 255 - orig[|orig| - 1 - v.y][v.x])
  }

  /** A surface height fits in one byte. */
  predicate ByteHeight(v: Vertex) {
    v.z.Pix? ==> 0 <= v.z.v <= 255
  }

  /**
   * Every height in the file comes from the source image (every corner of
   * every facet is FromSource), and for an 8-bit image it stays within 0 .. 255.
   */
  lemma HeightsFromSource(orig: Grid)
    requires WellFormed(orig) && |orig| >= 1
    ensures forall f :: f in Mesh(Prepare(orig)) ==>
              FromSource(orig, f.a) && FromSource(orig, f.b) && FromSource(orig, f.c)
    ensures EightBit(orig) ==>
              forall f :: f in Mesh(Prepare(orig)) ==> ByteHeight(f.a) && ByteHeight(f.b) && ByteHeight(f.c)
  {
    var img := Prepare(orig);
    MeshPlaced(img);
    forall f | f in Mesh(img)
      ensures FromSource(orig, f.a) && FromSource(orig, f.b) && FromSource(orig, f.c)
      ensures EightBit(orig) ==> ByteHeight(f.a) && ByteHeight(f.b) && ByteHeight(f.c)
    {
      assert Placed(img, f);
      CornerFromSource(orig, f.a);
      CornerFromSource(orig, f.b);
      CornerFromSource(orig, f.c);
    }
  }

  /** A corner on the processed image is FromSource, and a byte when the original is 8-bit. */
  lemma CornerFromSource(orig: Grid, v: Vertex)
    requires WellFormed(orig) && Within(Prepare(orig), v)
    ensures FromSource(orig, v)
    ensures EightBit(orig) ==> ByteHeight(v)
  {
    PrepareShape(orig);
    PrepareAt(orig);
  }

  /**
   * The file for an image of W x H pixels (W, H >= 2) has 7 lines per facet
   * plus the header and closing lines, for
   * 4(H-1) + 2(W-1)(H-1) + 4(W-1) + 2 facets.
   */
  lemma FileLineCount(orig: Grid, num: Number -> string)
    requires WellFormed(orig) && |orig| >= 2 && SingleLine(num)
    ensures |Lines(StlText(Mesh(Prepare(orig)), num))|
         == 7 * (4 * (|orig| - 1) + 2 * ((Cols(orig) - 1) * (|orig| - 1)) + 4 * (Cols(orig) - 1) + 2) + 2
  {
    PrepareShape(orig);
    MeshSize(Prepare(orig));
    StlLines(Mesh(Prepare(orig)), num);
  }
}
