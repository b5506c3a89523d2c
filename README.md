# Lithophane STL writer: a Dafny model

This project models how the lithophane window turns an image into an ASCII
STL solid (`MainWindow::MainWindow` in src/mainwindow.cpp). The image is
first inverted and mirrored top to bottom. Then a two-level loop walks it.
Row by row, the loop appends to one text buffer:

- two left-wall facets;
- per column, while in row 0 only, two top and two bottom closing facets;
- per column, two surface facets;
- two right-wall facets.

At the end it appends two backplate facets and the closing line. Each facet is
written as `beginTriangle()`, three `getVertexString` lines and
`endTriangle()`.

The model has six modules:

- `Heightmap` (heightmap.dfy): the image as a grid of red values, and the
  inversion and vertical mirror applied before the walk.
- `Geometry` (geometry.dfy): vertices, facets, and the part of the solid each
  facet closes. Heights are symbolic: `Floor` is the `minThickness` plane and
  `Pix(v)` is the height of a processed pixel with red value `v`.
- `Triangulation` (triangulation.dfy): `Mesh(g)`, the facet list the walk
  writes, in emission order. It is built from one function per facet pair, one
  per inner-loop pass (`Cell`), and one per outer-loop pass (`Row`). It also
  holds the facet-count lemmas.
- `MeshProperties` (mesh_properties.dfy): each part listed on its own, with
  lemmas showing that picking one part out of `Mesh(g)` gives exactly that
  list, in order. It also gives where each cell's facets sit, that every
  sampled pixel lies inside the image, and the shape of the backplate.
- `AsciiStl` (ascii_stl.dfy): the text of a facet and of the whole file, and
  how that text splits into lines.
- `Lithophane` (lithophane.dfy): the walk itself as imperative methods with
  while loops appending to a string, proved to produce
  `StlText(Mesh(Prepare(image)), num)`. It also proves that every pixel
  height in the file comes from the original image.

Number rendering (the `red() / factor` division and `QString::number(…, 'g')`,
whatever the type of `factor`) is passed in as a function `num` from a coordinate or height to its text. The
line lemmas assume only that `num` never produces a line break.

## Model

| member | source | states |
|---|---|---|
| Heightmap.Invert | src/mainwindow.cpp:66 | inverting a grayscale or direct-colour image keeps its shape: same rows, same row lengths |
| Heightmap.Mirror | src/mainwindow.cpp:67 | mirroring keeps the number of rows |
| Heightmap.InvertInvolutive | src/mainwindow.cpp:66 | inverting twice gives the original image back |
| Heightmap.InvertKeepsRange | src/mainwindow.cpp:66 | inverting keeps 8-bit values in 0 .. 255 and keeps a rectangular image rectangular |
| Heightmap.MirrorInvolutive | src/mainwindow.cpp:67 | mirroring twice gives the original image back |
| Heightmap.InvertMirrorCommute | src/mainwindow.cpp:66-67 | inverting and mirroring can be done in either order |
| Heightmap.PrepareShape | src/mainwindow.cpp:66-67 | the processed image has the original's width and height and stays rectangular |
| Heightmap.PrepareAt | src/mainwindow.cpp:66-67 | for a grayscale or direct-colour image, processed pixel (x, y) is 255 minus original pixel (x, H-1-y), and 8-bit input stays in 0 .. 255 |
| Heightmap.Prepare | src/mainwindow.cpp:66-67 | the image the walk reads: the original inverted, then mirrored top to bottom |
| Triangulation.LeftWallPair | src/mainwindow.cpp:70-81 | the two left-wall facets of row y in column 0, corners in the order lines 72-74 and 78-80 write them: floor (0,y), pixel (0,y), pixel (0,y+1); pixel (0,y+1), floor (0,y+1), floor (0,y) |
| Triangulation.TopEdgePair | src/mainwindow.cpp:84-95 | the two top closing facets of column x in row 0, corners in the order of lines 86-88 and 92-94: pixel (x+1,0), pixel (x,0), floor (x,0); floor (x,0), floor (x+1,0), pixel (x+1,0) |
| Triangulation.BottomEdgePair | src/mainwindow.cpp:97-108 | the two bottom closing facets of column x in row H-1, corners in the order of lines 99-101 and 105-107 |
| Triangulation.SurfacePair | src/mainwindow.cpp:110-120 | the two surface facets of cell (x, y) at the pixel heights of its corners: (x,y), (x+1,y+1), (x,y+1) and (x,y), (x+1,y), (x+1,y+1) |
| Triangulation.RightWallPair | src/mainwindow.cpp:122-133 | the two right-wall facets of row y in column W-1, corners in the order of lines 124-126 and 130-132 |
| Triangulation.BackplatePair | src/mainwindow.cpp:135-145 | the two floor facets (0,0), (W-1,H-1), (0,H-1) and (0,0), (W-1,0), (W-1,H-1), also for images with fewer than two rows |
| Triangulation.Cell | src/mainwindow.cpp:83-120 | one inner-loop pass: the top pair and bottom pair when y = 0, then the surface pair |
| Triangulation.Cells | src/mainwindow.cpp:82-121 | the first n inner-loop passes of row y, in column order |
| Triangulation.Row | src/mainwindow.cpp:70-133 | one outer-loop pass: left pair, the W-1 inner passes, right pair |
| Triangulation.Body | src/mainwindow.cpp:69-134 | the first n outer-loop passes, in row order |
| Triangulation.Mesh | src/mainwindow.cpp:69-145 | every facet the walk writes: the H-1 outer passes, then the backplate pair |
| Triangulation.CellsSize | src/mainwindow.cpp:82-121 | an inner-loop pass writes six facets in row 0 and two in every other row |
| Triangulation.BodySize | src/mainwindow.cpp:69-134 | n outer-loop passes write 4 side facets each, 2 surface facets per cell, and, if n >= 1, 4 closing facets per column |
| Triangulation.MeshSize | src/mainwindow.cpp:69-145 | for H >= 2 the walk writes 2(H-1) + 2(H-1) + 2(W-1)(H-1) + 4(W-1) + 2 facets; for fewer rows it writes only the 2 backplate facets |
| MeshProperties.CellByPart | src/mainwindow.cpp:83-120 | one inner-loop pass holds its two surface facets, plus its top pair and bottom pair exactly when y = 0, and nothing of any other part |
| MeshProperties.CellsByPart | src/mainwindow.cpp:82-121 | the top and bottom closures of a row are all its columns' pairs in row 0 and none in any later row; its surface facets are its cells' pairs in column order |
| MeshProperties.RowByPart | src/mainwindow.cpp:69-134 | one outer-loop pass holds exactly its left pair, its cells' facets of each part, and its right pair |
| MeshProperties.BodyByPart | src/mainwindow.cpp:69-134 | for each part, the facets of that part among the first n rows are that part's reference list, in order |
| MeshProperties.MeshByPart | src/mainwindow.cpp:69-145 | picking each part out of the file gives the walls of every row, the surface of every cell row-major, the top and bottom closures once per column (only if a row-0 pass exists), and one backplate pair |
| MeshProperties.MeshPartOf | src/mainwindow.cpp:69-145 | part p of the whole file is part p of the walked rows, followed by the backplate when p is the backplate |
| MeshProperties.PartCounts | src/mainwindow.cpp:69-145 | for H >= 2: 2(H-1) left-wall, 2(H-1) right-wall, 2(W-1)(H-1) surface, 4(W-1) closing and 2 backplate facets |
| MeshProperties.LeftWallsAt | src/mainwindow.cpp:70-81 | the left-wall pair of row y is at positions 2y, 2y+1 among the left-wall facets |
| MeshProperties.RightWallsAt | src/mainwindow.cpp:122-133 | the right-wall pair of row y is at positions 2y, 2y+1 among the right-wall facets |
| MeshProperties.TopEdgesAt | src/mainwindow.cpp:84-95 | the top closing pair of column x is at positions 2x, 2x+1 among the top closures |
| MeshProperties.BottomEdgesAt | src/mainwindow.cpp:97-108 | the bottom closing pair of column x, on row H-1, is at positions 2x, 2x+1 among the bottom closures |
| MeshProperties.SurfaceRowAt | src/mainwindow.cpp:110-120 | within one row's surface facets, cell x owns positions 2x, 2x+1 |
| MeshProperties.SurfacesAt | src/mainwindow.cpp:110-120 | cell (x, y) owns surface positions 2((W-1)y + x) and the next one, and they are its two triangles over corners (x,y), (x+1,y+1), (x,y+1) and (x,y), (x+1,y), (x+1,y+1) |
| MeshProperties.CellPlaced | src/mainwindow.cpp:83-120 | every facet of an inner-loop pass samples only pixels inside the image and has the shape of its part |
| MeshProperties.CellsPlaced | src/mainwindow.cpp:82-121 | the same for every inner-loop pass of a row |
| MeshProperties.RowPlaced | src/mainwindow.cpp:69-134 | the same for every facet of an outer-loop pass |
| MeshProperties.BodyPlaced | src/mainwindow.cpp:69-134 | the same for every facet of the walked rows |
| MeshProperties.MeshPlaced | src/mainwindow.cpp:69-145 | for an image with at least one row, every corner in the file lies in [0, W-1] x [0, H-1], surface corners carry their own pixel's value, left walls have x = 0, right walls x = W-1, top closures y = 0, bottom closures y = H-1, backplate corners are on the floor plane |
| MeshProperties.BackplateCorners | src/mainwindow.cpp:135-145 | the backplate is two facets on the floor plane whose corners are exactly the image's four corners, split along the diagonal (0,0)-(W-1,H-1) |
| AsciiStl.BeginTriangle | src/mainwindow.cpp:216-219 | the facet opening: the zero normal line and "outer loop" |
| AsciiStl.EndTriangle | src/mainwindow.cpp:221-224 | the facet closing: "endloop" and "endfacet" |
| AsciiStl.VertexString | src/mainwindow.cpp:211-214 | the vertex line: three tabs, "vertex ", the rendered x, y and z separated by single spaces, and a line break |
| AsciiStl.FacetText | src/mainwindow.cpp:71-75 | one facet's text as the walk appends it: beginTriangle, the three corners' vertex lines in order, endTriangle |
| AsciiStl.FacetsText | src/mainwindow.cpp:69-146 | the text of a facet list: each facet's text in list order |
| AsciiStl.StlText | src/mainwindow.cpp:68-147 | the whole buffer: "solid lithophane\n", the facets' text, "endsolid\n" |
| AsciiStl.FacetsTextAppend | src/mainwindow.cpp:68-147 | the text of two facet lists written one after the other is the text of their concatenation |
| AsciiStl.JoinLines | src/mainwindow.cpp:68-147 | splitting the text into lines loses nothing: joining the lines gives the text back |
| AsciiStl.LinesCons | src/mainwindow.cpp:68-147 | a complete line followed by any text splits into that line and the lines of the text |
| AsciiStl.LinesJoin | src/mainwindow.cpp:68-147 | a block of complete lines followed by any text splits into those lines and the lines of the text |
| AsciiStl.VertexStringIsLine | src/mainwindow.cpp:211-214 | a vertex string is one line: it ends with its only line break |
| AsciiStl.ConstantLines | src/mainwindow.cpp:216-224 | header, closing line, zero-normal line, "outer loop", "endloop" and "endfacet" are single lines; beginTriangle is the normal line then "outer loop", endTriangle is "endloop" then "endfacet" |
| AsciiStl.Join7 | src/mainwindow.cpp:216-224 | seven lines joined are the seven strings concatenated |
| AsciiStl.FacetTextLines | src/mainwindow.cpp:216-224 | a facet's text is exactly seven lines: the zero normal, "outer loop", three vertex lines, "endloop", "endfacet" |
| AsciiStl.FacetLinesCons | src/mainwindow.cpp:216-224 | a facet's text followed by any text splits into the facet's seven lines and the lines of the rest |
| AsciiStl.FacetsTextLines | src/mainwindow.cpp:69-146 | the text of n facets followed by any text splits into 7n facet lines and the lines of the rest |
| AsciiStl.FacetsLinesAt | src/mainwindow.cpp:69-146 | facet k's lines are lines 7k .. 7k+6 of the facet lines |
| AsciiStl.StlTextLines | src/mainwindow.cpp:68-147 | the file is the header line, the facets' lines in order, and the closing line |
| AsciiStl.StlLines | src/mainwindow.cpp:68-147 | the file has 7F + 2 lines: first "solid lithophane", last "endsolid", and facet k on lines 7k+1 .. 7k+7 |
| Lithophane.BuildStl | src/mainwindow.cpp:65-147 | the buffer built for an image is the STL text of the facet list of the inverted, mirrored image |
| Lithophane.Walk | src/mainwindow.cpp:68-147 | the grid walk's buffer is the STL text of Mesh(img); every pixel read is checked to lie inside the image |
| Lithophane.CloseLeft | src/mainwindow.cpp:70-81 | after the rows before y, appending the left pair of row y gives the buffer at the start of row y |
| Lithophane.WalkRow | src/mainwindow.cpp:82-121 | the inner loop takes the buffer from the start of row y to the buffer after all W-1 cells of row y |
| Lithophane.EmitCell | src/mainwindow.cpp:83-120 | one inner-loop pass appends exactly the closures (in row 0) and the surface pair of cell (x, y) |
| Lithophane.CloseRight | src/mainwindow.cpp:122-133 | appending the right pair of row y completes the buffer for rows 0 .. y |
| Lithophane.CloseBack | src/mainwindow.cpp:135-147 | appending the backplate and the closing line to the buffer of all rows gives the whole file |
| Lithophane.AppendStep | src/mainwindow.cpp:68-147 | appending the text of more facets to the buffer of `done` gives the buffer of `done + more` |
| Lithophane.HeightsFromSource | src/mainwindow.cpp:66-67 | for an image with at least one row, every corner in the file lies on the original image, every surface height is 255 minus the original pixel in the same column and mirrored row, and for an 8-bit image every height is in 0 .. 255 |
| Lithophane.CornerFromSource | src/mainwindow.cpp:66-67 | a corner on the processed image lies on the original image and carries 255 minus the original pixel in the mirrored row |
| Lithophane.FileLineCount | src/mainwindow.cpp:68-147 | for W, H >= 2 the file has 7(4(H-1) + 2(W-1)(H-1) + 4(W-1) + 2) + 2 lines |

## Left out

- Loading the image and writing the file (src/mainwindow.cpp:65, 148-152) are I/O. The image is a parameter and the buffer is returned. If the load fails, Qt gives a 0 x 0 image, and the model handles that as the empty grid.
- Only the red channel is modelled, because it is the only channel the walk reads.
- Heightmap.Invert: models `invertPixels()` (src/mainwindow.cpp:66) only for a grayscale or direct-colour image, where the red value v becomes 255 - v. The grid is the red channel of such an image. Qt handles indexed images differently. It inverts the index, not the colour: an 8-bit index i becomes 255 - i and the colour table is left unchanged. A 1-bit image swaps indices 0 and 1. So for a palette image, `red()` after inversion reads `table[255 - i]`, or 0 when that entry does not exist. This is not 255 minus the original red. The model does not cover indexed or 1-bit images, and Heightmap.PrepareAt, Lithophane.HeightsFromSource and Lithophane.CornerFromSource hold only for the images it does cover.
- Number rendering: the `red() / factor` division and the `QString::number(…, 'g')` formatting are not modelled. Heights stay symbolic (`Floor`, `Pix(v)`) and rendering is the parameter `num`. Neither src/mainwindow.cpp nor src/mainwindow.h declares `factor` or `minThickness`, so their values and types are not part of this model. The parameter `num` stands for any rendering, so it also covers a truncating division if `factor` is an integer.
- The source writes the floor plane as `minThickness` itself, not its negation, and writes unscaled pixel coordinates; the model follows the code in both cases.
- Accessories: `renderStl`, `exportStl`, `getPixel`, `addStabilizer`, `addCube` and `addFrame` are declared in src/mainwindow.h (lines 58-60, 88-90) but have no bodies in the source, so their geometry would be invented. The source has no binary STL path: it writes only ASCII STL, and the header only declares `polygons` (line 64) and a commented-out `stlString` (line 63).
- src/mainwindow.h declares `getVertexString` returning `QVector3D` (line 85) and `beginTriangle` and `endTriangle` returning `QByteArray` (lines 84, 86), while src/mainwindow.cpp defines all three returning `QString` (lines 211, 216, 221). The model follows the definitions in src/mainwindow.cpp.
- Window setup, menus, actions, the settings widgets, the configuration dialog, the about box and main.cpp are user interface.
- An image with fewer than two rows gets the backplate only, because both loops are empty. For a 0 x 0 image that backplate has corners at -1. The model reproduces this rather than excluding such images.
- Floating-point rounding in `(double)x` and `(double)y`: grid coordinates are exact integers here.
