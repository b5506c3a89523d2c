/**
 * The values the grid walk emits: vertices, facets, and the part of the solid
 * each facet closes (the walk's comments name them: left side, top, bottom,
 * the surface, right side, flat backside).
 */
module Geometry {

  /**
   * The z coordinate of a vertex, kept symbolic: Floor is the minThickness
   * value and Pix(v) is the height of a processed pixel whose red value is v
   * (rendered by the source as v / factor).
   */
  datatype Level = Floor | Pix(v: int)

  /** A vertex at pixel column x, pixel row y. */
  datatype Vertex = Vertex(x: int, y: int, z: Level)

  datatype Part = LeftWall | TopEdge | BottomEdge | Surface | RightWall | Backplate

  /** One triangle, its three corners in the order they are written. */
  datatype Facet = Facet(part: Part, a: Vertex, b: Vertex, c: Vertex)

  /** The facets of fs that belong to part p, in their order in fs. */
  function OfPart(fs: seq<Facet>, p: Part): (r: seq<Facet>)
    ensures |r| <= |fs|
  {
    if fs == [] then []
    else (if fs[0].part == p then [fs[0]] else []) + OfPart(fs[1..], p)
  }

  /** A facet is picked out exactly when it is in the list and belongs to the part. */
  lemma {:induction false} OfPartMembers(fs: seq<Facet>, p: Part)
    ensures forall f :: f in OfPart(fs, p) <==> f in fs && f.part == p
  {
    if fs != [] {
      OfPartMembers(fs[1..], p);
      assert fs == [fs[0]] + fs[1..];
    }
  }

  lemma {:induction false} OfPartAppend(a: seq<Facet>, b: seq<Facet>, p: Part)
    ensures OfPart(a + b, p) == OfPart(a, p) + OfPart(b, p)
  {
    if a == [] {
      assert a + b == b;
    } else {
      var head := if a[0].part == p then [a[0]] else [];
      assert (a + b)[0] == a[0];
      assert (a + b)[1..] == a[1..] + b;
      OfPartAppend(a[1..], b, p);
      calc {
        OfPart(a + b, p);
        head + OfPart(a[1..] + b, p);
        head + (OfPart(a[1..], p) + OfPart(b, p));
        (head + OfPart(a[1..], p)) + OfPart(b, p);
      }
    }
  }

  lemma OfPartAppend3(a: seq<Facet>, b: seq<Facet>, c: seq<Facet>, p: Part)
    ensures OfPart(a + b + c, p) == OfPart(a, p) + OfPart(b, p) + OfPart(c, p)
  {
    OfPartAppend(a + b, c, p);
    OfPartAppend(a, b, p);
  }

  /** A list made of one part only: asking for that part gives all of it, asking for any other gives nothing. */
  lemma {:induction false} OfPartUniform(fs: seq<Facet>, q: Part, p: Part)
    requires forall i :: 0 <= i < |fs| ==> fs[i].part == q
    ensures OfPart(fs, p) == if p == q then fs else []
  {
    if fs != [] {
      assert forall i :: 0 <= i < |fs| - 1 ==> fs[1..][i].part == fs[i + 1].part;
      OfPartUniform(fs[1..], q, p);
      assert fs == [fs[0]] + fs[1..];
    }
  }
}
