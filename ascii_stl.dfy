/**
 * The ASCII STL text the walk appends to its buffer: the solid header, one
 * facet block per triangle (beginTriangle, three getVertexString lines,
 * endTriangle; src/mainwindow.cpp:211-224) and the closing line.
 *
 * Numbers are written by QString::number(…, 'g'); that rendering is not
 * modelled and is passed in as `num`. The only thing the text lemmas need of
 * it is that a rendered number never holds a line break.
 */
module AsciiStl {
  import opened Geometry

  /** A number the source renders: a grid coordinate or a height. */
  datatype Number = Coord(n: int) | Height(z: Level)

  ghost predicate SingleLine(num: Number -> string) {
    forall n :: '\n' !in num(n)
  }

  const Header: string := "solid lithophane\n"
  const Footer: string := "endsolid\n"

  // The four lines of a facet's frame. BeginTriangle and EndTriangle below keep
  // the source's own two-line literals; ConstantLines proves that each is the
  // join of two of these lines, which is the form the line lemmas read.
  const NormalLine: string := "\tfacet normal 0.0 0.0 0.0\n"
  const OuterLoopLine: string := "\t\touter loop\n"
  const EndLoopLine: string := "\t\tendloop\n"
  const EndFacetLine: string := "\tendfacet\n"

  /** Opens a facet: the zero normal and the start of its vertex loop. */
  function BeginTriangle(): string {
    "\tfacet normal 0.0 0.0 0.0\n\t\touter loop\n"
  }

  /** Closes a facet's vertex loop and the facet. */
  function EndTriangle(): string {
    "\t\tendloop\n\tendfacet\n"
  }

  function VertexString(v: Vertex, num: Number -> string): string {
    "\t\t\tvertex " + num(Coord(v.x)) + " " + num(Coord(v.y)) + " " + num(Height(v.z)) + "\n"
  }

  function FacetText(f: Facet, num: Number -> string): string {
    BeginTriangle() + VertexString(f.a, num) + VertexString(f.b, num) + VertexString(f.c, num) + EndTriangle()
  }

  function FacetsText(fs: seq<Facet>, num: Number -> string): string {
    if fs == [] then [] else FacetText(fs[0], num) + FacetsText(fs[1..], num)
  }

  /** The whole file for the facets fs. */
  function StlText(fs: seq<Facet>, num: Number -> string): string {
    Header + FacetsText(fs, num) + Footer
  }

  lemma {:induction false} FacetsTextAppend(a: seq<Facet>, b: seq<Facet>, num: Number -> string)
    ensures FacetsText(a + b, num) == FacetsText(a, num) + FacetsText(b, num)
  {
    if a == [] {
      assert a + b == b;
    } else {
      var h, t, u := FacetText(a[0], num), FacetsText(a[1..], num), FacetsText(b, num);
      calc {
        FacetsText(a + b, num);
        { assert (a + b)[0] == a[0]; assert (a + b)[1..] == a[1..] + b; }
        h + FacetsText(a[1..] + b, num);
        { FacetsTextAppend(a[1..], b, num); }
        h + (t + u);
        { Assoc(h, t, u); }
        h + t + u;
      }
    }
  }

  /**
   * Regrouping a concatenation. Dafny knows this unaided; stating it where a
   * proof needs it keeps the surrounding proofs from searching for it.
   */
  lemma Assoc<T>(a: seq<T>, b: seq<T>, c: seq<T>)
    ensures a + (b + c) == a + b + c
  {
  }

  // ---- Reading the text back as lines ---------------------------------------

  function Join(ls: seq<string>): string {
    if ls == [] then [] else ls[0] + Join(ls[1..])
  }

  /**
   * The text cut after every line break; a last piece without a line break
   * is a line of its own. Joining the lines gives the text back.
   */
  function Lines(s: string): (ls: seq<string>)
    ensures s != [] ==> ls != []
    decreases |s|
  {
    if s == [] then []
    else if s[0] == '\n' then [s[..1]] + Lines(s[1..])
    else
      var rest := Lines(s[1..]);
      if rest == [] then [s[..1]] else [s[..1] + rest[0]] + rest[1..]
  }

  /** Cutting loses nothing: joining the lines gives the text back. */
  lemma {:induction false} JoinLines(s: string)
    ensures Join(Lines(s)) == s
    decreases |s|
  {
    if s != [] {
      JoinLines(s[1..]);
      var rest := Lines(s[1..]);
      assert s == s[..1] + s[1..];
      if s[0] == '\n' {
        assert Lines(s)[1..] == rest;
      } else if rest != [] {
        var ls := Lines(s);
        assert ls[1..] == rest[1..];
        assert Join(rest) == rest[0] + Join(rest[1..]);
      }
    }
  }

  /** One line: it ends with the only line break it holds. */
  predicate IsLine(l: string) {
    l != [] && l[|l| - 1] == '\n' && '\n' !in l[..|l| - 1]
  }

  lemma {:induction false} LinesCons(l: string, rest: string)
    requires IsLine(l)
    ensures Lines(l + rest) == [l] + Lines(rest)
    decreases |l|
  {
    var s := l + rest;
    assert s[0] == l[0];
    if l[0] == '\n' {
      assert |l| == 1;
      assert s[..1] == l;
      assert s[1..] == rest;
    } else {
      var tail := l[1..];
      assert tail[..|tail| - 1] == l[1..|l| - 1];
      assert IsLine(tail);
      assert s[1..] == tail + rest;
      LinesCons(tail, rest);
      assert s[..1] + tail == l;
    }
  }

  /** The lines of a block of complete lines followed by any text. */
  lemma {:induction false} LinesJoin(ls: seq<string>, rest: string)
    requires forall i :: 0 <= i < |ls| ==> IsLine(ls[i])
    ensures Lines(Join(ls) + rest) == ls + Lines(rest)
  {
    if ls == [] {
      assert Join(ls) + rest == rest;
    } else {
      LinesJoin(ls[1..], rest);
      assert Join(ls) + rest == ls[0] + (Join(ls[1..]) + rest);
      LinesCons(ls[0], Join(ls[1..]) + rest);
      calc {
        Lines(Join(ls) + rest);
        [ls[0]] + Lines(Join(ls[1..]) + rest);
        [ls[0]] + (ls[1..] + Lines(rest));
        ([ls[0]] + ls[1..]) + Lines(rest);
        { assert ls == [ls[0]] + ls[1..]; }
        ls + Lines(rest);
      }
    }
  }

  /** The seven lines of one facet block. */
  function FacetLines(f: Facet, num: Number -> string): seq<string> {
    [NormalLine, OuterLoopLine, VertexString(f.a, num), VertexString(f.b, num), VertexString(f.c, num),
     EndLoopLine, EndFacetLine]
  }

  function FacetsLines(fs: seq<Facet>, num: Number -> string): (ls: seq<string>)
    ensures |ls| == 7 * |fs|
  {
    if fs == [] then [] else FacetLines(fs[0], num) + FacetsLines(fs[1..], num)
  }

  lemma VertexStringIsLine(v: Vertex, num: Number -> string)
    requires SingleLine(num)
    ensures IsLine(VertexString(v, num))
  {
    var body := "\t\t\tvertex " + num(Coord(v.x)) + " " + num(Coord(v.y)) + " " + num(Height(v.z));
    assert VertexString(v, num) == body + "\n";
    assert (body + "\n")[..|body|] == body;
    assert '\n' !in num(Coord(v.x)) && '\n' !in num(Coord(v.y)) && '\n' !in num(Height(v.z));
  }

  lemma ConstantLines()
    ensures IsLine(NormalLine) && IsLine(OuterLoopLine) && IsLine(EndLoopLine) && IsLine(EndFacetLine)
    ensures IsLine(Header) && IsLine(Footer)
    ensures BeginTriangle() == NormalLine + OuterLoopLine
    ensures EndTriangle() == EndLoopLine + EndFacetLine
  {
  }

  /** A facet block is exactly its seven lines: the zero normal, the loop opening, three vertices, the two closings. */
  lemma FacetTextLines(f: Facet, num: Number -> string)
    requires SingleLine(num)
    ensures FacetText(f, num) == Join(FacetLines(f, num))
    ensures forall i :: 0 <= i < 7 ==> IsLine(FacetLines(f, num)[i])
  {
    ConstantLines();
    VertexStringIsLine(f.a, num);
    VertexStringIsLine(f.b, num);
    VertexStringIsLine(f.c, num);
    var va, vb, vc := VertexString(f.a, num), VertexString(f.b, num), VertexString(f.c, num);
    Join7(NormalLine, OuterLoopLine, va, vb, vc, EndLoopLine, EndFacetLine);
  }

  /** Joining seven lines is concatenating them. */
  lemma Join7(l0: string, l1: string, l2: string, l3: string, l4: string, l5: string, l6: string)
    ensures Join([l0, l1, l2, l3, l4, l5, l6]) == l0 + l1 + l2 + l3 + l4 + l5 + l6
  {
    var ls := [l0, l1, l2, l3, l4, l5, l6];
    assert ls[1..] == [l1, l2, l3, l4, l5, l6];
    assert [l1, l2, l3, l4, l5, l6][1..] == [l2, l3, l4, l5, l6];
    assert [l2, l3, l4, l5, l6][1..] == [l3, l4, l5, l6];
    assert [l3, l4, l5, l6][1..] == [l4, l5, l6];
    assert [l4, l5, l6][1..] == [l5, l6];
    assert [l5, l6][1..] == [l6];
    assert [l6][1..] == [];
    calc {
      Join(ls);
      l0 + Join([l1, l2, l3, l4, l5, l6]);
      l0 + (l1 + Join([l2, l3, l4, l5, l6]));
      l0 + (l1 + (l2 + Join([l3, l4, l5, l6])));
      l0 + (l1 + (l2 + (l3 + Join([l4, l5, l6]))));
      l0 + (l1 + (l2 + (l3 + (l4 + Join([l5, l6])))));
      l0 + (l1 + (l2 + (l3 + (l4 + (l5 + Join([l6]))))));
      { assert Join([l6]) == l6 + Join([]) == l6; }
      l0 + (l1 + (l2 + (l3 + (l4 + (l5 + l6)))));
      l0 + l1 + l2 + l3 + l4 + l5 + l6;
    }
  }

  /** The lines of a facet block followed by any text. */
  lemma FacetLinesCons(f: Facet, num: Number -> string, rest: string)
    requires SingleLine(num)
    ensures Lines(FacetText(f, num) + rest) == FacetLines(f, num) + Lines(rest)
  {
    FacetTextLines(f, num);
    LinesJoin(FacetLines(f, num), rest);
  }

  lemma {:induction false} FacetsTextLines(fs: seq<Facet>, num: Number -> string, rest: string)
    requires SingleLine(num)
    ensures Lines(FacetsText(fs, num) + rest) == FacetsLines(fs, num) + Lines(rest)
  {
    if fs == [] {
      assert FacetsText(fs, num) + rest == rest;
    } else {
      var head, tail := FacetText(fs[0], num), FacetsText(fs[1..], num);
      var hl, tl := FacetLines(fs[0], num), FacetsLines(fs[1..], num);
      calc {
        Lines(FacetsText(fs, num) + rest);
        { assert FacetsText(fs, num) + rest == head + (tail + rest); }
        Lines(head + (tail + rest));
        { FacetLinesCons(fs[0], num, tail + rest); }
        hl + Lines(tail + rest);
        { FacetsTextLines(fs[1..], num, rest); }
        hl + (tl + Lines(rest));
        (hl + tl) + Lines(rest);
      }
    }
  }

  lemma {:induction false} FacetsLinesAt(fs: seq<Facet>, num: Number -> string, k: nat)
    requires k < |fs|
    ensures FacetsLines(fs, num)[7 * k .. 7 * k + 7] == FacetLines(fs[k], num)
  {
    if k > 0 {
      FacetsLinesAt(fs[1..], num, k - 1);
      var ls := FacetsLines(fs, num);
      assert ls == FacetLines(fs[0], num) + FacetsLines(fs[1..], num);
      assert ls[7 * k .. 7 * k + 7] == FacetsLines(fs[1..], num)[7 * (k - 1) .. 7 * (k - 1) + 7];
    }
  }

  lemma StlTextLines(fs: seq<Facet>, num: Number -> string)
    requires SingleLine(num)
    ensures Lines(StlText(fs, num)) == [Header] + FacetsLines(fs, num) + [Footer]
  {
    ConstantLines();
    var body, ls := FacetsText(fs, num), FacetsLines(fs, num);
    calc {
      Lines(StlText(fs, num));
      { assert StlText(fs, num) == Header + (body + Footer); }
      Lines(Header + (body + Footer));
      { LinesCons(Header, body + Footer); }
      [Header] + Lines(body + Footer);
      { FacetsTextLines(fs, num, Footer); }
      [Header] + (ls + Lines(Footer));
      { LinesCons(Footer, []); assert Footer + [] == Footer; }
      [Header] + (ls + [Footer]);
      [Header] + ls + [Footer];
    }
  }

  /**
   * Framing of the file: its first line is the solid header, its last the
   * closing line, and in between facet k occupies lines 7k+1 .. 7k+7:
   * the zero normal, "outer loop", its three vertex lines, "endloop", "endfacet".
   */
  lemma StlLines(fs: seq<Facet>, num: Number -> string)
    requires SingleLine(num)
    ensures |Lines(StlText(fs, num))| == 7 * |fs| + 2
    ensures Lines(StlText(fs, num))[0] == Header
    ensures Lines(StlText(fs, num))[7 * |fs| + 1] == Footer
    ensures forall k :: 0 <= k < |fs| ==>
              Lines(StlText(fs, num))[7 * k + 1 .. 7 * k + 8] == FacetLines(fs[k], num)
  {
    StlTextLines(fs, num);
    var all, ls := Lines(StlText(fs, num)), FacetsLines(fs, num);
    forall k | 0 <= k < |fs|
      ensures all[7 * k + 1 .. 7 * k + 8] == FacetLines(fs[k], num)
    {
      FacetsLinesAt(fs, num, k);
      assert all[7 * k + 1 .. 7 * k + 8] == ls[7 * k .. 7 * k + 7];
    }
  }
}
