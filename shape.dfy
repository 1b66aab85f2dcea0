/** Shape aggregates (draw2d/shape.hpp, draw2d/shape.cpp): a line strip and a
    closed triangle fan, each owning heap arrays of vertices and drawing itself
    as a series of calls to the line and triangle rasterisers, on vertices
    transformed by rotation * v + translation. */
module Shapes {
  import opened Colors
  import opened Geometry
  import opened Surfaces
  import opened Lines
  import opened Triangles
  import opened Draw

  // ------------------------------------------------------------------ line strip

  /** One `draw_line_solid` call, between two transformed vertices. */
  datatype Segment = Segment(p: Vec2, q: Vec2)

  /** The writes `draw_line_solid` asks for on segment sg in colour c. */
  function SegmentWrites(sg: Segment, c: ColorU8): seq<Write> {
    LineWrites(Trunc(sg.p.x), Trunc(sg.p.y), Trunc(sg.q.x), Trunc(sg.q.y), c)
  }

  /** The line calls of the first n iterations of `LineStrip::draw`'s loop. */
  function StripCalls(vs: seq<Vec2>, rot: Mat22, t: Vec2, n: nat): (r: seq<Segment>)
    requires n < |vs|
    ensures |r| == n
  {
    if n == 0 then [] else StripCalls(vs, rot, t, n - 1) + [Segment(Transform(rot, t, vs[n - 1]), Transform(rot, t, vs[n]))]
  }

  /** Call i of the strip draws the line from transformed vertex i to
      transformed vertex i + 1. */
  lemma {:induction false} StripCallAt(vs: seq<Vec2>, rot: Mat22, t: Vec2, n: nat, i: int)
    requires n < |vs| && 0 <= i < n
    ensures StripCalls(vs, rot, t, n)[i] == Segment(Transform(rot, t, vs[i]), Transform(rot, t, vs[i + 1]))
  {
    var prev := StripCalls(vs, rot, t, n - 1);
    assert StripCalls(vs, rot, t, n) == prev + [Segment(Transform(rot, t, vs[n - 1]), Transform(rot, t, vs[n]))];
    if i < n - 1 {
      StripCallAt(vs, rot, t, n - 1, i);
    }
  }

  /** The writes of a series of line calls, in order, all in colour c. */
  function SegmentsWrites(calls: seq<Segment>, c: ColorU8): seq<Write>
    decreases |calls|
  {
    if calls == [] then [] else SegmentsWrites(calls[..|calls| - 1], c) + SegmentWrites(calls[|calls| - 1], c)
  }

  lemma SegmentsWritesSnoc(calls: seq<Segment>, sg: Segment, c: ColorU8)
    ensures SegmentsWrites(calls + [sg], c) == SegmentsWrites(calls, c) + SegmentWrites(sg, c)
  {
    assert (calls + [sg])[..|calls|] == calls;
  }

  /** Every write of a series of line calls in colour c carries c. */
  lemma {:induction false} SegmentsWritesColor(calls: seq<Segment>, c: ColorU8, k: int)
    requires 0 <= k < |SegmentsWrites(calls, c)|
    ensures SegmentsWrites(calls, c)[k].c == c
    decreases |calls|
  {
    var prev := SegmentsWrites(calls[..|calls| - 1], c);
    assert SegmentsWrites(calls, c) == prev + SegmentWrites(calls[|calls| - 1], c);
    if k < |prev| {
      SegmentsWritesColor(calls[..|calls| - 1], c, k);
    }
  }

  /** The truncated start and end of every line call are aimed at. */
  lemma {:induction false} SegmentsWritesEnds(calls: seq<Segment>, c: ColorU8, i: int)
    requires 0 <= i < |calls|
    ensures Targets(SegmentsWrites(calls, c), Trunc(calls[i].p.x), Trunc(calls[i].p.y))
    ensures Targets(SegmentsWrites(calls, c), Trunc(calls[i].q.x), Trunc(calls[i].q.y))
    decreases |calls|
  {
    var init := calls[..|calls| - 1];
    var prev := SegmentsWrites(init, c);
    var r := SegmentsWrites(calls, c);
    assert r == prev + SegmentWrites(calls[|calls| - 1], c);
    if i < |init| {
      SegmentsWritesEnds(init, c, i);
      assert init[i] == calls[i];
      var k :| 0 <= k < |prev| && prev[k].x == Trunc(calls[i].p.x) && prev[k].y == Trunc(calls[i].p.y);
      assert r[k] == prev[k];
      var k' :| 0 <= k' < |prev| && prev[k'].x == Trunc(calls[i].q.x) && prev[k'].y == Trunc(calls[i].q.y);
      assert r[k'] == prev[k'];
    } else {
      var sg := calls[i];
      var x0, y0, x1, y1 := Trunc(sg.p.x), Trunc(sg.p.y), Trunc(sg.q.x), Trunc(sg.q.y);
      var line := SegmentWrites(sg, c);
      LineEnds(x0, y0, x1, y1);
      var last := |LinePixels(x0, y0, x1, y1)| - 1;
      assert r[|prev|] == line[0] && line[0].x == x0 && line[0].y == y0;
      assert r[|prev| + last] == line[last] && line[last].x == x1 && line[last].y == y1;
    }
  }

  /** The writes of `LineStrip::draw` on vertices vs: one line per pair of
      consecutive transformed vertices, all in the converted colour c. */
  function StripWrites(vs: seq<Vec2>, rot: Mat22, t: Vec2, c: ColorU8): seq<Write>
    requires |vs| >= 1
  {
    SegmentsWrites(StripCalls(vs, rot, t, |vs| - 1), c)
  }

  /** Painting the first n line calls of the strip is painting the first n - 1,
      then the line from transformed vertex n - 1 to transformed vertex n. */
  lemma StripStep(buf: seq<byte>, w: nat, h: nat, vs: seq<Vec2>, rot: Mat22, t: Vec2, c: ColorU8, n: nat)
    requires |buf| == 4 * (w * h) && 1 <= n < |vs|
    ensures Paint(buf, w, h, SegmentsWrites(StripCalls(vs, rot, t, n), c)) ==
            Paint(Paint(buf, w, h, SegmentsWrites(StripCalls(vs, rot, t, n - 1), c)), w, h,
                  SegmentWrites(Segment(Transform(rot, t, vs[n - 1]), Transform(rot, t, vs[n])), c))
  {
    var calls := StripCalls(vs, rot, t, n - 1);
    var sg := Segment(Transform(rot, t, vs[n - 1]), Transform(rot, t, vs[n]));
    SegmentsWritesSnoc(calls, sg, c);
    PaintAppend(buf, w, h, SegmentsWrites(calls, c), SegmentWrites(sg, c));
  }

  /** What a drawn line strip leaves in each surface pixel: colour c where one of
      its lines passes, the old colour elsewhere. */
  lemma StripPaint(buf: seq<byte>, w: nat, h: nat, vs: seq<Vec2>, rot: Mat22, t: Vec2, c: ColorU8, x: int, y: int)
    requires |buf| == 4 * (w * h) && |vs| >= 1 && InSurface(w, h, x, y)
    ensures PixelAt(Paint(buf, w, h, StripWrites(vs, rot, t, c)), w, h, x, y) ==
            if Targets(StripWrites(vs, rot, t, c), x, y) then c else PixelAt(buf, w, h, x, y)
  {
    var calls := StripCalls(vs, rot, t, |vs| - 1);
    var ws := StripWrites(vs, rot, t, c);
    forall k | 0 <= k < |ws| && ws[k].x == x && ws[k].y == y
      ensures ws[k].c == c
    {
      SegmentsWritesColor(calls, c, k);
    }
    LastWriteUniform(ws, x, y, c);
    PaintPixel(buf, w, h, ws, x, y);
  }

  /** Once the strip has two vertices, each transformed vertex, truncated, is
      among the pixels its lines pass: the strip is drawn through its vertices. */
  lemma StripVertices(vs: seq<Vec2>, rot: Mat22, t: Vec2, c: ColorU8, i: int)
    requires |vs| >= 2 && 0 <= i < |vs|
    ensures Targets(StripWrites(vs, rot, t, c), Trunc(Transform(rot, t, vs[i]).x), Trunc(Transform(rot, t, vs[i]).y))
  {
    var calls := StripCalls(vs, rot, t, |vs| - 1);
    if i < |calls| {
      StripCallAt(vs, rot, t, |vs| - 1, i);
      SegmentsWritesEnds(calls, c, i);
    } else {
      StripCallAt(vs, rot, t, |vs| - 1, i - 1);
      SegmentsWritesEnds(calls, c, i - 1);
    }
  }

  /** `LineStrip`: `count` vertices in a heap array. */
  class LineStrip {
    var count: nat
    var vertices: array<Vec2>

    ghost predicate Valid()
      reads this
    {
      vertices.Length == count
    }

    /** `LineStrip(aCount, aVerts)`: copies the first aCount vertices, in order. */
    constructor (n: nat, verts: array<Vec2>)
      requires n <= verts.Length
      ensures Valid() && fresh(vertices)
      ensures count == n && vertices[..] == verts[..n]
    {
      count := n;
      vertices := new Vec2[n](i requires 0 <= i < n reads verts => verts[i]);
    }

    /** Move constructor: takes over the vertices; the other strip is left with
        none (the source's null). */
    constructor MoveFrom(other: LineStrip)
      requires other.Valid()
      modifies other
      ensures Valid() && other.Valid()
      ensures count == old(other.count) && vertices == old(other.vertices)
      ensures other.count == 0
    {
      count, vertices := other.count, other.vertices;
      other.count := 0;
      other.vertices := new Vec2[0];
    }

    /** Move assignment: the two strips exchange count and vertices. */
    method MoveAssign(other: LineStrip)
      requires Valid() && other.Valid()
      modifies this, other
      ensures Valid() && other.Valid()
      ensures count == old(other.count) && vertices == old(other.vertices)
      ensures other.count == old(count) && other.vertices == old(vertices)
    {
      var n, v := count, vertices;
      count, vertices := other.count, other.vertices;
      other.count, other.vertices := n, v;
    }

    /** `vertex_count()`. */
    method VertexCount() returns (n: nat)
      requires Valid()
      ensures n == count == vertices.Length
    {
      n := count;
    }

    /** `LineStrip::draw`: the colour is converted once, then each pair of
        consecutive transformed vertices is drawn as a line. The source reads
        vertex 0 unconditionally, so the strip must not be empty. */
    method DrawStrip(s: Surface, color: ColorF, rot: Mat22, t: Vec2, toSrgb: ColorF -> ColorU8)
      requires Valid() && s.Valid() && count >= 1
      modifies s.data
      ensures s.data[..] == Paint(old(s.data[..]), s.width, s.height, StripWrites(vertices[..], rot, t, toSrgb(color)))
    {
      ghost var w, h, buf, vs := s.width, s.height, s.data[..], vertices[..];
      var c := toSrgb(color);
      var previous := Transform(rot, t, vertices[0]);
      var i := 1;
      while i < count
        invariant 1 <= i <= count && vertices[..] == vs
        invariant previous == Transform(rot, t, vs[i - 1])
        invariant s.data[..] == Paint(buf, w, h, SegmentsWrites(StripCalls(vs, rot, t, i - 1), c))
      {
        var current := Transform(rot, t, vertices[i]);
        StripStep(buf, w, h, vs, rot, t, c, i);
        DrawLineSolid(s, previous, current, c);
        previous := current;
        i := i + 1;
      }
    }
  }

  // ---------------------------------------------------------------- triangle fan

  /** One vertex with its colour, as `TriangleFan::PosAndCol`. */
  datatype PosAndCol = PosAndCol(pos: Vec2, col: ColorF)

  /** The triangle calls of the first n iterations of `TriangleFan::draw`'s loop
      (i = 2 .. n + 1): centre, vertex i - 1 and vertex i, with their colours. */
  function FanLoopCalls(vs: seq<Vec2>, cs: seq<ColorF>, rot: Mat22, t: Vec2, n: nat): (r: seq<Shaded>)
    requires |cs| == |vs| && n + 2 <= |vs|
    ensures |r| == n
    ensures forall i :: 0 <= i < n ==>
              r[i] == Shaded(Transform(rot, t, vs[0]), Transform(rot, t, vs[i + 1]), Transform(rot, t, vs[i + 2]),
                             cs[0], cs[i + 1], cs[i + 2])
  {
    if n == 0 then []
    else
      FanLoopCalls(vs, cs, rot, t, n - 1) +
      [Shaded(Transform(rot, t, vs[0]), Transform(rot, t, vs[n]), Transform(rot, t, vs[n + 1]), cs[0], cs[n], cs[n + 1])]
  }

  /** Every triangle call of `TriangleFan::draw`: the loop's, then the closing
      triangle from the last vertex back to vertex 1. */
  function FanCalls(vs: seq<Vec2>, cs: seq<ColorF>, rot: Mat22, t: Vec2): (r: seq<Shaded>)
    requires |cs| == |vs| >= 2
    ensures |r| == |vs| - 1
    ensures r[|vs| - 2] == Shaded(Transform(rot, t, vs[0]), Transform(rot, t, vs[|vs| - 1]), Transform(rot, t, vs[1]),
                                  cs[0], cs[|vs| - 1], cs[1])
  {
    FanLoopCalls(vs, cs, rot, t, |vs| - 2) +
    [Shaded(Transform(rot, t, vs[0]), Transform(rot, t, vs[|vs| - 1]), Transform(rot, t, vs[1]), cs[0], cs[|vs| - 1], cs[1])]
  }

  /** The writes of a series of triangle calls on a w-by-h surface, in order. */
  function ShadedWrites(calls: seq<Shaded>, toSrgb: ColorF -> ColorU8, w: nat, h: nat): seq<Write>
    requires w >= 1 && h >= 1
    decreases |calls|
  {
    if calls == [] then []
    else ShadedWrites(calls[..|calls| - 1], toSrgb, w, h) + InterpWrites(calls[|calls| - 1], toSrgb, w, h)
  }

  lemma ShadedWritesSnoc(calls: seq<Shaded>, tri: Shaded, toSrgb: ColorF -> ColorU8, w: nat, h: nat)
    requires w >= 1 && h >= 1
    ensures ShadedWrites(calls + [tri], toSrgb, w, h) == ShadedWrites(calls, toSrgb, w, h) + InterpWrites(tri, toSrgb, w, h)
  {
    assert (calls + [tri])[..|calls|] == calls;
  }

  /** Painting the first n triangle calls of the loop is painting the first
      n - 1, then triangle n. */
  lemma FanLoopStep(buf: seq<byte>, w: nat, h: nat, vs: seq<Vec2>, cs: seq<ColorF>, rot: Mat22, t: Vec2,
                    toSrgb: ColorF -> ColorU8, n: nat)
    requires |buf| == 4 * (w * h) && w >= 1 && h >= 1 && |cs| == |vs| && 1 <= n && n + 2 <= |vs|
    ensures Paint(buf, w, h, ShadedWrites(FanLoopCalls(vs, cs, rot, t, n), toSrgb, w, h)) ==
            Paint(Paint(buf, w, h, ShadedWrites(FanLoopCalls(vs, cs, rot, t, n - 1), toSrgb, w, h)), w, h,
                  InterpWrites(Shaded(Transform(rot, t, vs[0]), Transform(rot, t, vs[n]), Transform(rot, t, vs[n + 1]),
                                      cs[0], cs[n], cs[n + 1]), toSrgb, w, h))
  {
    var calls := FanLoopCalls(vs, cs, rot, t, n - 1);
    var tri := Shaded(Transform(rot, t, vs[0]), Transform(rot, t, vs[n]), Transform(rot, t, vs[n + 1]), cs[0], cs[n], cs[n + 1]);
    assert FanLoopCalls(vs, cs, rot, t, n) == calls + [tri];
    ShadedWritesSnoc(calls, tri, toSrgb, w, h);
    PaintAppend(buf, w, h, ShadedWrites(calls, toSrgb, w, h), InterpWrites(tri, toSrgb, w, h));
  }

  /** Painting the whole fan is painting the loop's calls, then the closing
      triangle centre, last vertex, vertex 1. */
  lemma FanClose(buf: seq<byte>, w: nat, h: nat, vs: seq<Vec2>, cs: seq<ColorF>, rot: Mat22, t: Vec2,
                 toSrgb: ColorF -> ColorU8)
    requires |buf| == 4 * (w * h) && w >= 1 && h >= 1 && |cs| == |vs| >= 2
    ensures Paint(buf, w, h, FanWrites(vs, cs, rot, t, toSrgb, w, h)) ==
            Paint(Paint(buf, w, h, ShadedWrites(FanLoopCalls(vs, cs, rot, t, |vs| - 2), toSrgb, w, h)), w, h,
                  InterpWrites(Shaded(Transform(rot, t, vs[0]), Transform(rot, t, vs[|vs| - 1]), Transform(rot, t, vs[1]),
                                      cs[0], cs[|vs| - 1], cs[1]), toSrgb, w, h))
  {
    var calls := FanLoopCalls(vs, cs, rot, t, |vs| - 2);
    var tri := Shaded(Transform(rot, t, vs[0]), Transform(rot, t, vs[|vs| - 1]), Transform(rot, t, vs[1]), cs[0], cs[|vs| - 1], cs[1]);
    assert FanCalls(vs, cs, rot, t) == calls + [tri];
    ShadedWritesSnoc(calls, tri, toSrgb, w, h);
    PaintAppend(buf, w, h, ShadedWrites(calls, toSrgb, w, h), InterpWrites(tri, toSrgb, w, h));
  }

  /** The writes of `TriangleFan::draw`. */
  function FanWrites(vs: seq<Vec2>, cs: seq<ColorF>, rot: Mat22, t: Vec2, toSrgb: ColorF -> ColorU8, w: nat, h: nat): seq<Write>
    requires |cs| == |vs| >= 2 && w >= 1 && h >= 1
  {
    ShadedWrites(FanCalls(vs, cs, rot, t), toSrgb, w, h)
  }

  /** Every write of a series of triangle calls is on the surface, and carries
      the converted colour c when every call has all three colours c. */
  lemma {:induction false} ShadedWritesSound(calls: seq<Shaded>, toSrgb: ColorF -> ColorU8, w: nat, h: nat, c: ColorF, k: int)
    requires w >= 1 && h >= 1 && 0 <= k < |ShadedWrites(calls, toSrgb, w, h)|
    ensures InSurface(w, h, ShadedWrites(calls, toSrgb, w, h)[k].x, ShadedWrites(calls, toSrgb, w, h)[k].y)
    ensures (forall i :: 0 <= i < |calls| ==> calls[i].c0 == calls[i].c1 == calls[i].c2 == c) ==>
              ShadedWrites(calls, toSrgb, w, h)[k].c == toSrgb(c)
    decreases |calls|
  {
    var init := calls[..|calls| - 1];
    var tri := calls[|calls| - 1];
    var prev := ShadedWrites(init, toSrgb, w, h);
    assert ShadedWrites(calls, toSrgb, w, h) == prev + InterpWrites(tri, toSrgb, w, h);
    if k < |prev| {
      ShadedWritesSound(init, toSrgb, w, h, c, k);
      if forall i :: 0 <= i < |calls| ==> calls[i].c0 == calls[i].c1 == calls[i].c2 == c {
        assert forall i :: 0 <= i < |init| ==> init[i] == calls[i];
      }
    } else {
      InterpBounds(tri, toSrgb, w, h);
      if tri.c0 == tri.c1 == tri.c2 {
        InterpUniform(tri, toSrgb, w, h);
      }
    }
  }

  /** A fan whose vertices all have colour c paints only toSrgb(c), and only on
      the surface. */
  lemma FanUniform(vs: seq<Vec2>, cs: seq<ColorF>, rot: Mat22, t: Vec2, toSrgb: ColorF -> ColorU8, w: nat, h: nat, c: ColorF)
    requires |cs| == |vs| >= 2 && w >= 1 && h >= 1
    requires forall i :: 0 <= i < |cs| ==> cs[i] == c
    ensures var r := FanWrites(vs, cs, rot, t, toSrgb, w, h);
            forall k :: 0 <= k < |r| ==> InSurface(w, h, r[k].x, r[k].y) && r[k].c == toSrgb(c)
  {
    var calls := FanCalls(vs, cs, rot, t);
    var r := FanWrites(vs, cs, rot, t, toSrgb, w, h);
    forall k | 0 <= k < |r|
      ensures InSurface(w, h, r[k].x, r[k].y) && r[k].c == toSrgb(c)
    {
      ShadedWritesSound(calls, toSrgb, w, h, c, k);
    }
  }

  /** With two vertices the fan's only triangle is the closing one, centre,
      vertex 1, vertex 1, whose area is zero: nothing is drawn. */
  lemma FanOfTwo(vs: seq<Vec2>, cs: seq<ColorF>, rot: Mat22, t: Vec2, toSrgb: ColorF -> ColorU8, w: nat, h: nat)
    requires |cs| == |vs| == 2 && w >= 1 && h >= 1
    ensures FanWrites(vs, cs, rot, t, toSrgb, w, h) == []
  {
    var calls := FanCalls(vs, cs, rot, t);
    assert calls == [calls[0]] && calls[..0] == [];
    assert Area(calls[0]) == 0.0;
    assert FanWrites(vs, cs, rot, t, toSrgb, w, h) == ShadedWrites([], toSrgb, w, h) + InterpWrites(calls[0], toSrgb, w, h);
  }

  /** `TriangleFan`: `count` vertices and as many colours, in two heap arrays. */
  class TriangleFan {
    var count: nat
    var vertices: array<Vec2>
    var colors: array<ColorF>

    ghost predicate Valid()
      reads this
    {
      vertices.Length == count && colors.Length == count
    }

    /** `TriangleFan(aCount, PosAndCol const*)`: splits the first aCount entries
        into positions and colours, index by index. */
    constructor FromPosAndCol(n: nat, verts: array<PosAndCol>)
      requires n <= verts.Length
      ensures Valid() && fresh(vertices) && fresh(colors)
      ensures count == n
      ensures forall i :: 0 <= i < n ==> vertices[i] == verts[i].pos && colors[i] == verts[i].col
    {
      count := n;
      vertices := new Vec2[n];
      colors := new ColorF[n];
      new;
      var i := 0;
      while i < n
        invariant 0 <= i <= n && Valid() && count == n
        invariant forall j :: 0 <= j < i ==> vertices[j] == verts[j].pos && colors[j] == verts[j].col
        modifies vertices, colors
      {
        vertices[i] := verts[i].pos;
        colors[i] := verts[i].col;
        i := i + 1;
      }
    }

    /** `TriangleFan(aCount, Vec2f const*, ColorF const*)`: copies the first
        aCount positions and colours. */
    constructor (n: nat, verts: array<Vec2>, cols: array<ColorF>)
      requires n <= verts.Length && n <= cols.Length
      ensures Valid() && fresh(vertices) && fresh(colors)
      ensures count == n && vertices[..] == verts[..n] && colors[..] == cols[..n]
    {
      count := n;
      vertices := new Vec2[n](i requires 0 <= i < n reads verts => verts[i]);
      colors := new ColorF[n](i requires 0 <= i < n reads cols => cols[i]);
    }

    /** Move constructor: takes over both arrays; the other fan is left empty. */
    constructor MoveFrom(other: TriangleFan)
      requires other.Valid()
      modifies other
      ensures Valid() && other.Valid()
      ensures count == old(other.count) && vertices == old(other.vertices) && colors == old(other.colors)
      ensures other.count == 0
    {
      count, vertices, colors := other.count, other.vertices, other.colors;
      other.count := 0;
      other.vertices := new Vec2[0];
      other.colors := new ColorF[0];
    }

    /** Move assignment: the two fans exchange count and arrays. */
    method MoveAssign(other: TriangleFan)
      requires Valid() && other.Valid()
      modifies this, other
      ensures Valid() && other.Valid()
      ensures count == old(other.count) && vertices == old(other.vertices) && colors == old(other.colors)
      ensures other.count == old(count) && other.vertices == old(vertices) && other.colors == old(colors)
    {
      var n, v, cs := count, vertices, colors;
      count, vertices, colors := other.count, other.vertices, other.colors;
      other.count, other.vertices, other.colors := n, v, cs;
    }

    /** `TriangleFan::draw`: triangles centre, vertex i - 1, vertex i for
        i = 2 .. count - 1, then the closing triangle centre, last vertex,
        vertex 1. The source reads vertices 0 and 1 unconditionally, and
        `draw_triangle_interp` needs a surface of at least one pixel. */
    method DrawFan(s: Surface, rot: Mat22, t: Vec2, toSrgb: ColorF -> ColorU8)
      requires Valid() && s.Valid() && count >= 2 && s.width >= 1 && s.height >= 1
      modifies s.data
      ensures s.data[..] == Paint(old(s.data[..]), s.width, s.height,
                                  FanWrites(vertices[..], colors[..], rot, t, toSrgb, s.width, s.height))
    {
      ghost var w, h, buf, vs, cs := s.width, s.height, s.data[..], vertices[..], colors[..];
      var center := Transform(rot, t, vertices[0]);
      var cencol := colors[0];
      var previous := Transform(rot, t, vertices[1]);
      var pcol := colors[1];
      var i := 2;
      while i < count
        invariant 2 <= i <= count && vertices[..] == vs && colors[..] == cs
        invariant previous == Transform(rot, t, vs[i - 1]) && pcol == cs[i - 1]
        invariant s.data[..] == Paint(buf, w, h, ShadedWrites(FanLoopCalls(vs, cs, rot, t, i - 2), toSrgb, w, h))
      {
        var current := Transform(rot, t, vertices[i]);
        var curcol := colors[i];
        FanLoopStep(buf, w, h, vs, cs, rot, t, toSrgb, i - 1);
        DrawTriangleInterp(s, center, previous, current, cencol, pcol, curcol, toSrgb);
        previous := current;
        pcol := curcol;
        i := i + 1;
      }
      var first := Transform(rot, t, vertices[1]);
      var fcol := colors[1];
      ghost var tri := Shaded(center, previous, first, cencol, pcol, fcol);
      assert tri == Shaded(Transform(rot, t, vs[0]), Transform(rot, t, vs[|vs| - 1]), Transform(rot, t, vs[1]),
                           cs[0], cs[|vs| - 1], cs[1]);
      FanClose(buf, w, h, vs, cs, rot, t, toSrgb);
      DrawTriangleInterp(s, center, previous, first, cencol, pcol, fcol, toSrgb);
      assert s.data[..] == Paint(buf, w, h, FanWrites(vs, cs, rot, t, toSrgb, w, h));
    }
  }
}
