/** The drawing routines of draw2d/draw.cpp. Each one is proved to leave the
    surface exactly as painting its candidate writes (see `Surfaces.Paint`) would. */
module Draw {
  import opened Colors
  import opened Geometry
  import opened Surfaces
  import opened Lines
  import opened Triangles

  /** The direction test of `draw_line_solid` compares the float coordinates,
      yet along every axis the walk moves on it points from the truncated start
      to the truncated end. */
  lemma FloatDirections(p: Vec2, q: Vec2)
    ensures Directed(Trunc(p.x), Trunc(p.y), Trunc(q.x), Trunc(q.y),
                     if p.x < q.x then 1 else -1, if p.y < q.y then 1 else -1)
  {
    if Trunc(p.x) != Trunc(q.x) { TruncOrder(p.x, q.x); }
    if Trunc(p.y) != Trunc(q.y) { TruncOrder(p.y, q.y); }
  }

  /** `draw_line_solid`: the integer walk between the truncated endpoints, each
      visited position set to c when it lies on the surface. */
  method DrawLineSolid(s: Surface, p: Vec2, q: Vec2, c: ColorU8)
    requires s.Valid()
    modifies s.data
    ensures s.data[..] == Paint(old(s.data[..]), s.width, s.height,
                                LineWrites(Trunc(p.x), Trunc(p.y), Trunc(q.x), Trunc(q.y), c))
  {
    var x0, y0, x1, y1 := Trunc(p.x), Trunc(p.y), Trunc(q.x), Trunc(q.y);
    var dx: int := Abs(x1 - x0);
    var dy: int := Abs(y1 - y0);
    var dirX := if p.x < q.x then 1 else -1;
    var dirY := if p.y < q.y then 1 else -1;
    var err: int := dx - dy;
    var x, y := x0, y0;
    var w: int := s.width;
    var h: int := s.height;

    ghost var n: nat := 0;
    FloatDirections(p, q);
    while true
      invariant n <= Max(dx, dy)
      invariant (x, y, err) == Walk(x0, y0, x1, y1, dirX, dirY, n)
      invariant s.data[..] == LineSoFar(old(s.data[..]), w, h, x0, y0, x1, y1, dirX, dirY, c, n)
      decreases Max(dx, dy) - n
    {
      LineSoFarNext(old(s.data[..]), w, h, x0, y0, x1, y1, dirX, dirY, c, n);
      if x >= 0 && x < w && y >= 0 && y < h {
        s.SetPixelSrgb(x, y, c);
      }
      assert s.data[..] == LineSoFar(old(s.data[..]), w, h, x0, y0, x1, y1, dirX, dirY, c, n + 1);
      WalkDone(x0, y0, x1, y1, dirX, dirY, n);
      if x == x1 && y == y1 {
        LineSoFarDone(old(s.data[..]), w, h, x0, y0, x1, y1, dirX, dirY, c);
        break;
      }
      x, y, err := AdvanceStep(x0, y0, x1, y1, n, dx, dy, dirX, dirY, x, y, err);
      n := n + 1;
    }
  }

  /** The candidate writes of `draw_triangle_wireframe`: the three edges in order. */
  function WireframeWrites(p0: Vec2, p1: Vec2, p2: Vec2, c: ColorU8): seq<Write> {
    LineWrites(Trunc(p0.x), Trunc(p0.y), Trunc(p1.x), Trunc(p1.y), c) +
    LineWrites(Trunc(p1.x), Trunc(p1.y), Trunc(p2.x), Trunc(p2.y), c) +
    LineWrites(Trunc(p2.x), Trunc(p2.y), Trunc(p0.x), Trunc(p0.y), c)
  }

  /** `draw_triangle_wireframe`: lines P0-P1, P1-P2, P2-P0. */
  method DrawTriangleWireframe(s: Surface, p0: Vec2, p1: Vec2, p2: Vec2, c: ColorU8)
    requires s.Valid()
    modifies s.data
    ensures s.data[..] == Paint(old(s.data[..]), s.width, s.height, WireframeWrites(p0, p1, p2, c))
  {
    ghost var b := s.data[..];
    var w, h := s.width, s.height;
    DrawLineSolid(s, p0, p1, c);
    DrawLineSolid(s, p1, p2, c);
    DrawLineSolid(s, p2, p0, c);
    var l0 := LineWrites(Trunc(p0.x), Trunc(p0.y), Trunc(p1.x), Trunc(p1.y), c);
    var l1 := LineWrites(Trunc(p1.x), Trunc(p1.y), Trunc(p2.x), Trunc(p2.y), c);
    var l2 := LineWrites(Trunc(p2.x), Trunc(p2.y), Trunc(p0.x), Trunc(p0.y), c);
    PaintAppend(b, w, h, l0, l1);
    PaintAppend(b, w, h, l0 + l1, l2);
  }

  // ---------------------------------------------------------------- solid fill

  /** One scanline of the solid fill: x from xs to xe inclusive on row y, each
      pixel set when it lies on the surface. */
  method FillSpan(s: Surface, y: int, xs: int, xe: int, c: ColorU8)
    requires s.Valid()
    modifies s.data
    ensures s.data[..] == Paint(old(s.data[..]), s.width, s.height, SpanWrites(y, xs, xe, c))
  {
    var w: int := s.width;
    var h: int := s.height;
    var x := xs;
    while x <= xe
      invariant x == xs || xs <= x <= xe + 1
      invariant s.data[..] == Paint(old(s.data[..]), w, h, SpanWrites(y, xs, x - 1, c))
    {
      SpanSnoc(y, xs, x, c);
      PaintSnoc(old(s.data[..]), w, h, SpanWrites(y, xs, x - 1, c), Write(x, y, c));
      if x >= 0 && x < w && y >= 0 && y < h {
        s.SetPixelSrgb(x, y, c);
      }
      x := x + 1;
    }
    assert SpanWrites(y, xs, x - 1, c) == SpanWrites(y, xs, xe, c);
  }

  /** Rows lo to hi of the solid fill, each spanning from the left edge l0-l1 to
      the right edge r0-r1. */
  method FillRows(s: Surface, l0: Vec2, l1: Vec2, r0: Vec2, r1: Vec2, lo: int, hi: int, c: ColorU8)
    requires s.Valid() && l0.y != l1.y && r0.y != r1.y
    modifies s.data
    ensures s.data[..] == Paint(old(s.data[..]), s.width, s.height, RowsWrites(l0, l1, r0, r1, lo, hi, c))
  {
    var y := lo;
    while y <= hi
      invariant y == lo || lo <= y <= hi + 1
      invariant s.data[..] == Paint(old(s.data[..]), s.width, s.height, RowsWrites(l0, l1, r0, r1, lo, y - 1, c))
    {
      var startX := Trunc(EdgeX(l0, l1, y));
      var endX := Trunc(EdgeX(r0, r1, y));
      assert RowsWrites(l0, l1, r0, r1, lo, y, c) ==
             RowsWrites(l0, l1, r0, r1, lo, y - 1, c) + RowWrites(l0, l1, r0, r1, y, c);
      FillSpan(s, y, startX, endX, c);
      PaintAppend(old(s.data[..]), s.width, s.height, RowsWrites(l0, l1, r0, r1, lo, y - 1, c), RowWrites(l0, l1, r0, r1, y, c));
      y := y + 1;
    }
  }

  /** `draw_triangle_solid`: sort the vertices by y, give up on a triangle of
      zero height, and fill the rest by scanlines. */
  method DrawTriangleSolid(s: Surface, p0: Vec2, p1: Vec2, p2: Vec2, c: ColorU8)
    requires s.Valid()
    modifies s.data
    ensures s.data[..] == Paint(old(s.data[..]), s.width, s.height, SolidWrites(p0, p1, p2, c))
  {
    var a0, a1, a2 := p0, p1, p2;
    if a0.y > a1.y {
      a0, a1 := a1, a0;
    }
    if a0.y > a2.y {
      a0, a2 := a2, a0;
    }
    if a1.y > a2.y {
      a1, a2 := a2, a1;
    }
    assert (a0, a1, a2) == SortByY(p0, p1, p2);
    if a0.y == a2.y {
      return;
    }
    FillSorted(s, a0, a1, a2, c);
  }

  /** The scanline part of `draw_triangle_solid`, for vertices sorted by y with
      a nonzero height: a flat-top, a flat-bottom or a split general triangle. */
  method FillSorted(s: Surface, a0: Vec2, a1: Vec2, a2: Vec2, c: ColorU8)
    requires s.Valid() && a0.y <= a1.y <= a2.y && a0.y != a2.y
    modifies s.data
    ensures s.data[..] == Paint(old(s.data[..]), s.width, s.height, SortedSolidWrites(a0, a1, a2, c))
  {
    if a0.y == a1.y {
      FillRows(s, a0, a2, a1, a2, Trunc(a0.y), Trunc(a2.y), c);
    } else if a1.y == a2.y {
      FillRows(s, a0, a1, a0, a2, Trunc(a0.y), Trunc(a2.y), c);
    } else {
      var split := SplitVertex(a0, a1, a2);
      ghost var upper := RowsWrites(a0, a1, a0, split, Trunc(a0.y), Trunc(a1.y), c);
      ghost var lower := RowsWrites(a1, a2, a0, split, Trunc(a1.y) + 1, Trunc(a2.y), c);
      FillRows(s, a0, a1, a0, split, Trunc(a0.y), Trunc(a1.y), c);
      FillRows(s, a1, a2, a0, split, Trunc(a1.y) + 1, Trunc(a2.y), c);
      PaintAppend(old(s.data[..]), s.width, s.height, upper, lower);
    }
  }

  // --------------------------------------------------------- interpolated fill

  /** `draw_triangle_interp`: give up on a triangle of zero area, otherwise
      shade every pixel of its bounding box clamped to the surface. */
  method DrawTriangleInterp(s: Surface, p0: Vec2, p1: Vec2, p2: Vec2, c0: ColorF, c1: ColorF, c2: ColorF,
                            toSrgb: ColorF -> ColorU8)
    requires s.Valid() && s.width >= 1 && s.height >= 1
    modifies s.data
    ensures s.data[..] == Paint(old(s.data[..]), s.width, s.height,
                                InterpWrites(Shaded(p0, p1, p2, c0, c1, c2), toSrgb, s.width, s.height))
  {
    var t := Shaded(p0, p1, p2, c0, c1, c2);
    var area := Area(t);
    if area == 0.0 {
      return;
    }
    var b := ClampedBox(t, s.width, s.height);
    ShadeBox(s, t, toSrgb, b);
  }

  /** The outer loop of `draw_triangle_interp`: x over the columns of box b,
      which lies on the surface. */
  method ShadeBox(s: Surface, t: Shaded, toSrgb: ColorF -> ColorU8, b: Box)
    requires s.Valid() && Area(t) != 0.0
    requires 0 <= b.xLo && b.xHi < s.width && 0 <= b.yLo && b.yHi < s.height
    modifies s.data
    ensures s.data[..] == Paint(old(s.data[..]), s.width, s.height, InterpColumns(t, toSrgb, b, b.xHi))
  {
    ghost var w, h, buf := s.width, s.height, s.data[..];
    var x := b.xLo;
    while x <= b.xHi
      invariant x == b.xLo || b.xLo <= x <= b.xHi + 1
      invariant s.data[..] == ColumnsSoFar(buf, w, h, t, toSrgb, b, x - 1)
    {
      ShadeColumn(s, t, toSrgb, b, x);
      x := x + 1;
    }
    ColumnsSoFarPaint(buf, w, h, t, toSrgb, b, b.xHi);
  }

  /** The inner loop of `draw_triangle_interp`: y over the rows of box b in
      column x. */
  method ShadeColumn(s: Surface, t: Shaded, toSrgb: ColorF -> ColorU8, b: Box, x: int)
    requires s.Valid() && Area(t) != 0.0
    requires 0 <= x < s.width && 0 <= b.yLo && b.yHi < s.height
    modifies s.data
    ensures s.data[..] == ColumnSoFar(old(s.data[..]), s.width, s.height, t, toSrgb, b, x, b.yHi)
    ensures s.data[..] == Paint(old(s.data[..]), s.width, s.height, InterpColumn(t, toSrgb, b, x, b.yHi))
  {
    ghost var w, h, buf := s.width, s.height, s.data[..];
    var y := b.yLo;
    while y <= b.yHi
      invariant y == b.yLo || b.yLo <= y <= b.yHi + 1
      invariant s.data[..] == ColumnSoFar(buf, w, h, t, toSrgb, b, x, y - 1)
    {
      ShadePixel(s, t, toSrgb, x, y);
      y := y + 1;
    }
    ColumnSoFarPaint(buf, w, h, t, toSrgb, b, x, b.yHi);
  }

  /** The body of the loops of `draw_triangle_interp`: pixel (x, y), which lies
      on the surface, is set to the blend of the vertex colours when its three
      weights are non-negative. */
  method ShadePixel(s: Surface, t: Shaded, toSrgb: ColorF -> ColorU8, x: int, y: int)
    requires s.Valid() && Area(t) != 0.0 && InSurface(s.width, s.height, x, y)
    modifies s.data
    ensures s.data[..] == ShadeOnto(old(s.data[..]), s.width, s.height, t, toSrgb, x, y)
    ensures s.data[..] == Paint(old(s.data[..]), s.width, s.height, InterpPixel(t, toSrgb, x, y))
  {
    ShadeOntoPaint(s.data[..], s.width, s.height, t, toSrgb, x, y);
    var wt := WeightsAt(t, x, y);
    if Covered(wt) {
      s.SetPixelSrgb(x, y, toSrgb(Blend(t, wt)));
    }
  }

  // ---------------------------------------------------------------- rectangles

  /** `draw_rectangle_solid` is an unimplemented stub: the surface is unchanged. */
  method DrawRectangleSolid(s: Surface, minCorner: Vec2, maxCorner: Vec2, c: ColorU8)
    requires s.Valid()
    modifies s.data
    ensures s.data[..] == old(s.data[..])
  {
  }

  /** `draw_rectangle_outline` is an unimplemented stub: the surface is unchanged. */
  method DrawRectangleOutline(s: Surface, minCorner: Vec2, maxCorner: Vec2, c: ColorU8)
    requires s.Valid()
    modifies s.data
    ensures s.data[..] == old(s.data[..])
  {
  }
}
