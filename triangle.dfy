/** What `draw_triangle_solid` and `draw_triangle_interp` (draw2d/draw.cpp) write,
    as sequences of candidate writes in the order the routines produce them. */
module Triangles {
  import opened Colors
  import opened Geometry
  import opened Surfaces

  // ---------------------------------------------------------------- solid fill

  /** The three conditional swaps that order the vertices by y. */
  function SortByY(p0: Vec2, p1: Vec2, p2: Vec2): (r: (Vec2, Vec2, Vec2))
    ensures r.0.y <= r.1.y <= r.2.y
  {
    var (a0, a1) := if p0.y > p1.y then (p1, p0) else (p0, p1);
    var (b0, a2) := if a0.y > p2.y then (p2, a0) else (a0, p2);
    var (b1, b2) := if a1.y > a2.y then (a2, a1) else (a1, a2);
    (b0, b1, b2)
  }

  /** The swaps only reorder the vertices. */
  lemma SortByYPermutes(p0: Vec2, p1: Vec2, p2: Vec2)
    ensures var r := SortByY(p0, p1, p2); multiset{r.0, r.1, r.2} == multiset{p0, p1, p2}
  {
  }

  /** The x of the edge from a to b on row y, as the source interpolates it:
      a.x + (y - a.y) * ((b.x - a.x) / (b.y - a.y)). The divisor must not be 0. */
  function EdgeX(a: Vec2, b: Vec2, y: int): real
    requires a.y != b.y
  {
    a.x + (y as real - a.y) * ((b.x - a.x) / (b.y - a.y))
  }

  /** The vertex that splits a general triangle: on the long edge q0-q2, at the
      middle vertex's height. */
  function SplitVertex(q0: Vec2, q1: Vec2, q2: Vec2): Vec2
    requires q0.y != q2.y
  {
    Vec2(q0.x + ((q1.y - q0.y) / (q2.y - q0.y)) * (q2.x - q0.x), q1.y)
  }

  /** One scanline: x from xs to xe inclusive on row y, left to right; empty when
      xs > xe. */
  function SpanWrites(y: int, xs: int, xe: int, c: ColorU8): (r: seq<Write>)
    ensures |r| == if xs <= xe then xe - xs + 1 else 0
  {
    if xs <= xe then seq(xe - xs + 1, k => Write(xs + k, y, c)) else []
  }

  lemma SpanSnoc(y: int, xs: int, x: int, c: ColorU8)
    requires xs <= x
    ensures SpanWrites(y, xs, x, c) == SpanWrites(y, xs, x - 1, c) + [Write(x, y, c)]
  {
  }

  /** Row y between the left edge l0-l1 and the right edge r0-r1. */
  function RowWrites(l0: Vec2, l1: Vec2, r0: Vec2, r1: Vec2, y: int, c: ColorU8): seq<Write>
    requires l0.y != l1.y && r0.y != r1.y
  {
    SpanWrites(y, Trunc(EdgeX(l0, l1, y)), Trunc(EdgeX(r0, r1, y)), c)
  }

  /** Rows lo to hi inclusive, top to bottom. Every write is on one of those
      rows, in colour c. */
  function RowsWrites(l0: Vec2, l1: Vec2, r0: Vec2, r1: Vec2, lo: int, hi: int, c: ColorU8): (r: seq<Write>)
    requires l0.y != l1.y && r0.y != r1.y
    ensures forall k :: 0 <= k < |r| ==> r[k].c == c && lo <= r[k].y <= hi
    decreases hi - lo
  {
    if hi < lo then []
    else RowsWrites(l0, l1, r0, r1, lo, hi - 1, c) + RowWrites(l0, l1, r0, r1, hi, c)
  }

  /** The candidate writes of `draw_triangle_solid`, after its three swaps. */
  function SolidWrites(p0: Vec2, p1: Vec2, p2: Vec2, c: ColorU8): (r: seq<Write>)
    ensures p0.y == p1.y == p2.y ==> r == []
  {
    var q := SortByY(p0, p1, p2);
    SortedSolidWrites(q.0, q.1, q.2, c)
  }

  /** The solid fill of vertices sorted by y. A triangle of zero height writes
      nothing; a flat-top one fills rows between edges q0-q2 and q1-q2; a
      flat-bottom one between q0-q1 and q0-q2; any other is split at the middle
      vertex's height into an upper part between q0-q1 and q0-split and a lower
      part, from the row after the middle vertex's, between q1-q2 and q0-split.
      Every divisor in there is nonzero (`EdgeX`'s precondition). */
  function SortedSolidWrites(q0: Vec2, q1: Vec2, q2: Vec2, c: ColorU8): (r: seq<Write>)
    requires q0.y <= q1.y <= q2.y
  {
    if q0.y == q2.y then []
    else if q0.y == q1.y then
      RowsWrites(q0, q2, q1, q2, Trunc(q0.y), Trunc(q2.y), c)
    else if q1.y == q2.y then
      RowsWrites(q0, q1, q0, q2, Trunc(q0.y), Trunc(q2.y), c)
    else
      RowsWrites(q0, q1, q0, SplitVertex(q0, q1, q2), Trunc(q0.y), Trunc(q1.y), c) +
      RowsWrites(q1, q2, q0, SplitVertex(q0, q1, q2), Trunc(q1.y) + 1, Trunc(q2.y), c)
  }

  /** Every write of the solid fill is in colour c, on a row between the
      truncated top and bottom of the triangle. */
  lemma SolidWritesRows(p0: Vec2, p1: Vec2, p2: Vec2, c: ColorU8)
    ensures var q, r := SortByY(p0, p1, p2), SolidWrites(p0, p1, p2, c);
            forall k :: 0 <= k < |r| ==> r[k].c == c && Trunc(q.0.y) <= r[k].y <= Trunc(q.2.y)
  {
    var q := SortByY(p0, p1, p2);
    TruncMonotone(q.0.y, q.1.y);
    TruncMonotone(q.1.y, q.2.y);
  }

  // --------------------------------------------------------- interpolated fill

  /** A triangle with a linear colour at each vertex. */
  datatype Shaded = Shaded(p0: Vec2, p1: Vec2, p2: Vec2, c0: ColorF, c1: ColorF, c2: ColorF)

  /** Twice the signed area: (p1 - p0) x (p2 - p0). */
  function Area(t: Shaded): real {
    (t.p1.x - t.p0.x) * (t.p2.y - t.p0.y) - (t.p2.x - t.p0.x) * (t.p1.y - t.p0.y)
  }

  datatype Weights = Weights(b0: real, b1: real, b2: real)

  /** The weights of pixel (x, y) as the source computes them; b0 is 1 at p2,
      b1 is 1 at p1 and b2 is 1 at p0. */
  function WeightsAt(t: Shaded, x: int, y: int): Weights
    requires Area(t) != 0.0
  {
    var inv := 1.0 / Area(t);
    var b0 := ((t.p1.x - t.p0.x) * (y as real - t.p0.y) - (x as real - t.p0.x) * (t.p1.y - t.p0.y)) * inv;
    var b1 := ((x as real - t.p0.x) * (t.p2.y - t.p0.y) - (t.p2.x - t.p0.x) * (y as real - t.p0.y)) * inv;
    Weights(b0, b1, 1.0 - b0 - b1)
  }

  predicate Covered(wt: Weights) {
    wt.b0 >= 0.0 && wt.b1 >= 0.0 && wt.b2 >= 0.0
  }

  /** The colour mix of the source: c0 weighted by b0, c1 by b1, c2 by b2. */
  function Blend(t: Shaded, wt: Weights): ColorF {
    ColorF(t.c0.r * wt.b0 + t.c1.r * wt.b1 + t.c2.r * wt.b2,
           t.c0.g * wt.b0 + t.c1.g * wt.b1 + t.c2.g * wt.b2,
           t.c0.b * wt.b0 + t.c1.b * wt.b1 + t.c2.b * wt.b2)
  }

  /** Inclusive pixel ranges of the loops. */
  datatype Box = Box(xLo: int, xHi: int, yLo: int, yHi: int)

  predicate InBox(b: Box, x: int, y: int) {
    b.xLo <= x <= b.xHi && b.yLo <= y <= b.yHi
  }

  /** The bounding box of the vertices, its minimum clamped to 0 and its maximum
      to the last column and row, each truncated. It lies on the surface. */
  function ClampedBox(t: Shaded, w: nat, h: nat): (b: Box)
    requires w >= 1 && h >= 1
    ensures 0 <= b.xLo && b.xHi < w && 0 <= b.yLo && b.yHi < h
  {
    var minX := Min3(t.p0.x, t.p1.x, t.p2.x);
    var minY := Min3(t.p0.y, t.p1.y, t.p2.y);
    var maxX := Max3(t.p0.x, t.p1.x, t.p2.x);
    var maxY := Max3(t.p0.y, t.p1.y, t.p2.y);
    var minX' := if minX < 0.0 then 0.0 else minX;
    var minY' := if minY < 0.0 then 0.0 else minY;
    var maxX' := if maxX >= w as real then (w - 1) as real else maxX;
    var maxY' := if maxY >= h as real then (h - 1) as real else maxY;
    Box(Trunc(minX'), Trunc(maxX'), Trunc(minY'), Trunc(maxY'))
  }

  /** The write for pixel (x, y), if it is covered. */
  function InterpPixel(t: Shaded, toSrgb: ColorF -> ColorU8, x: int, y: int): seq<Write>
    requires Area(t) != 0.0
  {
    var wt := WeightsAt(t, x, y);
    if Covered(wt) then [Write(x, y, toSrgb(Blend(t, wt)))] else []
  }

  /** Column x, rows b.yLo to y. */
  function InterpColumn(t: Shaded, toSrgb: ColorF -> ColorU8, b: Box, x: int, y: int): seq<Write>
    requires Area(t) != 0.0
    decreases y - b.yLo
  {
    if y < b.yLo then [] else InterpColumn(t, toSrgb, b, x, y - 1) + InterpPixel(t, toSrgb, x, y)
  }

  /** Columns b.xLo to x, each top to bottom. */
  function InterpColumns(t: Shaded, toSrgb: ColorF -> ColorU8, b: Box, x: int): seq<Write>
    requires Area(t) != 0.0
    decreases x - b.xLo
  {
    if x < b.xLo then [] else InterpColumns(t, toSrgb, b, x - 1) + InterpColumn(t, toSrgb, b, x, b.yHi)
  }

  lemma {:induction false} InterpColumnBounds(t: Shaded, toSrgb: ColorF -> ColorU8, b: Box, x: int, y: int, k: int)
    requires Area(t) != 0.0 && 0 <= k < |InterpColumn(t, toSrgb, b, x, y)|
    ensures var wr := InterpColumn(t, toSrgb, b, x, y)[k]; wr.x == x && b.yLo <= wr.y <= y
    decreases y - b.yLo
  {
    var prev := InterpColumn(t, toSrgb, b, x, y - 1);
    assert InterpColumn(t, toSrgb, b, x, y) == prev + InterpPixel(t, toSrgb, x, y);
    if k < |prev| {
      InterpColumnBounds(t, toSrgb, b, x, y - 1, k);
    }
  }

  lemma {:induction false} InterpColumnsBounds(t: Shaded, toSrgb: ColorF -> ColorU8, b: Box, x: int, k: int)
    requires Area(t) != 0.0 && 0 <= k < |InterpColumns(t, toSrgb, b, x)|
    ensures var wr := InterpColumns(t, toSrgb, b, x)[k]; b.xLo <= wr.x <= x && b.yLo <= wr.y <= b.yHi
    decreases x - b.xLo
  {
    var prev := InterpColumns(t, toSrgb, b, x - 1);
    assert InterpColumns(t, toSrgb, b, x) == prev + InterpColumn(t, toSrgb, b, x, b.yHi);
    if k < |prev| {
      InterpColumnsBounds(t, toSrgb, b, x - 1, k);
    } else {
      InterpColumnBounds(t, toSrgb, b, x, b.yHi, k - |prev|);
    }
  }

  /** The candidate writes of `draw_triangle_interp`: nothing for a triangle of
      zero area; otherwise the covered pixels of the clamped box, column by
      column. */
  function InterpWrites(t: Shaded, toSrgb: ColorF -> ColorU8, w: nat, h: nat): (r: seq<Write>)
    requires w >= 1 && h >= 1
    ensures Area(t) == 0.0 ==> r == []
  {
    if Area(t) == 0.0 then []
    else
      var b := ClampedBox(t, w, h);
      InterpColumns(t, toSrgb, b, b.xHi)
  }

  /** Every write of the interpolated fill lies in the clamped box, and so on
      the surface. */
  lemma InterpBounds(t: Shaded, toSrgb: ColorF -> ColorU8, w: nat, h: nat)
    requires w >= 1 && h >= 1
    ensures var r := InterpWrites(t, toSrgb, w, h);
            forall k :: 0 <= k < |r| ==> InBox(ClampedBox(t, w, h), r[k].x, r[k].y) && InSurface(w, h, r[k].x, r[k].y)
  {
    var r := InterpWrites(t, toSrgb, w, h);
    var b := ClampedBox(t, w, h);
    forall k | 0 <= k < |r|
      ensures InBox(b, r[k].x, r[k].y)
    {
      InterpColumnsBounds(t, toSrgb, b, b.xHi, k);
    }
  }

  /** The surface after pixel (x, y) is shaded: the blend of the vertex colours
      when the pixel is covered, unchanged otherwise. */
  function ShadeOnto(buf: seq<byte>, w: nat, h: nat, t: Shaded, toSrgb: ColorF -> ColorU8, x: int, y: int): (r: seq<byte>)
    requires |buf| == 4 * (w * h) && Area(t) != 0.0 && InSurface(w, h, x, y)
    ensures |r| == |buf|
  {
    var wt := WeightsAt(t, x, y);
    if Covered(wt) then SetPixelBytes(buf, w, h, x, y, toSrgb(Blend(t, wt))) else buf
  }

  /** The surface after column x of box b is shaded from row b.yLo down to row y. */
  function ColumnSoFar(buf: seq<byte>, w: nat, h: nat, t: Shaded, toSrgb: ColorF -> ColorU8, b: Box, x: int, y: int): (r: seq<byte>)
    requires |buf| == 4 * (w * h) && Area(t) != 0.0 && 0 <= x < w && 0 <= b.yLo && (y < b.yLo || y < h)
    ensures |r| == |buf|
    decreases y - b.yLo
  {
    if y < b.yLo then buf else ShadeOnto(ColumnSoFar(buf, w, h, t, toSrgb, b, x, y - 1), w, h, t, toSrgb, x, y)
  }

  /** The surface after columns b.xLo to x of box b are shaded. */
  function ColumnsSoFar(buf: seq<byte>, w: nat, h: nat, t: Shaded, toSrgb: ColorF -> ColorU8, b: Box, x: int): (r: seq<byte>)
    requires |buf| == 4 * (w * h) && Area(t) != 0.0 && 0 <= b.xLo && (x < b.xLo || x < w) && 0 <= b.yLo && b.yHi < h
    ensures |r| == |buf|
    decreases x - b.xLo
  {
    if x < b.xLo then buf else ColumnSoFar(ColumnsSoFar(buf, w, h, t, toSrgb, b, x - 1), w, h, t, toSrgb, b, x, b.yHi)
  }

  /** Painting the write of one pixel is shading it. */
  lemma ShadeOntoPaint(buf: seq<byte>, w: nat, h: nat, t: Shaded, toSrgb: ColorF -> ColorU8, x: int, y: int)
    requires |buf| == 4 * (w * h) && Area(t) != 0.0 && InSurface(w, h, x, y)
    ensures Paint(buf, w, h, InterpPixel(t, toSrgb, x, y)) == ShadeOnto(buf, w, h, t, toSrgb, x, y)
  {
    var wr := Write(x, y, toSrgb(Blend(t, WeightsAt(t, x, y))));
    PaintSnoc(buf, w, h, [], wr);
    assert [] + [wr] == [wr];
  }

  /** Shading column x down to row y paints the column's writes so far. */
  lemma {:induction false} ColumnSoFarPaint(buf: seq<byte>, w: nat, h: nat, t: Shaded, toSrgb: ColorF -> ColorU8, b: Box, x: int, y: int)
    requires |buf| == 4 * (w * h) && Area(t) != 0.0 && 0 <= x < w && 0 <= b.yLo && (y < b.yLo || y < h)
    ensures ColumnSoFar(buf, w, h, t, toSrgb, b, x, y) == Paint(buf, w, h, InterpColumn(t, toSrgb, b, x, y))
    decreases y - b.yLo
  {
    if y >= b.yLo {
      ColumnSoFarPaint(buf, w, h, t, toSrgb, b, x, y - 1);
      PaintAppend(buf, w, h, InterpColumn(t, toSrgb, b, x, y - 1), InterpPixel(t, toSrgb, x, y));
      ShadeOntoPaint(ColumnSoFar(buf, w, h, t, toSrgb, b, x, y - 1), w, h, t, toSrgb, x, y);
    }
  }

  /** Shading columns b.xLo to x paints the writes of those columns. */
  lemma {:induction false} ColumnsSoFarPaint(buf: seq<byte>, w: nat, h: nat, t: Shaded, toSrgb: ColorF -> ColorU8, b: Box, x: int)
    requires |buf| == 4 * (w * h) && Area(t) != 0.0 && 0 <= b.xLo && (x < b.xLo || x < w) && 0 <= b.yLo && b.yHi < h
    ensures ColumnsSoFar(buf, w, h, t, toSrgb, b, x) == Paint(buf, w, h, InterpColumns(t, toSrgb, b, x))
    decreases x - b.xLo
  {
    if x >= b.xLo {
      var prev := ColumnsSoFar(buf, w, h, t, toSrgb, b, x - 1);
      ColumnsSoFarPaint(buf, w, h, t, toSrgb, b, x - 1);
      PaintAppend(buf, w, h, InterpColumns(t, toSrgb, b, x - 1), InterpColumn(t, toSrgb, b, x, b.yHi));
      ColumnSoFarPaint(prev, w, h, t, toSrgb, b, x, b.yHi);
    }
  }

  /** Each write is a covered pixel in the colour its weights blend. */
  predicate InterpWrite(t: Shaded, toSrgb: ColorF -> ColorU8, wr: Write)
    requires Area(t) != 0.0
  {
    Covered(WeightsAt(t, wr.x, wr.y)) && wr.c == toSrgb(Blend(t, WeightsAt(t, wr.x, wr.y)))
  }

  lemma {:induction false} InterpColumnSound(t: Shaded, toSrgb: ColorF -> ColorU8, b: Box, x: int, y: int, k: int)
    requires Area(t) != 0.0 && 0 <= k < |InterpColumn(t, toSrgb, b, x, y)|
    ensures InterpWrite(t, toSrgb, InterpColumn(t, toSrgb, b, x, y)[k])
    decreases y - b.yLo
  {
    var prev := InterpColumn(t, toSrgb, b, x, y - 1);
    var px := InterpPixel(t, toSrgb, x, y);
    assert InterpColumn(t, toSrgb, b, x, y) == prev + px;
    if k < |prev| {
      InterpColumnSound(t, toSrgb, b, x, y - 1, k);
    }
  }

  lemma {:induction false} InterpColumnsSound(t: Shaded, toSrgb: ColorF -> ColorU8, b: Box, x: int, k: int)
    requires Area(t) != 0.0 && 0 <= k < |InterpColumns(t, toSrgb, b, x)|
    ensures InterpWrite(t, toSrgb, InterpColumns(t, toSrgb, b, x)[k])
    decreases x - b.xLo
  {
    var prev := InterpColumns(t, toSrgb, b, x - 1);
    var col := InterpColumn(t, toSrgb, b, x, b.yHi);
    assert InterpColumns(t, toSrgb, b, x) == prev + col;
    if k < |prev| {
      InterpColumnsSound(t, toSrgb, b, x - 1, k);
    } else {
      InterpColumnSound(t, toSrgb, b, x, b.yHi, k - |prev|);
    }
  }

  /** Every write of the interpolated fill is at a pixel whose three weights are
      non-negative, in the colour those weights blend. */
  lemma InterpSound(t: Shaded, toSrgb: ColorF -> ColorU8, w: nat, h: nat)
    requires w >= 1 && h >= 1
    ensures var r := InterpWrites(t, toSrgb, w, h);
            forall k :: 0 <= k < |r| ==> Area(t) != 0.0 && InterpWrite(t, toSrgb, r[k])
  {
    var r := InterpWrites(t, toSrgb, w, h);
    forall k | 0 <= k < |r|
      ensures Area(t) != 0.0 && InterpWrite(t, toSrgb, r[k])
    {
      var b := ClampedBox(t, w, h);
      InterpColumnsSound(t, toSrgb, b, b.xHi, k);
    }
  }

  // ---------------------------------------------------- interpolated fill: lemmas

  lemma MulNonneg(a: real, b: real)
    requires a >= 0.0 && b >= 0.0
    ensures a * b >= 0.0
  {
  }

  /** A convex combination lies between the smallest and the largest value. */
  lemma ConvexBetween(v: real, a0: real, a1: real, a2: real, w0: real, w1: real, w2: real)
    requires w0 >= 0.0 && w1 >= 0.0 && w2 >= 0.0 && w0 + w1 + w2 == 1.0
    requires v == w0 * a0 + w1 * a1 + w2 * a2
    ensures Min3(a0, a1, a2) <= v <= Max3(a0, a1, a2)
  {
    var m, n := Min3(a0, a1, a2), Max3(a0, a1, a2);
    MulNonneg(w0, a0 - m);
    MulNonneg(w1, a1 - m);
    MulNonneg(w2, a2 - m);
    MulNonneg(w0, n - a0);
    MulNonneg(w1, n - a1);
    MulNonneg(w2, n - a2);
    assert w0 * m + w1 * m + w2 * m == m;
    assert w0 * n + w1 * n + w2 * n == n;
  }

  /** The weights are barycentric coordinates: they rebuild the pixel from the
      vertices, with b2 on p0, b1 on p1 and b0 on p2. */
  lemma WeightsReconstruct(t: Shaded, x: int, y: int)
    requires Area(t) != 0.0
    ensures var wt := WeightsAt(t, x, y);
            wt.b0 + wt.b1 + wt.b2 == 1.0 &&
            x as real == wt.b2 * t.p0.x + wt.b1 * t.p1.x + wt.b0 * t.p2.x &&
            y as real == wt.b2 * t.p0.y + wt.b1 * t.p1.y + wt.b0 * t.p2.y
  {
    var a := Area(t);
    var inv := 1.0 / a;
    var ux, uy := t.p1.x - t.p0.x, t.p1.y - t.p0.y;
    var vx, vy := t.p2.x - t.p0.x, t.p2.y - t.p0.y;
    var dx, dy := x as real - t.p0.x, y as real - t.p0.y;
    var wt := WeightsAt(t, x, y);
    assert wt.b0 == (ux * dy - dx * uy) * inv;
    assert wt.b1 == (dx * vy - vx * dy) * inv;
    assert a * inv == 1.0;
    calc {
      wt.b1 * ux + wt.b0 * vx;
      ((dx * vy - vx * dy) * ux + (ux * dy - dx * uy) * vx) * inv;
      dx * (ux * vy - vx * uy) * inv;
      dx * (a * inv);
      dx;
    }
    calc {
      wt.b1 * uy + wt.b0 * vy;
      ((dx * vy - vx * dy) * uy + (ux * dy - dx * uy) * vy) * inv;
      dy * (ux * vy - vx * uy) * inv;
      dy * (a * inv);
      dy;
    }
  }

  /** A covered pixel lies within the bounding box of the vertices. */
  lemma CoveredInHull(t: Shaded, x: int, y: int)
    requires Area(t) != 0.0 && Covered(WeightsAt(t, x, y))
    ensures Min3(t.p0.x, t.p1.x, t.p2.x) <= x as real <= Max3(t.p0.x, t.p1.x, t.p2.x)
    ensures Min3(t.p0.y, t.p1.y, t.p2.y) <= y as real <= Max3(t.p0.y, t.p1.y, t.p2.y)
  {
    var wt := WeightsAt(t, x, y);
    WeightsReconstruct(t, x, y);
    ConvexBetween(x as real, t.p0.x, t.p1.x, t.p2.x, wt.b2, wt.b1, wt.b0);
    ConvexBetween(y as real, t.p0.y, t.p1.y, t.p2.y, wt.b2, wt.b1, wt.b0);
  }

  /** At a vertex with integer coordinates the weights single that vertex out:
      (0, 0, 1) at p0, (0, 1, 0) at p1 and (1, 0, 0) at p2. */
  lemma WeightsAtVertices(t: Shaded)
    requires Area(t) != 0.0
    ensures t.p0 == Vec2(t.p0.x.Floor as real, t.p0.y.Floor as real) ==>
              WeightsAt(t, t.p0.x.Floor, t.p0.y.Floor) == Weights(0.0, 0.0, 1.0)
    ensures t.p1 == Vec2(t.p1.x.Floor as real, t.p1.y.Floor as real) ==>
              WeightsAt(t, t.p1.x.Floor, t.p1.y.Floor) == Weights(0.0, 1.0, 0.0)
    ensures t.p2 == Vec2(t.p2.x.Floor as real, t.p2.y.Floor as real) ==>
              WeightsAt(t, t.p2.x.Floor, t.p2.y.Floor) == Weights(1.0, 0.0, 0.0)
  {
    if t.p0 == Vec2(t.p0.x.Floor as real, t.p0.y.Floor as real) {
      WeightsAtP0(t, t.p0.x.Floor, t.p0.y.Floor);
    }
    if t.p1 == Vec2(t.p1.x.Floor as real, t.p1.y.Floor as real) {
      WeightsAtP1(t, t.p1.x.Floor, t.p1.y.Floor);
    }
    if t.p2 == Vec2(t.p2.x.Floor as real, t.p2.y.Floor as real) {
      WeightsAtP2(t, t.p2.x.Floor, t.p2.y.Floor);
    }
  }

  lemma WeightsAtP0(t: Shaded, x: int, y: int)
    requires Area(t) != 0.0 && x as real == t.p0.x && y as real == t.p0.y
    ensures WeightsAt(t, x, y) == Weights(0.0, 0.0, 1.0)
  {
    var inv := 1.0 / Area(t);
    assert (t.p1.x - t.p0.x) * (y as real - t.p0.y) == 0.0;
    assert (x as real - t.p0.x) * (t.p1.y - t.p0.y) == 0.0;
    assert (x as real - t.p0.x) * (t.p2.y - t.p0.y) == 0.0;
    assert (t.p2.x - t.p0.x) * (y as real - t.p0.y) == 0.0;
  }

  lemma WeightsAtP1(t: Shaded, x: int, y: int)
    requires Area(t) != 0.0 && x as real == t.p1.x && y as real == t.p1.y
    ensures WeightsAt(t, x, y) == Weights(0.0, 1.0, 0.0)
  {
    var inv := 1.0 / Area(t);
    assert Area(t) * inv == 1.0;
    assert (t.p1.x - t.p0.x) * (y as real - t.p0.y) - (x as real - t.p0.x) * (t.p1.y - t.p0.y) == 0.0;
    assert (x as real - t.p0.x) * (t.p2.y - t.p0.y) - (t.p2.x - t.p0.x) * (y as real - t.p0.y) == Area(t);
  }

  lemma WeightsAtP2(t: Shaded, x: int, y: int)
    requires Area(t) != 0.0 && x as real == t.p2.x && y as real == t.p2.y
    ensures WeightsAt(t, x, y) == Weights(1.0, 0.0, 0.0)
  {
    var inv := 1.0 / Area(t);
    assert Area(t) * inv == 1.0;
    assert (t.p1.x - t.p0.x) * (y as real - t.p0.y) - (x as real - t.p0.x) * (t.p1.y - t.p0.y) == Area(t);
    assert (x as real - t.p0.x) * (t.p2.y - t.p0.y) - (t.p2.x - t.p0.x) * (y as real - t.p0.y) == 0.0;
  }


  /** A covered pixel of the surface always falls inside the clamped box: the
      clamping and truncation lose none of them. */
  lemma CoveredInBox(t: Shaded, w: nat, h: nat, x: int, y: int)
    requires w >= 1 && h >= 1 && InSurface(w, h, x, y)
    requires Area(t) != 0.0 && Covered(WeightsAt(t, x, y))
    ensures InBox(ClampedBox(t, w, h), x, y)
  {
    CoveredInHull(t, x, y);
    var minX := Min3(t.p0.x, t.p1.x, t.p2.x);
    var minY := Min3(t.p0.y, t.p1.y, t.p2.y);
    TruncMonotone(if minX < 0.0 then 0.0 else minX, x as real);
    TruncMonotone(if minY < 0.0 then 0.0 else minY, y as real);
    TruncMonotone(x as real, Max3(t.p0.x, t.p1.x, t.p2.x));
    TruncMonotone(y as real, Max3(t.p0.y, t.p1.y, t.p2.y));
    TruncOfInt(x);
    TruncOfInt(y);
    TruncOfInt(w - 1);
    TruncOfInt(h - 1);
  }

  lemma {:induction false} InterpColumnTargets(t: Shaded, toSrgb: ColorF -> ColorU8, b: Box, x: int, y: int, y': int)
    requires Area(t) != 0.0
    requires b.yLo <= y' <= y && Covered(WeightsAt(t, x, y'))
    ensures Targets(InterpColumn(t, toSrgb, b, x, y), x, y')
    decreases y - b.yLo
  {
    var prev := InterpColumn(t, toSrgb, b, x, y - 1);
    var r := InterpColumn(t, toSrgb, b, x, y);
    assert r == prev + InterpPixel(t, toSrgb, x, y);
    if y' == y {
      assert r[|prev|].x == x && r[|prev|].y == y';
    } else {
      InterpColumnTargets(t, toSrgb, b, x, y - 1, y');
      var k :| 0 <= k < |prev| && prev[k].x == x && prev[k].y == y';
      assert r[k] == prev[k];
    }
  }

  lemma {:induction false} InterpColumnsTargets(t: Shaded, toSrgb: ColorF -> ColorU8, b: Box, x: int, x': int, y': int)
    requires Area(t) != 0.0
    requires b.xLo <= x' <= x && b.yLo <= y' <= b.yHi && Covered(WeightsAt(t, x', y'))
    ensures Targets(InterpColumns(t, toSrgb, b, x), x', y')
    decreases x - b.xLo
  {
    var prev := InterpColumns(t, toSrgb, b, x - 1);
    var col := InterpColumn(t, toSrgb, b, x, b.yHi);
    var r := InterpColumns(t, toSrgb, b, x);
    assert r == prev + col;
    if x' == x {
      InterpColumnTargets(t, toSrgb, b, x, b.yHi, y');
      var k :| 0 <= k < |col| && col[k].x == x' && col[k].y == y';
      assert r[|prev| + k] == col[k];
    } else {
      InterpColumnsTargets(t, toSrgb, b, x - 1, x', y');
      var k :| 0 <= k < |prev| && prev[k].x == x' && prev[k].y == y';
      assert r[k] == prev[k];
    }
  }

  /** On the surface, the interpolated fill aims at exactly the pixels whose
      three weights are all non-negative, provided the area is not zero. */
  lemma InterpTargets(t: Shaded, toSrgb: ColorF -> ColorU8, w: nat, h: nat, x: int, y: int)
    requires w >= 1 && h >= 1 && InSurface(w, h, x, y)
    ensures Targets(InterpWrites(t, toSrgb, w, h), x, y) <==> Area(t) != 0.0 && Covered(WeightsAt(t, x, y))
  {
    var r := InterpWrites(t, toSrgb, w, h);
    if Targets(r, x, y) {
      var k :| 0 <= k < |r| && r[k].x == x && r[k].y == y;
      InterpSound(t, toSrgb, w, h);
      assert InterpWrite(t, toSrgb, r[k]);
    }
    if Area(t) != 0.0 && Covered(WeightsAt(t, x, y)) {
      var b := ClampedBox(t, w, h);
      CoveredInBox(t, w, h, x, y);
      InterpColumnsTargets(t, toSrgb, b, b.xHi, x, y);
    }
  }

  /** What the interpolated fill leaves in each pixel of the surface: the blend
      of the vertex colours by its weights where they are all non-negative, the
      old colour elsewhere. */
  lemma InterpPaint(buf: seq<byte>, t: Shaded, toSrgb: ColorF -> ColorU8, w: nat, h: nat, x: int, y: int)
    requires |buf| == 4 * (w * h) && w >= 1 && h >= 1 && InSurface(w, h, x, y)
    ensures PixelAt(Paint(buf, w, h, InterpWrites(t, toSrgb, w, h)), w, h, x, y) ==
            if Area(t) != 0.0 && Covered(WeightsAt(t, x, y)) then toSrgb(Blend(t, WeightsAt(t, x, y)))
            else PixelAt(buf, w, h, x, y)
  {
    var ws := InterpWrites(t, toSrgb, w, h);
    PaintPixel(buf, w, h, ws, x, y);
    InterpTargets(t, toSrgb, w, h, x, y);
    InterpSound(t, toSrgb, w, h);
    if Area(t) != 0.0 {
      LastWriteUniform(ws, x, y, toSrgb(Blend(t, WeightsAt(t, x, y))));
    }
  }

  /** Weights that sum to 1 blend three equal colours into that colour. */
  lemma BlendUniform(t: Shaded, wt: Weights)
    requires t.c0 == t.c1 == t.c2 && wt.b0 + wt.b1 + wt.b2 == 1.0
    ensures Blend(t, wt) == t.c0
  {
    var c := t.c0;
    assert c.r * wt.b0 + c.r * wt.b1 + c.r * wt.b2 == c.r * (wt.b0 + wt.b1 + wt.b2);
    assert c.g * wt.b0 + c.g * wt.b1 + c.g * wt.b2 == c.g * (wt.b0 + wt.b1 + wt.b2);
    assert c.b * wt.b0 + c.b * wt.b1 + c.b * wt.b2 == c.b * (wt.b0 + wt.b1 + wt.b2);
  }

  /** With one colour at all three vertices every pixel gets that colour. */
  lemma InterpUniform(t: Shaded, toSrgb: ColorF -> ColorU8, w: nat, h: nat)
    requires w >= 1 && h >= 1 && t.c0 == t.c1 == t.c2
    ensures var r := InterpWrites(t, toSrgb, w, h);
            forall k :: 0 <= k < |r| ==> r[k].c == toSrgb(t.c0)
  {
    var r := InterpWrites(t, toSrgb, w, h);
    InterpSound(t, toSrgb, w, h);
    forall k | 0 <= k < |r|
      ensures r[k].c == toSrgb(t.c0)
    {
      BlendUniform(t, WeightsAt(t, r[k].x, r[k].y));
    }
  }

  /** Every pixel the interpolated fill writes lies within the bounding box of
      the vertices. */
  lemma InterpInHull(t: Shaded, toSrgb: ColorF -> ColorU8, w: nat, h: nat)
    requires w >= 1 && h >= 1
    ensures var r := InterpWrites(t, toSrgb, w, h);
            forall k :: 0 <= k < |r| ==>
              Min3(t.p0.x, t.p1.x, t.p2.x) <= r[k].x as real <= Max3(t.p0.x, t.p1.x, t.p2.x) &&
              Min3(t.p0.y, t.p1.y, t.p2.y) <= r[k].y as real <= Max3(t.p0.y, t.p1.y, t.p2.y)
  {
    var r := InterpWrites(t, toSrgb, w, h);
    InterpSound(t, toSrgb, w, h);
    forall k | 0 <= k < |r|
      ensures Min3(t.p0.x, t.p1.x, t.p2.x) <= r[k].x as real <= Max3(t.p0.x, t.p1.x, t.p2.x)
      ensures Min3(t.p0.y, t.p1.y, t.p2.y) <= r[k].y as real <= Max3(t.p0.y, t.p1.y, t.p2.y)
    {
      CoveredInHull(t, r[k].x, r[k].y);
    }
  }

  /** A triangle wholly left of, above, right of or below the surface writes
      nothing. */
  lemma InterpOffSurface(t: Shaded, toSrgb: ColorF -> ColorU8, w: nat, h: nat)
    requires w >= 1 && h >= 1
    requires Max3(t.p0.x, t.p1.x, t.p2.x) < 0.0 || Max3(t.p0.y, t.p1.y, t.p2.y) < 0.0 ||
             Min3(t.p0.x, t.p1.x, t.p2.x) >= w as real || Min3(t.p0.y, t.p1.y, t.p2.y) >= h as real
    ensures InterpWrites(t, toSrgb, w, h) == []
  {
    var r := InterpWrites(t, toSrgb, w, h);
    if r != [] {
      InterpBounds(t, toSrgb, w, h);
      InterpSound(t, toSrgb, w, h);
      CoveredInHull(t, r[0].x, r[0].y);
    }
  }
}
