/** The integer-only line routine of the line benchmark
    (lines-benchmark/main.cpp, `draw_line_dda_integer_`). It truncates the
    endpoints first and takes its step directions from the truncated integers,
    where `draw_line_solid` compares the original coordinates; the walk is
    otherwise the same, and so are the pixels it paints. */
module LinesBenchmark {
  import opened Colors
  import opened Geometry
  import opened Surfaces
  import opened Lines

  /** `draw_line_dda_integer_`: paints exactly the candidate writes of the
      integer walk between the truncated endpoints, the same writes
      `Draw.DrawLineSolid` paints for the same endpoints. */
  method DrawLineDdaInteger(s: Surface, p: Vec2, q: Vec2, c: ColorU8)
    requires s.Valid()
    modifies s.data
    ensures s.data[..] == Paint(old(s.data[..]), s.width, s.height,
                                LineWrites(Trunc(p.x), Trunc(p.y), Trunc(q.x), Trunc(q.y), c))
  {
    var x1, y1, x2, y2 := Trunc(p.x), Trunc(p.y), Trunc(q.x), Trunc(q.y);
    var dx: int := Abs(x2 - x1);
    var dy: int := Abs(y2 - y1);
    var directionX := if x1 < x2 then 1 else -1;
    var directionY := if y1 < y2 then 1 else -1;
    var error: int := dx - dy;
    var width: int := s.width;
    var height: int := s.height;
    var x, y := x1, y1;

    ghost var n: nat := 0;
    while true
      invariant n <= Max(dx, dy)
      invariant (x, y, error) == Walk(x1, y1, x2, y2, directionX, directionY, n)
      invariant s.data[..] == LineSoFar(old(s.data[..]), width, height, x1, y1, x2, y2, directionX, directionY, c, n)
      decreases Max(dx, dy) - n
    {
      LineSoFarNext(old(s.data[..]), width, height, x1, y1, x2, y2, directionX, directionY, c, n);
      if x >= 0 && x < width && y >= 0 && y < height {
        s.SetPixelSrgb(x, y, c);
      }
      assert s.data[..] == LineSoFar(old(s.data[..]), width, height, x1, y1, x2, y2, directionX, directionY, c, n + 1);
      WalkDone(x1, y1, x2, y2, directionX, directionY, n);
      if x == x2 && y == y2 {
        LineSoFarDone(old(s.data[..]), width, height, x1, y1, x2, y2, directionX, directionY, c);
        break;
      }
      x, y, error := AdvanceStep(x1, y1, x2, y2, n, dx, dy, directionX, directionY, x, y, error);
      n := n + 1;
    }
  }
}
