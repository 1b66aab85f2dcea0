/** The integer line walk shared by `draw_line_solid` (draw2d/draw.cpp) and the
    integer DDA of the line benchmark.

    With dx = |x1 - x0| and dy = |y1 - y0|, the walk starts at (x0, y0) with error
    term dx - dy and, until it reaches (x1, y1), doubles the error; it steps along x
    (error -= dy) when the doubled error exceeds -dy and along y (error += dx) when
    it is below dx. Here the walk is described by the number of steps taken so far
    along each axis, i and j; the error term then depends on i and j alone. */
module Lines {
  import opened Colors
  import opened Geometry
  import opened Surfaces

  /** The loop's error term after i steps along x and j steps along y: dx - dy,
      less dy for every x step, plus dx for every y step. */
  function Err(dx: int, dy: int, i: int, j: int): int
    decreases if i > 0 then i else 0, if j > 0 then j else 0
  {
    if i > 0 then Err(dx, dy, i - 1, j) - dy
    else if j > 0 then Err(dx, dy, i, j - 1) + dx
    else dx - dy
  }

  /** The error term in closed form. */
  lemma {:induction false} ErrClosed(dx: int, dy: int, i: nat, j: nat)
    ensures Err(dx, dy, i, j) == (j + 1) * dx - (i + 1) * dy
    decreases i, j
  {
    if i > 0 {
      ErrClosed(dx, dy, i - 1, j);
      assert (i + 1) * dy == i * dy + dy;
    } else if j > 0 {
      ErrClosed(dx, dy, i, j - 1);
      assert (j + 1) * dx == j * dx + dx;
    }
  }

  predicate StepX(dx: int, dy: int, i: int, j: int) {
    2 * Err(dx, dy, i, j) > -dy
  }

  predicate StepY(dx: int, dy: int, i: int, j: int) {
    2 * Err(dx, dy, i, j) < dx
  }

  /** The states the walk passes through: within the endpoint box and, before the
      end, ready to step along the dominant axis (both axes when dx == dy). */
  predicate Reachable(dx: int, dy: int, i: int, j: int) {
    0 <= i <= dx && 0 <= j <= dy &&
    ((i != dx || j != dy) ==> (dx >= dy ==> StepX(dx, dy, i, j)) && (dy >= dx ==> StepY(dx, dy, i, j)))
  }

  /** The step counts after one more iteration. */
  function Next(dx: int, dy: int, i: int, j: int): (int, int) {
    (if StepX(dx, dy, i, j) then i + 1 else i, if StepY(dx, dy, i, j) then j + 1 else j)
  }

  lemma ErrShift(dx: int, dy: int, i: nat, j: nat)
    ensures Err(dx, dy, i + 1, j) == Err(dx, dy, i, j) - dy
    ensures Err(dx, dy, i, j + 1) == Err(dx, dy, i, j) + dx
    ensures Err(dx, dy, i + 1, j + 1) == Err(dx, dy, i, j) + dx - dy
  {
    ErrClosed(dx, dy, i, j);
    ErrClosed(dx, dy, i, j + 1);
    ErrClosed(dx, dy, i + 1, j + 1);
    assert (j + 2) * dx == (j + 1) * dx + dx;
  }

  lemma StartReachable(dx: nat, dy: nat)
    ensures Reachable(dx, dy, 0, 0)
  {
  }

  /** Once x is done but y is not, the error is at most -dy: no more x steps. */
  lemma ErrAtXEnd(dx: nat, dy: nat, j: nat)
    requires j < dy
    ensures Err(dx, dy, dx, j) + dy <= 0
  {
    MulMonotone(j + 1, dy, dx);
    ErrClosed(dx, dy, dx, j);
    assert (dx + 1) * dy == dy * dx + dy;
  }

  /** Once y is done but x is not, the error is at least dx: no more y steps. */
  lemma ErrAtYEnd(dx: nat, dy: nat, i: nat)
    requires i < dx
    ensures Err(dx, dy, i, dy) >= dx
  {
    MulMonotone(i + 1, dx, dy);
    ErrClosed(dx, dy, i, dy);
    assert (dy + 1) * dx == dx * dy + dx;
  }

  /** One iteration keeps the walk reachable, moves each axis by at most one, moves
      at least one axis, and always moves the dominant axis. */
  lemma NextReachable(dx: int, dy: int, i: int, j: int)
    requires Reachable(dx, dy, i, j) && (i != dx || j != dy)
    ensures Reachable(dx, dy, Next(dx, dy, i, j).0, Next(dx, dy, i, j).1)
    ensures i <= Next(dx, dy, i, j).0 <= i + 1 && j <= Next(dx, dy, i, j).1 <= j + 1
    ensures Next(dx, dy, i, j) != (i, j)
    ensures dx >= dy ==> Next(dx, dy, i, j).0 == i + 1
    ensures dy >= dx ==> Next(dx, dy, i, j).1 == j + 1
  {
    ErrShift(dx, dy, i, j);
    if i == dx && j < dy {
      ErrAtXEnd(dx, dy, j);
    }
    if j == dy && i < dx {
      ErrAtYEnd(dx, dy, i);
    }
  }

  /** A reachable state whose dominant count is complete is the final state. */
  lemma ReachableEnd(dx: int, dy: int, i: int, j: int)
    requires Reachable(dx, dy, i, j)
    requires (dx >= dy && i == dx) || (dy >= dx && j == dy)
    ensures i == dx && j == dy
  {
    if dx >= dy && i == dx && j < dy {
      ErrAtXEnd(dx, dy, j);
    }
    if dy >= dx && j == dy && i < dx {
      ErrAtYEnd(dx, dy, i);
    }
  }

  function Max(a: int, b: int): int {
    if a >= b then a else b
  }

  /** The step counts (i, j) after k iterations of the walk. The walk runs for
      max(dx, dy) iterations; after k of them the dominant count is k. */
  function WalkState(dx: nat, dy: nat, k: nat): (r: (int, int))
    requires k <= Max(dx, dy)
    ensures Reachable(dx, dy, r.0, r.1)
    ensures dx >= dy ==> r.0 == k
    ensures dy >= dx ==> r.1 == k
  {
    if k == 0 then (0, 0)
    else
      var p := WalkState(dx, dy, k - 1);
      NextReachable(dx, dy, p.0, p.1);
      Next(dx, dy, p.0, p.1)
  }

  lemma WalkStateNext(dx: nat, dy: nat, k: nat)
    requires k < Max(dx, dy)
    ensures WalkState(dx, dy, k + 1) == Next(dx, dy, WalkState(dx, dy, k).0, WalkState(dx, dy, k).1)
  {
  }

  /** One iteration of the loop as the source writes it, on the error value
      itself: it moves from the state after n iterations to the state after n + 1. */
  lemma WalkStep(dx: nat, dy: nat, n: nat, err: int)
    requires n <= Max(dx, dy) && WalkState(dx, dy, n) != (dx, dy)
    requires err == Err(dx, dy, WalkState(dx, dy, n).0, WalkState(dx, dy, n).1)
    ensures n < Max(dx, dy)
    ensures var st, e2 := WalkState(dx, dy, n), 2 * err;
            var i1 := if e2 + dy > 0 then st.0 + 1 else st.0;
            var j1 := if e2 < dx then st.1 + 1 else st.1;
            WalkState(dx, dy, n + 1) == (i1, j1) && i1 <= dx && j1 <= dy &&
            err - (if e2 + dy > 0 then dy else 0) + (if e2 < dx then dx else 0) == Err(dx, dy, i1, j1)
  {
    WalkStateEnd(dx, dy, n);
    var st := WalkState(dx, dy, n);
    NextReachable(dx, dy, st.0, st.1);
    ErrShift(dx, dy, st.0, st.1);
    WalkStateNext(dx, dy, n);
  }

  /** The walk is at (dx, dy) after its last iteration and at no earlier one. */
  lemma WalkStateEnd(dx: nat, dy: nat, k: nat)
    requires k <= Max(dx, dy)
    ensures (WalkState(dx, dy, k) == (dx, dy)) == (k == Max(dx, dy))
  {
    var r := WalkState(dx, dy, k);
    if k == Max(dx, dy) {
      ReachableEnd(dx, dy, r.0, r.1);
    }
  }

  /** The coordinate after i steps from a0 towards a1 (backwards when a1 <= a0). */
  function AxisAt(a0: int, a1: int, i: int): int {
    if a0 < a1 then a0 + i else a0 - i
  }

  /** The coordinate reached after i steps from a0 towards a1 is a1 exactly when
      all |a1 - a0| steps have been taken. */
  lemma AxisEnd(a0: int, a1: int, i: int)
    requires 0 <= i <= Abs(a1 - a0)
    ensures (AxisAt(a0, a1, i) == a1) == (i == Abs(a1 - a0))
  {
  }

  /** The positions the walk from (x0, y0) to (x1, y1) visits, in order. */
  function LinePixels(x0: int, y0: int, x1: int, y1: int): (r: seq<(int, int)>)
    ensures |r| == Max(Abs(x1 - x0), Abs(y1 - y0)) + 1
  {
    var dx, dy := Abs(x1 - x0), Abs(y1 - y0);
    seq(Max(dx, dy) + 1, k requires 0 <= k <= Max(dx, dy) =>
      (AxisAt(x0, x1, WalkState(dx, dy, k).0), AxisAt(y0, y1, WalkState(dx, dy, k).1)))
  }

  /** Position k of the walk, from the step counts after k iterations. */
  lemma LinePixelAt(x0: int, y0: int, x1: int, y1: int, k: int)
    requires 0 <= k <= Max(Abs(x1 - x0), Abs(y1 - y0))
    ensures var st := WalkState(Abs(x1 - x0), Abs(y1 - y0), k);
            LinePixels(x0, y0, x1, y1)[k] == (AxisAt(x0, x1, st.0), AxisAt(y0, y1, st.1))
  {
  }

  /** Position k is the end point exactly when it is the last position. */
  lemma LinePixelEnd(x0: int, y0: int, x1: int, y1: int, k: int)
    requires 0 <= k <= Max(Abs(x1 - x0), Abs(y1 - y0))
    ensures (LinePixels(x0, y0, x1, y1)[k] == (x1, y1)) == (k == Max(Abs(x1 - x0), Abs(y1 - y0)))
  {
    var dx, dy := Abs(x1 - x0), Abs(y1 - y0);
    var st := WalkState(dx, dy, k);
    LinePixelAt(x0, y0, x1, y1, k);
    WalkStateEnd(dx, dy, k);
    AxisEnd(x0, x1, st.0);
    AxisEnd(y0, y1, st.1);
  }

  /** The walk starts at (x0, y0), ends at (x1, y1) and reaches (x1, y1) only at
      its end; coinciding endpoints give that one position. */
  lemma LineEnds(x0: int, y0: int, x1: int, y1: int)
    ensures var p := LinePixels(x0, y0, x1, y1);
            p[0] == (x0, y0) && p[|p| - 1] == (x1, y1) &&
            forall k :: 0 <= k < |p| - 1 ==> p[k] != (x1, y1)
    ensures x0 == x1 && y0 == y1 ==> LinePixels(x0, y0, x1, y1) == [(x0, y0)]
  {
    var p := LinePixels(x0, y0, x1, y1);
    LinePixelAt(x0, y0, x1, y1, 0);
    LinePixelEnd(x0, y0, x1, y1, |p| - 1);
    forall k | 0 <= k < |p| - 1
      ensures p[k] != (x1, y1)
    {
      LinePixelEnd(x0, y0, x1, y1, k);
    }
    if x0 == x1 && y0 == y1 {
      assert |p| == 1;
    }
  }

  /** Positions k and k + 1 are 8-neighbours and differ. */
  lemma ConnectedAt(x0: int, y0: int, x1: int, y1: int, k: int)
    requires 0 <= k < Max(Abs(x1 - x0), Abs(y1 - y0))
    ensures var p := LinePixels(x0, y0, x1, y1);
            Abs(p[k + 1].0 - p[k].0) <= 1 && Abs(p[k + 1].1 - p[k].1) <= 1 && p[k + 1] != p[k]
  {
    var dx, dy := Abs(x1 - x0), Abs(y1 - y0);
    var st := WalkState(dx, dy, k);
    WalkStateEnd(dx, dy, k);
    NextReachable(dx, dy, st.0, st.1);
    WalkStateNext(dx, dy, k);
    LinePixelAt(x0, y0, x1, y1, k);
    LinePixelAt(x0, y0, x1, y1, k + 1);
  }

  /** Consecutive positions are 8-neighbours: they differ by at most one in each
      coordinate and are never equal. */
  lemma LineConnected(x0: int, y0: int, x1: int, y1: int)
    ensures var p := LinePixels(x0, y0, x1, y1);
            forall k :: 0 <= k < |p| - 1 ==>
              Abs(p[k + 1].0 - p[k].0) <= 1 && Abs(p[k + 1].1 - p[k].1) <= 1 && p[k + 1] != p[k]
  {
    var p := LinePixels(x0, y0, x1, y1);
    forall k | 0 <= k < |p| - 1
      ensures Abs(p[k + 1].0 - p[k].0) <= 1 && Abs(p[k + 1].1 - p[k].1) <= 1 && p[k + 1] != p[k]
    {
      ConnectedAt(x0, y0, x1, y1, k);
    }
  }

  /** Along the dominant axis the k-th position is k steps from the start: a line
      at least as wide as tall has one position per column it spans, one at least
      as tall as wide one per row. No position is visited twice. */
  lemma LineThin(x0: int, y0: int, x1: int, y1: int)
    ensures var p := LinePixels(x0, y0, x1, y1);
            (Abs(x1 - x0) >= Abs(y1 - y0) ==> forall k :: 0 <= k < |p| ==> p[k].0 == AxisAt(x0, x1, k)) &&
            (Abs(y1 - y0) >= Abs(x1 - x0) ==> forall k :: 0 <= k < |p| ==> p[k].1 == AxisAt(y0, y1, k))
    ensures var p := LinePixels(x0, y0, x1, y1);
            forall a, b :: 0 <= a < b < |p| ==> p[a] != p[b]
  {
  }

  /** Every position lies in the box spanned by the two endpoints. */
  lemma LineInBox(x0: int, y0: int, x1: int, y1: int)
    ensures var p := LinePixels(x0, y0, x1, y1);
            forall k :: 0 <= k < |p| ==>
              (x0 <= p[k].0 <= x1 || x1 <= p[k].0 <= x0) && (y0 <= p[k].1 <= y1 || y1 <= p[k].1 <= y0)
  {
  }

  /** The candidate writes of a line: every visited position, in colour c. */
  function LineWrites(x0: int, y0: int, x1: int, y1: int, c: ColorU8): seq<Write> {
    var p := LinePixels(x0, y0, x1, y1);
    seq(|p|, k requires 0 <= k < |p| => Write(p[k].0, p[k].1, c))
  }

  /** The loop variables of the walk from (x0, y0) to (x1, y1) after n
      iterations: the current position (x, y) and the error term. */
  predicate WalkAt(x0: int, y0: int, x1: int, y1: int, n: int, x: int, y: int, err: int) {
    var dx, dy := Abs(x1 - x0), Abs(y1 - y0);
    0 <= n <= Max(dx, dy) &&
    var st := WalkState(dx, dy, n);
    x == AxisAt(x0, x1, st.0) && y == AxisAt(y0, y1, st.1) && err == Err(dx, dy, st.0, st.1)
  }

  lemma WalkAtStart(x0: int, y0: int, x1: int, y1: int)
    ensures WalkAt(x0, y0, x1, y1, 0, x0, y0, Abs(x1 - x0) - Abs(y1 - y0))
  {
  }

  /** The walk is at (x1, y1) exactly after its last iteration. */
  lemma WalkAtEnd(x0: int, y0: int, x1: int, y1: int, n: int, x: int, y: int, err: int)
    requires WalkAt(x0, y0, x1, y1, n, x, y, err)
    ensures (x == x1 && y == y1) == (n == Max(Abs(x1 - x0), Abs(y1 - y0)))
  {
    var dx, dy := Abs(x1 - x0), Abs(y1 - y0);
    var st := WalkState(dx, dy, n);
    AxisEnd(x0, x1, st.0);
    AxisEnd(y0, y1, st.1);
    WalkStateEnd(dx, dy, n);
  }

  /** One iteration of the loop body as the source writes it, with step
      directions dirX and dirY: it takes the loop variables after n iterations
      to those after n + 1. Only a direction along which the walk moves at all
      has to point from the start to the end. */
  lemma WalkAtStep(x0: int, y0: int, x1: int, y1: int, n: int, x: int, y: int, err: int, dirX: int, dirY: int)
    requires WalkAt(x0, y0, x1, y1, n, x, y, err) && (x != x1 || y != y1)
    requires x0 != x1 ==> dirX == (if x0 < x1 then 1 else -1)
    requires y0 != y1 ==> dirY == (if y0 < y1 then 1 else -1)
    ensures var dx, dy, e2 := Abs(x1 - x0), Abs(y1 - y0), 2 * err;
            WalkAt(x0, y0, x1, y1, n + 1,
                   if e2 + dy > 0 then x + dirX else x,
                   if e2 < dx then y + dirY else y,
                   err - (if e2 + dy > 0 then dy else 0) + (if e2 < dx then dx else 0))
  {
    var dx, dy := Abs(x1 - x0), Abs(y1 - y0);
    WalkAtEnd(x0, y0, x1, y1, n, x, y, err);
    WalkStep(dx, dy, n, err);
  }

  /** The writes of the first n + 1 iterations: those of the first n, then the
      current position; after the last iteration, all of them. */
  lemma LinePaintStep(buf: seq<byte>, w: nat, h: nat, x0: int, y0: int, x1: int, y1: int, c: ColorU8,
                      n: int, x: int, y: int, err: int)
    requires |buf| == 4 * (w * h) && WalkAt(x0, y0, x1, y1, n, x, y, err)
    ensures n + 1 <= |LineWrites(x0, y0, x1, y1, c)|
    ensures var ws := LineWrites(x0, y0, x1, y1, c);
            Paint(buf, w, h, ws[..n + 1]) ==
              if InSurface(w, h, x, y) then SetPixelBytes(Paint(buf, w, h, ws[..n]), w, h, x, y, c)
              else Paint(buf, w, h, ws[..n])
    ensures n == Max(Abs(x1 - x0), Abs(y1 - y0)) ==> LineWrites(x0, y0, x1, y1, c)[..n + 1] == LineWrites(x0, y0, x1, y1, c)
  {
    var ws := LineWrites(x0, y0, x1, y1, c);
    assert ws[n] == Write(x, y, c);
    PaintPrefix(buf, w, h, ws, n);
  }

  /** The step directions a loop may use: along an axis the walk moves on, the
      direction points from the start towards the end. */
  predicate Directed(x0: int, y0: int, x1: int, y1: int, dirX: int, dirY: int) {
    (x0 != x1 ==> dirX == (if x0 < x1 then 1 else -1)) &&
    (y0 != y1 ==> dirY == (if y0 < y1 then 1 else -1))
  }

  /** The loop variables (x, y, error) after n passes of the loop body from the
      start. Each pass doubles the error; when that exceeds -dy it takes an x
      step, and when it is below dx a y step. */
  function Walk(x0: int, y0: int, x1: int, y1: int, dirX: int, dirY: int, n: nat): (int, int, int) {
    if n == 0 then (x0, y0, Abs(x1 - x0) - Abs(y1 - y0))
    else
      var v := Walk(x0, y0, x1, y1, dirX, dirY, n - 1);
      var dx: int, dy: int, e2 := Abs(x1 - x0), Abs(y1 - y0), 2 * v.2;
      (if e2 > -dy then v.0 + dirX else v.0,
       if e2 < dx then v.1 + dirY else v.1,
       v.2 - (if e2 > -dy then dy else 0) + (if e2 < dx then dx else 0))
  }

  /** One pass of the loop body, as the source writes it. Taken from the loop
      variables after n passes of a walk that has not reached its end, it gives
      those after n + 1 passes, which are the walk's state n + 1. */
  method AdvanceStep(ghost x0: int, ghost y0: int, ghost x1: int, ghost y1: int, ghost n: nat,
                     dx: int, dy: int, dirX: int, dirY: int, x: int, y: int, error: int)
    returns (x': int, y': int, error': int)
    requires dx == Abs(x1 - x0) && dy == Abs(y1 - y0)
    requires Directed(x0, y0, x1, y1, dirX, dirY) && n < Max(dx, dy)
    requires (x, y, error) == Walk(x0, y0, x1, y1, dirX, dirY, n)
    ensures (x', y', error') == Walk(x0, y0, x1, y1, dirX, dirY, n + 1)
    ensures WalkAt(x0, y0, x1, y1, n + 1, x', y', error')
  {
    ghost var next := Walk(x0, y0, x1, y1, dirX, dirY, n + 1);
    x', y', error' := x, y, error;
    var error2 := 2 * error;
    if error2 > -dy {
      error' := error' - dy;
      x' := x' + dirX;
    }
    if error2 < dx {
      error' := error' + dx;
      y' := y' + dirY;
    }
    assert x' == next.0 && y' == next.1 && error' == next.2;
    WalkMatches(x0, y0, x1, y1, dirX, dirY, n + 1);
  }

  /** Running the source's loop body n times lands on the walk state described
      by the step counts: the loop computes the walk of `LinePixels`. */
  lemma {:induction false} WalkMatches(x0: int, y0: int, x1: int, y1: int, dirX: int, dirY: int, n: nat)
    requires Directed(x0, y0, x1, y1, dirX, dirY) && n <= Max(Abs(x1 - x0), Abs(y1 - y0))
    ensures var v := Walk(x0, y0, x1, y1, dirX, dirY, n);
            WalkAt(x0, y0, x1, y1, n, v.0, v.1, v.2)
  {
    if n == 0 {
      WalkAtStart(x0, y0, x1, y1);
    } else {
      WalkMatches(x0, y0, x1, y1, dirX, dirY, n - 1);
      var v := Walk(x0, y0, x1, y1, dirX, dirY, n - 1);
      WalkAtEnd(x0, y0, x1, y1, n - 1, v.0, v.1, v.2);
      WalkAtStep(x0, y0, x1, y1, n - 1, v.0, v.1, v.2, dirX, dirY);
    }
  }

  /** The loop reaches the end point after exactly max(dx, dy) passes, and not
      before. */
  lemma WalkDone(x0: int, y0: int, x1: int, y1: int, dirX: int, dirY: int, n: nat)
    requires Directed(x0, y0, x1, y1, dirX, dirY) && n <= Max(Abs(x1 - x0), Abs(y1 - y0))
    ensures var v := Walk(x0, y0, x1, y1, dirX, dirY, n);
            (v.0 == x1 && v.1 == y1) == (n == Max(Abs(x1 - x0), Abs(y1 - y0)))
  {
    WalkMatches(x0, y0, x1, y1, dirX, dirY, n);
    var v := Walk(x0, y0, x1, y1, dirX, dirY, n);
    WalkAtEnd(x0, y0, x1, y1, n, v.0, v.1, v.2);
  }

  /** The surface after the first n passes of the loop body, each setting the
      pixel at the loop's position when it lies on the surface. */
  function LineSoFar(buf: seq<byte>, w: nat, h: nat, x0: int, y0: int, x1: int, y1: int, dirX: int, dirY: int,
                     c: ColorU8, n: nat): (r: seq<byte>)
    requires |buf| == 4 * (w * h)
    ensures |r| == |buf|
  {
    if n == 0 then buf
    else
      var prev := LineSoFar(buf, w, h, x0, y0, x1, y1, dirX, dirY, c, n - 1);
      var v := Walk(x0, y0, x1, y1, dirX, dirY, n - 1);
      if InSurface(w, h, v.0, v.1) then SetPixelBytes(prev, w, h, v.0, v.1, c) else prev
  }

  lemma LineSoFarNext(buf: seq<byte>, w: nat, h: nat, x0: int, y0: int, x1: int, y1: int, dirX: int, dirY: int,
                      c: ColorU8, n: nat)
    requires |buf| == 4 * (w * h)
    ensures var prev, v := LineSoFar(buf, w, h, x0, y0, x1, y1, dirX, dirY, c, n), Walk(x0, y0, x1, y1, dirX, dirY, n);
            LineSoFar(buf, w, h, x0, y0, x1, y1, dirX, dirY, c, n + 1) ==
              if InSurface(w, h, v.0, v.1) then SetPixelBytes(prev, w, h, v.0, v.1, c) else prev
  {
  }

  /** The first n passes of the loop paint the first n candidate writes of the
      line. */
  lemma {:induction false} LineSoFarPaint(buf: seq<byte>, w: nat, h: nat, x0: int, y0: int, x1: int, y1: int,
                                          dirX: int, dirY: int, c: ColorU8, n: nat)
    requires |buf| == 4 * (w * h)
    requires Directed(x0, y0, x1, y1, dirX, dirY) && n <= Max(Abs(x1 - x0), Abs(y1 - y0)) + 1
    ensures n <= |LineWrites(x0, y0, x1, y1, c)|
    ensures LineSoFar(buf, w, h, x0, y0, x1, y1, dirX, dirY, c, n) == Paint(buf, w, h, LineWrites(x0, y0, x1, y1, c)[..n])
  {
    var ws := LineWrites(x0, y0, x1, y1, c);
    if n == 0 {
      assert ws[..0] == [];
    } else {
      LineSoFarPaint(buf, w, h, x0, y0, x1, y1, dirX, dirY, c, n - 1);
      WalkMatches(x0, y0, x1, y1, dirX, dirY, n - 1);
      var v := Walk(x0, y0, x1, y1, dirX, dirY, n - 1);
      LinePaintStep(buf, w, h, x0, y0, x1, y1, c, n - 1, v.0, v.1, v.2);
    }
  }

  /** After max(dx, dy) + 1 passes the surface holds the whole line. */
  lemma LineSoFarDone(buf: seq<byte>, w: nat, h: nat, x0: int, y0: int, x1: int, y1: int,
                      dirX: int, dirY: int, c: ColorU8)
    requires |buf| == 4 * (w * h) && Directed(x0, y0, x1, y1, dirX, dirY)
    ensures LineSoFar(buf, w, h, x0, y0, x1, y1, dirX, dirY, c, Max(Abs(x1 - x0), Abs(y1 - y0)) + 1) ==
            Paint(buf, w, h, LineWrites(x0, y0, x1, y1, c))
  {
    var ws := LineWrites(x0, y0, x1, y1, c);
    LineSoFarPaint(buf, w, h, x0, y0, x1, y1, dirX, dirY, c, Max(Abs(x1 - x0), Abs(y1 - y0)) + 1);
    assert ws[..|ws|] == ws;
  }

  /** After drawing, a surface pixel has colour c when the walk visits it and its
      old colour otherwise. */
  lemma LinePaint(buf: seq<byte>, w: nat, h: nat, x0: int, y0: int, x1: int, y1: int, c: ColorU8, x: int, y: int)
    requires |buf| == 4 * (w * h) && InSurface(w, h, x, y)
    ensures PixelAt(Paint(buf, w, h, LineWrites(x0, y0, x1, y1, c)), w, h, x, y) ==
            if (x, y) in LinePixels(x0, y0, x1, y1) then c else PixelAt(buf, w, h, x, y)
  {
    var ws := LineWrites(x0, y0, x1, y1, c);
    var p := LinePixels(x0, y0, x1, y1);
    PaintPixel(buf, w, h, ws, x, y);
    LastWriteUniform(ws, x, y, c);
    if (x, y) in p {
      var k :| 0 <= k < |p| && p[k] == (x, y);
      assert ws[k].x == x && ws[k].y == y;
    }
  }

  /** A line none of whose positions is on the surface changes nothing. */
  lemma LineOffSurface(buf: seq<byte>, w: nat, h: nat, x0: int, y0: int, x1: int, y1: int, c: ColorU8)
    requires |buf| == 4 * (w * h)
    requires forall q :: q in LinePixels(x0, y0, x1, y1) ==> !InSurface(w, h, q.0, q.1)
    ensures Paint(buf, w, h, LineWrites(x0, y0, x1, y1, c)) == buf
  {
    var ws := LineWrites(x0, y0, x1, y1, c);
    var p := LinePixels(x0, y0, x1, y1);
    assert forall k :: 0 <= k < |ws| ==> (ws[k].x, ws[k].y) == p[k];
    PaintOffSurface(buf, w, h, ws);
  }
}
