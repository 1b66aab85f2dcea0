/** The pixel-scanning helpers of the line tests (lines-test/helpers.cpp): the
    largest number of drawn pixels in one row or one column, and a histogram of
    drawn pixels by their number of drawn 8-neighbours. A pixel counts as drawn
    when one of its three colour bytes is non-zero. */
module LineTestHelpers {
  import opened Colors
  import opened Surfaces

  // ---------------------------------------------------------- rows and columns

  /** The number of drawn pixels among the first n of row y. */
  function RowLit(buf: seq<byte>, w: nat, h: nat, y: int, n: nat): (r: nat)
    requires |buf| == 4 * (w * h)
    ensures r <= n
    ensures r == 0 <==> forall x :: 0 <= x < n ==> !Lit(buf, w, h, x, y)
  {
    if n == 0 then 0 else RowLit(buf, w, h, y, n - 1) + if Lit(buf, w, h, n - 1, y) then 1 else 0
  }

  /** The number of drawn pixels among the first n of column x. */
  function ColLit(buf: seq<byte>, w: nat, h: nat, x: int, n: nat): (r: nat)
    requires |buf| == 4 * (w * h)
    ensures r <= n
    ensures r == 0 <==> forall y :: 0 <= y < n ==> !Lit(buf, w, h, x, y)
  {
    if n == 0 then 0 else ColLit(buf, w, h, x, n - 1) + if Lit(buf, w, h, x, n - 1) then 1 else 0
  }

  /** `max_row_pixel_count`: the largest number of drawn pixels in any row (0
      for a surface without rows), at most the width, and 0 exactly when no
      pixel is drawn. */
  method MaxRowPixelCount(s: Surface) returns (res: nat)
    requires s.Valid()
    ensures forall y :: 0 <= y < s.height ==> RowLit(s.data[..], s.width, s.height, y, s.width) <= res
    ensures res == 0 || exists y :: 0 <= y < s.height && RowLit(s.data[..], s.width, s.height, y, s.width) == res
    ensures res <= s.width
    ensures res == 0 <==> forall x, y :: 0 <= x < s.width && 0 <= y < s.height ==> !Lit(s.data[..], s.width, s.height, x, y)
  {
    ghost var buf := s.data[..];
    res := 0;
    var y := 0;
    while y < s.height
      invariant y <= s.height && res <= s.width
      invariant forall y' :: 0 <= y' < y ==> RowLit(buf, s.width, s.height, y', s.width) <= res
      invariant res == 0 || exists y' :: 0 <= y' < y && RowLit(buf, s.width, s.height, y', s.width) == res
    {
      var inRow := CountInRow(s, y);
      res := if inRow > res then inRow else res;
      y := y + 1;
    }
    if res == 0 {
      forall x, y' | 0 <= x < s.width && 0 <= y' < s.height
        ensures !Lit(buf, s.width, s.height, x, y')
      {
        assert RowLit(buf, s.width, s.height, y', s.width) == 0;
      }
    } else {
      ghost var y' :| 0 <= y' < s.height && RowLit(buf, s.width, s.height, y', s.width) == res;
      ghost var x :| 0 <= x < s.width && Lit(buf, s.width, s.height, x, y');
    }
  }

  /** The inner loop of `max_row_pixel_count`: the drawn pixels of row y. */
  method CountInRow(s: Surface, y: nat) returns (inRow: nat)
    requires s.Valid() && y < s.height
    ensures inRow == RowLit(s.data[..], s.width, s.height, y, s.width)
  {
    inRow := 0;
    var x := 0;
    while x < s.width
      invariant x <= s.width && inRow == RowLit(s.data[..], s.width, s.height, y, x)
    {
      var c := s.Peek(x, y);
      if c.r > 0 || c.g > 0 || c.b > 0 {
        inRow := inRow + 1;
      }
      x := x + 1;
    }
  }

  /** `max_col_pixel_count`: the largest number of drawn pixels in any column
      (0 for a surface without columns), at most the height, and 0 exactly when
      no pixel is drawn. */
  method MaxColPixelCount(s: Surface) returns (res: nat)
    requires s.Valid()
    ensures forall x :: 0 <= x < s.width ==> ColLit(s.data[..], s.width, s.height, x, s.height) <= res
    ensures res == 0 || exists x :: 0 <= x < s.width && ColLit(s.data[..], s.width, s.height, x, s.height) == res
    ensures res <= s.height
    ensures res == 0 <==> forall x, y :: 0 <= x < s.width && 0 <= y < s.height ==> !Lit(s.data[..], s.width, s.height, x, y)
  {
    ghost var buf := s.data[..];
    res := 0;
    var x := 0;
    while x < s.width
      invariant x <= s.width && res <= s.height
      invariant forall x' :: 0 <= x' < x ==> ColLit(buf, s.width, s.height, x', s.height) <= res
      invariant res == 0 || exists x' :: 0 <= x' < x && ColLit(buf, s.width, s.height, x', s.height) == res
    {
      var inCol := CountInCol(s, x);
      res := if inCol > res then inCol else res;
      x := x + 1;
    }
    if res == 0 {
      forall x', y | 0 <= x' < s.width && 0 <= y < s.height
        ensures !Lit(buf, s.width, s.height, x', y)
      {
        assert ColLit(buf, s.width, s.height, x', s.height) == 0;
      }
    } else {
      ghost var x' :| 0 <= x' < s.width && ColLit(buf, s.width, s.height, x', s.height) == res;
      ghost var y :| 0 <= y < s.height && Lit(buf, s.width, s.height, x', y);
    }
  }

  /** The inner loop of `max_col_pixel_count`: the drawn pixels of column x. */
  method CountInCol(s: Surface, x: nat) returns (inCol: nat)
    requires s.Valid() && x < s.width
    ensures inCol == ColLit(s.data[..], s.width, s.height, x, s.height)
  {
    inCol := 0;
    var y := 0;
    while y < s.height
      invariant y <= s.height && inCol == ColLit(s.data[..], s.width, s.height, x, y)
    {
      var c := s.Peek(x, y);
      if c.r > 0 || c.g > 0 || c.b > 0 {
        inCol := inCol + 1;
      }
      y := y + 1;
    }
  }

  // ------------------------------------------------------------ neighbour counts

  /** The eight neighbour offsets, in the source's order. */
  const Offsets: seq<(int, int)> := [(-1, -1), (0, -1), (1, -1), (-1, 0), (1, 0), (-1, 1), (0, 1), (1, 1)]

  /** `std::uint32_t` arithmetic: the value modulo 2^32. */
  function Wrap32(n: int): nat {
    n % 0x1_0000_0000
  }

  /** The unsigned bounds test on a neighbour coordinate: below a limit of at
      most MaxIndex, the wrapped coordinate passes exactly when the coordinate
      itself lies in 0 .. limit - 1, and it is then unchanged. A coordinate of
      -1 wraps to 2^32 - 1 and fails. */
  lemma WrapBounds(p: nat, d: int, limit: nat)
    requires p < limit <= MaxIndex && -1 <= d <= 1
    ensures Wrap32(p + d) < limit <==> 0 <= p + d < limit
    ensures 0 <= p + d < limit ==> Wrap32(p + d) == p + d
  {
  }

  /** The number of drawn in-surface neighbours of (x, y) among the first n
      offsets. */
  function LitNeighbours(buf: seq<byte>, w: nat, h: nat, x: int, y: int, n: nat): (r: nat)
    requires |buf| == 4 * (w * h) && n <= |Offsets|
    ensures r <= n
  {
    if n == 0 then 0
    else LitNeighbours(buf, w, h, x, y, n - 1) + if Lit(buf, w, h, x + Offsets[n - 1].0, y + Offsets[n - 1].1) then 1 else 0
  }

  /** The number of drawn pixels among the first n of row y that have exactly k
      drawn neighbours. */
  function RowWithNeighbours(buf: seq<byte>, w: nat, h: nat, y: int, n: nat, k: nat): nat
    requires |buf| == 4 * (w * h)
  {
    if n == 0 then 0
    else
      RowWithNeighbours(buf, w, h, y, n - 1, k) +
      if Lit(buf, w, h, n - 1, y) && LitNeighbours(buf, w, h, n - 1, y, 8) == k then 1 else 0
  }

  /** The number of drawn pixels in the first n rows that have exactly k drawn
      neighbours. */
  function WithNeighbours(buf: seq<byte>, w: nat, h: nat, n: nat, k: nat): nat
    requires |buf| == 4 * (w * h)
  {
    if n == 0 then 0 else WithNeighbours(buf, w, h, n - 1, k) + RowWithNeighbours(buf, w, h, n - 1, w, k)
  }

  /** The number of drawn pixels in the first n rows. */
  function LitCount(buf: seq<byte>, w: nat, h: nat, n: nat): nat
    requires |buf| == 4 * (w * h)
  {
    if n == 0 then 0 else LitCount(buf, w, h, n - 1) + RowLit(buf, w, h, n - 1, w)
  }

  function Sum(s: seq<nat>): nat {
    if s == [] then 0 else Sum(s[..|s| - 1]) + s[|s| - 1]
  }

  /** Incrementing one entry increments the sum. */
  lemma {:induction false} SumIncrement(s: seq<nat>, k: int)
    requires 0 <= k < |s|
    ensures Sum(s[k := s[k] + 1]) == Sum(s) + 1
    decreases |s|
  {
    var t := s[k := s[k] + 1];
    var init := s[..|s| - 1];
    assert t[..|t| - 1] == if k < |s| - 1 then init[k := init[k] + 1] else init;
    if k < |s| - 1 {
      SumIncrement(init, k);
    }
  }

  /** The histogram after visiting pixel (x, y): a drawn pixel adds one to the
      entry of its neighbour count, an undrawn one changes nothing. */
  function Tally(hist: seq<nat>, buf: seq<byte>, w: nat, h: nat, x: int, y: int): (r: seq<nat>)
    requires |hist| == 9 && |buf| == 4 * (w * h)
    ensures |r| == 9
  {
    if Lit(buf, w, h, x, y) then
      var n := LitNeighbours(buf, w, h, x, y, 8);
      hist[n := hist[n] + 1]
    else hist
  }

  /** The histogram after the first n pixels of row y, starting from hist. */
  function RowTally(hist: seq<nat>, buf: seq<byte>, w: nat, h: nat, y: int, n: nat): (r: seq<nat>)
    requires |hist| == 9 && |buf| == 4 * (w * h)
    ensures |r| == 9
  {
    if n == 0 then hist else Tally(RowTally(hist, buf, w, h, y, n - 1), buf, w, h, n - 1, y)
  }

  /** The histogram after the first n rows, starting from all zeroes. */
  function Histogram(buf: seq<byte>, w: nat, h: nat, n: nat): (r: seq<nat>)
    requires |buf| == 4 * (w * h)
    ensures |r| == 9
  {
    if n == 0 then seq(9, k => 0) else RowTally(Histogram(buf, w, h, n - 1), buf, w, h, n - 1, w)
  }

  lemma {:induction false} RowTallyCounts(hist: seq<nat>, buf: seq<byte>, w: nat, h: nat, y: int, n: nat, k: int)
    requires |hist| == 9 && |buf| == 4 * (w * h) && 0 <= k < 9
    ensures RowTally(hist, buf, w, h, y, n)[k] == hist[k] + RowWithNeighbours(buf, w, h, y, n, k)
    ensures Sum(RowTally(hist, buf, w, h, y, n)) == Sum(hist) + RowLit(buf, w, h, y, n)
  {
    if n > 0 {
      var prev := RowTally(hist, buf, w, h, y, n - 1);
      RowTallyCounts(hist, buf, w, h, y, n - 1, k);
      if Lit(buf, w, h, n - 1, y) {
        SumIncrement(prev, LitNeighbours(buf, w, h, n - 1, y, 8));
      }
    }
  }

  /** Entry k of the histogram of the first n rows counts their drawn pixels
      with exactly k drawn neighbours, and the entries add up to the number of
      drawn pixels in those rows. */
  lemma {:induction false} HistogramCounts(buf: seq<byte>, w: nat, h: nat, n: nat, k: int)
    requires |buf| == 4 * (w * h) && 0 <= k < 9
    ensures Histogram(buf, w, h, n)[k] == WithNeighbours(buf, w, h, n, k)
    ensures Sum(Histogram(buf, w, h, n)) == LitCount(buf, w, h, n)
  {
    if n == 0 {
      ZeroSum(seq(9, k => 0));
    } else {
      HistogramCounts(buf, w, h, n - 1, k);
      RowTallyCounts(Histogram(buf, w, h, n - 1), buf, w, h, n - 1, w, k);
    }
  }

  /** `count_pixel_neighbours`: entry k counts the drawn pixels with exactly k
      drawn neighbours on the surface; the entries add up to the number of
      drawn pixels. */
  method CountPixelNeighbours(s: Surface) returns (res: seq<nat>)
    requires s.Valid()
    ensures res == Histogram(s.data[..], s.width, s.height, s.height)
    ensures forall k :: 0 <= k < 9 ==> res[k] == WithNeighbours(s.data[..], s.width, s.height, s.height, k)
    ensures Sum(res) == LitCount(s.data[..], s.width, s.height, s.height)
  {
    ghost var buf, w, h := s.data[..], s.width, s.height;
    var hist := new nat[9](k => 0);
    var yp := 0;
    while yp < s.height
      invariant yp <= h && hist[..] == Histogram(buf, w, h, yp)
    {
      NeighbourRow(s, hist, yp);
      yp := yp + 1;
    }
    res := hist[..];
    forall k | 0 <= k < 9
      ensures res[k] == WithNeighbours(buf, w, h, h, k)
    {
      HistogramCounts(buf, w, h, h, k);
    }
    HistogramCounts(buf, w, h, h, 0);
  }

  lemma {:induction false} ZeroSum(s: seq<nat>)
    requires forall k :: 0 <= k < |s| ==> s[k] == 0
    ensures Sum(s) == 0
    decreases |s|
  {
    if s != [] {
      ZeroSum(s[..|s| - 1]);
    }
  }

  /** One row of `count_pixel_neighbours`: each drawn pixel of row yp adds one
      to the entry of its neighbour count. */
  method NeighbourRow(s: Surface, hist: array<nat>, yp: nat)
    requires s.Valid() && hist.Length == 9 && yp < s.height
    modifies hist
    ensures hist[..] == RowTally(old(hist[..]), s.data[..], s.width, s.height, yp, s.width)
  {
    ghost var h0, buf, w, h := hist[..], s.data[..], s.width, s.height;
    var xp := 0;
    while xp < s.width
      invariant xp <= w && hist[..] == RowTally(h0, buf, w, h, yp, xp)
    {
      var c := s.Peek(xp, yp);
      if !(0 == c.r && 0 == c.g && 0 == c.b) {
        var n := CountNeighbours(s, xp, yp);
        hist[n] := hist[n] + 1;
      }
      xp := xp + 1;
    }
  }

  /** The offset loop of `count_pixel_neighbours`: the drawn neighbours of
      (xp, yp), skipping those whose wrapped coordinates fail the bounds test;
      there are at most 8. */
  method CountNeighbours(s: Surface, xp: nat, yp: nat) returns (neighbourCount: nat)
    requires s.Valid() && xp < s.width && yp < s.height
    ensures neighbourCount == LitNeighbours(s.data[..], s.width, s.height, xp, yp, 8) && neighbourCount <= 8
  {
    neighbourCount := 0;
    var i := 0;
    while i < 8
      invariant i <= 8 && neighbourCount == LitNeighbours(s.data[..], s.width, s.height, xp, yp, i)
    {
      var x := Wrap32(xp + Offsets[i].0);
      var y := Wrap32(yp + Offsets[i].1);
      WrapBounds(xp, Offsets[i].0, s.width);
      WrapBounds(yp, Offsets[i].1, s.height);
      if !(x >= s.width || y >= s.height) {
        var c := s.Peek(x, y);
        if c.r > 0 || c.g > 0 || c.b > 0 {
          neighbourCount := neighbourCount + 1;
        }
      }
      i := i + 1;
    }
  }
}
