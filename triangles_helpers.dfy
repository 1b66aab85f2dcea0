/** The pixel-scanning helpers of the triangle tests (triangles-test/helpers.cpp).
    Both scan the surface column by column (x outer, y inner) and keep the
    colour of one pixel: the most red one, and the least red one that is not
    black. */
module TriangleTestHelpers {
  import opened Colors
  import opened Surfaces

  /** Position (x', y') comes before (x, y) in the helpers' scan order. */
  predicate ScanBefore(x': int, y': int, x: int, y: int) {
    x' < x || (x' == x && y' < y)
  }

  /** Pixel (x, y) has the largest red value on the surface, and no pixel after
      it in scan order has as much: it is the last pixel with the most red. */
  ghost predicate LastMostRed(buf: seq<byte>, w: nat, h: nat, x: int, y: int)
    requires |buf| == 4 * (w * h)
  {
    InSurface(w, h, x, y) &&
    (forall x', y' :: InSurface(w, h, x', y') ==> PixelAt(buf, w, h, x', y').r <= PixelAt(buf, w, h, x, y).r) &&
    (forall x', y' :: InSurface(w, h, x', y') && ScanBefore(x, y, x', y') ==>
       PixelAt(buf, w, h, x', y').r < PixelAt(buf, w, h, x, y).r)
  }

  /** Pixel (x, y) is drawn, has red below 255, has the least red among the
      drawn pixels, and every drawn pixel before it in scan order has more: it
      is the first drawn pixel with the least red. */
  ghost predicate FirstLeastRed(buf: seq<byte>, w: nat, h: nat, x: int, y: int)
    requires |buf| == 4 * (w * h)
  {
    Lit(buf, w, h, x, y) && PixelAt(buf, w, h, x, y).r < 255 &&
    (forall x', y' :: Lit(buf, w, h, x', y') ==> PixelAt(buf, w, h, x', y').r >= PixelAt(buf, w, h, x, y).r) &&
    (forall x', y' :: Lit(buf, w, h, x', y') && ScanBefore(x', y', x, y) ==>
       PixelAt(buf, w, h, x', y').r > PixelAt(buf, w, h, x, y).r)
  }

  /** At most one pixel is the last with the most red. */
  lemma LastMostRedUnique(buf: seq<byte>, w: nat, h: nat, x: int, y: int, x': int, y': int)
    requires |buf| == 4 * (w * h) && LastMostRed(buf, w, h, x, y) && LastMostRed(buf, w, h, x', y')
    ensures x == x' && y == y'
  {
    assert PixelAt(buf, w, h, x, y).r == PixelAt(buf, w, h, x', y').r;
  }

  /** At most one pixel is the first drawn one with the least red. */
  lemma FirstLeastRedUnique(buf: seq<byte>, w: nat, h: nat, x: int, y: int, x': int, y': int)
    requires |buf| == 4 * (w * h) && FirstLeastRed(buf, w, h, x, y) && FirstLeastRed(buf, w, h, x', y')
    ensures x == x' && y == y'
  {
    assert PixelAt(buf, w, h, x, y).r == PixelAt(buf, w, h, x', y').r;
  }

  /** `find_most_red_pixel`: on a surface with at least one pixel, the full
      colour of the last pixel in scan order with the most red (the `>=` test
      lets later pixels win ties); black on a surface without pixels and on an
      all-black surface. */
  method FindMostRedPixel(s: Surface) returns (ret: ColorU8)
    requires s.Valid()
    ensures s.width == 0 || s.height == 0 ==> ret == Black
    ensures s.width >= 1 && s.height >= 1 ==>
              exists x, y :: LastMostRed(s.data[..], s.width, s.height, x, y) && ret == PixelAt(s.data[..], s.width, s.height, x, y)
    ensures (forall x, y :: InSurface(s.width, s.height, x, y) ==> PixelAt(s.data[..], s.width, s.height, x, y) == Black) ==>
              ret == Black
  {
    ghost var buf, w, h := s.data[..], s.width, s.height;
    ret := Black;
    ghost var found, bestX, bestY := false, 0, 0;
    var x := 0;
    while x < s.width
      invariant x <= w && MostSoFar(buf, w, h, ret, found, bestX, bestY, x, 0)
      invariant !found ==> x == 0 || h == 0
    {
      ret, found, bestX, bestY := MostRedColumn(s, x, ret, found, bestX, bestY);
      x := x + 1;
    }
    MostSoFarAll(buf, w, h, ret, found, bestX, bestY);
    assert buf == s.data[..] && w == s.width && h == s.height;
  }

  /** The state of `find_most_red_pixel` once every position before (x, y) in
      scan order has been visited: ret is black and nothing has been visited, or
      ret is the colour of the last visited pixel (bestX, bestY) with the most
      red so far. */
  ghost predicate MostSoFar(buf: seq<byte>, w: nat, h: nat, ret: ColorU8, found: bool, bestX: int, bestY: int, x: int, y: int)
    requires |buf| == 4 * (w * h)
  {
    (!found ==> ret == Black && forall x', y' :: InSurface(w, h, x', y') ==> !ScanBefore(x', y', x, y)) &&
    (found ==> InSurface(w, h, bestX, bestY) && ScanBefore(bestX, bestY, x, y) && ret == PixelAt(buf, w, h, bestX, bestY)) &&
    (forall x', y' :: InSurface(w, h, x', y') && ScanBefore(x', y', x, y) ==> PixelAt(buf, w, h, x', y').r <= ret.r) &&
    (forall x', y' :: InSurface(w, h, x', y') && ScanBefore(x', y', x, y) && ScanBefore(bestX, bestY, x', y') ==>
       PixelAt(buf, w, h, x', y').r < ret.r)
  }

  /** Once every column is visited, the state gives the result. */
  lemma MostSoFarAll(buf: seq<byte>, w: nat, h: nat, ret: ColorU8, found: bool, bestX: int, bestY: int)
    requires |buf| == 4 * (w * h) && MostSoFar(buf, w, h, ret, found, bestX, bestY, w, 0)
    requires !found ==> w == 0 || h == 0
    ensures w == 0 || h == 0 ==> ret == Black
    ensures w >= 1 && h >= 1 ==> exists x, y :: LastMostRed(buf, w, h, x, y) && ret == PixelAt(buf, w, h, x, y)
    ensures (forall x, y :: InSurface(w, h, x, y) ==> PixelAt(buf, w, h, x, y) == Black) ==> ret == Black
  {
    if found {
      assert LastMostRed(buf, w, h, bestX, bestY);
    }
  }

  /** The inner loop of `find_most_red_pixel`: column x, top to bottom. */
  method MostRedColumn(s: Surface, x: nat, ret0: ColorU8, ghost found0: bool, ghost bestX0: int, ghost bestY0: int)
    returns (ret: ColorU8, ghost found: bool, ghost bestX: int, ghost bestY: int)
    requires s.Valid() && x < s.width
    requires MostSoFar(s.data[..], s.width, s.height, ret0, found0, bestX0, bestY0, x, 0)
    ensures MostSoFar(s.data[..], s.width, s.height, ret, found, bestX, bestY, x + 1, 0)
    ensures found0 || s.height >= 1 ==> found
  {
    ghost var buf, w, h := s.data[..], s.width, s.height;
    ret, found, bestX, bestY := ret0, found0, bestX0, bestY0;
    var y := 0;
    while y < s.height
      invariant y <= h && MostSoFar(buf, w, h, ret, found, bestX, bestY, x, y)
      invariant found0 || y >= 1 ==> found
    {
      var c := s.Peek(x, y);
      MostSoFarNext(buf, w, h, ret, found, bestX, bestY, x, y);
      if c.r >= ret.r {
        ret := c;
        found, bestX, bestY := true, x, y;
      }
      y := y + 1;
    }
    MostSoFarNextColumn(buf, w, h, ret, found, bestX, bestY, x);
  }

  /** Visiting pixel (x, y) advances the state by one position. */
  lemma MostSoFarNext(buf: seq<byte>, w: nat, h: nat, ret: ColorU8, found: bool, bestX: int, bestY: int, x: int, y: int)
    requires |buf| == 4 * (w * h) && InSurface(w, h, x, y)
    requires MostSoFar(buf, w, h, ret, found, bestX, bestY, x, y)
    ensures var c := PixelAt(buf, w, h, x, y);
            if c.r >= ret.r
            then MostSoFar(buf, w, h, c, true, x, y, x, y + 1)
            else MostSoFar(buf, w, h, ret, found, bestX, bestY, x, y + 1)
  {
    var c := PixelAt(buf, w, h, x, y);
    if c.r >= ret.r {
      forall x', y' | InSurface(w, h, x', y') && ScanBefore(x', y', x, y + 1)
        ensures PixelAt(buf, w, h, x', y').r <= c.r
      {
        if x' != x || y' != y {
          assert ScanBefore(x', y', x, y);
        }
      }
    } else {
      forall x', y' | InSurface(w, h, x', y') && ScanBefore(x', y', x, y + 1)
        ensures PixelAt(buf, w, h, x', y').r <= ret.r
      {
        if x' != x || y' != y {
          assert ScanBefore(x', y', x, y);
        }
      }
      forall x', y' | InSurface(w, h, x', y') && ScanBefore(x', y', x, y + 1) && ScanBefore(bestX, bestY, x', y')
        ensures PixelAt(buf, w, h, x', y').r < ret.r
      {
        if x' != x || y' != y {
          assert ScanBefore(x', y', x, y);
        }
      }
    }
  }

  /** The end of column x is the start of column x + 1. */
  lemma MostSoFarNextColumn(buf: seq<byte>, w: nat, h: nat, ret: ColorU8, found: bool, bestX: int, bestY: int, x: int)
    requires |buf| == 4 * (w * h)
    requires MostSoFar(buf, w, h, ret, found, bestX, bestY, x, h)
    ensures MostSoFar(buf, w, h, ret, found, bestX, bestY, x + 1, 0)
  {
  }

  /** `find_least_red_nonzero_pixel`: black pixels are skipped; white when no
      other pixel has red below 255, and otherwise the full colour of the first
      pixel in scan order with the least red among the drawn ones (the strict
      `<` keeps the earliest). */
  method FindLeastRedNonzeroPixel(s: Surface) returns (ret: ColorU8)
    requires s.Valid()
    ensures (forall x, y :: Lit(s.data[..], s.width, s.height, x, y) ==> PixelAt(s.data[..], s.width, s.height, x, y).r == 255) ==>
              ret == White
    ensures (exists x, y :: Lit(s.data[..], s.width, s.height, x, y) && PixelAt(s.data[..], s.width, s.height, x, y).r < 255) ==>
              exists x, y :: FirstLeastRed(s.data[..], s.width, s.height, x, y) && ret == PixelAt(s.data[..], s.width, s.height, x, y)
  {
    ghost var buf, w, h := s.data[..], s.width, s.height;
    ret := White;
    ghost var found, bestX, bestY := false, 0, 0;
    var x := 0;
    while x < s.width
      invariant x <= w && LeastSoFar(buf, w, h, ret, found, bestX, bestY, x, 0)
    {
      ret, found, bestX, bestY := LeastRedColumn(s, x, ret, found, bestX, bestY);
      x := x + 1;
    }
    LeastSoFarAll(buf, w, h, ret, found, bestX, bestY);
    assert buf == s.data[..] && w == s.width && h == s.height;
  }

  /** The state of `find_least_red_nonzero_pixel` once every position before
      (x, y) in scan order has been visited: ret is white and no drawn pixel
      visited so far has red below 255, or ret is the colour of the first
      visited drawn pixel (bestX, bestY) with the least red so far. */
  ghost predicate LeastSoFar(buf: seq<byte>, w: nat, h: nat, ret: ColorU8, found: bool, bestX: int, bestY: int, x: int, y: int)
    requires |buf| == 4 * (w * h)
  {
    (!found ==> ret == White) &&
    (found ==> Lit(buf, w, h, bestX, bestY) && ScanBefore(bestX, bestY, x, y) && ret == PixelAt(buf, w, h, bestX, bestY) && ret.r < 255) &&
    (forall x', y' :: Lit(buf, w, h, x', y') && ScanBefore(x', y', x, y) ==> PixelAt(buf, w, h, x', y').r >= ret.r) &&
    (found ==> forall x', y' :: Lit(buf, w, h, x', y') && ScanBefore(x', y', bestX, bestY) ==>
       PixelAt(buf, w, h, x', y').r > ret.r)
  }

  /** Once every column is visited, the state gives the result. */
  lemma LeastSoFarAll(buf: seq<byte>, w: nat, h: nat, ret: ColorU8, found: bool, bestX: int, bestY: int)
    requires |buf| == 4 * (w * h) && LeastSoFar(buf, w, h, ret, found, bestX, bestY, w, 0)
    ensures (forall x, y :: Lit(buf, w, h, x, y) ==> PixelAt(buf, w, h, x, y).r == 255) ==> ret == White
    ensures (exists x, y :: Lit(buf, w, h, x, y) && PixelAt(buf, w, h, x, y).r < 255) ==>
              exists x, y :: FirstLeastRed(buf, w, h, x, y) && ret == PixelAt(buf, w, h, x, y)
  {
    if found {
      assert FirstLeastRed(buf, w, h, bestX, bestY);
    }
  }

  /** The inner loop of `find_least_red_nonzero_pixel`: column x, top to bottom. */
  method LeastRedColumn(s: Surface, x: nat, ret0: ColorU8, ghost found0: bool, ghost bestX0: int, ghost bestY0: int)
    returns (ret: ColorU8, ghost found: bool, ghost bestX: int, ghost bestY: int)
    requires s.Valid() && x < s.width
    requires LeastSoFar(s.data[..], s.width, s.height, ret0, found0, bestX0, bestY0, x, 0)
    ensures LeastSoFar(s.data[..], s.width, s.height, ret, found, bestX, bestY, x + 1, 0)
  {
    ghost var buf, w, h := s.data[..], s.width, s.height;
    ret, found, bestX, bestY := ret0, found0, bestX0, bestY0;
    var y := 0;
    while y < s.height
      invariant y <= h && LeastSoFar(buf, w, h, ret, found, bestX, bestY, x, y)
    {
      var c := s.Peek(x, y);
      LeastSoFarNext(buf, w, h, ret, found, bestX, bestY, x, y);
      if !(0 == c.r && 0 == c.g && 0 == c.b) {
        if c.r < ret.r {
          ret := c;
          found, bestX, bestY := true, x, y;
        }
      }
      y := y + 1;
    }
    LeastSoFarNextColumn(buf, w, h, ret, found, bestX, bestY, x);
  }

  /** Visiting pixel (x, y) advances the state by one position. */
  lemma LeastSoFarNext(buf: seq<byte>, w: nat, h: nat, ret: ColorU8, found: bool, bestX: int, bestY: int, x: int, y: int)
    requires |buf| == 4 * (w * h) && InSurface(w, h, x, y)
    requires LeastSoFar(buf, w, h, ret, found, bestX, bestY, x, y)
    ensures var c := PixelAt(buf, w, h, x, y);
            if !(0 == c.r && 0 == c.g && 0 == c.b) && c.r < ret.r
            then LeastSoFar(buf, w, h, c, true, x, y, x, y + 1)
            else LeastSoFar(buf, w, h, ret, found, bestX, bestY, x, y + 1)
  {
    var c := PixelAt(buf, w, h, x, y);
    if !(0 == c.r && 0 == c.g && 0 == c.b) && c.r < ret.r {
      forall x', y' | Lit(buf, w, h, x', y') && ScanBefore(x', y', x, y + 1)
        ensures PixelAt(buf, w, h, x', y').r >= c.r
      {
        if x' != x || y' != y {
          assert ScanBefore(x', y', x, y);
        }
      }
      forall x', y' | Lit(buf, w, h, x', y') && ScanBefore(x', y', x, y)
        ensures PixelAt(buf, w, h, x', y').r > c.r
      {
      }
    } else {
      forall x', y' | Lit(buf, w, h, x', y') && ScanBefore(x', y', x, y + 1)
        ensures PixelAt(buf, w, h, x', y').r >= ret.r
      {
        if x' != x || y' != y {
          assert ScanBefore(x', y', x, y);
        }
      }
    }
  }

  /** The end of column x is the start of column x + 1. */
  lemma LeastSoFarNextColumn(buf: seq<byte>, w: nat, h: nat, ret: ColorU8, found: bool, bestX: int, bestY: int, x: int)
    requires |buf| == 4 * (w * h)
    requires LeastSoFar(buf, w, h, ret, found, bestX, bestY, x, h)
    ensures LeastSoFar(buf, w, h, ret, found, bestX, bestY, x + 1, 0)
  {
  }
}
