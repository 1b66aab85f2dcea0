/** Masked blit of an RGBA image onto a surface (draw2d/image.hpp, draw2d/image.cpp).

    The image is read-only here: a width, a height and its pixels in row-major
    order, pixel (x, y) at position y*width + x. `blit_masked` walks the image
    row by row, skips every pixel whose alpha is below 128, places the rest at
    the (real) position plus the pixel's offset, and writes the red, green and
    blue of those whose destination passes the bounds test, at the destination
    truncated to integers. */
module Images {
  import opened Colors
  import opened Geometry
  import opened Surfaces

  datatype Image = Image(width: nat, height: nat, pixels: seq<ColorU8Alpha>) {
    ghost predicate Valid() {
      |pixels| == width * height
    }

    function Pixel(x: nat, y: nat): ColorU8Alpha
      requires Valid() && x < width && y < height
    {
      PixelIndexBounds(width, height, x, y);
      pixels[PixelIndex(width, x, y)]
    }
  }

  /** The alpha mask: only pixels with alpha of at least 128 are copied. */
  predicate Opaque(p: ColorU8Alpha) {
    p.a >= 128
  }

  /** Where image pixel (x, y) lands, before truncation. */
  function Dest(pos: Vec2, x: int, y: int): Vec2 {
    Vec2(pos.x + x as real, pos.y + y as real)
  }

  /** The bounds test, made on the untruncated destination. */
  predicate DestOnSurface(w: nat, h: nat, d: Vec2) {
    0.0 <= d.x < w as real && 0.0 <= d.y < h as real
  }

  /** The write image pixel (x, y) asks for, if any. */
  function BlitPixelWrites(img: Image, pos: Vec2, w: nat, h: nat, x: nat, y: nat): seq<Write>
    requires img.Valid() && x < img.width && y < img.height
  {
    var p := img.Pixel(x, y);
    var d := Dest(pos, x, y);
    if Opaque(p) && DestOnSurface(w, h, d) then [Write(Trunc(d.x), Trunc(d.y), DropAlpha(p))] else []
  }

  /** Row y of the image, its first n pixels left to right. */
  function BlitRowWrites(img: Image, pos: Vec2, w: nat, h: nat, y: nat, n: nat): seq<Write>
    requires img.Valid() && y < img.height && n <= img.width
  {
    if n == 0 then [] else BlitRowWrites(img, pos, w, h, y, n - 1) + BlitPixelWrites(img, pos, w, h, n - 1, y)
  }

  /** The first n rows of the image, top to bottom. */
  function BlitRowsWrites(img: Image, pos: Vec2, w: nat, h: nat, n: nat): seq<Write>
    requires img.Valid() && n <= img.height
  {
    if n == 0 then [] else BlitRowsWrites(img, pos, w, h, n - 1) + BlitRowWrites(img, pos, w, h, n - 1, img.width)
  }

  /** Every write of `blit_masked` onto a w-by-h surface, in order. */
  function BlitWrites(img: Image, pos: Vec2, w: nat, h: nat): seq<Write>
    requires img.Valid()
  {
    BlitRowsWrites(img, pos, w, h, img.height)
  }

  /** Write wr is the one image pixel (x, y) asks for: it is opaque, its
      destination passes the bounds test, and wr carries its colour without
      alpha to the truncated destination. */
  predicate Blitted(img: Image, pos: Vec2, w: nat, h: nat, x: nat, y: nat, wr: Write)
    requires img.Valid()
  {
    x < img.width && y < img.height && Opaque(img.Pixel(x, y)) && DestOnSurface(w, h, Dest(pos, x, y)) &&
    wr == Write(Trunc(Dest(pos, x, y).x), Trunc(Dest(pos, x, y).y), DropAlpha(img.Pixel(x, y)))
  }

  // ------------------------------------------------------------------ soundness

  lemma {:induction false} BlitRowSource(img: Image, pos: Vec2, w: nat, h: nat, y: nat, n: nat, k: int) returns (x: nat)
    requires img.Valid() && y < img.height && n <= img.width
    requires 0 <= k < |BlitRowWrites(img, pos, w, h, y, n)|
    ensures x < n && Blitted(img, pos, w, h, x, y, BlitRowWrites(img, pos, w, h, y, n)[k])
    decreases n
  {
    var prev := BlitRowWrites(img, pos, w, h, y, n - 1);
    assert BlitRowWrites(img, pos, w, h, y, n) == prev + BlitPixelWrites(img, pos, w, h, n - 1, y);
    if k < |prev| {
      x := BlitRowSource(img, pos, w, h, y, n - 1, k);
    } else {
      x := n - 1;
    }
  }

  lemma {:induction false} BlitRowsSource(img: Image, pos: Vec2, w: nat, h: nat, n: nat, k: int) returns (x: nat, y: nat)
    requires img.Valid() && n <= img.height
    requires 0 <= k < |BlitRowsWrites(img, pos, w, h, n)|
    ensures y < n && Blitted(img, pos, w, h, x, y, BlitRowsWrites(img, pos, w, h, n)[k])
    decreases n
  {
    var prev := BlitRowsWrites(img, pos, w, h, n - 1);
    var row := BlitRowWrites(img, pos, w, h, n - 1, img.width);
    assert BlitRowsWrites(img, pos, w, h, n) == prev + row;
    if k < |prev| {
      x, y := BlitRowsSource(img, pos, w, h, n - 1, k);
    } else {
      x := BlitRowSource(img, pos, w, h, n - 1, img.width, k - |prev|);
      y := n - 1;
    }
  }

  /** Every write of the blit comes from an opaque image pixel whose
      destination passes the bounds test, and carries that pixel's red, green
      and blue to the truncated destination. */
  lemma BlitSource(img: Image, pos: Vec2, w: nat, h: nat, k: int) returns (x: nat, y: nat)
    requires img.Valid() && 0 <= k < |BlitWrites(img, pos, w, h)|
    ensures Blitted(img, pos, w, h, x, y, BlitWrites(img, pos, w, h)[k])
  {
    x, y := BlitRowsSource(img, pos, w, h, img.height, k);
  }

  /** A destination that passes the real-valued bounds test truncates to a pixel
      of the surface; for such a destination truncation is the floor. */
  lemma DestTrunc(w: nat, h: nat, d: Vec2)
    requires DestOnSurface(w, h, d)
    ensures InSurface(w, h, Trunc(d.x), Trunc(d.y))
    ensures Trunc(d.x) == d.x.Floor && Trunc(d.y) == d.y.Floor
  {
  }

  /** Every write of the blit lands on the surface, whatever the position. */
  lemma BlitInBounds(img: Image, pos: Vec2, w: nat, h: nat)
    requires img.Valid()
    ensures forall k :: 0 <= k < |BlitWrites(img, pos, w, h)| ==>
              InSurface(w, h, BlitWrites(img, pos, w, h)[k].x, BlitWrites(img, pos, w, h)[k].y)
  {
    forall k | 0 <= k < |BlitWrites(img, pos, w, h)|
      ensures InSurface(w, h, BlitWrites(img, pos, w, h)[k].x, BlitWrites(img, pos, w, h)[k].y)
    {
      var x, y := BlitSource(img, pos, w, h, k);
      DestTrunc(w, h, Dest(pos, x, y));
    }
  }

  // --------------------------------------------------------------- completeness

  lemma {:induction false} BlitRowCovers(img: Image, pos: Vec2, w: nat, h: nat, y: nat, n: nat, x: nat)
    requires img.Valid() && y < img.height && x < n <= img.width
    requires Opaque(img.Pixel(x, y)) && DestOnSurface(w, h, Dest(pos, x, y))
    ensures Targets(BlitRowWrites(img, pos, w, h, y, n), Trunc(Dest(pos, x, y).x), Trunc(Dest(pos, x, y).y))
    decreases n
  {
    var prev := BlitRowWrites(img, pos, w, h, y, n - 1);
    var r := BlitRowWrites(img, pos, w, h, y, n);
    var d := Dest(pos, x, y);
    assert r == prev + BlitPixelWrites(img, pos, w, h, n - 1, y);
    if x == n - 1 {
      assert r[|prev|].x == Trunc(d.x) && r[|prev|].y == Trunc(d.y);
    } else {
      BlitRowCovers(img, pos, w, h, y, n - 1, x);
      var k :| 0 <= k < |prev| && prev[k].x == Trunc(d.x) && prev[k].y == Trunc(d.y);
      assert r[k] == prev[k];
    }
  }

  lemma {:induction false} BlitRowsCovers(img: Image, pos: Vec2, w: nat, h: nat, n: nat, x: nat, y: nat)
    requires img.Valid() && x < img.width && y < n <= img.height
    requires Opaque(img.Pixel(x, y)) && DestOnSurface(w, h, Dest(pos, x, y))
    ensures Targets(BlitRowsWrites(img, pos, w, h, n), Trunc(Dest(pos, x, y).x), Trunc(Dest(pos, x, y).y))
    decreases n
  {
    var prev := BlitRowsWrites(img, pos, w, h, n - 1);
    var row := BlitRowWrites(img, pos, w, h, n - 1, img.width);
    var r := BlitRowsWrites(img, pos, w, h, n);
    var d := Dest(pos, x, y);
    assert r == prev + row;
    if y == n - 1 {
      BlitRowCovers(img, pos, w, h, y, img.width, x);
      var k :| 0 <= k < |row| && row[k].x == Trunc(d.x) && row[k].y == Trunc(d.y);
      assert r[|prev| + k] == row[k];
    } else {
      BlitRowsCovers(img, pos, w, h, n - 1, x, y);
      var k :| 0 <= k < |prev| && prev[k].x == Trunc(d.x) && prev[k].y == Trunc(d.y);
      assert r[k] == prev[k];
    }
  }

  // ------------------------------------------------------------------ the result

  /** The image pixel that lands on surface column or row c: destinations are
      the floor of the position plus the pixel offset. */
  function SourceOffset(p: real, c: int): int {
    c - p.Floor
  }

  /** Whether surface pixel (sx, sy) receives a pixel of the image. */
  predicate Receives(img: Image, pos: Vec2, sx: int, sy: int)
    requires img.Valid()
  {
    var x, y := SourceOffset(pos.x, sx), SourceOffset(pos.y, sy);
    0 <= x < img.width && 0 <= y < img.height && Opaque(img.Pixel(x, y))
  }

  /** An image pixel lands on (sx, sy) only if it is the one at the source
      offsets of sx and sy. */
  lemma LandsAt(img: Image, pos: Vec2, w: nat, h: nat, x: nat, y: nat, sx: int, sy: int)
    requires img.Valid() && DestOnSurface(w, h, Dest(pos, x, y))
    requires Trunc(Dest(pos, x, y).x) == sx && Trunc(Dest(pos, x, y).y) == sy
    ensures x == SourceOffset(pos.x, sx) && y == SourceOffset(pos.y, sy)
  {
    DestTrunc(w, h, Dest(pos, x, y));
  }

  /** What the blit leaves in each surface pixel: the red, green and blue of the
      opaque image pixel that lands there, and the old colour where none does
      (outside the image's footprint, or under a transparent image pixel).
      Distinct image pixels never land on the same surface pixel. */
  lemma BlitPaint(buf: seq<byte>, img: Image, pos: Vec2, w: nat, h: nat, sx: int, sy: int)
    requires |buf| == 4 * (w * h) && img.Valid() && InSurface(w, h, sx, sy)
    ensures PixelAt(Paint(buf, w, h, BlitWrites(img, pos, w, h)), w, h, sx, sy) ==
            if Receives(img, pos, sx, sy)
            then DropAlpha(img.Pixel(SourceOffset(pos.x, sx), SourceOffset(pos.y, sy)))
            else PixelAt(buf, w, h, sx, sy)
  {
    var ws := BlitWrites(img, pos, w, h);
    var x, y := SourceOffset(pos.x, sx), SourceOffset(pos.y, sy);
    var c := if Receives(img, pos, sx, sy) then DropAlpha(img.Pixel(x, y)) else Black;
    forall k | 0 <= k < |ws| && ws[k].x == sx && ws[k].y == sy
      ensures ws[k].c == c
    {
      var x', y' := BlitSource(img, pos, w, h, k);
      LandsAt(img, pos, w, h, x', y', sx, sy);
    }
    LastWriteUniform(ws, sx, sy, c);
    if Targets(ws, sx, sy) {
      var k :| 0 <= k < |ws| && ws[k].x == sx && ws[k].y == sy;
      var x', y' := BlitSource(img, pos, w, h, k);
      LandsAt(img, pos, w, h, x', y', sx, sy);
    }
    if Receives(img, pos, sx, sy) {
      var d := Dest(pos, x, y);
      assert DestOnSurface(w, h, d);
      DestTrunc(w, h, d);
      BlitRowsCovers(img, pos, w, h, img.height, x, y);
    }
    PaintPixel(buf, w, h, ws, sx, sy);
  }

  /** At an integral position (px, py), surface pixel (sx, sy) receives image
      pixel (sx - px, sy - py) when that pixel exists and is opaque, and keeps
      its colour otherwise. */
  lemma BlitPaintIntegral(buf: seq<byte>, img: Image, px: int, py: int, w: nat, h: nat, sx: int, sy: int)
    requires |buf| == 4 * (w * h) && img.Valid() && InSurface(w, h, sx, sy)
    ensures PixelAt(Paint(buf, w, h, BlitWrites(img, Vec2(px as real, py as real), w, h)), w, h, sx, sy) ==
            if 0 <= sx - px < img.width && 0 <= sy - py < img.height && Opaque(img.Pixel(sx - px, sy - py))
            then DropAlpha(img.Pixel(sx - px, sy - py))
            else PixelAt(buf, w, h, sx, sy)
  {
    var pos := Vec2(px as real, py as real);
    assert SourceOffset(pos.x, sx) == sx - px && SourceOffset(pos.y, sy) == sy - py;
    BlitPaint(buf, img, pos, w, h, sx, sy);
  }

  // ------------------------------------------------------------------ the method

  /** The surface after image pixel (x, y) is handled: its colour without alpha
      at the truncated destination when the pixel is opaque and the destination
      passes the bounds test, unchanged otherwise. */
  function BlitPixelOnto(buf: seq<byte>, w: nat, h: nat, img: Image, pos: Vec2, x: nat, y: nat): (r: seq<byte>)
    requires |buf| == 4 * (w * h) && img.Valid() && x < img.width && y < img.height
    ensures |r| == |buf|
  {
    var p, d := img.Pixel(x, y), Dest(pos, x, y);
    if Opaque(p) && DestOnSurface(w, h, d) then
      DestTrunc(w, h, d);
      SetPixelBytes(buf, w, h, Trunc(d.x), Trunc(d.y), DropAlpha(p))
    else buf
  }

  /** The surface after the first n pixels of image row y are handled. */
  function RowSoFar(buf: seq<byte>, w: nat, h: nat, img: Image, pos: Vec2, y: nat, n: nat): (r: seq<byte>)
    requires |buf| == 4 * (w * h) && img.Valid() && y < img.height && n <= img.width
    ensures |r| == |buf|
  {
    if n == 0 then buf else BlitPixelOnto(RowSoFar(buf, w, h, img, pos, y, n - 1), w, h, img, pos, n - 1, y)
  }

  /** The surface after the first n rows of the image are handled. */
  function RowsSoFar(buf: seq<byte>, w: nat, h: nat, img: Image, pos: Vec2, n: nat): (r: seq<byte>)
    requires |buf| == 4 * (w * h) && img.Valid() && n <= img.height
    ensures |r| == |buf|
  {
    if n == 0 then buf else RowSoFar(RowsSoFar(buf, w, h, img, pos, n - 1), w, h, img, pos, n - 1, img.width)
  }

  /** Painting the write of one image pixel is handling that pixel. */
  lemma BlitPixelPaint(buf: seq<byte>, w: nat, h: nat, img: Image, pos: Vec2, x: nat, y: nat)
    requires |buf| == 4 * (w * h) && img.Valid() && x < img.width && y < img.height
    ensures Paint(buf, w, h, BlitPixelWrites(img, pos, w, h, x, y)) == BlitPixelOnto(buf, w, h, img, pos, x, y)
  {
    var p, d := img.Pixel(x, y), Dest(pos, x, y);
    if DestOnSurface(w, h, d) {
      DestTrunc(w, h, d);
    }
    PaintSnoc(buf, w, h, [], Write(Trunc(d.x), Trunc(d.y), DropAlpha(p)));
    assert [] + [Write(Trunc(d.x), Trunc(d.y), DropAlpha(p))] == [Write(Trunc(d.x), Trunc(d.y), DropAlpha(p))];
  }

  /** Handling the first n pixels of row y paints that row's writes so far. */
  lemma {:induction false} RowSoFarPaint(buf: seq<byte>, w: nat, h: nat, img: Image, pos: Vec2, y: nat, n: nat)
    requires |buf| == 4 * (w * h) && img.Valid() && y < img.height && n <= img.width
    ensures RowSoFar(buf, w, h, img, pos, y, n) == Paint(buf, w, h, BlitRowWrites(img, pos, w, h, y, n))
  {
    if n > 0 {
      RowSoFarPaint(buf, w, h, img, pos, y, n - 1);
      PaintAppend(buf, w, h, BlitRowWrites(img, pos, w, h, y, n - 1), BlitPixelWrites(img, pos, w, h, n - 1, y));
      BlitPixelPaint(RowSoFar(buf, w, h, img, pos, y, n - 1), w, h, img, pos, n - 1, y);
    }
  }

  /** Handling the first n rows paints the blit's writes so far. */
  lemma {:induction false} RowsSoFarPaint(buf: seq<byte>, w: nat, h: nat, img: Image, pos: Vec2, n: nat)
    requires |buf| == 4 * (w * h) && img.Valid() && n <= img.height
    ensures RowsSoFar(buf, w, h, img, pos, n) == Paint(buf, w, h, BlitRowsWrites(img, pos, w, h, n))
  {
    if n > 0 {
      var prev := RowsSoFar(buf, w, h, img, pos, n - 1);
      RowsSoFarPaint(buf, w, h, img, pos, n - 1);
      PaintAppend(buf, w, h, BlitRowsWrites(img, pos, w, h, n - 1), BlitRowWrites(img, pos, w, h, n - 1, img.width));
      RowSoFarPaint(prev, w, h, img, pos, n - 1, img.width);
    }
  }

  /** `blit_masked`: rows of the image top to bottom, each left to right. */
  method BlitMasked(s: Surface, img: Image, pos: Vec2)
    requires s.Valid() && img.Valid()
    modifies s.data
    ensures s.data[..] == Paint(old(s.data[..]), s.width, s.height, BlitWrites(img, pos, s.width, s.height))
  {
    ghost var w, h, buf := s.width, s.height, s.data[..];
    var y := 0;
    while y < img.height
      invariant y <= img.height
      invariant s.data[..] == RowsSoFar(buf, w, h, img, pos, y)
    {
      BlitRow(s, img, pos, y);
      y := y + 1;
    }
    RowsSoFarPaint(buf, w, h, img, pos, img.height);
  }

  /** The inner loop of `blit_masked`: row y of the image, left to right. */
  method BlitRow(s: Surface, img: Image, pos: Vec2, y: nat)
    requires s.Valid() && img.Valid() && y < img.height
    modifies s.data
    ensures s.data[..] == RowSoFar(old(s.data[..]), s.width, s.height, img, pos, y, img.width)
    ensures s.data[..] == Paint(old(s.data[..]), s.width, s.height, BlitRowWrites(img, pos, s.width, s.height, y, img.width))
  {
    ghost var w, h, buf := s.width, s.height, s.data[..];
    var x := 0;
    while x < img.width
      invariant x <= img.width
      invariant s.data[..] == RowSoFar(buf, w, h, img, pos, y, x)
    {
      BlitPixel(s, img, pos, x, y);
      x := x + 1;
    }
    RowSoFarPaint(buf, w, h, img, pos, y, img.width);
  }

  /** The body of the inner loop of `blit_masked`: image pixel (x, y) is drawn
      when its alpha is at least 128 and its destination lies on the surface. */
  method BlitPixel(s: Surface, img: Image, pos: Vec2, x: nat, y: nat)
    requires s.Valid() && img.Valid() && x < img.width && y < img.height
    modifies s.data
    ensures s.data[..] == BlitPixelOnto(old(s.data[..]), s.width, s.height, img, pos, x, y)
    ensures s.data[..] == Paint(old(s.data[..]), s.width, s.height, BlitPixelWrites(img, pos, s.width, s.height, x, y))
  {
    BlitPixelPaint(s.data[..], s.width, s.height, img, pos, x, y);
    var pixel := img.Pixel(x, y);
    if pixel.a >= 128 {
      var destX := pos.x + x as real;
      var destY := pos.y + y as real;
      var converted := ColorU8(pixel.r, pixel.g, pixel.b);
      if destX >= 0.0 && destX < s.width as real && destY >= 0.0 && destY < s.height as real {
        DestTrunc(s.width, s.height, Vec2(destX, destY));
        s.SetPixelSrgb(Trunc(destX), Trunc(destY), converted);
      }
    }
  }
}
