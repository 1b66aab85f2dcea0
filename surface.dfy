/** The pixel surface (draw2d/surface.hpp, draw2d/surface.cpp).

    A surface of width w and height h owns 4*w*h bytes. Pixel (x, y) is stored at
    bytes 4*(y*w + x) .. 4*(y*w + x) + 3 as red, green, blue and one padding byte.

    Every drawing routine is described by the sequence of pixel writes it asks
    for (a `Write` per candidate pixel, in the order the routine produces them);
    `Paint` gives the buffer after those writes, discarding every candidate that
    lies outside the surface, which is how the routines clip. */
module Surfaces {
  import opened Colors
  import opened Wrappers

  /** Largest value of the surface's `Index` type (`std::uint32_t`). */
  const MaxIndex: nat := 0xFFFF_FFFF

  predicate InSurface(w: nat, h: nat, x: int, y: int) {
    0 <= x < w && 0 <= y < h
  }

  /** Linear pixel index of (x, y) in a row-major surface of width w. */
  function PixelIndex(w: nat, x: nat, y: nat): nat {
    y * w + x
  }

  lemma MulMonotone(a: nat, b: nat, c: nat)
    requires a <= b
    ensures a * c <= b * c
  {
    assert b * c == a * c + (b - a) * c;
  }

  /** Each in-surface pixel has its own index below w*h. */
  lemma PixelIndexBounds(w: nat, h: nat, x: nat, y: nat)
    requires x < w && y < h
    ensures PixelIndex(w, x, y) < w * h
  {
    MulMonotone(y + 1, h, w);
  }

  lemma PixelIndexInjective(w: nat, x: nat, y: nat, x': nat, y': nat)
    requires x < w && x' < w
    requires PixelIndex(w, x, y) == PixelIndex(w, x', y')
    ensures x == x' && y == y'
  {
    if y < y' {
      MulMonotone(y + 1, y', w);
      assert false;
    } else if y' < y {
      MulMonotone(y' + 1, y, w);
      assert false;
    }
  }

  /** The colour stored at linear pixel index p. */
  function PixelOfIndex(buf: seq<byte>, p: nat): ColorU8
    requires 4 * p + 3 < |buf|
  {
    ColorU8(buf[4 * p], buf[4 * p + 1], buf[4 * p + 2])
  }

  /** The buffer with the colour bytes of linear pixel index p set to c. */
  function SetIndexBytes(buf: seq<byte>, p: nat, c: ColorU8): (r: seq<byte>)
    requires 4 * p + 3 < |buf|
    ensures |r| == |buf|
  {
    buf[4 * p := c.r][4 * p + 1 := c.g][4 * p + 2 := c.b]
  }

  /** Writing pixel p leaves the four bytes of any other pixel q, and the
      padding byte of p, as they were. */
  lemma SetIndexEffect(buf: seq<byte>, p: nat, q: nat, c: ColorU8)
    requires 4 * p + 3 < |buf| && 4 * q + 3 < |buf|
    ensures PixelOfIndex(SetIndexBytes(buf, p, c), q) == if p == q then c else PixelOfIndex(buf, q)
    ensures SetIndexBytes(buf, p, c)[4 * q + 3] == buf[4 * q + 3]
  {
  }

  /** The colour of pixel (x, y) of a buffer laid out as above. */
  function PixelAt(buf: seq<byte>, w: nat, h: nat, x: int, y: int): ColorU8
    requires |buf| == 4 * (w * h) && InSurface(w, h, x, y)
  {
    PixelIndexBounds(w, h, x, y);
    PixelOfIndex(buf, PixelIndex(w, x, y))
  }

  /** Pixel (x, y) is on the surface and drawn. */
  predicate Lit(buf: seq<byte>, w: nat, h: nat, x: int, y: int)
    requires |buf| == 4 * (w * h)
  {
    InSurface(w, h, x, y) && IsLit(PixelAt(buf, w, h, x, y))
  }

  /** The effect of `set_pixel_srgb(x, y, c)`: the pixel's three colour bytes
      become c's channels. */
  function SetPixelBytes(buf: seq<byte>, w: nat, h: nat, x: int, y: int, c: ColorU8): (r: seq<byte>)
    requires |buf| == 4 * (w * h) && InSurface(w, h, x, y)
    ensures |r| == |buf|
  {
    PixelIndexBounds(w, h, x, y);
    SetIndexBytes(buf, PixelIndex(w, x, y), c)
  }

  /** Setting one pixel changes that pixel to c and leaves every other pixel,
      and every padding byte, unchanged. */
  lemma SetPixelEffect(buf: seq<byte>, w: nat, h: nat, x: int, y: int, c: ColorU8, x': int, y': int)
    requires |buf| == 4 * (w * h) && InSurface(w, h, x, y) && InSurface(w, h, x', y')
    ensures PixelAt(SetPixelBytes(buf, w, h, x, y, c), w, h, x', y') ==
            if x' == x && y' == y then c else PixelAt(buf, w, h, x', y')
    ensures PixelIndex(w, x', y') < w * h
    ensures SetPixelBytes(buf, w, h, x, y, c)[4 * PixelIndex(w, x', y') + 3] == buf[4 * PixelIndex(w, x', y') + 3]
  {
    PixelIndexBounds(w, h, x, y);
    PixelIndexBounds(w, h, x', y');
    var p, q := PixelIndex(w, x, y), PixelIndex(w, x', y');
    var r := SetIndexBytes(buf, p, c);
    assert SetPixelBytes(buf, w, h, x, y, c) == r;
    assert PixelAt(r, w, h, x', y') == PixelOfIndex(r, q);
    assert PixelAt(buf, w, h, x', y') == PixelOfIndex(buf, q);
    SetIndexEffect(buf, p, q, c);
    if x' != x || y' != y {
      if p == q {
        PixelIndexInjective(w, x, y, x', y');
      }
    }
  }

  /** One `set_pixel_srgb` candidate. */
  datatype Write = Write(x: int, y: int, c: ColorU8)

  /** The buffer after the candidate writes ws, in order; candidates outside the
      surface are discarded. */
  function Paint(buf: seq<byte>, w: nat, h: nat, ws: seq<Write>): (r: seq<byte>)
    requires |buf| == 4 * (w * h)
    ensures |r| == |buf|
    decreases |ws|
  {
    if ws == [] then buf
    else
      var prev := Paint(buf, w, h, ws[..|ws| - 1]);
      var last := ws[|ws| - 1];
      if InSurface(w, h, last.x, last.y) then SetPixelBytes(prev, w, h, last.x, last.y, last.c) else prev
  }

  /** Painting one more write: the buffer so far, with that pixel set when it
      lies on the surface. */
  lemma PaintSnoc(buf: seq<byte>, w: nat, h: nat, ws: seq<Write>, wr: Write)
    requires |buf| == 4 * (w * h)
    ensures Paint(buf, w, h, ws + [wr]) ==
            if InSurface(w, h, wr.x, wr.y) then SetPixelBytes(Paint(buf, w, h, ws), w, h, wr.x, wr.y, wr.c)
            else Paint(buf, w, h, ws)
  {
    assert (ws + [wr])[..|ws|] == ws;
  }

  /** Painting the first n + 1 writes: the first n, then write n. */
  lemma PaintPrefix(buf: seq<byte>, w: nat, h: nat, ws: seq<Write>, n: nat)
    requires |buf| == 4 * (w * h) && n < |ws|
    ensures Paint(buf, w, h, ws[..n + 1]) ==
            if InSurface(w, h, ws[n].x, ws[n].y) then SetPixelBytes(Paint(buf, w, h, ws[..n]), w, h, ws[n].x, ws[n].y, ws[n].c)
            else Paint(buf, w, h, ws[..n])
    ensures n + 1 == |ws| ==> ws[..n + 1] == ws
  {
    assert ws[..n + 1] == ws[..n] + [ws[n]];
    PaintSnoc(buf, w, h, ws[..n], ws[n]);
  }

  /** The colour of the last candidate aimed at (x, y), if any. */
  function LastWrite(ws: seq<Write>, x: int, y: int): Option<ColorU8>
    decreases |ws|
  {
    if ws == [] then None
    else if ws[|ws| - 1].x == x && ws[|ws| - 1].y == y then Some(ws[|ws| - 1].c)
    else LastWrite(ws[..|ws| - 1], x, y)
  }

  predicate Targets(ws: seq<Write>, x: int, y: int) {
    exists k :: 0 <= k < |ws| && ws[k].x == x && ws[k].y == y
  }

  /** What every pixel of a painted buffer holds: the colour of the last write
      aimed at it, or its old colour when none was. */
  lemma {:induction false} PaintPixel(buf: seq<byte>, w: nat, h: nat, ws: seq<Write>, x: int, y: int)
    requires |buf| == 4 * (w * h) && InSurface(w, h, x, y)
    ensures PixelAt(Paint(buf, w, h, ws), w, h, x, y) == LastWrite(ws, x, y).GetOr(PixelAt(buf, w, h, x, y))
    decreases |ws|
  {
    if ws != [] {
      var init := ws[..|ws| - 1];
      var last := ws[|ws| - 1];
      PaintPixel(buf, w, h, init, x, y);
      if InSurface(w, h, last.x, last.y) {
        SetPixelEffect(Paint(buf, w, h, init), w, h, last.x, last.y, last.c, x, y);
      }
    }
  }

  /** Painting never touches a padding byte. */
  lemma {:induction false} PaintPadding(buf: seq<byte>, w: nat, h: nat, ws: seq<Write>, x: int, y: int)
    requires |buf| == 4 * (w * h) && InSurface(w, h, x, y)
    ensures 4 * PixelIndex(w, x, y) + 3 < |buf|
    ensures Paint(buf, w, h, ws)[4 * PixelIndex(w, x, y) + 3] == buf[4 * PixelIndex(w, x, y) + 3]
    decreases |ws|
  {
    PixelIndexBounds(w, h, x, y);
    if ws != [] {
      var init := ws[..|ws| - 1];
      var last := ws[|ws| - 1];
      PaintPadding(buf, w, h, init, x, y);
      if InSurface(w, h, last.x, last.y) {
        SetPixelEffect(Paint(buf, w, h, init), w, h, last.x, last.y, last.c, x, y);
      }
    }
  }

  /** Painting two batches one after the other is painting their concatenation. */
  lemma {:induction false} PaintAppend(buf: seq<byte>, w: nat, h: nat, a: seq<Write>, b: seq<Write>)
    requires |buf| == 4 * (w * h)
    ensures Paint(buf, w, h, a + b) == Paint(Paint(buf, w, h, a), w, h, b)
    decreases |b|
  {
    if b != [] {
      var b' := b[..|b| - 1];
      PaintAppend(buf, w, h, a, b');
      assert (a + b)[..|a + b| - 1] == a + b';
      var prev := Paint(buf, w, h, a + b');
      assert prev == Paint(Paint(buf, w, h, a), w, h, b');
    } else {
      assert a + b == a;
    }
  }

  /** A batch of writes that all miss the surface leaves it as it was. */
  lemma {:induction false} PaintOffSurface(buf: seq<byte>, w: nat, h: nat, ws: seq<Write>)
    requires |buf| == 4 * (w * h)
    requires forall k :: 0 <= k < |ws| ==> !InSurface(w, h, ws[k].x, ws[k].y)
    ensures Paint(buf, w, h, ws) == buf
    decreases |ws|
  {
    if ws != [] {
      PaintOffSurface(buf, w, h, ws[..|ws| - 1]);
    }
  }

  /** When every write aimed at (x, y) carries colour c, the last one does too. */
  lemma {:induction false} LastWriteUniform(ws: seq<Write>, x: int, y: int, c: ColorU8)
    requires forall k :: 0 <= k < |ws| && ws[k].x == x && ws[k].y == y ==> ws[k].c == c
    ensures LastWrite(ws, x, y) == if Targets(ws, x, y) then Some(c) else None
    decreases |ws|
  {
    if ws != [] {
      var init := ws[..|ws| - 1];
      LastWriteUniform(init, x, y, c);
      if !(ws[|ws| - 1].x == x && ws[|ws| - 1].y == y) {
        if Targets(ws, x, y) {
          var k :| 0 <= k < |ws| && ws[k].x == x && ws[k].y == y;
          assert init[k].x == x && init[k].y == y;
        }
        if Targets(init, x, y) {
          var k :| 0 <= k < |init| && init[k].x == x && init[k].y == y;
          assert ws[k] == init[k];
        }
      }
    }
  }

  /** Buffer of n bytes, all zero: what `clear()` leaves. */
  function Zeroes(n: nat): (r: seq<byte>)
    ensures |r| == n
  {
    seq(n, _ => 0)
  }

  /** Channel k (0 red, 1 green, 2 blue, 3 padding) of a filled pixel. */
  function FillChannel(c: ColorU8, k: int): byte {
    if k == 0 then c.r else if k == 1 then c.g else if k == 2 then c.b else 0
  }

  /** Buffer of n pixels all holding c with padding 0: what `fill(c)` leaves. */
  function Filled(n: nat, c: ColorU8): (r: seq<byte>)
    ensures |r| == 4 * n
  {
    seq(4 * n, k => FillChannel(c, k % 4))
  }

  /** One more pixel of fill colour appends its four bytes. */
  lemma FilledNext(n: nat, c: ColorU8)
    ensures Filled(n + 1, c) == Filled(n, c) + [c.r, c.g, c.b, 0]
  {
    var a, b := Filled(n + 1, c), Filled(n, c) + [c.r, c.g, c.b, 0];
    forall k | 0 <= k < |a|
      ensures a[k] == b[k]
    {
      if k >= 4 * n {
        assert k % 4 == k - 4 * n;
      }
    }
  }

  lemma FilledPixels(w: nat, h: nat, c: ColorU8, x: int, y: int)
    requires InSurface(w, h, x, y)
    ensures PixelAt(Filled(w * h, c), w, h, x, y) == c
    ensures PixelIndex(w, x, y) < w * h && Filled(w * h, c)[4 * PixelIndex(w, x, y) + 3] == 0
  {
    PixelIndexBounds(w, h, x, y);
    var i := 4 * PixelIndex(w, x, y);
    assert i % 4 == 0 && (i + 1) % 4 == 1 && (i + 2) % 4 == 2 && (i + 3) % 4 == 3;
  }

  /** Filling with black gives the same bytes as clearing. */
  lemma FillBlackIsClear(n: nat)
    ensures Filled(n, Black) == Zeroes(4 * n)
  {
  }

  /** A pixel surface; `data` is the `mSurface` byte buffer. */
  class Surface {
    var width: nat
    var height: nat
    var data: array<byte>

    ghost predicate Valid()
      reads this
    {
      width <= MaxIndex && height <= MaxIndex &&
      data.Length == 4 * (width * height) && data.Length <= MaxIndex
    }

    /** `Surface(w, h)`: the buffer is allocated but not initialised. The source
        computes the byte count `w*h*4` in 32-bit arithmetic, so it must not wrap. */
    constructor (w: nat, h: nat)
      requires w <= MaxIndex && h <= MaxIndex && 4 * (w * h) <= MaxIndex
      ensures Valid() && fresh(data)
      ensures width == w && height == h && data.Length == 4 * (w * h)
    {
      width, height := w, h;
      data := new byte[4 * (w * h)];
    }

    /** Move constructor: takes over the other surface's buffer and size; the
        other surface is left 0 x 0 with an empty buffer (the source's null). */
    constructor MoveFrom(other: Surface)
      requires other.Valid()
      modifies other
      ensures Valid() && other.Valid()
      ensures width == old(other.width) && height == old(other.height) && data == old(other.data)
      ensures other.width == 0 && other.height == 0 && other.data.Length == 0
    {
      width, height, data := other.width, other.height, other.data;
      other.width, other.height := 0, 0;
      other.data := new byte[0];
    }

    /** Move assignment: the two surfaces exchange buffers and sizes. */
    method MoveAssign(other: Surface)
      requires Valid() && other.Valid()
      modifies this, other
      ensures Valid() && other.Valid()
      ensures data == old(other.data) && width == old(other.width) && height == old(other.height)
      ensures other.data == old(data) && other.width == old(width) && other.height == old(height)
    {
      var d, w, h := data, width, height;
      data, width, height := other.data, other.width, other.height;
      other.data, other.width, other.height := d, w, h;
    }

    /** `clear()`: every byte becomes 0; the size is unchanged. */
    method Clear()
      requires Valid()
      modifies data
      ensures data[..] == Zeroes(data.Length)
    {
      forall i | 0 <= i < data.Length {
        data[i] := 0;
      }
    }

    /** `fill(c)`: every pixel becomes c with padding byte 0. The new contents do
        not depend on the old ones, so filling twice equals filling once. */
    method Fill(c: ColorU8)
      requires Valid()
      modifies data
      ensures data[..] == Filled(width * height, c)
    {
      var limit := 4 * (width * height);
      var i := 0;
      ghost var n := width * height;
      ghost var p := 0;
      while i < limit
        invariant i == 4 * p && p <= n && limit == 4 * n
        invariant data[..i] == Filled(p, c)
      {
        data[i] := c.r;
        data[i + 1] := c.g;
        data[i + 2] := c.b;
        data[i + 3] := 0;
        FilledNext(p, c);
        assert data[..i + 4] == data[..i] + [c.r, c.g, c.b, 0];
        i, p := i + 4, p + 1;
      }
      assert data[..] == data[..i];
    }

    /** Reads pixel (x, y) the way the test helpers do through the raw buffer:
        the three colour bytes at y * stride + 4 * x, with stride 4 * width. */
    method Peek(x: nat, y: nat) returns (c: ColorU8)
      requires Valid() && x < width && y < height
      ensures c == PixelAt(data[..], width, height, x, y)
    {
      PixelIndexBounds(width, height, x, y);
      var stride := 4 * width;
      var idx := y * stride + 4 * x;
      assert idx == 4 * PixelIndex(width, x, y);
      c := ColorU8(data[idx], data[idx + 1], data[idx + 2]);
    }

    /** `set_pixel_srgb(x, y, c)`; the caller guarantees x < width and y < height. */
    method SetPixelSrgb(x: nat, y: nat, c: ColorU8)
      requires Valid() && x < width && y < height
      modifies data
      ensures data[..] == SetPixelBytes(old(data[..]), width, height, x, y, c)
      ensures var i := 4 * PixelIndex(width, x, y);
              i + 2 < data.Length && data[i] == c.r && data[i + 1] == c.g && data[i + 2] == c.b &&
              forall k :: 0 <= k < data.Length && k != i && k != i + 1 && k != i + 2 ==> data[k] == old(data[k])
    {
      PixelIndexBounds(width, height, x, y);
      var i := 4 * (y * width + x);
      data[i] := c.r;
      data[i + 1] := c.g;
      data[i + 2] := c.b;
    }
  }
}
