/** 2D vectors and matrices (vmlib/vec2.hpp, vmlib/mat22.hpp) over `real`, and
    C++'s float-to-int conversion `static_cast<int>`, which truncates toward zero. */
module Geometry {

  datatype Vec2 = Vec2(x: real, y: real)

  /** Row-major 2x2 matrix, as `Mat22f`. */
  datatype Mat22 = Mat22(m00: real, m01: real, m10: real, m11: real)

  function Add(a: Vec2, b: Vec2): Vec2 {
    Vec2(a.x + b.x, a.y + b.y)
  }

  /** Matrix times column vector. */
  function MulVec(m: Mat22, v: Vec2): Vec2 {
    Vec2(m.m00 * v.x + m.m01 * v.y, m.m10 * v.x + m.m11 * v.y)
  }

  /** The vertex transform of the shape aggregates: rotation * v + translation. */
  function Transform(rot: Mat22, t: Vec2, v: Vec2): Vec2 {
    Add(MulVec(rot, v), t)
  }

  /** Conversion to `int` rounding toward zero. */
  function Trunc(r: real): (n: int)
    ensures r >= 0.0 ==> n as real <= r < n as real + 1.0
    ensures r < 0.0 ==> n as real - 1.0 < r <= n as real
  {
    if r >= 0.0 then r.Floor else -((-r).Floor)
  }

  lemma TruncMonotone(a: real, b: real)
    requires a <= b
    ensures Trunc(a) <= Trunc(b)
  {
  }

  /** When two values truncate to different integers, comparing the values and
      comparing the integers agree. */
  lemma TruncOrder(a: real, b: real)
    requires Trunc(a) != Trunc(b)
    ensures (a < b) == (Trunc(a) < Trunc(b))
  {
    if a >= b {
      TruncMonotone(b, a);
    } else {
      TruncMonotone(a, b);
    }
  }

  lemma TruncOfInt(n: int)
    ensures Trunc(n as real) == n
  {
  }

  function Abs(n: int): nat {
    if n < 0 then -n else n
  }

  function Min3(a: real, b: real, c: real): real {
    if a < b then (if a < c then a else c) else (if b < c then b else c)
  }

  function Max3(a: real, b: real, c: real): real {
    if a > b then (if a > c then a else c) else (if b > c then b else c)
  }
}
