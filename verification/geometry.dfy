/**
  Two-dimensional vectors over the reals. The renderer computes in 32-bit
  floats; here every quantity is an exact real number, an idealisation that
  ignores rounding, infinities and NaNs.

  The vector helpers are not part of this model's sources; they are defined
  with their conventional formulas: `perp` rotates a quarter turn
  counter-clockwise, `perp(v) = (-v.y, v.x)`, and
  `perp_dot(a, b) = a.x*b.y - a.y*b.x`.
 */
module Geometry {

  datatype Vec2 = Vec2(x: real, y: real)

  const Zero := Vec2(0.0, 0.0)

  function Add(a: Vec2, b: Vec2): Vec2 {
    Vec2(a.x + b.x, a.y + b.y)
  }

  function Sub(a: Vec2, b: Vec2): Vec2 {
    Vec2(a.x - b.x, a.y - b.y)
  }

  /** `vec2_mul`: scale a vector by a real factor. */
  function Mul(v: Vec2, k: real): Vec2 {
    Vec2(v.x * k, v.y * k)
  }

  function Dot(a: Vec2, b: Vec2): real {
    a.x * b.x + a.y * b.y
  }

  /** Quarter turn counter-clockwise. */
  function Perp(v: Vec2): Vec2 {
    Vec2(-v.y, v.x)
  }

  /** The 2D cross product. */
  function PerpDot(a: Vec2, b: Vec2): real {
    a.x * b.y - a.y * b.x
  }

  lemma DotScale(a: Vec2, b: Vec2, k: real)
    ensures Dot(a, Mul(b, k)) == k * Dot(a, b)
  {
  }

  /** The product of two positive reals is positive. */
  lemma MulPositive(a: real, b: real)
    requires a > 0.0 && b > 0.0
    ensures a * b > 0.0
  {
  }

  /** A non-zero factor cancels from both sides of an equation. */
  lemma CancelFactor(a: real, b: real, k: real)
    requires k != 0.0 && a * k == b * k
    ensures a == b
  {
    assert (a - b) * k == 0.0;
  }
}
