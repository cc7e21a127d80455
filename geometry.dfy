/** Shared vocabulary of the erosion model: 2-D points and vectors, grid
    dimensions, the row-major cell layout, and the few real-valued helpers
    (min, max, square, floor/ceiling) that the simulation is written in. */
module Geometry {

  /** A point or a vector in the plane (nalgebra's `Vector2<f32>`). */
  datatype Vec2 = Vec2(x: real, y: real)

  function Add(a: Vec2, b: Vec2): Vec2 { Vec2(a.x + b.x, a.y + b.y) }

  function Sub(a: Vec2, b: Vec2): Vec2 { Vec2(a.x - b.x, a.y - b.y) }

  function Scale(a: Vec2, k: real): Vec2 { Vec2(a.x * k, a.y * k) }

  /** Width and height of the height field, in cells (`dims: (usize, usize)`). */
  datatype Dims = Dims(w: nat, h: nat)

  function Sq(x: real): real { x * x }

  /** `f32::min` on non-NaN operands. */
  function Min(a: real, b: real): real { if a <= b then a else b }

  /** `f32::max` on non-NaN operands. */
  function Max(a: real, b: real): real { if a >= b then a else b }

  /** `f32::ceil` followed by a cast to an integer. */
  function Ceil(x: real): int { -((-x).Floor) }

  /** `sqrt` is a square root on the non-negative reals: the only property of
      the floating-point square root that the model relies on. */
  ghost predicate IsSqrt(sqrt: real -> real)
  {
    forall x :: 0.0 <= x ==> 0.0 <= sqrt(x) && sqrt(x) * sqrt(x) == x
  }

  /** Row-major index of cell (x, y) in a grid of width w: `y * w + x`. */
  function RowMajor(x: nat, y: nat, w: nat): nat { y * w + x }

  /** The continuous box `[0, w-1) x [0, h-1)` that a raindrop must stay in:
      every point of it has a full bilinear cell to its south-east. */
  predicate InBox(p: Vec2, dims: Dims)
  {
    0.0 <= p.x < dims.w as real - 1.0 && 0.0 <= p.y < dims.h as real - 1.0
  }

  lemma MulLeft(a: int, b: int, c: int)
    requires 0 <= c && a <= b
    ensures a * c <= b * c
  {
  }

  /** Every cell of a w x h grid has a row-major index below w * h. */
  lemma RowMajorInGrid(x: nat, y: nat, dims: Dims)
    requires x < dims.w && y < dims.h
    ensures RowMajor(x, y, dims.w) < dims.w * dims.h
  {
    MulLeft(y, dims.h - 1, dims.w);
    assert (dims.h - 1) * dims.w == dims.w * dims.h - dims.w;
  }

  /** The row-major index determines its cell: column and row are recovered by
      remainder and quotient, so distinct cells get distinct indices. */
  lemma RowMajorInverse(x: nat, y: nat, w: nat)
    requires x < w
    ensures RowMajor(x, y, w) % w == x && RowMajor(x, y, w) / w == y
  {
    var i := RowMajor(x, y, w);
    var q, r := i / w, i % w;
    assert i == q * w + r && 0 <= r < w;
    assert (q - y) * w == x - r;
    if q > y {
      MulLeft(1, q - y, w);
    } else if q < y {
      MulLeft(1, y - q, w);
    }
  }
}
