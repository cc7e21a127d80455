/** Bilinear sampling of the row-major height field
    (`get_height_and_gradient` in raindrop.rs). */
module HeightField {
  import opened Geometry

  /** Height and gradient of the bilinear surface at one point. */
  datatype Sample = Sample(height: real, gradient: Vec2)

  /** The four corner heights of a grid cell. */
  datatype Corners = Corners(nw: real, ne: real, sw: real, se: real)

  /** A height field is a row-major sequence of w * h heights. */
  predicate Fits(texture: seq<real>, dims: Dims)
  {
    |texture| == dims.w * dims.h
  }

  function Lowest(c: Corners): real { Min(Min(c.nw, c.ne), Min(c.sw, c.se)) }

  function Highest(c: Corners): real { Max(Max(c.nw, c.ne), Max(c.sw, c.se)) }

  predicate Flat(c: Corners) { c.nw == c.ne == c.sw == c.se }

  /** Row-major index of the north-west corner of the cell holding p
      (`point.y as usize * dims.0 + point.x as usize`). Inside the box, even
      the south-east corner `+ w + 1` is a valid index. */
  function CornerIndex(p: Vec2, dims: Dims): (i: nat)
    requires InBox(p, dims)
    ensures i + dims.w + 1 < dims.w * dims.h
  {
    var x, y := p.x.Floor, p.y.Floor;
    MulLeft(y, dims.h - 2, dims.w);
    assert (dims.h - 2) * dims.w == dims.w * dims.h - 2 * dims.w;
    RowMajor(x, y, dims.w)
  }

  /** Fractional part of a non-negative coordinate (`f32::fract`). */
  function Frac(x: real): (f: real)
    requires 0.0 <= x
    ensures 0.0 <= f < 1.0
  {
    x - x.Floor as real
  }

  function CornersAt(p: Vec2, texture: seq<real>, dims: Dims): Corners
    requires InBox(p, dims) && Fits(texture, dims)
  {
    var i := CornerIndex(p, dims);
    Corners(texture[i], texture[i + 1], texture[i + dims.w], texture[i + dims.w + 1])
  }

  /** The bilinear surface over one cell at offsets (u, v) from its
      north-west corner, with its partial derivatives. */
  function Bilinear(c: Corners, u: real, v: real): Sample
  {
    Sample(
      c.nw * (1.0 - u) * (1.0 - v) + c.ne * u * (1.0 - v) + c.sw * (1.0 - u) * v + c.se * u * v,
      Vec2((c.ne - c.nw) * (1.0 - v) + (c.se - c.sw) * v,
           (c.sw - c.nw) * (1.0 - u) + (c.se - c.ne) * u))
  }

  lemma MulNonneg(a: real, b: real)
    requires 0.0 <= a && 0.0 <= b
    ensures 0.0 <= a * b
  {
  }

  /** The four bilinear weights of offsets (u, v) in [0, 1]: each lies in
      [0, 1] and together they sum to 1. */
  lemma BilinearWeights(u: real, v: real)
    requires 0.0 <= u <= 1.0 && 0.0 <= v <= 1.0
    ensures var a, b, d, e := (1.0 - u) * (1.0 - v), u * (1.0 - v), (1.0 - u) * v, u * v;
      0.0 <= a <= 1.0 && 0.0 <= b <= 1.0 && 0.0 <= d <= 1.0 && 0.0 <= e <= 1.0 && a + b + d + e == 1.0
  {
    MulNonneg(1.0 - u, 1.0 - v);
    MulNonneg(u, 1.0 - v);
    MulNonneg(1.0 - u, v);
    MulNonneg(u, v);
  }

  lemma Assoc(x: real, y: real, z: real)
    ensures x * y * z == x * (y * z)
  {
  }

  lemma Recentre(m: real, p: real, q: real, r: real, s: real, a: real, b: real, d: real, e: real)
    requires a + b + d + e == 1.0
    ensures p * a + q * b + r * d + s * e - m == (p - m) * a + (q - m) * b + (r - m) * d + (s - m) * e
  {
    assert m == m * (a + b + d + e);
  }

  lemma ConvexAtLeast(m: real, p: real, q: real, r: real, s: real, a: real, b: real, d: real, e: real)
    requires m <= p && m <= q && m <= r && m <= s
    requires 0.0 <= a && 0.0 <= b && 0.0 <= d && 0.0 <= e && a + b + d + e == 1.0
    ensures m <= p * a + q * b + r * d + s * e
  {
    MulNonneg(p - m, a);
    MulNonneg(q - m, b);
    MulNonneg(r - m, d);
    MulNonneg(s - m, e);
    Recentre(m, p, q, r, s, a, b, d, e);
  }

  lemma ConvexAtMost(m: real, p: real, q: real, r: real, s: real, a: real, b: real, d: real, e: real)
    requires p <= m && q <= m && r <= m && s <= m
    requires 0.0 <= a && 0.0 <= b && 0.0 <= d && 0.0 <= e && a + b + d + e == 1.0
    ensures p * a + q * b + r * d + s * e <= m
  {
    MulNonneg(m - p, a);
    MulNonneg(m - q, b);
    MulNonneg(m - r, d);
    MulNonneg(m - s, e);
    Recentre(m, p, q, r, s, a, b, d, e);
  }

  /** The bilinear height is a convex combination of the corners, so it lies
      between the lowest and the highest corner. */
  lemma BilinearBetweenCorners(c: Corners, u: real, v: real)
    requires 0.0 <= u <= 1.0 && 0.0 <= v <= 1.0
    ensures Lowest(c) <= Bilinear(c, u, v).height <= Highest(c)
  {
    var a, b, d, e := (1.0 - u) * (1.0 - v), u * (1.0 - v), (1.0 - u) * v, u * v;
    BilinearWeights(u, v);
    Assoc(c.nw, 1.0 - u, 1.0 - v);
    Assoc(c.ne, u, 1.0 - v);
    Assoc(c.sw, 1.0 - u, v);
    Assoc(c.se, u, v);
    ConvexAtLeast(Lowest(c), c.nw, c.ne, c.sw, c.se, a, b, d, e);
    ConvexAtMost(Highest(c), c.nw, c.ne, c.sw, c.se, a, b, d, e);
  }

  /** On a flat cell the surface is level: the height is the common corner
      height and the gradient vanishes. */
  lemma BilinearFlat(c: Corners, u: real, v: real)
    requires Flat(c)
    ensures Bilinear(c, u, v) == Sample(c.nw, Vec2(0.0, 0.0))
  {
    assert c.nw * (1.0 - u) * (1.0 - v) + c.nw * u * (1.0 - v) + c.nw * (1.0 - u) * v + c.nw * u * v
        == c.nw * ((1.0 - u) * (1.0 - v) + u * (1.0 - v) + (1.0 - u) * v + u * v);
  }

  /** Height and gradient of the field at p. Reads only the four corners of
      the cell holding p, all below w * h; at a grid point the height is the
      grid value there; the height never leaves the range of the corners; and
      on a flat cell the gradient is zero. */
  function HeightAndGradient(p: Vec2, texture: seq<real>, dims: Dims): (s: Sample)
    requires InBox(p, dims) && Fits(texture, dims)
    ensures Lowest(CornersAt(p, texture, dims)) <= s.height <= Highest(CornersAt(p, texture, dims))
    ensures p.x == p.x.Floor as real && p.y == p.y.Floor as real ==>
      s.height == texture[RowMajor(p.x.Floor, p.y.Floor, dims.w)]
    ensures Flat(CornersAt(p, texture, dims)) ==> s.gradient == Vec2(0.0, 0.0)
  {
    var c, u, v := CornersAt(p, texture, dims), Frac(p.x), Frac(p.y);
    BilinearBetweenCorners(c, u, v);
    if Flat(c) then BilinearFlat(c, u, v); Bilinear(c, u, v) else Bilinear(c, u, v)
  }
}
