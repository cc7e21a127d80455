/** Spawning a batch of raindrops (`create_raindrops` in lib.rs). The
    random generator is replaced by the sequence of values it would have
    returned: two per drop, first the column draw, then the row draw. */
module Spawning {
  import opened Geometry
  import opened Raindrops

  /** Where a drop lands for the draws `rx` and `ry`: column `rx % (w - 1)`
      and row `ry % (h - 1)`, as whole numbers. This is a grid point of the
      box `[0, w-1) x [0, h-1)`, so the first sample `simulate` takes there
      (the cell south-east of the point) is inside the height field. */
  function SpawnPoint(rx: nat, ry: nat, dims: Dims): (p: Vec2)
    requires 2 <= dims.w && 2 <= dims.h
    ensures InBox(p, dims)
    ensures p.x == p.x.Floor as real && p.y == p.y.Floor as real
    ensures 0 <= p.x.Floor <= dims.w - 2 && 0 <= p.y.Floor <= dims.h - 2
  {
    Vec2((rx % (dims.w - 1)) as real, (ry % (dims.h - 1)) as real)
  }

  /** Every grid point of the box is a possible spawn point: draws below
      `w - 1` and `h - 1` land exactly where they say, and a draw further on
      by a whole number of widths or heights lands at the same point. */
  lemma SpawnPointCovers(x: nat, y: nat, m: nat, n: nat, dims: Dims)
    requires 2 <= dims.w && 2 <= dims.h && x < dims.w - 1 && y < dims.h - 1
    ensures SpawnPoint(x + m * (dims.w - 1), y + n * (dims.h - 1), dims) == Vec2(x as real, y as real)
  {
    RowMajorInverse(x, m, dims.w - 1);
    RowMajorInverse(y, n, dims.h - 1);
  }

  /** `create_raindrops(num, mass, dims)`: push new drops until there are
      `num` of them. Drop i lands at the spawn point of draws `2 i` and
      `2 i + 1` and starts as `Raindrop::new` makes it; the drops are new,
      distinct objects; and each one meets the starting condition of
      `simulate`. The first precondition excludes the dimensions the
      source cannot handle. A width or height of 1 makes `% (dims - 1)` a
      remainder by zero. For a width or height of 0, the subtraction
      `dims - 1` underflows first: a debug build panics and a release build
      wraps around. */
  method CreateRaindrops(num: nat, mass: real, dims: Dims, random: seq<nat>) returns (drops: seq<Raindrop>)
    requires 2 <= dims.w && 2 <= dims.h
    requires 2 * num <= |random|
    ensures |drops| == num
    ensures forall i :: 0 <= i < num ==> fresh(drops[i])
    ensures forall i, j :: 0 <= i < j < num ==> drops[i] != drops[j]
    ensures forall i :: 0 <= i < num ==>
      drops[i].State() == Spawned(mass, SpawnPoint(random[2 * i], random[2 * i + 1], dims))
    ensures forall i :: 0 <= i < num ==> InBox(drops[i].position, dims) && drops[i].alive
  {
    drops := [];
    while |drops| < num
      invariant |drops| <= num
      invariant forall i :: 0 <= i < |drops| ==> fresh(drops[i])
      invariant forall i, j :: 0 <= i < j < |drops| ==> drops[i] != drops[j]
      invariant forall i :: 0 <= i < |drops| ==>
        drops[i].State() == Spawned(mass, SpawnPoint(random[2 * i], random[2 * i + 1], dims))
    {
      var k := |drops|;
      var x := random[2 * k] % (dims.w - 1);
      var y := random[2 * k + 1] % (dims.h - 1);
      var drop := new Raindrop(mass, x as real, y as real);
      drops := drops + [drop];
    }
  }
}
