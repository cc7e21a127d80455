/** The erosion/deposition brush of `erode_deposit` (raindrop.rs), as
    specification functions: which cells the brush covers, with which
    weights, and how a signed amount of material is shared among them. */
module Kernel {
  import opened Geometry

  /** One entry of a change list, Rust's `(f32, usize)`: an amount of
      material (negative erodes) for the cell with row-major `index`. While
      the brush is being built the same slot holds the cell's weight. */
  datatype Delta = Delta(amount: real, index: nat)

  /** Sum of the amounts of a change list. */
  function Total(ds: seq<Delta>): real
  {
    if ds == [] then 0.0 else Total(ds[..|ds| - 1]) + ds[|ds| - 1].amount
  }

  /** Side of the enumerated square minus one: `diameter.ceil() as usize`. */
  function Span(diameter: real): (n: nat)
    requires 0.0 < diameter
    ensures diameter <= n as real < diameter + 1.0
  {
    Ceil(diameter)
  }

  /** Number of cells in the inclusive square `0..=Span` by `0..=Span`. */
  function MaxCells(diameter: real): nat
    requires 0.0 < diameter
  {
    (Span(diameter) + 1) * (Span(diameter) + 1)
  }

  /** Half-pixel-centred offset of the k-th row or column: `diameter / 2 - k`. */
  function Offset(diameter: real, k: nat): real
  {
    diameter / 2.0 - k as real
  }

  /** A coordinate that falls on one of the n cells of an axis. */
  predicate OnGrid(c: real, n: nat)
  {
    0.0 <= c < n as real
  }

  /** Distance from the corner of cell (x, y) to `center`. */
  function Distance(x: int, y: int, center: Vec2, sqrt: real -> real): real
  {
    sqrt(Sq(x as real - center.x) + Sq(y as real - center.y))
  }

  /** Quadratic fall-off: 1 at the centre, 0 at the rim. */
  function Weight(distance: real, radius: real): real
    requires radius != 0.0
  {
    Sq(1.0 - distance / radius)
  }

  lemma SqNonneg(x: real)
    ensures 0.0 <= Sq(x)
  {
    if x < 0.0 {
      assert Sq(x) == (-x) * (-x);
    }
  }

  /** The brush cell in row ky, column kx of the square: empty when the
      column leaves the grid or the cell lies outside the disc of radius
      diameter / 2; otherwise its weight and row-major index. */
  function CellAt(dims: Dims, center: Vec2, diameter: real, sqrt: real -> real, ky: nat, kx: nat): (r: seq<Delta>)
    requires 0.0 < diameter && OnGrid(center.y - Offset(diameter, ky), dims.h)
    ensures |r| <= 1
    ensures forall d :: d in r ==> d.index < dims.w * dims.h && 0.0 <= d.amount
  {
    var px, py := center.x - Offset(diameter, kx), center.y - Offset(diameter, ky);
    if !OnGrid(px, dims.w) then []
    else
      var x, y := px.Floor, py.Floor;
      var distance := Distance(x, y, center, sqrt);
      if distance > diameter / 2.0 then []
      else
        RowMajorInGrid(x, y, dims);
        SqNonneg(1.0 - distance / (diameter / 2.0));
        [Delta(Weight(distance, diameter / 2.0), RowMajor(x, y, dims.w))]
  }

  /** The three outcomes of one brush cell, as the enumeration loop meets
      them: a column off the grid, a cell outside the disc, a kept cell. */
  lemma CellAtCases(dims: Dims, center: Vec2, diameter: real, sqrt: real -> real, ky: nat, kx: nat)
    requires 0.0 < diameter && OnGrid(center.y - Offset(diameter, ky), dims.h)
    ensures !OnGrid(center.x - Offset(diameter, kx), dims.w) ==> CellAt(dims, center, diameter, sqrt, ky, kx) == []
    ensures OnGrid(center.x - Offset(diameter, kx), dims.w) ==>
      var x: nat, y: nat := (center.x - Offset(diameter, kx)).Floor, (center.y - Offset(diameter, ky)).Floor;
      var distance := Distance(x, y, center, sqrt);
      CellAt(dims, center, diameter, sqrt, ky, kx) ==
        if distance > diameter / 2.0 then [] else [Delta(Sq(1.0 - distance / (diameter / 2.0)), RowMajor(x, y, dims.w))]
  {
  }

  /** Brush cells of row ky, columns 0 .. n-1, in enumeration order. */
  function RowCells(dims: Dims, center: Vec2, diameter: real, sqrt: real -> real, ky: nat, n: nat): (r: seq<Delta>)
    requires 0.0 < diameter && OnGrid(center.y - Offset(diameter, ky), dims.h)
    ensures |r| <= n
    ensures forall d :: d in r ==> d.index < dims.w * dims.h && 0.0 <= d.amount
  {
    if n == 0 then [] else RowCells(dims, center, diameter, sqrt, ky, n - 1) + CellAt(dims, center, diameter, sqrt, ky, n - 1)
  }

  /** Brush cells of rows 0 .. n-1; a row off the grid contributes nothing. */
  function Cells(dims: Dims, center: Vec2, diameter: real, sqrt: real -> real, n: nat): (r: seq<Delta>)
    requires 0.0 < diameter
    ensures |r| <= n * (Span(diameter) + 1)
    ensures forall d :: d in r ==> d.index < dims.w * dims.h && 0.0 <= d.amount
  {
    if n == 0 then []
    else
      Cells(dims, center, diameter, sqrt, n - 1) +
      (if OnGrid(center.y - Offset(diameter, n - 1), dims.h)
       then RowCells(dims, center, diameter, sqrt, n - 1, Span(diameter) + 1)
       else [])
  }

  /** The weighted cells of the whole brush (`points` before sharing):
      at most (ceil(diameter) + 1)^2 of them, each on the grid with a
      non-negative weight. */
  function BrushCells(dims: Dims, center: Vec2, diameter: real, sqrt: real -> real): (r: seq<Delta>)
    requires 0.0 < diameter
    ensures |r| <= MaxCells(diameter)
    ensures forall d :: d in r ==> d.index < dims.w * dims.h && 0.0 <= d.amount
  {
    Cells(dims, center, diameter, sqrt, Span(diameter) + 1)
  }

  lemma TotalNonneg(ds: seq<Delta>)
    requires forall d :: d in ds ==> 0.0 <= d.amount
    ensures 0.0 <= Total(ds)
  {
    if ds != [] {
      TotalNonneg(ds[..|ds| - 1]);
    }
  }

  /** The part of `amount` that falls to a cell of the given weight:
      `deposit * weight / weight_sum`. */
  function Share(amount: real, weight: real, weightSum: real): real
    requires weightSum != 0.0
  {
    amount * weight / weightSum
  }

  lemma ShareAdd(amount: real, x: real, y: real, weightSum: real)
    requires weightSum != 0.0
    ensures Share(amount, x, weightSum) + Share(amount, y, weightSum) == Share(amount, x + y, weightSum)
  {
  }

  lemma ShareWhole(amount: real, weightSum: real)
    requires weightSum != 0.0
    ensures Share(amount, weightSum, weightSum) == amount
  {
  }

  lemma ShareSign(amount: real, weight: real, weightSum: real)
    requires 0.0 <= weight && 0.0 < weightSum
    ensures 0.0 <= amount ==> 0.0 <= Share(amount, weight, weightSum)
    ensures amount <= 0.0 ==> Share(amount, weight, weightSum) <= 0.0
  {
    if amount <= 0.0 {
      assert (-amount) * weight / weightSum == -(amount * weight / weightSum);
    }
  }

  /** Each cell's share `amount * weight / weightSum`, in order, at the
      cell's index. */
  function Shares(cells: seq<Delta>, amount: real, weightSum: real): (r: seq<Delta>)
    requires weightSum != 0.0
    ensures |r| == |cells|
    ensures forall i :: 0 <= i < |r| ==> r[i] == Delta(Share(amount, cells[i].amount, weightSum), cells[i].index)
  {
    if cells == [] then []
    else
      var last := cells[|cells| - 1];
      Shares(cells[..|cells| - 1], amount, weightSum) + [Delta(Share(amount, last.amount, weightSum), last.index)]
  }

  /** The shares add up to the share of the total weight. */
  lemma {:induction false} SharesTotal(cells: seq<Delta>, amount: real, weightSum: real)
    requires weightSum != 0.0
    ensures Total(Shares(cells, amount, weightSum)) == Share(amount, Total(cells), weightSum)
  {
    if cells != [] {
      var init, last := cells[..|cells| - 1], cells[|cells| - 1];
      var r := Shares(cells, amount, weightSum);
      var a, x := Total(init), last.amount;
      assert r[..|r| - 1] == Shares(init, amount, weightSum);
      assert Total(r) == Total(Shares(init, amount, weightSum)) + Share(amount, x, weightSum);
      SharesTotal(init, amount, weightSum);
      ShareAdd(amount, a, x, weightSum);
      assert Total(cells) == a + x;
    }
  }

  /** The change list of one brush application with a signed `amount`.
      The shares add up to exactly `amount` and carry its sign; the list is
      empty exactly when the brush has no weight (no cell survives, or every
      surviving cell sits on the rim), in which case nothing is shared. */
  function Brush(dims: Dims, center: Vec2, diameter: real, amount: real, sqrt: real -> real): (r: seq<Delta>)
    requires 0.0 < diameter
    ensures |r| <= MaxCells(diameter)
    ensures forall d :: d in r ==> d.index < dims.w * dims.h
    ensures r == [] <==> Total(BrushCells(dims, center, diameter, sqrt)) == 0.0
    ensures r != [] ==> Total(r) == amount
    ensures 0.0 <= amount ==> forall d :: d in r ==> 0.0 <= d.amount
    ensures amount <= 0.0 ==> forall d :: d in r ==> d.amount <= 0.0
  {
    var cells := BrushCells(dims, center, diameter, sqrt);
    var weightSum := Total(cells);
    if weightSum == 0.0 then []
    else
      TotalNonneg(cells);
      var r := Shares(cells, amount, weightSum);
      forall i | 0 <= i < |r|
        ensures r[i].index < dims.w * dims.h
        ensures 0.0 <= amount ==> 0.0 <= r[i].amount
        ensures amount <= 0.0 ==> r[i].amount <= 0.0
      {
        assert cells[i] in cells;
        ShareSign(amount, cells[i].amount, weightSum);
      }
      SharesTotal(cells, amount, weightSum);
      ShareWhole(amount, weightSum);
      r
  }

  /** The cell of a change, decoded from its row-major index as
      (index % w, index / w), lies within `radius` of `center`. */
  ghost predicate WithinRadius(index: nat, dims: Dims, center: Vec2, radius: real)
  {
    0 < dims.w &&
    Sq((index % dims.w) as real - center.x) + Sq((index / dims.w) as real - center.y) <= Sq(radius)
  }

  /** A brush cell as the geometry promises it: weight in [0, 1] and within
      the brush radius of the centre. */
  ghost predicate InDisc(d: Delta, dims: Dims, center: Vec2, diameter: real)
  {
    0.0 <= d.amount <= 1.0 && WithinRadius(d.index, dims, center, diameter / 2.0)
  }

  lemma SqMono(a: real, b: real)
    requires 0.0 <= a <= b
    ensures Sq(a) <= Sq(b)
  {
    assert a * a <= a * b <= b * b;
  }

  /** The fall-off weight of a point inside the disc lies in [0, 1]. */
  lemma WeightInUnit(distance: real, radius: real)
    requires 0.0 <= distance <= radius && 0.0 < radius
    ensures 0.0 <= Weight(distance, radius) <= 1.0
  {
    var q := 1.0 - distance / radius;
    assert distance / radius <= 1.0;
    SqNonneg(q);
    SqMono(q, 1.0);
  }

  /** A squared distance whose root is at most the radius is at most the
      squared radius. */
  lemma RootWithin(sqrt: real -> real, sq: real, radius: real)
    requires IsSqrt(sqrt) && 0.0 <= sq && sqrt(sq) <= radius
    ensures sq <= Sq(radius)
  {
    assert 0.0 <= sqrt(sq) && Sq(sqrt(sq)) == sq;
    SqMono(sqrt(sq), radius);
  }

  lemma {:induction false} CellAtInDisc(dims: Dims, center: Vec2, diameter: real, sqrt: real -> real, ky: nat, kx: nat)
    requires IsSqrt(sqrt)
    requires 0.0 < diameter && OnGrid(center.y - Offset(diameter, ky), dims.h)
    ensures forall d :: d in CellAt(dims, center, diameter, sqrt, ky, kx) ==> InDisc(d, dims, center, diameter)
  {
    var r := CellAt(dims, center, diameter, sqrt, ky, kx);
    if r != [] {
      var px, py := center.x - Offset(diameter, kx), center.y - Offset(diameter, ky);
      var x, y := px.Floor, py.Floor;
      var sq := Sq(x as real - center.x) + Sq(y as real - center.y);
      SqNonneg(x as real - center.x);
      SqNonneg(y as real - center.y);
      var distance := Distance(x, y, center, sqrt);
      assert distance == sqrt(sq);
      RootWithin(sqrt, sq, diameter / 2.0);
      WeightInUnit(distance, diameter / 2.0);
      RowMajorInverse(x, y, dims.w);
      assert r[0] == Delta(Weight(distance, diameter / 2.0), RowMajor(x, y, dims.w));
    }
  }

  lemma {:induction false} RowCellsInDisc(dims: Dims, center: Vec2, diameter: real, sqrt: real -> real, ky: nat, n: nat)
    requires IsSqrt(sqrt)
    requires 0.0 < diameter && OnGrid(center.y - Offset(diameter, ky), dims.h)
    ensures forall d :: d in RowCells(dims, center, diameter, sqrt, ky, n) ==> InDisc(d, dims, center, diameter)
  {
    if n > 0 {
      RowCellsInDisc(dims, center, diameter, sqrt, ky, n - 1);
      CellAtInDisc(dims, center, diameter, sqrt, ky, n - 1);
    }
  }

  lemma {:induction false} CellsInDisc(dims: Dims, center: Vec2, diameter: real, sqrt: real -> real, n: nat)
    requires IsSqrt(sqrt) && 0.0 < diameter
    ensures forall d :: d in Cells(dims, center, diameter, sqrt, n) ==> InDisc(d, dims, center, diameter)
  {
    if n > 0 {
      CellsInDisc(dims, center, diameter, sqrt, n - 1);
      if OnGrid(center.y - Offset(diameter, n - 1), dims.h) {
        RowCellsInDisc(dims, center, diameter, sqrt, n - 1, Span(diameter) + 1);
      }
    }
  }

  /** Every cell the brush keeps has a weight in [0, 1] and lies within
      diameter / 2 of the centre (compared on squared distances). */
  lemma BrushCellsInDisc(dims: Dims, center: Vec2, diameter: real, sqrt: real -> real)
    requires IsSqrt(sqrt) && 0.0 < diameter
    ensures forall d :: d in BrushCells(dims, center, diameter, sqrt) ==> InDisc(d, dims, center, diameter)
  {
    CellsInDisc(dims, center, diameter, sqrt, Span(diameter) + 1);
  }

  /** Every change of a brush application lands within diameter / 2 of its
      centre. */
  lemma BrushWithinRadius(dims: Dims, center: Vec2, diameter: real, amount: real, sqrt: real -> real)
    requires 0.0 < diameter
    ensures IsSqrt(sqrt) ==>
      forall d :: d in Brush(dims, center, diameter, amount, sqrt) ==> WithinRadius(d.index, dims, center, diameter / 2.0)
  {
    var cells := BrushCells(dims, center, diameter, sqrt);
    var weightSum := Total(cells);
    if IsSqrt(sqrt) && weightSum != 0.0 {
      BrushCellsInDisc(dims, center, diameter, sqrt);
      var r := Shares(cells, amount, weightSum);
      assert r == Brush(dims, center, diameter, amount, sqrt);
      forall d | d in r
        ensures WithinRadius(d.index, dims, center, diameter / 2.0)
      {
        var i :| 0 <= i < |r| && r[i] == d;
        assert cells[i] in cells;
      }
    }
  }
}
