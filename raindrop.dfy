/** One raindrop particle (raindrop.rs): its state, the physics of one step
    as a specification (`Step`, `Run`), and the `Raindrop` class whose
    methods `erode_deposit`, `kill` and `simulate` update that state in place
    and are proved to follow the specification. */
module Raindrops {
  import opened Geometry
  import opened HeightField
  import opened Kernel

  /** The tunables handed to `simulate` (the `TerrainMesh` properties). */
  datatype Config = Config(
    gravity: real,
    capacity: real,
    inertia: real,
    erosionFactor: real,
    depositionFactor: real,
    diameter: real,
    lifetime: nat)
  {
    /** A positive brush diameter. The brush's fall-off divides by half the
        diameter, which the model cannot do for a zero diameter. */
    predicate Valid() { 0.0 < diameter }
  }

  /** The floating-point library calls the simulation makes. The lemmas that
      need `sqrt` to be a true square root say so (`IsSqrt`); `normalize` is
      used as an arbitrary direction map, because nothing the model proves
      depends on the step having unit length. */
  datatype FloatOps = FloatOps(sqrt: real -> real, normalize: Vec2 -> Vec2)

  /** The fields of a `Raindrop`, as a value. */
  datatype Drop = Drop(
    sediment: real,
    water: real,
    position: Vec2,
    velocity: real,
    direction: Vec2,
    alive: bool)

  /** A new drop (`Raindrop::new`): no sediment, `mass` of water, unit
      velocity, no direction, alive. */
  function Spawned(mass: real, position: Vec2): (d: Drop)
    ensures d.sediment == 0.0 && d.water == mass && d.position == position
    ensures d.velocity == 1.0 && d.direction == Vec2(0.0, 0.0) && d.alive
  {
    Drop(0.0, mass, position, 1.0, Vec2(0.0, 0.0), true)
  }

  /** New heading: the old direction weighted by inertia minus the gradient
      weighted by the rest, normalised to one cell of travel. */
  function Steer(direction: Vec2, gradient: Vec2, inertia: real, normalize: Vec2 -> Vec2): Vec2
  {
    normalize(Sub(Scale(direction, inertia), Scale(gradient, 1.0 - inertia)))
  }

  /** For deposition and erosion factors in [0, 1] and non-negative speed,
      water and capacity factor, handing `DepositAmount` to the brush keeps
      the carried sediment non-negative; a deposit never increases it; and
      erosion never lifts it above the capacity. */
  lemma SedimentStaysInRange(sediment: real, diff: real, velocity: real, water: real, capacity: real,
                             depositionFactor: real, erosionFactor: real)
    requires 0.0 <= sediment && 0.0 <= velocity && 0.0 <= water && 0.0 <= capacity
    requires 0.0 <= depositionFactor <= 1.0 && 0.0 <= erosionFactor <= 1.0
    ensures var cap := SedimentCapacity(diff, velocity, water, capacity);
      var after := sediment - DepositAmount(sediment, cap, diff, depositionFactor, erosionFactor);
      0.0 <= after &&
      (Deposits(sediment, cap, diff) ==> after <= sediment) &&
      (!Deposits(sediment, cap, diff) ==> sediment <= after <= cap)
  {
    var cap := SedimentCapacity(diff, velocity, water, capacity);
    var slope := Min(-diff, 0.05);
    if -diff >= 0.0 {
      MulNonneg(slope, velocity);
      MulNonneg(slope * velocity, water);
      MulNonneg(slope * velocity * water, capacity);
      assert 0.0 <= cap;
    }
    if sediment > cap || diff > 0.0 {
      if diff <= 0.0 {
        MulNonneg(sediment - cap, 1.0 - depositionFactor);
        MulNonneg(sediment - cap, depositionFactor);
      }
    } else {
      MulNonneg(cap - sediment, 1.0 - erosionFactor);
      MulNonneg(cap - sediment, erosionFactor);
    }
  }

  /** Sediment the drop can carry after a move with height change `diff`:
      the downhill slope, clamped at 0.05, times velocity, water and the
      capacity factor. */
  function SedimentCapacity(diff: real, velocity: real, water: real, capacity: real): real
  {
    Min(-diff, 0.05) * velocity * water * capacity
  }

  /** The step deposits (rather than erodes) when the drop carries more than
      it can hold or has moved uphill. */
  predicate Deposits(sediment: real, sedimentCapacity: real, diff: real)
  {
    sediment > sedimentCapacity || diff > 0.0
  }

  /** Signed amount handed to the brush: uphill, at most the height gained
      and at most the sediment carried; otherwise a deposition-factor share
      of the excess over capacity; when eroding, the negated smaller of the
      erosion-factor share of the spare capacity and the drop in height. */
  function DepositAmount(sediment: real, sedimentCapacity: real, diff: real,
                         depositionFactor: real, erosionFactor: real): (r: real)
    ensures Deposits(sediment, sedimentCapacity, diff) && diff > 0.0 ==>
      r <= diff && r <= sediment && (r == diff || r == sediment)
    ensures Deposits(sediment, sedimentCapacity, diff) && diff <= 0.0 && 0.0 <= depositionFactor ==>
      0.0 <= r
    ensures !Deposits(sediment, sedimentCapacity, diff) && 0.0 <= erosionFactor ==>
      r <= 0.0 && -diff >= -r
  {
    if sediment > sedimentCapacity || diff > 0.0 then
      if diff > 0.0 then Min(diff, sediment) else (sediment - sedimentCapacity) * depositionFactor
    else
      -Min((sedimentCapacity - sediment) * erosionFactor, -diff)
  }

  /** New speed after a height change: `sqrt(v^2 + diff * gravity)`, never
      below 0.0001. A negative radicand gives NaN in the source, and
      `f32::max` returns its other operand for NaN, so it yields 0.0001. */
  function NewVelocity(velocity: real, diff: real, gravity: real, sqrt: real -> real): (r: real)
    ensures 0.0001 <= r
  {
    var radicand := velocity * velocity + diff * gravity;
    if radicand < 0.0 then 0.0001 else Max(sqrt(radicand), 0.0001)
  }

  lemma SqrtOfSquare(sqrt: real -> real, v: real)
    requires IsSqrt(sqrt) && 0.0 <= v
    ensures sqrt(v * v) == v
  {
    MulNonneg(v, v);
    var r := sqrt(v * v);
    assert 0.0 <= r && r * r == v * v;
    assert (r - v) * (r + v) == 0.0;
    if r + v == 0.0 {
      assert r == 0.0 && v == 0.0;
    } else {
      assert r - v == (r - v) * (r + v) / (r + v);
    }
  }

  /** On level ground (no height change) a drop at least as fast as the
      0.0001 floor keeps its speed. */
  lemma LevelGroundKeepsVelocity(velocity: real, gravity: real, sqrt: real -> real)
    requires IsSqrt(sqrt) && 0.0001 <= velocity
    ensures NewVelocity(velocity, 0.0, gravity, sqrt) == velocity
  {
    MulNonneg(velocity, velocity);
    assert velocity * velocity + 0.0 * gravity == velocity * velocity;
    SqrtOfSquare(sqrt, velocity);
  }

  /** `kill`: the drop dies and hands its whole sediment to the brush at its
      current position; the brush's change list is thrown away, so the
      height field never sees this deposit. Afterwards the drop carries no
      sediment, unless the brush had no weight there. */
  function KillDrop(d: Drop, dims: Dims, diameter: real, sqrt: real -> real): (r: Drop)
    requires 0.0 < diameter
    ensures !r.alive && (r.sediment == 0.0 || r.sediment == d.sediment)
    ensures r == d.(alive := false, sediment := r.sediment)
  {
    var discarded := Brush(dims, d.position, diameter, d.sediment, sqrt);
    d.(alive := false, sediment := d.sediment - Total(discarded))
  }

  /** Result of one iteration of the `simulate` loop: the drop goes on, or
      it was killed and the loop breaks. Either way, the changes that the
      iteration appended. */
  datatype StepResult = Continue(drop: Drop, changes: seq<Delta>) | Stop(drop: Drop, changes: seq<Delta>)

  /** The drop after steering by the local gradient and moving one step. */
  function Moved(d: Drop, texture: seq<real>, dims: Dims, cfg: Config, ops: FloatOps): Drop
    requires InBox(d.position, dims) && Fits(texture, dims)
  {
    var gradient := HeightAndGradient(d.position, texture, dims).gradient;
    var direction := Steer(d.direction, gradient, cfg.inertia, ops.normalize);
    d.(direction := direction, position := Add(d.position, direction))
  }

  /** The drop after an in-box move, with the changes it handed out. */
  datatype Settlement = Settlement(drop: Drop, points: seq<Delta>)

  /** Height change of a move from `d` to `moved`. */
  function Diff(d: Drop, moved: Drop, texture: seq<real>, dims: Dims): real
    requires InBox(d.position, dims) && InBox(moved.position, dims) && Fits(texture, dims)
  {
    HeightAndGradient(moved.position, texture, dims).height - HeightAndGradient(d.position, texture, dims).height
  }

  /** The signed amount a move from `d` to `moved` hands to the brush. */
  function Deposit(d: Drop, moved: Drop, texture: seq<real>, dims: Dims, cfg: Config): real
    requires InBox(d.position, dims) && InBox(moved.position, dims) && Fits(texture, dims)
  {
    var diff := Diff(d, moved, texture, dims);
    DepositAmount(d.sediment, SedimentCapacity(diff, d.velocity, d.water, cfg.capacity), diff,
                  cfg.depositionFactor, cfg.erosionFactor)
  }

  /** After an in-box move from `d` to `moved`: the brush change list for
      the material deposited (or eroded, when negative) around the previous
      position, and the drop with that material taken from its sediment,
      its new velocity and 99% of its water. */
  function Settled(d: Drop, moved: Drop, texture: seq<real>, dims: Dims, cfg: Config, ops: FloatOps): Settlement
    requires InBox(d.position, dims) && InBox(moved.position, dims) && Fits(texture, dims) && cfg.Valid()
  {
    var points := Brush(dims, d.position, cfg.diameter, Deposit(d, moved, texture, dims, cfg), ops.sqrt);
    Settlement(
      moved.(sediment := d.sediment - Total(points),
             velocity := NewVelocity(d.velocity, Diff(d, moved, texture, dims), cfg.gravity, ops.sqrt),
             water := d.water * 0.99),
      points)
  }

  /** One iteration of the `simulate` loop from an in-box position. A drop
      that goes on is in the box again, alive as before, faster than 0.01,
      with 99% of its water. A drop that stops is dead: either it left the
      box and the iteration appended nothing, or it is in the box and slowed
      to 0.01 or less. The appended changes are one brush application. */
  function Step(d: Drop, texture: seq<real>, dims: Dims, cfg: Config, ops: FloatOps): (r: StepResult)
    requires InBox(d.position, dims) && Fits(texture, dims) && cfg.Valid()
    ensures r.Continue? ==>
      InBox(r.drop.position, dims) && r.drop.alive == d.alive &&
      r.drop.velocity > 0.01 && r.drop.water == d.water * 0.99 &&
      r.drop.sediment + Total(r.changes) == d.sediment
    ensures r.Stop? ==>
      !r.drop.alive &&
      if InBox(r.drop.position, dims) then r.drop.velocity <= 0.01 else r.changes == []
    ensures |r.changes| <= MaxCells(cfg.diameter)
    ensures forall c :: c in r.changes ==> c.index < dims.w * dims.h
  {
    var moved := Moved(d, texture, dims, cfg, ops);
    if !InBox(moved.position, dims) then
      Stop(KillDrop(moved, dims, cfg.diameter, ops.sqrt), [])
    else
      var s := Settled(d, moved, texture, dims, cfg, ops);
      if s.drop.velocity <= 0.01 then Stop(KillDrop(s.drop, dims, cfg.diameter, ops.sqrt), s.points)
      else Continue(s.drop, s.points)
  }

  /** An iteration that passes the bounds check appends exactly one brush
      application, centred on the position the drop had before the move;
      one that fails it appends nothing. */
  lemma StepAppendsBrushAtStart(d: Drop, texture: seq<real>, dims: Dims, cfg: Config, ops: FloatOps)
    requires InBox(d.position, dims) && Fits(texture, dims) && cfg.Valid()
    ensures var moved := Moved(d, texture, dims, cfg, ops);
      Step(d, texture, dims, cfg, ops).changes ==
        if InBox(moved.position, dims)
        then Brush(dims, d.position, cfg.diameter, Deposit(d, moved, texture, dims, cfg), ops.sqrt)
        else []
  {
  }

  /** What `simulate` produces: the final drop, the concatenated change
      list, the number of loop iterations run, and whether one of them
      killed the drop. */
  datatype Outcome = Outcome(drop: Drop, changes: seq<Delta>, steps: nat, killed: bool)

  /** `prefix` changes and `steps` iterations done before `rest`. */
  function After(prefix: seq<Delta>, steps: nat, rest: Outcome): Outcome
  {
    rest.(changes := prefix + rest.changes, steps := steps + rest.steps)
  }

  /** Up to n iterations of the `simulate` loop. It runs at most n
      iterations; a drop that starts alive is dead at the end exactly
      when an iteration killed it, and the kill was in some iteration;
      without a kill all n iterations ran and the drop is still in the
      box (running out of lifetime does not kill). */
  function Run(d: Drop, texture: seq<real>, dims: Dims, cfg: Config, ops: FloatOps, n: nat): (r: Outcome)
    requires InBox(d.position, dims) && Fits(texture, dims) && cfg.Valid()
    ensures r.steps <= n
    ensures r.drop.alive == (d.alive && !r.killed)
    ensures !r.killed ==> r.steps == n && InBox(r.drop.position, dims)
    ensures r.killed ==> 1 <= r.steps
    ensures forall c :: c in r.changes ==> c.index < dims.w * dims.h
    ensures !r.killed ==> r.drop.sediment + Total(r.changes) == d.sediment
    decreases n, 1
  {
    if n == 0 then Outcome(d, [], 0, false) else Iteration(d, texture, dims, cfg, ops, n)
  }

  /** A run of n > 0 iterations from `d`: the first iteration, then, unless
      it killed the drop, the remaining n - 1 from the drop it left. */
  function Iteration(d: Drop, texture: seq<real>, dims: Dims, cfg: Config, ops: FloatOps, n: nat): (r: Outcome)
    requires InBox(d.position, dims) && Fits(texture, dims) && cfg.Valid() && 0 < n
    ensures r.steps <= n
    ensures r.drop.alive == (d.alive && !r.killed)
    ensures !r.killed ==> r.steps == n && InBox(r.drop.position, dims)
    ensures r.killed ==> 1 <= r.steps
    ensures forall c :: c in r.changes ==> c.index < dims.w * dims.h
    ensures !r.killed ==> r.drop.sediment + Total(r.changes) == d.sediment
    decreases n, 0
  {
    match Step(d, texture, dims, cfg, ops)
    case Stop(dead, points) => Outcome(dead, points, 1, true)
    case Continue(next, points) =>
      var rest := Run(next, texture, dims, cfg, ops, n - 1);
      TotalConcat(points, rest.changes);
      After(points, 1, rest)
  }

  /** One more cell shared out: the shares of the first i + 1 cells extend
      the shares of the first i by the share of cell i. */
  lemma SharesNext(cells: seq<Delta>, i: nat, amount: real, weightSum: real)
    requires i < |cells| && weightSum != 0.0
    ensures Shares(cells[..i + 1], amount, weightSum)
         == Shares(cells[..i], amount, weightSum) + [Delta(Share(amount, cells[i].amount, weightSum), cells[i].index)]
  {
    var upTo := cells[..i + 1];
    assert upTo[..|upTo| - 1] == cells[..i];
  }

  /** Overwriting slot i of `done + cells[i..]`, where `done` has length i,
      moves the boundary between the two parts one cell on. */
  lemma ReplaceNext(done: seq<Delta>, cells: seq<Delta>, i: nat)
    requires |done| == i < |cells|
    ensures (done + cells[i..])[i] == cells[i]
    ensures forall d :: (done + cells[i..])[i := d] == done + [d] + cells[i + 1..]
  {
    forall d
      ensures (done + cells[i..])[i := d] == done + [d] + cells[i + 1..]
    {
      assert (done + cells[i..])[i := d] == done + [d] + cells[i + 1..];
    }
  }

  lemma AppendTotal(ds: seq<Delta>, d: Delta)
    ensures Total(ds + [d]) == Total(ds) + d.amount
  {
    assert (ds + [d])[..|ds|] == ds;
  }

  lemma RowCellsNext(dims: Dims, center: Vec2, diameter: real, sqrt: real -> real, y: nat, x: nat, prefix: seq<Delta>)
    requires 0.0 < diameter && OnGrid(center.y - Offset(diameter, y), dims.h)
    ensures prefix + RowCells(dims, center, diameter, sqrt, y, x + 1)
         == prefix + RowCells(dims, center, diameter, sqrt, y, x) + CellAt(dims, center, diameter, sqrt, y, x)
  {
  }

  /** The first half of `erode_deposit`: walk the square of brush offsets
      row by row and column by column, skipping rows off the grid, and
      collect each cell that `CollectCell` keeps. The result is exactly the
      brush's cell list, and `weightSum` is the sum of its weights. */
  method CollectCells(dims: Dims, center: Vec2, diameter: real, sqrt: real -> real)
    returns (points: seq<Delta>, weightSum: real)
    requires 0.0 < diameter
    ensures points == BrushCells(dims, center, diameter, sqrt)
    ensures weightSum == Total(points)
  {
    var height := Span(diameter);
    points := [];
    weightSum := 0.0;
    for y := 0 to height + 1
      invariant points == Cells(dims, center, diameter, sqrt, y)
      invariant weightSum == Total(points)
    {
      var yOffset := diameter / 2.0 - y as real;
      if center.y - yOffset < 0.0 || center.y - yOffset >= dims.h as real {
        continue;
      }
      ghost var above := points;
      for x := 0 to height + 1
        invariant points == above + RowCells(dims, center, diameter, sqrt, y, x)
        invariant weightSum == Total(points)
      {
        RowCellsNext(dims, center, diameter, sqrt, y, x, above);
        points, weightSum := CollectCell(dims, center, diameter, sqrt, y, x, points, weightSum);
      }
    }
  }

  /** The body of the inner loop of `erode_deposit` for column x of row y:
      skip a column off the grid and a cell outside the disc; otherwise
      append the cell with its fall-off weight and add the weight to the
      running sum. */
  method CollectCell(dims: Dims, center: Vec2, diameter: real, sqrt: real -> real, y: nat, x: nat,
                     points0: seq<Delta>, weightSum0: real)
    returns (points: seq<Delta>, weightSum: real)
    requires 0.0 < diameter && OnGrid(center.y - Offset(diameter, y), dims.h)
    requires weightSum0 == Total(points0)
    ensures points == points0 + CellAt(dims, center, diameter, sqrt, y, x)
    ensures weightSum == Total(points)
  {
    var xOffset := diameter / 2.0 - x as real;
    var yOffset := diameter / 2.0 - y as real;
    CellAtCases(dims, center, diameter, sqrt, y, x);
    points, weightSum := points0, weightSum0;
    if center.x - xOffset < 0.0 || center.x - xOffset >= dims.w as real {
      assert points0 + [] == points0;
      return;
    }
    var cellX: nat := (center.x - xOffset).Floor;
    var cellY: nat := (center.y - yOffset).Floor;
    var distance := Distance(cellX, cellY, center, sqrt);
    assert distance == Distance((center.x - Offset(diameter, x)).Floor, (center.y - Offset(diameter, y)).Floor, center, sqrt);
    if distance > diameter / 2.0 {
      assert points0 + [] == points0;
      return;
    }
    var weight := Sq(1.0 - distance / (diameter / 2.0));
    AppendTotal(points0, Delta(weight, RowMajor(cellX, cellY, dims.w)));
    points := points0 + [Delta(weight, RowMajor(cellX, cellY, dims.w))];
    weightSum := weightSum0 + weight;
  }


  /** The total of a concatenation is the sum of the totals. */
  lemma {:induction false} TotalConcat(a: seq<Delta>, b: seq<Delta>)
    ensures Total(a + b) == Total(a) + Total(b)
    decreases |b|
  {
    if b != [] {
      var b' := b[..|b| - 1];
      var last := b[|b| - 1];
      assert a + b == (a + b') + [last];
      AppendTotal(a + b', last);
      AppendTotal(b', last);
      assert b' + [last] == b;
      TotalConcat(a, b');
    } else {
      assert a + b == a;
    }
  }

  lemma AfterNothing(r: Outcome)
    ensures After([], 0, r) == r
  {
    assert [] + r.changes == r.changes;
  }

  lemma AfterAfter(prefix: seq<Delta>, steps: nat, more: seq<Delta>, rest: Outcome)
    ensures After(prefix, steps, After(more, 1, rest)) == After(prefix + more, steps + 1, rest)
  {
    assert prefix + (more + rest.changes) == prefix + more + rest.changes;
  }

  /** `tail` is the outcome of n more iterations from `d`, a drop inside
      the box. */
  ghost predicate RunsTo(d: Drop, texture: seq<real>, dims: Dims, cfg: Config, ops: FloatOps, n: nat, tail: Outcome)
  {
    InBox(d.position, dims) && Fits(texture, dims) && cfg.Valid() && Run(d, texture, dims, cfg, ops, n) == tail
  }

  /** One unfolding of `Run` at a positive count, stated on the step. */
  lemma RunNext(d: Drop, texture: seq<real>, dims: Dims, cfg: Config, ops: FloatOps, n: nat)
    requires InBox(d.position, dims) && Fits(texture, dims) && cfg.Valid() && 0 < n
    ensures var s := Step(d, texture, dims, cfg, ops);
      Run(d, texture, dims, cfg, ops, n) ==
        if s.Stop? then Outcome(s.drop, s.changes, 1, true)
        else After(s.changes, 1, Run(s.drop, texture, dims, cfg, ops, n - 1))
  {
  }

  /** Bookkeeping for the loop of `simulate`: a run that continued one
      more iteration past `changes` and `steps`. */
  lemma ContinueChain(whole: Outcome, changes: seq<Delta>, steps: nat, tail: Outcome, points: seq<Delta>, next: Outcome)
    requires whole == After(changes, steps, tail) && tail == After(points, 1, next)
    ensures whole == After(changes + points, steps + 1, next)
  {
    AfterAfter(changes, steps, points, next);
  }

  /** Bookkeeping for the loop of `simulate`: the iteration after `changes`
      killed the drop, which ends the run. */
  lemma StopChain(whole: Outcome, changes: seq<Delta>, steps: nat, tail: Outcome, dead: Drop, points: seq<Delta>)
    requires whole == After(changes, steps, tail) && tail == Outcome(dead, points, 1, true)
    ensures whole.drop == dead && whole.changes == changes + points
  {
  }

  /** The raindrop particle. Its methods change its fields in place, as the
      source's `&mut self` methods do; `State` reads them as a `Drop`. */
  class Raindrop {
    var sediment: real
    var water: real
    var position: Vec2
    var velocity: real
    var direction: Vec2
    var alive: bool

    function State(): Drop
      reads this
    {
      Drop(sediment, water, position, velocity, direction, alive)
    }

    /** `Raindrop::new(starting_mass, x, y)`. */
    constructor (startingMass: real, x: real, y: real)
      ensures State() == Spawned(startingMass, Vec2(x, y))
    {
      sediment := 0.0;
      water := startingMass;
      position := Vec2(x, y);
      velocity := 1.0;
      direction := Vec2(0.0, 0.0);
      alive := true;
    }

    /** `erode_deposit`: collect the brush cells around `center` with
        their weights, then turn each weight into that cell's share of
        `deposit`, taking it from the carried sediment. The result is the
        brush's change list, and the sediment drops by exactly what the
        list hands out. */
    method ErodeDeposit(dims: Dims, center: Vec2, diameter: real, deposit: real, sqrt: real -> real)
      returns (points: seq<Delta>)
      requires 0.0 < diameter
      modifies this`sediment
      ensures points == Brush(dims, center, diameter, deposit, sqrt)
      ensures sediment == old(sediment) - Total(points)
    {
      var weightSum;
      points, weightSum := CollectCells(dims, center, diameter, sqrt);
      ghost var cells := points;
      if weightSum == 0.0 {
        // No weight to share by: the source would compute 0/0 here when
        // cells survive; the model hands out nothing instead.
        points := [];
        return;
      }
      for i := 0 to |points|
        invariant points == Shares(cells[..i], deposit, weightSum) + cells[i..]
        invariant sediment == old(sediment) - Total(Shares(cells[..i], deposit, weightSum))
      {
        ghost var done := Shares(cells[..i], deposit, weightSum);
        SharesNext(cells, i, deposit, weightSum);
        ReplaceNext(done, cells, i);
        var share := Share(deposit, points[i].amount, weightSum);
        AppendTotal(done, Delta(share, cells[i].index));
        points := points[i := Delta(share, points[i].index)];
        sediment := sediment - share;
      }
      assert cells[..|cells|] == cells;
    }

    /** `kill`: mark the drop dead and deposit all its sediment at its
        current position, discarding the resulting change list. */
    method Kill(dims: Dims, diameter: real, sqrt: real -> real)
      requires 0.0 < diameter
      modifies this
      ensures State() == KillDrop(old(State()), dims, diameter, sqrt)
    {
      alive := false;
      var discarded := ErodeDeposit(dims, position, diameter, sediment, sqrt);
    }

    /** One iteration of the `simulate` loop, from an in-box position:
        steer, move, and either kill the drop (it left the box, or it
        slowed to 0.01 or less after eroding or depositing) or carry on.
        `points` is what the iteration appends to the change list. */
    method Advance(texture: seq<real>, dims: Dims, cfg: Config, ops: FloatOps) returns (stopped: bool, points: seq<Delta>)
      requires InBox(position, dims) && Fits(texture, dims) && cfg.Valid()
      modifies this
      ensures Step(old(State()), texture, dims, cfg, ops)
           == if stopped then Stop(State(), points) else Continue(State(), points)
    {
      ghost var d := State();
      var prevX, prevY := position.x, position.y;
      var start := HeightAndGradient(position, texture, dims);
      direction := Steer(direction, start.gradient, cfg.inertia, ops.normalize);
      position := Add(position, direction);
      ghost var moved := State();
      assert moved == Moved(d, texture, dims, cfg, ops);
      if position.x >= dims.w as real - 1.0 || position.x < 0.0
        || position.y >= dims.h as real - 1.0 || position.y < 0.0
      {
        Kill(dims, cfg.diameter, ops.sqrt);
        return true, [];
      }
      var diff := HeightAndGradient(position, texture, dims).height - start.height;
      var sedimentCapacity := SedimentCapacity(diff, velocity, water, cfg.capacity);
      var deposit := DepositAmount(sediment, sedimentCapacity, diff, cfg.depositionFactor, cfg.erosionFactor);
      assert diff == Diff(d, moved, texture, dims);
      assert deposit == Deposit(d, moved, texture, dims, cfg);
      assert Vec2(prevX, prevY) == d.position;
      points := ErodeDeposit(dims, Vec2(prevX, prevY), cfg.diameter, deposit, ops.sqrt);
      velocity := NewVelocity(velocity, diff, cfg.gravity, ops.sqrt);
      water := water * 0.99;
      assert Settlement(State(), points) == Settled(d, moved, texture, dims, cfg, ops);
      stopped := velocity <= 0.01;
      if stopped {
        Kill(dims, cfg.diameter, ops.sqrt);
      }
    }

    /** `Advance` seen from the loop of `simulate`: with `n` iterations
        left, the run from the old state is this iteration followed by the
        run of the remaining `n - 1` from the new state. */
    method Iterate(texture: seq<real>, dims: Dims, cfg: Config, ops: FloatOps, ghost n: nat, ghost tail: Outcome)
      returns (stopped: bool, points: seq<Delta>, ghost rest: Outcome)
      requires InBox(position, dims) && Fits(texture, dims) && cfg.Valid() && 0 < n
      requires RunsTo(State(), texture, dims, cfg, ops, n, tail)
      modifies this
      ensures stopped ==> tail == Outcome(State(), points, 1, true)
      ensures !stopped ==> InBox(position, dims) && tail == After(points, 1, rest)
      ensures !stopped ==> RunsTo(State(), texture, dims, cfg, ops, n - 1, rest)
    {
      ghost var before := State();
      stopped, points := Advance(texture, dims, cfg, ops);
      RunNext(before, texture, dims, cfg, ops, n);
      rest := if stopped then tail else Run(State(), texture, dims, cfg, ops, n - 1);
    }

    /** `simulate`: run up to `lifetime` iterations against a read-only
        snapshot of the height field and return every change list the
        iterations appended, in order. The final drop and the change list
        are those of `Run`. */
    method Simulate(texture: seq<real>, dims: Dims, cfg: Config, ops: FloatOps) returns (changes: seq<Delta>)
      requires InBox(position, dims) && Fits(texture, dims) && cfg.Valid()
      modifies this
      ensures var r := Run(old(State()), texture, dims, cfg, ops, cfg.lifetime);
        State() == r.drop && changes == r.changes
    {
      changes := [];
      ghost var tail := Run(State(), texture, dims, cfg, ops, cfg.lifetime);
      ghost var whole := tail;
      AfterNothing(whole);
      for i := 0 to cfg.lifetime
        invariant InBox(position, dims)
        invariant RunsTo(State(), texture, dims, cfg, ops, cfg.lifetime - i, tail)
        invariant whole == After(changes, i, tail)
      {
        var stopped, points, rest := Iterate(texture, dims, cfg, ops, cfg.lifetime - i, tail);
        if stopped {
          StopChain(whole, changes, i, tail, State(), points);
          changes := changes + points;
          break;
        }
        ContinueChain(whole, changes, i, tail, points, rest);
        changes := changes + points;
        tail := rest;
      }
    }
  }
}
