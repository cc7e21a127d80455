/** The physics thread of `start_physics` (terrain_mesh.rs): each round
    spawns a batch of drops, simulates every drop against a snapshot of the
    height field, concatenates their change lists in drop order, and adds
    every change to its cell. The parallel map over the drops is modelled
    as a sequential loop: each drop only reads the snapshot and writes its
    own fields, so the order of the simulations does not matter, and the
    order of the concatenation is the drop order either way. */
module Physics {
  import opened Geometry
  import opened HeightField
  import opened Kernel
  import opened Raindrops
  import opened Spawning

  /** Every change names a cell below n. */
  predicate InRange(changes: seq<Delta>, n: nat)
  {
    forall c :: c in changes ==> c.index < n
  }

  /** The change list of a batch: the `simulate` output of each drop, from
      its starting state, concatenated in drop order
      (`map(simulate).flatten().collect()`). Every change it holds names a
      cell of the grid. */
  function Batch(starts: seq<Drop>, texture: seq<real>, dims: Dims, cfg: Config, ops: FloatOps): (changes: seq<Delta>)
    requires Fits(texture, dims) && cfg.Valid()
    requires forall i :: 0 <= i < |starts| ==> InBox(starts[i].position, dims)
    ensures InRange(changes, dims.w * dims.h)
  {
    if starts == [] then []
    else
      Batch(starts[..|starts| - 1], texture, dims, cfg, ops)
        + Run(starts[|starts| - 1], texture, dims, cfg, ops, cfg.lifetime).changes
  }

  /** The states of a sequence of drops. */
  function States(drops: seq<Raindrop>): (states: seq<Drop>)
    reads set d | d in drops
    ensures |states| == |drops|
    ensures forall i :: 0 <= i < |drops| ==> states[i] == drops[i].State()
  {
    if drops == [] then [] else States(drops[..|drops| - 1]) + [drops[|drops| - 1].State()]
  }

  /** The drops as `create_raindrops` makes them from the draws `random`. */
  function SpawnStates(num: nat, mass: real, dims: Dims, random: seq<nat>): (starts: seq<Drop>)
    requires 2 <= dims.w && 2 <= dims.h && 2 * num <= |random|
    ensures |starts| == num
    ensures forall i :: 0 <= i < num ==> InBox(starts[i].position, dims) && starts[i].alive
  {
    seq(num, i requires 0 <= i < num => Spawned(mass, SpawnPoint(random[2 * i], random[2 * i + 1], dims)))
  }

  /** The simulation of a batch of distinct drops, one after the other,
      against the same snapshot `texture`: the result is `Batch` of their
      starting states, and every drop ends as its own `Run` says. */
  method SimulateBatch(drops: seq<Raindrop>, texture: seq<real>, dims: Dims, cfg: Config, ops: FloatOps)
    returns (changes: seq<Delta>)
    requires Fits(texture, dims) && cfg.Valid()
    requires forall i, j :: 0 <= i < j < |drops| ==> drops[i] != drops[j]
    requires forall i :: 0 <= i < |drops| ==> InBox(drops[i].position, dims)
    modifies set d | d in drops
    ensures changes == Batch(old(States(drops)), texture, dims, cfg, ops)
    ensures forall i :: 0 <= i < |drops| ==>
      drops[i].State() == Run(old(drops[i].State()), texture, dims, cfg, ops, cfg.lifetime).drop
  {
    ghost var starts := States(drops);
    changes := [];
    for i := 0 to |drops|
      invariant changes == Batch(starts[..i], texture, dims, cfg, ops)
      invariant forall j :: i <= j < |drops| ==> drops[j].State() == starts[j]
      invariant forall j :: 0 <= j < i ==>
        drops[j].State() == Run(starts[j], texture, dims, cfg, ops, cfg.lifetime).drop
    {
      var points := drops[i].Simulate(texture, dims, cfg, ops);
      assert starts[..i + 1][..i] == starts[..i];
      changes := changes + points;
    }
    assert starts[..|drops|] == starts;
  }

  /** Sum of the amounts a change list hands to cell i. */
  function SumAt(changes: seq<Delta>, i: nat): real
  {
    if changes == [] then 0.0
    else
      var last := changes[|changes| - 1];
      SumAt(changes[..|changes| - 1], i) + (if last.index == i then last.amount else 0.0)
  }

  /** The height field after the fold `texture[change.1] += change.0`
      over `changes`, in order. */
  function Applied(texture: seq<real>, changes: seq<Delta>): (r: seq<real>)
    requires InRange(changes, |texture|)
    ensures |r| == |texture|
  {
    if changes == [] then texture
    else
      var prefix := changes[..|changes| - 1];
      var last := changes[|changes| - 1];
      assert forall c :: c in prefix ==> c in changes;
      var before := Applied(texture, prefix);
      before[last.index := before[last.index] + last.amount]
  }

  /** Each cell ends at its old height plus everything the changes hand to
      it; in particular a cell no change names keeps its height. */
  lemma {:induction false} AppliedAdds(texture: seq<real>, changes: seq<Delta>, i: nat)
    requires InRange(changes, |texture|) && i < |texture|
    ensures Applied(texture, changes)[i] == texture[i] + SumAt(changes, i)
  {
    if changes != [] {
      var prefix := changes[..|changes| - 1];
      assert forall c :: c in prefix ==> c in changes;
      AppliedAdds(texture, prefix, i);
    }
  }

  /** Changes that name other cells add nothing to cell i. */
  lemma {:induction false} SumAtElsewhere(changes: seq<Delta>, i: nat)
    requires forall c :: c in changes ==> c.index != i
    ensures SumAt(changes, i) == 0.0
  {
    if changes != [] {
      var prefix := changes[..|changes| - 1];
      assert forall c :: c in prefix ==> c in changes;
      SumAtElsewhere(prefix, i);
    }
  }

  /** A cell that no change names keeps its height. */
  lemma AppliedUntouched(texture: seq<real>, changes: seq<Delta>, i: nat)
    requires InRange(changes, |texture|) && i < |texture|
    requires forall c :: c in changes ==> c.index != i
    ensures Applied(texture, changes)[i] == texture[i]
  {
    AppliedAdds(texture, changes, i);
    SumAtElsewhere(changes, i);
  }

  /** What two change lists hand to a cell adds up. */
  lemma {:induction false} SumAtConcat(a: seq<Delta>, b: seq<Delta>, i: nat)
    ensures SumAt(a + b, i) == SumAt(a, i) + SumAt(b, i)
    decreases |b|
  {
    if b != [] {
      assert (a + b)[..|a + b| - 1] == a + b[..|b| - 1];
      assert (a + b)[|a + b| - 1] == b[|b| - 1];
      SumAtConcat(a, b[..|b| - 1], i);
    } else {
      assert a + b == a;
    }
  }

  /** Reordering the changes does not change what a cell receives. */
  lemma {:induction false} SumAtPermutation(a: seq<Delta>, b: seq<Delta>, i: nat)
    requires multiset(a) == multiset(b)
    ensures SumAt(a, i) == SumAt(b, i)
    decreases |a|
  {
    if a != [] {
      var last := a[|a| - 1];
      assert a == a[..|a| - 1] + [last];
      assert last in multiset(b);
      var j :| 0 <= j < |b| && b[j] == last;
      assert b == b[..j] + [last] + b[j + 1..];
      var rest := b[..j] + b[j + 1..];
      assert multiset(a) == multiset(a[..|a| - 1]) + multiset{last};
      assert multiset(b) == multiset(b[..j]) + multiset{last} + multiset(b[j + 1..]);
      assert multiset(rest) == multiset(b[..j]) + multiset(b[j + 1..]);
      assert multiset(a[..|a| - 1]) == multiset(a) - multiset{last};
      assert multiset(rest) == multiset(b) - multiset{last};
      SumAtPermutation(a[..|a| - 1], rest, i);
      SumAtConcat(b[..j] + [last], b[j + 1..], i);
      SumAtConcat(b[..j], [last], i);
      SumAtConcat(b[..j], b[j + 1..], i);
      assert [last][..0] == [];
    }
  }

  /** The fold does not depend on the order of the changes: any permutation
      of them gives the same height field. */
  lemma AppliedOrderIndependent(texture: seq<real>, a: seq<Delta>, b: seq<Delta>)
    requires InRange(a, |texture|) && multiset(a) == multiset(b)
    ensures InRange(b, |texture|)
    ensures Applied(texture, a) == Applied(texture, b)
  {
    forall c | c in b
      ensures c.index < |texture|
    {
      assert c in multiset(b);
    }
    forall i | 0 <= i < |texture|
      ensures Applied(texture, a)[i] == Applied(texture, b)[i]
    {
      AppliedAdds(texture, a, i);
      AppliedAdds(texture, b, i);
      SumAtPermutation(a, b, i);
    }
  }

  /** Folding two change lists one after the other is folding their
      concatenation: applying a batch drop by drop gives the same field. */
  lemma AppliedConcat(texture: seq<real>, a: seq<Delta>, b: seq<Delta>)
    requires InRange(a + b, |texture|)
    ensures InRange(a, |texture|) && InRange(b, |Applied(texture, a)|)
    ensures Applied(texture, a + b) == Applied(Applied(texture, a), b)
  {
    assert forall c :: c in a ==> c in a + b;
    assert forall c :: c in b ==> c in a + b;
    var middle := Applied(texture, a);
    forall i | 0 <= i < |texture|
      ensures Applied(texture, a + b)[i] == Applied(middle, b)[i]
    {
      AppliedAdds(texture, a + b, i);
      AppliedAdds(texture, a, i);
      AppliedAdds(middle, b, i);
      SumAtConcat(a, b, i);
    }
  }

  /** The update loop `for change in changes { texture[change.1] += change.0 }`
      on the shared buffer. Every index must name a cell, or the source
      panics. */
  method ApplyChanges(texture: array<real>, changes: seq<Delta>)
    requires InRange(changes, texture.Length)
    modifies texture
    ensures texture[..] == Applied(old(texture[..]), changes)
  {
    ghost var start := texture[..];
    for k := 0 to |changes|
      invariant InRange(changes[..k], |start|)
      invariant texture[..] == Applied(start, changes[..k])
    {
      var change := changes[k];
      assert changes[..k + 1][..k] == changes[..k];
      assert forall c :: c in changes[..k + 1] ==> c in changes;
      texture[change.index] := texture[change.index] + change.amount;
    }
    assert changes[..|changes|] == changes;
  }

  /** The height field after one round of the physics loop: a batch spawned
      from the draws `random`, simulated against the field, then folded in. */
  function AfterRound(texture: seq<real>, dims: Dims, num: nat, mass: real, random: seq<nat>,
                      cfg: Config, ops: FloatOps): (r: seq<real>)
    requires Fits(texture, dims) && cfg.Valid() && 2 <= dims.w && 2 <= dims.h && 2 * num <= |random|
    ensures Fits(r, dims)
  {
    Applied(texture, Batch(SpawnStates(num, mass, dims, random), texture, dims, cfg, ops))
  }

  /** One round of the loop in `start_physics`: `create_raindrops`, the
      simulation of the batch against the current field, then the fold of
      the batch's changes into the field. Every change of the batch names a
      cell, so the fold never indexes out of range. */
  method PhysicsRound(texture: array<real>, dims: Dims, num: nat, mass: real, random: seq<nat>,
                      cfg: Config, ops: FloatOps)
    requires Fits(texture[..], dims) && cfg.Valid()
    requires 2 <= dims.w && 2 <= dims.h && 2 * num <= |random|
    modifies texture
    ensures texture[..] == AfterRound(old(texture[..]), dims, num, mass, random, cfg, ops)
  {
    var drops := CreateRaindrops(num, mass, dims, random);
    assert States(drops) == SpawnStates(num, mass, dims, random);
    var changes := SimulateBatch(drops, texture[..], dims, cfg, ops);
    ApplyChanges(texture, changes);
  }

  /** The height field after a sequence of rounds, one set of draws each. */
  function AfterRounds(texture: seq<real>, dims: Dims, num: nat, mass: real, draws: seq<seq<nat>>,
                       cfg: Config, ops: FloatOps): (r: seq<real>)
    requires Fits(texture, dims) && cfg.Valid() && 2 <= dims.w && 2 <= dims.h
    requires forall k :: 0 <= k < |draws| ==> 2 * num <= |draws[k]|
    ensures Fits(r, dims)
  {
    if draws == [] then texture
    else
      var before := AfterRounds(texture, dims, num, mass, draws[..|draws| - 1], cfg, ops);
      AfterRound(before, dims, num, mass, draws[|draws| - 1], cfg, ops)
  }

  /** The physics loop, run until the stop signal arrives after `|draws|`
      rounds, each round with its own draws. */
  method PhysicsLoop(texture: array<real>, dims: Dims, num: nat, mass: real, draws: seq<seq<nat>>,
                     cfg: Config, ops: FloatOps)
    requires Fits(texture[..], dims) && cfg.Valid() && 2 <= dims.w && 2 <= dims.h
    requires forall k :: 0 <= k < |draws| ==> 2 * num <= |draws[k]|
    modifies texture
    ensures texture[..] == AfterRounds(old(texture[..]), dims, num, mass, draws, cfg, ops)
  {
    ghost var start := texture[..];
    for round := 0 to |draws|
      invariant texture[..] == AfterRounds(start, dims, num, mass, draws[..round], cfg, ops)
    {
      assert draws[..round + 1][..round] == draws[..round];
      PhysicsRound(texture, dims, num, mass, draws[round], cfg, ops);
    }
    assert draws[..|draws|] == draws;
  }

  /** The export callback reads `texture[y * w + x]` for pixel (x, y). Every
      cell of the field is read for exactly one pixel: index i belongs to
      pixel (i % w, i / w), and to no other. */
  lemma ExportReadsEveryCell(i: nat, x: nat, y: nat, dims: Dims)
    requires i < dims.w * dims.h && x < dims.w && y < dims.h
    ensures i % dims.w < dims.w && i / dims.w < dims.h && RowMajor(i % dims.w, i / dims.w, dims.w) == i
    ensures RowMajor(x, y, dims.w) == i ==> x == i % dims.w && y == i / dims.w
  {
    var q, r := i / dims.w, i % dims.w;
    assert i == q * dims.w + r;
    if q >= dims.h {
      MulLeft(dims.h, q, dims.w);
      assert false;
    }
    RowMajorInverse(x, y, dims.w);
  }
}
