# Hydraulic erosion: a verified model of the particle simulation

This project models the core of a particle-based hydraulic-erosion
simulator for a height field, in Dafny. The field is a row-major grid of `w x h` heights.

- Each raindrop starts at a random grid point. It follows the slope of the bilinear surface for up to `lifetime` steps.
- After each in-range step it erodes material from the field, or deposits material onto it. The field changes through a brush: a weighted disc of cells around the drop's previous position.
- Drops are simulated in batches against a snapshot of the field. Each drop's change list is concatenated in drop order. The batch is then folded into the field cell by cell.
- The field is loaded from a half-float image. Only its height channel is kept.

The modules follow the source files:

| file | module | models |
|---|---|---|
| `geometry.dfy` | `Geometry` | points, grid dimensions, the row-major index `y * w + x` |
| `height_field.dfy` | `HeightField` | `get_height_and_gradient` (raindrop.rs) |
| `kernel.dfy` | `Kernel` | the brush of `erode_deposit` as specification functions |
| `raindrop.dfy` | `Raindrops` | the `Raindrop` class: `new`, `simulate`, `erode_deposit`, `kill` |
| `spawn.dfy` | `Spawning` | `create_raindrops` (lib.rs) |
| `texture_load.dfy` | `TextureLoad` | byte decoding, channel extraction and `TEXTURE` reload in `ready` |
| `physics.dfy` | `Physics` | the batch, the delta fold and the export index of `start_physics` |

The source's arithmetic is floating point; the model uses `real`:

- `sqrt` and `normalize` are parameters (`Raindrops.FloatOps`).
- `sqrt` is assumed to be a true square root wherever a proof needs one (`Geometry.IsSqrt`).
- `normalize` is arbitrary. No property proved here depends on the step having unit length, because the bounds check after each move decides whether the drop goes on. Its NaN result for a zero vector is not modelled; see "## Left out".

Each part has two layers:

- **Specification functions.** `Step` is one loop iteration, `Run` is up to n iterations, `Brush` is one kernel application, `Batch` is a batch, `Applied` is the fold.
- **Imperative members** written as the source is. The `Raindrop` class updates its fields in place, the fold updates an array in place, and the loops carry invariants.

Each imperative member is proved to compute exactly what its specification function says. Properties of the specification functions are proved as their own contracts and as lemmas.

### Behaviour of the code worth knowing

The model follows the code, including these points where the code does something a reader of its comments might not expect:

- **`kill` discards its own output.** It runs the brush for the drop's whole sediment, but the change list it builds is thrown away (rust/src/raindrop.rs:252-255). The drop's sediment is zeroed, or left unchanged if no cell of the brush survives, and that material never reaches the field. When cells survive with total weight 0, the source's sediment becomes NaN instead; see the `Kernel.Brush` line of "## Left out".
- **A drop that leaves the grid is killed, not reflected.** The comment at rust/src/raindrop.rs:81 says "reflect it". The branches at lines 82-96 call `kill` at the moved position, which is outside the box, so the kill brush is centred there and not on the last position inside the grid.
- **Running out of `lifetime` does not kill.** The doc comment of `simulate` (rust/src/raindrop.rs:34) says the drop is simulated until it dies by setting `alive` to false. When the `for` loop over `0..lifetime` ends (lines 65, 148), `alive` is still true.
- **The erosion factor scales the capacity shortfall before the cap by the height drop.** The amount is `-min((capacity - sediment) * erosion_factor, -diff)` (rust/src/raindrop.rs:123), so erosion never removes more than the height drop of the step.
- **No parameter is validated.** `simulate` and `create_raindrops` accept any configuration. The model requires a positive diameter (`Config.Valid`); "## Left out" says what that leaves aside.

## Model

| member | source | states |
|---|---|---|
| `Geometry.RowMajorInGrid` | rust/src/terrain_mesh.rs:303-305 | every cell `(x, y)` of a `w x h` grid has row-major index `y * w + x < w * h` |
| `Geometry.RowMajorInverse` | rust/src/raindrop.rs:225 | the row-major index determines its cell: `% w` gives back x and `/ w` gives back y |
| `HeightField.CornerIndex` | rust/src/raindrop.rs:267-277 | for a point inside `[0, w-1) x [0, h-1)` the largest corner index read, `y * w + x + w + 1`, is below `w * h` |
| `HeightField.Frac` | rust/src/raindrop.rs:270-271 | the fractional offsets u and v of a non-negative coordinate lie in `[0, 1)` |
| `HeightField.BilinearWeights` | rust/src/raindrop.rs:285-286 | the four bilinear weights each lie in `[0, 1]` and sum to 1 |
| `HeightField.BilinearBetweenCorners` | rust/src/raindrop.rs:285-286 | the bilinear height lies between the lowest and the highest corner of the cell |
| `HeightField.BilinearFlat` | rust/src/raindrop.rs:280-286 | on a flat cell the height is the common corner height and the gradient is `(0, 0)` |
| `HeightField.HeightAndGradient` | rust/src/raindrop.rs:261-289 | the height lies between the cell's lowest and highest corner; at a grid point it is that point's value; on a flat cell the gradient is zero; all reads are in range |
| `Kernel.Span` | rust/src/raindrop.rs:183 | `diameter.ceil()` is the least whole number at or above the diameter |
| `Kernel.CellAt` | rust/src/raindrop.rs:202-228 | one offset contributes at most one cell, with index below `w * h` and non-negative weight |
| `Kernel.RowCells` | rust/src/raindrop.rs:202-229 | the first n columns of a row contribute at most n cells, each inside the grid with non-negative weight |
| `Kernel.Cells` | rust/src/raindrop.rs:196-230 | the first n rows contribute at most `n * (ceil(d) + 1)` cells, each inside the grid with non-negative weight |
| `Kernel.BrushCells` | rust/src/raindrop.rs:183-230 | the brush collects at most `(ceil(d) + 1)^2` cells, each with index below `w * h` and non-negative weight |
| `Kernel.TotalNonneg` | rust/src/raindrop.rs:228 | a sum of non-negative weights is non-negative |
| `Kernel.ShareSign` | rust/src/raindrop.rs:237 | a share of a non-negative weight has the sign of the amount |
| `Kernel.Shares` | rust/src/raindrop.rs:235-244 | the second loop keeps the cells and their order, and replaces each weight by `amount * weight / weight_sum` |
| `Kernel.SharesTotal` | rust/src/raindrop.rs:235-244 | the shares add up to the share of the total weight |
| `Kernel.Brush` | rust/src/raindrop.rs:175-247 | at most `(ceil(d) + 1)^2` entries, all inside the grid; empty exactly when the weight sum is 0; otherwise the amounts sum to the deposit; every amount has the deposit's sign |
| `Kernel.WeightInUnit` | rust/src/raindrop.rs:222 | a cell at distance at most `d / 2` gets a weight in `[0, 1]` |
| `Kernel.CellAtInDisc` | rust/src/raindrop.rs:214-225 | a collected cell is within `d / 2` of the centre and has weight in `[0, 1]` |
| `Kernel.RowCellsInDisc` | rust/src/raindrop.rs:202-229 | every cell a row collects is within `d / 2` of the centre with weight in `[0, 1]` |
| `Kernel.CellsInDisc` | rust/src/raindrop.rs:196-230 | every cell the first n rows collect is within `d / 2` of the centre with weight in `[0, 1]` |
| `Kernel.BrushCellsInDisc` | rust/src/raindrop.rs:196-230 | every collected cell is within `d / 2` of the centre with weight in `[0, 1]` |
| `Kernel.BrushWithinRadius` | rust/src/raindrop.rs:196-246 | every entry of the brush's change list names a cell within `d / 2` of the brush centre |
| `Raindrops.Spawned` | rust/src/raindrop.rs:23-32 | a new drop has no sediment, `mass` water, unit velocity, zero direction and is alive |
| `Raindrops.SedimentStaysInRange` | rust/src/raindrop.rs:104-130 | for factors in `[0, 1]`, the amount handed to the brush keeps sediment non-negative; a deposit never raises sediment; erosion never lifts it above capacity |
| `Raindrops.DepositAmount` | rust/src/raindrop.rs:106-123 | uphill, the deposit is `min(diff, sediment)`; downhill over capacity it is non-negative; erosion is non-positive and at most the height drop |
| `Raindrops.NewVelocity` | rust/src/raindrop.rs:133 | the new velocity is never below 0.0001, including for a negative radicand |
| `Raindrops.LevelGroundKeepsVelocity` | rust/src/raindrop.rs:133 | with no height change a drop keeps its speed |
| `Raindrops.KillDrop` | rust/src/raindrop.rs:252-255 | the drop dies; only its sediment changes, to 0 or not at all; nothing else changes |
| `Raindrops.Step` | rust/src/raindrop.rs:65-140 | see the Step paragraph below the table |
| `Raindrops.StepAppendsBrushAtStart` | rust/src/raindrop.rs:67-129 | an in-box iteration appends exactly the brush for its deposit, centred on the position before the move; an out-of-box one appends nothing |
| `Raindrops.Run` | rust/src/raindrop.rs:65-148 | see the Run paragraph below the table |
| `Raindrops.Iteration` | rust/src/raindrop.rs:65-140 | a run of at least one iteration has the same guarantees as `Run` |
| `Raindrops.TotalConcat` | rust/src/raindrop.rs:114-129 | appending change lists adds their totals |
| `Raindrops.CollectCells` | rust/src/raindrop.rs:183-230 | the nested loops of `erode_deposit` collect exactly `BrushCells`, and `weight_sum` is their total weight |
| `Raindrops.CollectCell` | rust/src/raindrop.rs:202-228 | one inner-loop pass appends exactly that offset's cell (if any) and keeps `weight_sum` equal to the total |
| `Raindrops.Raindrop.constructor` | rust/src/raindrop.rs:23-32 | the new drop's fields are those of `Spawned` |
| `Raindrops.Raindrop.ErodeDeposit` | rust/src/raindrop.rs:175-247 | returns exactly the `Brush` list for the deposit; sediment falls by exactly that list's total |
| `Raindrops.Raindrop.Kill` | rust/src/raindrop.rs:252-255 | the drop ends as `KillDrop` says; the brush output is dropped |
| `Raindrops.Raindrop.Advance` | rust/src/raindrop.rs:66-139 | one loop iteration changes the fields and returns the points exactly as `Step` says |
| `Raindrops.Raindrop.Iterate` | rust/src/raindrop.rs:65-140 | with n iterations left, the run from the old state is this iteration followed by the run of n - 1 from the new state |
| `Raindrops.Raindrop.Simulate` | rust/src/raindrop.rs:45-149 | the final fields and the returned change list are exactly `Run(start, lifetime)`'s |
| `Spawning.SpawnPoint` | rust/src/lib.rs:19-20 | the spawn point is a whole-number point with x in `[0, w-2]` and y in `[0, h-2]`, inside the box `simulate` requires |
| `Spawning.SpawnPointCovers` | rust/src/lib.rs:19-20 | every grid point of that range is reached, and by every draw congruent to it |
| `Spawning.CreateRaindrops` | rust/src/lib.rs:15-26 | see the CreateRaindrops paragraph below the table |
| `TextureLoad.ToLe` | rust/src/terrain_mesh.rs:136 | a word becomes two bytes |
| `TextureLoad.LeRoundTrip` | rust/src/terrain_mesh.rs:102 | `from_le_bytes` and `to_le_bytes` are inverse: word to bytes to word, and bytes to word to bytes |
| `TextureLoad.Decode` | rust/src/terrain_mesh.rs:98-103 | `chunks_exact(2)` yields `floor(n / 2)` words; word j is built from bytes 2j (low) and 2j+1 (high) |
| `TextureLoad.Encode` | rust/src/terrain_mesh.rs:133-138 | the display bytes are two per word |
| `TextureLoad.DecodeEncode` | rust/src/terrain_mesh.rs:133-138 | decoding the encoded words gives the words back |
| `TextureLoad.EncodeDecode` | rust/src/terrain_mesh.rs:98-103 | encoding the decoded words gives back the bytes, less an odd last byte |
| `TextureLoad.Stride` | rust/src/terrain_mesh.rs:107-115 | a stride exists exactly for RGH, RGBH and RGBAH, and lies in 2..4 |
| `TextureLoad.MultiplesStep` | rust/src/terrain_mesh.rs:121 | one more index adds one multiple of k exactly when it is divisible by k |
| `TextureLoad.KeepMultiples` | rust/src/terrain_mesh.rs:117-123 | the filter keeps one word per multiple of k in the index range |
| `TextureLoad.KeepMultiplesAt` | rust/src/terrain_mesh.rs:117-123 | kept word j is the word at the j-th multiple of k, counting from the start index |
| `TextureLoad.EveryKth` | rust/src/terrain_mesh.rs:117-123 | the height channel has `ceil(n / k)` words |
| `TextureLoad.EveryKthPicks` | rust/src/terrain_mesh.rs:117-123 | word j of the height channel is input word `j * k` |
| `TextureLoad.LoadedFits` | rust/src/terrain_mesh.rs:84-128 | an image of `w x h` pixels with k half-float channels gives exactly `w * h` heights; cell `(x, y)` holds the red word of pixel `(x, y)` |
| `TextureLoad.Terrain.constructor` | rust/src/terrain_mesh.rs:24-25 | `DIMS` starts as `(0, 0)` and `TEXTURE` empty |
| `TextureLoad.Terrain.Ready` | rust/src/terrain_mesh.rs:74-138 | see the Ready paragraph below the table |
| `Physics.Batch` | rust/src/terrain_mesh.rs:249-262 | the batch's change list, concatenated in drop order, names only cells of the grid |
| `Physics.States` | rust/src/terrain_mesh.rs:249-251 | the drops' states, one per drop, in order |
| `Physics.SpawnStates` | rust/src/terrain_mesh.rs:245 | a spawned batch has `num` drops, all alive and inside the box |
| `Physics.SimulateBatch` | rust/src/terrain_mesh.rs:249-262 | simulating distinct drops one after the other returns exactly `Batch` of their starting states, and each drop ends as its own `Run` says |
| `Physics.Applied` | rust/src/terrain_mesh.rs:268-270 | the fold leaves the field's length unchanged |
| `Physics.AppliedAdds` | rust/src/terrain_mesh.rs:268-270 | each cell ends at its old height plus the sum of the amounts that name it |
| `Physics.SumAtElsewhere` | rust/src/terrain_mesh.rs:268-270 | changes naming other cells contribute nothing to a cell |
| `Physics.AppliedUntouched` | rust/src/terrain_mesh.rs:268-270 | a cell no change names keeps its height |
| `Physics.SumAtConcat` | rust/src/terrain_mesh.rs:261-262 | what two concatenated change lists give a cell adds up |
| `Physics.SumAtPermutation` | rust/src/terrain_mesh.rs:268-270 | what a cell receives does not depend on the order of the changes |
| `Physics.AppliedOrderIndependent` | rust/src/terrain_mesh.rs:268-270 | any permutation of the changes folds to the same field |
| `Physics.AppliedConcat` | rust/src/terrain_mesh.rs:249-270 | folding a concatenation is folding the parts one after the other |
| `Physics.ApplyChanges` | rust/src/terrain_mesh.rs:264-270 | the in-place loop leaves the array equal to `Applied` of its old contents |
| `Physics.AfterRound` | rust/src/terrain_mesh.rs:244-270 | one round keeps a field of `w * h` heights |
| `Physics.PhysicsRound` | rust/src/terrain_mesh.rs:244-270 | spawn, simulate against the current field, and fold leave the field as `AfterRound` says; the fold never indexes out of range |
| `Physics.AfterRounds` | rust/src/terrain_mesh.rs:234-293 | any number of rounds keeps a field of `w * h` heights |
| `Physics.PhysicsLoop` | rust/src/terrain_mesh.rs:234-293 | k rounds leave the field as `AfterRounds` says |
| `Physics.ExportReadsEveryCell` | rust/src/terrain_mesh.rs:303-305 | each field index is read for exactly one pixel, `(i % w, i / w)` |

Notes on the longer rows:

- **`Raindrops.Step`.** A surviving iteration keeps the drop alive and inside the box. Its velocity ends above 0.01 and its water at 0.99 of its old value. Sediment plus what it handed out is unchanged. A stopping iteration kills the drop: either it left the box and appended nothing, or it is inside with velocity at most 0.01. In both cases at most `(ceil(d) + 1)^2` changes are appended, all inside the grid.
- **`Raindrops.Run`.** A run makes at most n iterations. A drop that starts alive is dead at the end exactly when some iteration killed it. Without a kill, all n iterations ran, the drop is still in the box and keeps its `alive` flag, and sediment plus what it handed out equals its starting sediment. Every change is inside the grid.
- **`Spawning.CreateRaindrops`.** It returns exactly `num` new, distinct drops. Drop i is `Spawned` at the spawn point of draws 2i and 2i+1, and is alive and inside the box.
- **`TextureLoad.Terrain.Ready`.** `DIMS` is set whatever the format. An unsupported format leaves `TEXTURE` untouched. Otherwise `TEXTURE` is exactly the height channel, with no residue, and the display bytes decode back to it.

## Left out

- **Godot engine glue**, as foreign calls with no statable behaviour:
  - resource loading, shader and material setup, and `ImageTexture` creation (rust/src/terrain_mesh.rs:74-96, 140-165);
  - `update_texture` (rust/src/terrain_mesh.rs:329-345);
  - mouse and camera handling in `process` (rust/src/terrain_mesh.rs:167-192);
  - the default property values of `init` (rust/src/terrain_mesh.rs:59-72).
- **Concurrency:**
  - the `lazy_static` locks and the thread's spawn, stop channel, `recv_timeout` and `join` (rust/src/terrain_mesh.rs:22-29, 198-326) are not modelled;
  - the stop signal becomes the number of rounds the loop runs (`Physics.PhysicsLoop`);
  - rayon's `par_iter_mut` is a sequential loop over distinct drops. Each drop reads only the snapshot and writes only its own fields.
- **Timing, printing and the EXR file output** (rust/src/terrain_mesh.rs:236, 273-292, 300-309) are left out. Only the export index is modelled.
- **The write-back of the final field to `TEXTURE`** (rust/src/terrain_mesh.rs:311-313) is left out. The model's heights are reals, while `TEXTURE` holds 16-bit words.
- **Spawning.CreateRaindrops:** the model requires a width and a height of at least 2. For 1, the source's `% (dims - 1)` (rust/src/lib.rs:19-20) is a remainder by zero. For 0, `dims - 1` underflows first: a debug build panics and a release build wraps around.
- **`rand::random`** (rust/src/lib.rs:19-20) becomes the sequence of values it returns, two per drop. Hence `CreateRaindrops` requires `2 * num` draws.
- **Floating-point semantics:**
  - f16 and f32 rounding, and the mismatch between the f16 texture and the f32 `simulate` parameters, are not modelled: all arithmetic is on `real`;
  - the binary16 encoding (IEEE 754-2008 section 3.4) is not modelled: half floats are opaque 16-bit words;
  - `usize` overflow and the saturating `as usize` casts are not modelled. In the model they are only applied to non-negative coordinates inside the grid (rust/src/raindrop.rs:225, 267) and to a positive diameter (line 183, see `Raindrops.Config`);
  - `x as f32` in `create_raindrops` is taken as exact.
- **`normalize`** is an arbitrary function, so the zero-vector case of nalgebra's `normalize` (rust/src/raindrop.rs:75-76) is not captured. It happens on the first step of a drop spawned on a flat cell, where direction and gradient are both zero. The source's position then becomes NaN and the step goes on:
  - it passes all four bounds comparisons (lines 82-96);
  - it samples cell 0, because `NaN as usize` is 0 (line 267);
  - it still erodes or deposits around the previous position;
  - it gets velocity 0.0001 from the NaN radicand (line 133) and is killed at line 136.
- **Kernel.Brush:** when cells survive but every weight is 0 (all of them exactly on the rim), the source computes `0 / 0` and hands out NaN shares (rust/src/raindrop.rs:237). The model hands out nothing and leaves sediment unchanged.
- **Raindrops.Raindrop.ErodeDeposit:** the same `0 / 0` case returns an empty list with sediment unchanged, where the source returns NaN shares and a NaN sediment.
- **Raindrops.Config:** the model requires a positive diameter, which the source never checks. Two cases are left out:
  - For a negative diameter, `diameter.ceil() as usize` saturates to 0 (rust/src/raindrop.rs:183). The one offset left is always farther from the centre than the negative radius (line 217), so every brush is empty.
  - For diameter 0, the weight divides 0 by 0 (line 222) whenever the brush centre is a whole-number point, and the shares are NaN.
- **Physics:** the batch and the fold require a field of exactly `w * h` heights, which the source never checks. `TextureLoad.LoadedFits` shows this holds when the image has `w * h` pixels.
- **The capacity hints of `Vec::with_capacity`** (rust/src/raindrop.rs:58-60, 189-190) do not affect behaviour.
- **Unproved whole-run properties:** the closed form of the water after k iterations (`0.99^k` of the start), and the bound of `lifetime * (ceil(d) + 1)^2` on a run's change count. Only the per-iteration forms are proved, in `Raindrops.Step`.
