# Dino runner: entity store, colliders and game rules in Dafny

This project models the game logic of a small endless-runner game written in
Rust, in which a dinosaur jumps over cacti and pterodactyls. Every operation
is a pure function over immutable datatypes. The project also proves the
properties the code promises.

- **Entity-component store** (`Ecs`). Entities are dense ids. Each component
  kind has a table of `Option` slots, one per entity. The Rust type-erased
  tables become a map from a closed `Kind` enum to `seq<Option<C>>`.
  `Components` instantiates the store with the game's components and gives
  typed accessors.
- **Box colliders** (`Collision`). There are closed rectangles, the
  corner-containment overlap test, and the envelope side of a composite
  collider. `Geometry` holds the shared rectangle facts:
  - the corner test is sound but not complete;
  - the Minkowski-sum test is exact.
- **Movement** (`Movement`):
  - the semi-implicit Euler step;
  - the ground clamp;
  - the gated jump;
  - endless-scroll wrap-around.
- **Animation** (`Anim`): frame advance and the edge-triggered animation
  state machine.
- **Small game rules**:
  - `DinoRules`: the dinosaur's state derivation and jump.
  - `PteroRules`: the pterodactyl's once-per-exit re-height.
  - `Input`: the input flags.
  - `Macros`: the `iter_zip!` join and `update!` dispatch macros.
- **Obstacles**:
  - `ObstaclePool`: the pool with linear probing.
  - `Obstacles`: the scheduler (spawn, recycle, speed ramp, speed propagation
    and collision scan).
  - `ObstacleSignal`: the nearest-obstacle signal.
- **Earlier snapshots**, each in its own module:
  - `Cactus`: the round-robin cactus pool.
  - `EarlyWorld`, `EarlyCollision`, `EarlyMovement`, `EarlyDino`: the
    `src/ecs/` era.
  - `PositionedBox`: the position-carrying box.
  - `RefCellWorld`: the list-of-tables store of `src/ecs/mod.rs`, proved to
    refine `Ecs`.
  - `EcsOld`: the unused store with the lookup defect.
  - `LegacyCollider` and `LegacyActor`: the first prototype's enum collider
    and actor.

Modelling conventions:

- **Results and panics.** A Rust panic (`unwrap` on `None`, `%` by zero) is
  the `Panic` case of `Wrappers.Result`. Entity ids come from the store, so
  an index that the source uses unguarded is a `requires e < entitiesCount`.
- **Numbers.** `f32` coordinates are `real`.
- **Randomness.** A random draw is a parameter with the range of its
  distribution:
  - `rng.gen::<u32>()` is any `nat`;
  - `rng.gen::<f32>()` is a real in [0, 1).
- **Constants.**
  - Constants whose values are not part of this model (`MAX_SCROLL_SPEED`,
    `START_SCROLL_SPEED`, `PTERO_SPEED`, `CACTUS_MIN_DELAY`) are fields of a
    `Constants.Tuning` record. That record is constrained only by
    `0 < start < max`.
  - `BoundType` and its `horizontal`, `vertical` and `opposite` are the same
    in five files, so they are defined once, in `Bounds`.

Merged duplicates:

- `src/lib.rs` and `src/unused_code/actor.rs` hold two copies of the same
  `Actor`. They differ in where the collision test lives. `actor.rs` calls
  `Collider::check_collision`. `lib.rs` inlines the Minkowski-sum test on the
  two box variants. `LegacyActor.CheckCollision` models the first form and
  `LegacyActor.InlineCheckCollision` the second; the latter's contract proves
  the two equal. The copies also differ in visibility (`jump`) and in which
  helpers carry a leading underscore, which does not change what they
  compute.
- `src/lib.rs` and `src/unused_code/collider.rs` hold the same `Collider`
  enum. The `lib.rs` impl lacks `check_collision`, and its `get_corners` and
  `contains_point` are private. `LegacyCollider` models the fuller
  `collider.rs` impl, and the functions both files have compute the same
  values.
- `src/ecs/animation.rs` is the same frame counter as the components
  version, so `Anim` covers both.

Quirks of the code, kept as written:

- `player_handle_input` (src/input.rs:54) calls `.jump(ecs)` with one
  argument, but `DinoController::jump` (src/components/dino.rs:21) takes a
  context, the world and the assets. `Input.PlayerHandleInput` is modelled
  against that current signature, as `DinoRules.ControllerJump`, and the
  jump sound it plays is dropped.
- `check_respawn_right` puts a respawned actor at height 0, not at the
  height it had.
- `restart` leaves the spawn timer alone.
- `set_component` silently does nothing when the kind has no table.
- The ptero lanes are `GROUND_Y_COORD + 35 + 40 * (r mod 3)`.
- `update_scroll_speed` can pass `MAX_SCROLL_SPEED` by one frame's ramp.

## Model

| member | source | states |
|---|---|---|
| Ecs.Empty | src/ecs.rs:15-20 | A new store is valid, with no entities and no tables. |
| Ecs.NewEntity | src/ecs.rs:22-29 | The new id is the old count, and the count grows by one. Every existing table gets exactly one `None` appended, and no table is created. The new entity has no component of any kind; every older slot reads as before. |
| Ecs.NoneTable | src/ecs.rs:46-51 | A fresh table has one slot per entity, all `None`. |
| Ecs.BorrowComponentVec | src/ecs.rs:79-105 | `None` exactly when the kind has no table; otherwise the table, one slot per entity. |
| Ecs.AddComponent | src/ecs.rs:31-57 | Upsert. The store stays valid, and the kind's table exists afterwards. The entity reads back `Some(v)`. Every other (kind, entity) slot reads as before. |
| Ecs.SetComponent | src/ecs.rs:69-77 | A no-op when the kind has no table. Otherwise the slot reads back `Some(v)` and nothing else changes. |
| Ecs.AddThenSetVisible | src/ecs.rs:31-77 | A set after an add is visible to `get_component`. |
| Ecs.AddLastWriteWins | src/ecs.rs:31-57 | Two adds to one slot equal one add of the last value. |
| Ecs.SetAfterAddIsAdd | src/ecs.rs:31-77 | Once the table exists, `set_component` equals `add_component`. |
| Ecs.SetSameValue | src/ecs.rs:69-77 | Writing back the value a slot holds leaves the store unchanged. |
| Bounds.Opposite | src/util.rs:27-34 | The opposite side differs from the side and lies on the same axis. |
| Bounds.OppositeInvolution | src/util.rs:18-34 | `opposite` is an involution, and `vertical` is the negation of `horizontal`. |
| Components.GetPos | src/components/collision.rs:125-127 | The entity's `Movable` position, or a panic without a `Movable`. |
| Geometry.Corners | src/components/collision.rs:31-38 | The four corners in the source's order (-,-), (-,+), (+,-), (+,+): each point is centre ± half-extent on both axes, with the x sign changing after the second corner and the y sign alternating. |
| Geometry.CornersDistinct | src/components/collision.rs:31-38 | With a positive extent the four corners are pairwise different, so each sign combination appears exactly once. |
| Geometry.CornersInside | src/components/collision.rs:24-38 | A box with a non-negative half-extent contains its own corners. |
| Geometry.AnyIn | src/components/collision.rs:40-54 | The early-exit scan is true iff some listed point is in the box. |
| Geometry.CornerTestSymmetric | src/components/collision.rs:40-54 | The two-way corner test does not depend on argument order. |
| Geometry.CornerTestSound | src/components/collision.rs:40-54 | A positive corner test implies that the two closed rectangles share a point. |
| Geometry.MinkowskiExact | src/unused_code/collider.rs:60-67 | The Minkowski-sum test holds iff the rectangles share a point. |
| Geometry.CornerImpliesMinkowski | src/components/collision.rs:40-54 | Every pair that the corner test reports is reported by the exact test. |
| Geometry.ContainedIsDetected | src/components/collision.rs:40-54 | A box lying inside another is detected. |
| Geometry.CornerTestIncomplete | src/components/collision.rs:40-54 | Counterexample to completeness: two crossing thin boxes share a point, yet the corner test says no. |
| Collision.NewBox | src/components/collision.rs:11-16 | The given half-extent and a zero offset. |
| Collision.WithOffset | src/components/collision.rs:18-22 | Only the offset changes; the half-extent is kept. |
| Collision.ContainsPointInclusive | src/components/collision.rs:24-29 | Containment is the closed rectangle, inclusive on all four edges, and every corner is contained. |
| Collision.CheckCollisionProperties | src/components/collision.rs:40-54 | The box test is symmetric in argument order. It equals the corner test at position plus offset, and it is sound. |
| Collision.BoxBoundOffset | src/components/collision.rs:68-76 | A left or right side keeps the offset's y; a top or bottom side keeps the offset's x. |
| Collision.BoxBoundOffsetProperties | src/components/collision.rs:68-76 | The side is offset ± half-extent on its axis. Opposite sides are symmetric about the box centre, and each side lies on the box. |
| Collision.BoxGetBound | src/components/collision.rs:78-80 | The world-space side is half an extent out from the placed centre (position plus offset) in the side's own direction, and level with that centre on the other axis. |
| Collision.NewSingle | src/components/collision.rs:109-115 | Slot 0 holds the box; every other slot is empty. |
| Collision.NewDouble | src/components/collision.rs:116-123 | Slots 0 and 1 hold the two boxes. |
| Collision.PresentBounds | src/components/collision.rs:152-174 | Contains the side of every present sub-box, and is empty iff no sub-box is present. |
| Collision.BoundScan | src/components/collision.rs:152-174 | The scan's answer is one of the present sides, or the initial value. It is at least as far out as every present side. |
| Collision.BoundScanFirst | src/components/collision.rs:162-172 | Ties go to the earliest candidate: the scan returns the first of the most extreme among the running answer and the present sides, because a later side replaces the answer only when strictly further out. |
| Collision.ColliderBoundOffset | src/components/collision.rs:152-174 | (0, 0) when no sub-box is present. Otherwise it is the side of a present sub-box, and the most extreme one in the side's direction. |
| Collision.ColliderBoundFirst | src/components/collision.rs:152-174 | With some sub-box present, the envelope side is the first of the most extreme present sides, in slot order. |
| Collision.ColliderGetBound | src/components/collision.rs:176-179 | Panics iff the entity has no `Movable`; otherwise the envelope side plus the position. |
| Collision.AnyWith | src/components/collision.rs:141-147 | True iff the box collides with some present sub-box of the other collider. |
| Collision.AnyPair | src/components/collision.rs:138-148 | True iff some pair of present sub-boxes collides. |
| Collision.CheckEntityCollision | src/components/collision.rs:129-150 | False when either entity has no collider. Otherwise it reads both positions (panicking without a `Movable`) and is true iff some pair of present boxes passes the corner test at their placed positions. |
| Collision.EntityCollisionSound | src/components/collision.rs:129-150 | With non-negative half-sizes, a true answer means some pair of placed boxes shares a point. |
| Collision.CheckEntityCollisionSymmetric | src/components/collision.rs:129-150 | The entity order changes neither the answer nor the panic. |
| Collision.BoundOffsetExamples | src/components/collision.rs:224-235 | The two unit tests: Left of the offset single box is (-15, 0); Right of the double box is (10, 0). |
| Movement.NewMovable | src/components/movable.rs:15-23 | The given vectors, not on the ground, and no ground check. |
| Movement.GroundCheckOn | src/components/movable.rs:24-26 | Only the ground-check flag changes, and it is set. |
| Movement.EulerStep | src/components/movable.rs:27-32 | Gravity and both flags are untouched by the step. |
| Movement.EulerStepSemiImplicit | src/components/movable.rs:27-32 | The velocity takes one step of gravity, and the position then uses the new velocity. Stepping back recovers the state, so no information is lost. |
| Movement.CheckGroundCollision | src/components/movable.rs:39-51 | Without a collider nothing changes. Otherwise the lowest point ends at or above the ground. A point already at or above the ground is left as is (`on_ground` not cleared). After a clamp the point is exactly on the ground, the velocity is zero and `on_ground` is set. |
| Movement.GroundClampIdempotent | src/components/movable.rs:39-51 | Clamping twice is clamping once. |
| Movement.UpdatePos | src/components/movable.rs:27-37 | Without a `Movable` nothing changes. Otherwise the entity's `Movable` becomes the stepped, conditionally clamped one, and no other slot changes. |
| Movement.RestingStaysOnGround | src/components/movable.rs:27-51 | A ground-checked entity at rest on the ground, under downward gravity, stays exactly there for any step. |
| Movement.RestingStep | src/components/movable.rs:27-51 | One step from rest on the ground only sets `on_ground`. |
| Movement.Jump | src/components/movable.rs:54-59 | Succeeds iff on the ground. A refused jump changes nothing. Otherwise only the vertical velocity is set and `on_ground` is cleared. |
| Movement.NoDoubleJump | src/components/movable.rs:54-59 | Right after a successful jump, another jump is refused. |
| Movement.ScrollUpdate | src/components/movable.rs:81-90 | Panics iff either component is missing. A tile past the left edge moves right by width plus screen width; otherwise nothing changes. Only `pos.x` can change. |
| Movement.ScrollWrapSettles | src/components/movable.rs:81-90 | A tile that passed the edge by less than one period is back in view after one wrap, so a second update does nothing. |
| Anim.NewAnimation | src/components/animation.rs:14-23 | Frame 0, due at once, and `frame_time * fps == 1`. |
| Anim.UpdateFrame | src/components/animation.rs:24-28 | A no-op before the due time. Otherwise it moves exactly one frame forward, cyclically, and the next update is one frame time later. Panics iff the update is due and the length is 0. The frame stays below the length. |
| Anim.PlayAdvancesOnePerDueUpdate | src/components/animation.rs:24-28 | After n due updates the frame has advanced by exactly n modulo the length. |
| Anim.AnimationUpdate | src/components/animation.rs:31-36 | Panics iff the entity has no `Animation`. Otherwise the `Animation` is the updated one, and no other slot changes. |
| Anim.StateAnimation | src/components/animation.rs:69-72 | The mapped animation for the state, fresh at frame 0. |
| Anim.NewMachine | src/components/animation.rs:54-63 | Starts in the given state, showing that state's animation. |
| Anim.UpdateState | src/components/animation.rs:64-73 | Inert without a state or in the same state. On a change it records the state and installs the fresh mapped animation on the entity. It changes no other slot and keeps its own animation fields. |
| Anim.MachineUpdate | src/components/animation.rs:76-82 | Panics iff there is no machine. The machine written back is the read one with its state set to the entity's state, if it has one. With no state, or no state change, the world is unchanged. On a state change the `Animation` slot gets the new state's animation. No other slot changes. |
| Anim.MachineSwapsOnce | src/components/animation.rs:64-82 | The swap is edge-triggered: a second update in the same state changes nothing. |
| DinoRules.ControllerJump | src/components/dino.rs:21-28 | Panics iff there is no `Movable`. It succeeds iff on the ground. A refused jump leaves the world unchanged; a successful one writes the jumped `Movable` with `JUMP_VELOCITY`. |
| DinoRules.StateFor | src/components/dino.rs:32-35 | `Run` iff on the ground, and never `Dead`. |
| DinoRules.DinoUpdate | src/components/dino.rs:31-35 | Panics iff there is no `Movable`. The state is overwritten (even `Dead`) with the ground-derived state when the table exists; a no-op otherwise. No other slot changes. |
| DinoRules.DinoUpdateIdempotent | src/components/dino.rs:31-35 | A second state update changes nothing. |
| DinoRules.JumpShowsJumpState | src/components/dino.rs:21-35 | A successful jump shows as `Jump` at the next state update. |
| PteroRules.NewPtero | src/components/ptero.rs:10-14 | Armed for the next exit. |
| PteroRules.PteroHeight | src/components/ptero.rs:29 | One of three lanes, chosen by the draw modulo 3. |
| PteroRules.PteroUpdate | src/components/ptero.rs:17-35 | Panics iff a collider, `Movable` or `Ptero` is missing. On screen it only re-arms. Off screen an armed ptero gets its lane height (only `pos.y`) and is disarmed; a disarmed one is left alone. |
| PteroRules.RepositionOncePerExit | src/components/ptero.rs:17-35 | A second update while still off screen does nothing, whatever the draw. |
| Input.NewInput | src/input.rs:12-19 | An active, unpaused game with no jump and no restart. |
| Input.JumpStart | src/input.rs:20-23 | Ignored while paused; otherwise only `jump` is set. |
| Input.JumpEnd | src/input.rs:24-26 | Only `jump` is cleared. |
| Input.TogglePause | src/input.rs:30-33 | Ignored after game over; otherwise only `pause` flips. |
| Input.GameOver | src/input.rs:37-39 | Only `game_active` is cleared. |
| Input.SetRestart | src/input.rs:46-48 | Only `restart` is set. |
| Input.GameOverIsFinal | src/input.rs:20-48 | After game over, no sequence of input calls makes the game active again, and `pause` is frozen. |
| Input.RestartIsSticky | src/input.rs:20-48 | No sequence of input calls withdraws a restart request. |
| Input.PausedJumpStaysOff | src/input.rs:20-33 | While paused, presses and releases never arm a jump. |
| Input.PlayerHandleInput | src/input.rs:51-63 | No jump pending: nothing happens. After game over a pending jump sets `restart` and stays pending. In a running game the controller jumps (panicking without one) and the jump is consumed. |
| Macros.JoinIndicesExact | src/macros.rs:12-18 | The joined indices are exactly those where both tables hold a value, in strictly increasing order. |
| Macros.ZipPresent | src/macros.rs:12-18 | The zip-filter loop yields the pairs at exactly the joined indices, in order. |
| Macros.IterZip | src/macros.rs:12-27 | Panics iff either table is missing; otherwise the pairs of the entities holding both kinds, in id order. |
| Macros.Dispatch | src/macros.rs:30-39 | One call per listed id of each listed type. |
| Macros.DispatchOrder | src/macros.rs:30-39 | Call number `Offset(g) + j` is the update of type g on its j-th id: types in listed order, ids in listed order. |
| ObstaclePool.NewEntry | src/obstacles.rs:12-18 | Inactive, with no extra speed. |
| ObstaclePool.AddSlot | src/obstacles.rs:41-49 | Appends one inactive slot with the given id and extra speed; earlier slots are kept. |
| ObstaclePool.AddCactus | src/obstacles.rs:41-43 | Appends a slot with extra speed 0. |
| ObstaclePool.AddPtero | src/obstacles.rs:45-49 | Appends a slot with extra speed `PTERO_SPEED`. |
| ObstaclePool.ProbeAt | src/obstacles.rs:52-54 | Each probed index is in range. |
| ObstaclePool.Probe | src/obstacles.rs:53-62 | `None` iff every probed slot is active. Otherwise the index of the first inactive slot met. |
| ObstaclePool.ProbeCovers | src/obstacles.rs:53-54 | Every slot is met by some probe step. |
| ObstaclePool.ActivateNext | src/obstacles.rs:51-63 | Panics iff the pool is empty. `None` (no change) iff every slot is active. Otherwise the first inactive slot from `r mod len`, wrapping, becomes active and its id is returned; no other slot changes. |
| ObstaclePool.ActivateNextPicksInactive | src/obstacles.rs:51-63 | The activated slot was inactive, and it is the only slot that changed. |
| ObstaclePool.ActivateFreePoolTakesStart | src/obstacles.rs:51-63 | On an all-free pool the start slot `r mod len` is taken. |
| ObstaclePool.Deactivate | src/obstacles.rs:65-71 | Exactly the slots with that id become inactive; everything else is kept. |
| ObstaclePool.DeactivateAll | src/obstacles.rs:73-77 | Every slot becomes inactive, with its id and speed kept. |
| ObstaclePool.Ids | src/obstacles.rs:203-209 | The slot ids, in slot order. |
| ObstaclePool.IdsStable | src/obstacles.rs:51-77 | Activation, deactivation and reset never change the pooled ids. |
| Obstacles.NewManager | src/obstacles.rs:89-106 | Empty pool, spawn due at time 0, and the start scroll speed. |
| Obstacles.Restart | src/obstacles.rs:116-119 | All slots inactive, with the same ids. The speed is back at the start; the spawn timer, delay and ids are kept. |
| Obstacles.UpdateScrollSpeed | src/obstacles.rs:149-152 | Frozen at or above the cap; below it, grows by `5.5 * dt`. |
| Obstacles.ScrollSpeedRamp | src/obstacles.rs:149-152 | Over any sequence of frames of at most one second, the speed never falls and stays below cap + 5.5. |
| Obstacles.WithVx | src/obstacles.rs:138-140 | Only the horizontal velocity is replaced. |
| Obstacles.SetVx | src/obstacles.rs:138-140 | Panics iff the id is out of range or has no `Movable`. Otherwise only that entity's horizontal velocity changes. |
| Obstacles.SetVxAll | src/obstacles.rs:137-147 | Succeeds iff every written id is in range and has a `Movable`. |
| Obstacles.SetVxAllEffect | src/obstacles.rs:135-148 | Each entity ends with the velocity of its last write, and nothing else about it changes. Unwritten entities and other kinds are untouched. |
| Obstacles.SpeedWrites | src/obstacles.rs:137-147 | The writes: background ids at `-speed`, then each slot's id at `-(speed + extra)`. |
| Obstacles.UpdateMovablesSpeed | src/obstacles.rs:135-148 | Skipped at or above the cap. Below it, succeeds iff every write succeeds, and the store stays valid. |
| Obstacles.SpeedWritesAreLast | src/obstacles.rs:137-147 | With distinct ids, each write is the last one for its entity. |
| Obstacles.MovablesSpeedFrame | src/obstacles.rs:135-148 | The speed propagation leaves every component but `Movable`, every position, and the `Movable` of every unscrolled entity as it was. |
| Obstacles.MovablesSpeedEffect | src/obstacles.rs:135-148 | With distinct ids below the cap, every background entity and every obstacle ends at its scroll velocity. |
| Obstacles.BackgroundSpeed | src/obstacles.rs:137-141 | Each background entity ends with horizontal velocity `-speed`. |
| Obstacles.ObstacleSpeed | src/obstacles.rs:142-147 | Each obstacle ends with horizontal velocity `-(speed + extra)`. |
| Obstacles.LastWriteEffect | src/obstacles.rs:135-148 | A velocity write that no later write overrides is what the entity ends with. |
| Obstacles.SpawnAt | src/obstacles.rs:124-130 | Only `pos.x` changes: the left envelope edge is placed on the right screen edge. |
| Obstacles.CheckForNextObstacle | src/obstacles.rs:120-134 | A no-op before the spawn time. Due with an empty or full pool, it panics. Otherwise the pool is the one with the probed slot activated, the next spawn is `delay + 1.3 * rF` later, and the world is the spawned entity's `Movable` moved by the spawn placement, followed by the speed propagation. It panics iff that entity is out of range, lacks a `Movable` or a `Collider`, or the propagation panics. |
| Obstacles.SpawnSucceeds | src/obstacles.rs:120-134 | When every scrolled entity is complete and the pool has a free slot, the spawn check does not panic. |
| Obstacles.SpawnKeepsScrollable | src/obstacles.rs:122-132 | With a free slot, the probe hands out a slot whose entity is complete, and placing that entity keeps every scrolled entity complete. |
| Obstacles.SpawnFrame | src/obstacles.rs:120-134 | A spawn changes no component other than `Movable`, no position but the spawned entity's, and no `Movable` of an entity that is neither spawned nor scrolled. |
| Obstacles.NextSpawnWindow | src/obstacles.rs:133 | The next spawn time lies in [time + delay, time + delay + 1.3). |
| Obstacles.SpawnedAtRightEdge | src/obstacles.rs:122-132 | The spawned obstacle ends with its left envelope edge on the right screen edge. |
| Obstacles.Sweep | src/obstacles.rs:154-166 | Same slots, ids and extra speeds; a slot active afterwards was active before. The store stays valid. |
| Obstacles.SweepSucceeds | src/obstacles.rs:154-166 | The sweep panics iff some active slot from the start index names an entity that is out of range or lacks a `Collider` or a `Movable`. |
| Obstacles.SweepKeepsComponents | src/obstacles.rs:154-166 | The sweep adds or removes no `Movable` and changes no `Collider`. |
| Obstacles.SweepKeepsScrollable | src/obstacles.rs:154-166 | A sweep of a world where every scrolled entity is complete leaves it so, and a free slot stays free. |
| Obstacles.Update | src/obstacles.rs:153-169 | Sweep, then maybe spawn, then ramp. The ids and background ids are kept and the speed is the ramped one. Before the spawn time nothing is spawned. |
| Obstacles.UpdateSucceeds | src/obstacles.rs:153-169 | `update` succeeds only if the sweep can. Before the spawn time it succeeds whenever the sweep can. When every scrolled entity is complete and the pool has a free slot, it always succeeds. |
| Obstacles.SteppedLocal | src/obstacles.rs:163 | An integration step depends only on the entity's own collider. |
| Obstacles.SweepFrame | src/obstacles.rs:154-166 | The sweep writes only `Movable`s of entities pooled from slot i on. |
| Obstacles.SweepKeepsOthers | src/obstacles.rs:154-166 | With distinct ids, earlier slots and inactive slots keep their state. |
| Obstacles.SweepFreesOffScreen | src/obstacles.rs:155-161 | With distinct ids, exactly the active slots whose right edge was past the left screen edge are freed. |
| Obstacles.SweepWorldDistinct | src/obstacles.rs:154-166 | With distinct ids, every kept active obstacle takes exactly one step, and a freed one is not moved. |
| Obstacles.SweepWorldFreeStep | src/obstacles.rs:157-161 | The freed-slot case of the sweep's world effect. |
| Obstacles.SweepWorldMoveStep | src/obstacles.rs:162-164 | The moved-slot case of the sweep's world effect. |
| Obstacles.SlotCollides | src/obstacles.rs:173 | `check_entity_collision` with the player; an out-of-range slot id panics unless the player has no collider. |
| Obstacles.AnyActiveCollides | src/obstacles.rs:171-178 | True only via an active colliding slot; false iff every active slot reports no collision. |
| Obstacles.CheckCollision | src/obstacles.rs:170-179 | True iff some active slot collides; inactive slots are never tested. |
| Obstacles.RestartedCollidesWithNothing | src/obstacles.rs:170-179 | After `restart` the manager collides with nothing. |
| ObstacleSignal.Signal | src/obstacles.rs:190-191 | The distance to the obstacle, and its height above the ground. |
| ObstacleSignal.ScanAsWritten | src/obstacles.rs:186-194 | The loop as written succeeds iff every active slot has a position. |
| ObstacleSignal.GetObstacleAsWritten | src/obstacles.rs:181-197 | `get_obstacle` as written succeeds iff the player and every active obstacle have positions. |
| ObstacleSignal.ScanNearest | src/obstacles.rs:186-194 | The corrected loop: when some active obstacle lies left of the running bound, the signal of one with the least x; otherwise the running values. |
| ObstacleSignal.GetObstacle | src/obstacles.rs:181-197 | Corrected `get_obstacle`: the signal of the active obstacle with the smallest x, or (screen width, 0) when none is left of it. |
| ObstacleSignal.AsWrittenReportsFartherObstacle | src/obstacles.rs:189-191 | Two obstacles 500 and 600 away: as written it reports 600, the corrected version 500. |
| Cactus.NewEntry | src/cactus.rs:10-15 | Inactive, with the given id. |
| Cactus.NewPool | src/cactus.rs:24-36 | Empty, with the cursor at 0. |
| Cactus.AddCactus | src/cactus.rs:38-40 | Appends one inactive entry; the cursor stays. |
| Cactus.ActivateNext | src/cactus.rs:42-52 | Panics iff the cursor is out of range. An active cursor slot gives `None` and no change. Otherwise that slot is activated, its id returned, and the cursor advances cyclically. |
| Cactus.RoundRobinOrder | src/cactus.rs:42-52 | From k free slots at the cursor, k activations hand out those ids in order and leave the cursor k further on, cyclically. |
| Cactus.Deactivate | src/cactus.rs:54-61 | Exactly the entries with that id become inactive. |
| Cactus.DeactivateThenActivate | src/cactus.rs:42-61 | Freeing the cactus under the cursor makes the next activation hand it out again. |
| Cactus.NewManager | src/cactus.rs:71-84 | A new pool, the given delay, and a spawn due at time 0. |
| Cactus.ManagerAddCactus | src/cactus.rs:85-87 | Adds to the pool; the timer and delay are kept. |
| Cactus.MovableAt | src/cactus.rs:91 | Panics iff the id is out of range or has no `Movable`. |
| Cactus.CheckForNextCactus | src/cactus.rs:88-95 | A no-op while the spawn time is in the future. When due, it succeeds iff the cursor slot exists and is inactive and its entity is in range with a `Movable`. On success it activates that slot, places the cactus at `SCREEN.0/2 + 50`, sets the next spawn time to time + delay, and changes nothing else. |
| Cactus.Sweep | src/cactus.rs:97-107 | Same entries, ids and cursor; the store stays valid. It panics iff some active slot from the start index names an entity that is out of range or has no `Movable`. |
| Cactus.SweepKeepsMovables | src/cactus.rs:97-107 | The sweep neither adds nor removes a `Movable`. |
| Cactus.SweepFrame | src/cactus.rs:97-107 | Writes only `Movable`s of entities held from slot i on. |
| Cactus.SweepFreesOffScreen | src/cactus.rs:98-102 | With distinct ids, an active cactus ends inactive iff it was beyond `-SCREEN.0 - 50`. |
| Cactus.SweepMovesKept | src/cactus.rs:98-105 | With distinct ids, every kept cactus takes one step, and a freed one does not move. |
| Cactus.SweepKeepsEarlier | src/cactus.rs:97-107 | Slots before i are unchanged. |
| Cactus.Update | src/cactus.rs:96-109 | Sweep then maybe spawn. Ids and delay are kept, and before the spawn time no cactus is spawned. It succeeds only if the sweep can, and, when due, only if the cursor's entity is in range with a `Movable`. It does succeed when the sweep can and either the spawn is not due or the cursor slot is free with such an entity. |
| Cactus.SlotCollides | src/cactus.rs:113 | The earlier entity collision test with the player. |
| Cactus.AnyActiveCollides | src/cactus.rs:111-118 | True only via an active colliding cactus; false iff none collides. |
| Cactus.CheckCollision | src/cactus.rs:110-119 | True iff some active cactus collides. |
| EarlyCollision.NewBox | src/ecs/collision.rs:10-15 | The given half-extent, a zero offset, and no ground check. |
| EarlyCollision.WithOffset | src/ecs/collision.rs:17-21 | Only the offset changes. |
| EarlyCollision.GetPos | src/ecs/collision.rs:39-41 | Panics iff there is no `Movable`; otherwise the position plus the offset. |
| EarlyCollision.CheckCollision | src/ecs/collision.rs:43-63 | False when either box is missing. Otherwise both positions are read (a panic without a `Movable`), and the result is the two-way corner test at the offset centres. |
| EarlyCollision.CheckCollisionSymmetric | src/ecs/collision.rs:43-63 | Entity order matters for neither the answer nor the panic. |
| EarlyCollision.CheckCollisionSound | src/ecs/collision.rs:43-63 | A reported collision means that the placed boxes share a point. |
| EarlyCollision.BoundOffset | src/ecs/collision.rs:65-72 | The current side offset minus the box offset. |
| EarlyCollision.BoundOffsetIgnoresOffset | src/ecs/collision.rs:65-72 | Independent of the offset; opposite sides mirror through the centre. |
| EarlyCollision.GetBound | src/ecs/collision.rs:74-76 | Panics iff there is no `Movable`; otherwise the side of the placed box, offset included. |
| EarlyMovement.NewMovable | src/ecs/movable.rs:14-21 | The given vectors, not on the ground. |
| EarlyMovement.EulerStep | src/ecs/movable.rs:26-27 | It is the current game's semi-implicit step. |
| EarlyMovement.CheckGroundCollision | src/ecs/movable.rs:32-45 | Without a box, or with its flag clear, nothing changes. Otherwise a lowest point below the ground is put on it with zero velocity and `on_ground` set; a point at or above the ground is left as is. |
| EarlyMovement.GroundClampIdempotent | src/ecs/movable.rs:32-45 | Clamping twice is clamping once. |
| EarlyMovement.UpdatePos | src/ecs/movable.rs:22-30 | Without a `Movable` nothing changes. Otherwise a step and the clamp apply, and no other slot changes. |
| EarlyMovement.Jump | src/ecs/movable.rs:47-51 | A no-op off the ground; otherwise the vertical velocity is set and the ground left. |
| EarlyMovement.JumpIsGatedJump | src/ecs/movable.rs:47-51 | The current gated jump with its success flag dropped. |
| EarlyDino.NewController | src/dino.rs:14-18 | Stores the entity id. |
| EarlyDino.ControllerJump | src/dino.rs:19-23 | Panics iff there is no `Movable`. Otherwise it writes back the jumped `Movable` (velocity `JUMP_VELOCITY`) unconditionally, and changes nothing else. |
| EarlyDino.MidAirJumpChangesNothing | src/dino.rs:19-23 | In the air the unconditional write-back leaves the world unchanged. |
| EarlyDino.DinoUpdate | src/dino.rs:26-31 | Panics iff there is no `Movable`. `Run` on the ground, `Jump` in the air, when the state table exists. No other slot changes. |
| EarlyDino.JumpShowsJumpState | src/dino.rs:19-31 | A jump from the ground shows as `Jump` at the next update. |
| PositionedBox.NewBox | src/ecs/movable/collision.rs:15-20 | The given centre and half-extent. |
| PositionedBox.CornersContained | src/ecs/movable/collision.rs:22-36 | Four corners, each contained in the box. |
| PositionedBox.CheckCollisionProperties | src/ecs/movable/collision.rs:38-50 | It is the two-way corner test, hence symmetric and sound. |
| PositionedBox.BoundOffset | src/ecs/movable/collision.rs:52-59 | `+half.x` for Right, `-half.x` for Left, `+half.y` for Up, `-half.y` for Down, and 0 on the other axis. |
| PositionedBox.BoundOffsetMirror | src/ecs/movable/collision.rs:52-59 | Opposite sides mirror; Right and Up are the positive sides. |
| PositionedBox.GetBound | src/ecs/movable/collision.rs:61-63 | The centre plus the side offset, lying on the box. |
| PositionedBox.UpdatePos | src/ecs/movable/collision.rs:65-67 | Only the centre is replaced. |
| PositionedBox.Examples | src/ecs/movable/collision.rs:105-124 | The three unit tests: overlap, no overlap, and a box inside another. |
| RefCellWorld.Find | src/ecs/mod.rs:66-74 | `None` iff no table from `from` on has the tag; otherwise the first such table. |
| RefCellWorld.New | src/ecs/mod.rs:19-24 | Valid, with no entities and no tables. |
| RefCellWorld.NewEntity | src/ecs/mod.rs:26-33 | The id is the old count; each table gets one `None` appended. |
| RefCellWorld.BorrowComponentVec | src/ecs/mod.rs:63-75 | `None` iff no table has the tag; otherwise one slot per entity. |
| RefCellWorld.AddComponentToEntity | src/ecs/mod.rs:35-61 | The entity's component is found afterwards. An existing table is overwritten in place; otherwise a new all-`None` table is appended. Other tags are unaffected. |
| RefCellWorld.FindAfterReplace | src/ecs/mod.rs:40-47 | Overwriting the first table of a tag moves no search. |
| RefCellWorld.FindSame | src/ecs/mod.rs:66-74 | Table lists with the same tags give the same searches. |
| RefCellWorld.FindAfterAppend | src/ecs/mod.rs:59-60 | Appending changes only searches for a tag not yet present. |
| RefCellWorld.PresentExact | src/ecs/mod.rs:120-126 | The present indices, each once, in increasing order. |
| RefCellWorld.TableCalls | src/ecs/mod.rs:120-126 | One call per present slot of the table, in entity order. |
| RefCellWorld.UpdateCallsExact | src/ecs/mod.rs:88-92 | `update_all` calls exactly the present components, each once, table by table and in entity order. |
| RefCellWorld.UpdateAll | src/ecs/mod.rs:88-92 | Every present component is updated once, and tags and layout are kept. |
| RefCellWorld.UpdateAllTouchesOnlyCalled | src/ecs/mod.rs:88-92 | A slot that changes is one that was called. |
| RefCellWorld.Abs | src/ecs/mod.rs:13-16 | The map store the list stands for is valid, with the same entity count. |
| RefCellWorld.BorrowRefines | src/ecs/mod.rs:63-75 | The list lookup equals the map lookup of its abstraction. |
| RefCellWorld.AbsByLookups | src/ecs/mod.rs:63-75 | Equal lookups mean equal abstractions. |
| RefCellWorld.NewEntityRefines | src/ecs/mod.rs:26-33 | `new_entity` on the list store refines `new_entity` on the map store. |
| RefCellWorld.AddRefines | src/ecs/mod.rs:35-61 | `add_component_to_entity` refines `add_component`. |
| EcsOld.NewEntityKeepsLayout | src/unused_code/ecs_old.rs:38-45 | `new_entity` returns the old count and keeps every table's cell layout. |
| EcsOld.BorrowComponentVecAsWritten | src/unused_code/ecs_old.rs:75-87 | As written, always `None` on tables this store built. |
| EcsOld.AddComponentAsWritten | src/unused_code/ecs_old.rs:47-73 | As written, the add appends a fresh table every time. |
| EcsOld.BorrowComponent | src/unused_code/ecs_old.rs:89-104 | `None` for an id out of range; a panic iff the lookup fails; otherwise the slot. |
| EcsOld.BorrowComponentAsWritten | src/unused_code/ecs_old.rs:89-104 | As written, it panics for every in-range id on this store's tables. |
| EcsOld.AddedComponentIsLost | src/unused_code/ecs_old.rs:53-87 | The defect: an added component cannot be read back, and a second add appends a second table. |
| EcsOld.AddedComponentIsLostExample | src/unused_code/ecs_old.rs:47-104 | A concrete run with one entity that shows the defect. |
| EcsOld.AddComponent | src/unused_code/ecs_old.rs:47-73 | Corrected add: its abstraction is the map store's `add_component`. |
| EcsOld.AddThenBorrow | src/unused_code/ecs_old.rs:47-104 | Corrected: an added component is read back, and a second add reuses the table. |
| EcsOld.UpdateAllWithIds | src/unused_code/ecs_old.rs:126-134 | Each present component is updated with its own index as the entity id. |
| EcsOld.UpdateAllIgnoringIds | src/unused_code/ecs_old.rs:106-134 | With an id-blind update it equals the other store's `update_all`. |
| LegacyCollider.NewBox | src/unused_code/collider.rs:12-14 | A box with the given half-extent. |
| LegacyCollider.PointInBoxInclusive | src/unused_code/collider.rs:16-21 | The closed rectangle: the centre and corners are inside; beyond an edge is outside. |
| LegacyCollider.BoxBoundOffs | src/unused_code/collider.rs:23-30 | ± half-extent on the side's axis, 0 on the other; equals the later collider's side for a box without offset. |
| LegacyCollider.BoxBoundOffsMirror | src/unused_code/collider.rs:23-30 | Opposite sides mirror, and each side lies on the box. |
| LegacyCollider.GetCorners | src/unused_code/collider.rs:32-46 | `Err` with the message iff there is no box; otherwise the four ± corners in order. |
| LegacyCollider.ContainsPoint | src/unused_code/collider.rs:48-58 | False without a box; otherwise the closed box about the origin. |
| LegacyCollider.CornersContained | src/unused_code/collider.rs:32-58 | Every reported corner is contained in the box. |
| LegacyCollider.CheckCollision | src/unused_code/collider.rs:60-67 | False unless both are boxes; otherwise the Minkowski test. |
| LegacyCollider.CheckCollisionExact | src/unused_code/collider.rs:60-67 | Symmetric, and exact (true iff the boxes share a point) for non-negative boxes. |
| LegacyCollider.DetectsCrossingBoxes | src/unused_code/collider.rs:60-67 | Detects the crossing boxes that the corner test misses. |
| LegacyCollider.CollisionExamples | src/lib.rs:292-312 | Boxes at (0,0) and (9,9) collide; boxes at (0,0) and (11,9) do not. |
| LegacyActor.NewActor | src/lib.rs:61-70 | The given state, not in the air. |
| LegacyActor.BoundOffset | src/unused_code/actor.rs:102-107 | The side offset of a box, or (0, 0) without a collider. |
| LegacyActor.BoundOffsetOnBox | src/unused_code/actor.rs:102-107 | The side lies on the box, and opposite sides mirror. |
| LegacyActor.UpdatePos | src/lib.rs:74-83 | An Euler step. The bottom edge ends at or above the ground; a clamp zeroes `velocity.y` and lands the actor. |
| LegacyActor.RestingStaysOnGround | src/lib.rs:74-83 | A grounded actor at rest under downward gravity stays put. |
| LegacyActor.Jump | src/lib.rs:85-88 | Sets `velocity.y` and `in_air`, unconditionally. |
| LegacyActor.JumpStart | src/lib.rs:217-219 | Sets the jump flag. |
| LegacyActor.JumpEnd | src/lib.rs:220-222 | Clears the jump flag. |
| LegacyActor.PlayerHandleInput | src/lib.rs:228-233 | Jumps only when the flag is set and the actor is not in the air, then clears the flag; otherwise nothing changes. |
| LegacyActor.NoJumpInAir | src/lib.rs:228-233 | In the air a fresh press does nothing. The actor lands only when the step's clamp fires. |
| LegacyActor.ScreenBound | src/lib.rs:243-246 | The midpoint of the named screen side, which lies on the screen rectangle. |
| LegacyActor.OutOfScreenExact | src/lib.rs:105-114 | For a box, out from a side iff every point of the box lies strictly beyond that side. |
| LegacyActor.OutOfScreenBoundsAnySide | src/lib.rs:98-103 | Out of the screen iff out from some side. |
| LegacyActor.EnterScreenFrom | src/lib.rs:116-118 | The opposite edge lands on `screen_bound(b)`; only the position changes. |
| LegacyActor.EnteredIsNotOut | src/lib.rs:105-118 | An actor that just entered from a side is not out from it. |
| LegacyActor.CheckRespawnRight | src/lib.rs:90-96 | True iff the right edge has passed the left screen side. Then the left edge is placed on the right side (at y = 0); otherwise nothing changes. |
| LegacyActor.RespawnOnce | src/lib.rs:90-96 | A respawned actor is not out from the left, so the next check leaves it alone. |
| LegacyActor.WorldToScreenCoords | src/lib.rs:237-241 | Shift by half a screen and flip y. |
| LegacyActor.ScreenCoordsRoundTrip | src/lib.rs:237-241 | The world-to-screen and screen-to-world maps are inverses. The origin maps to the screen centre, and higher in the world is higher on screen. |
| LegacyActor.GetColliderCorners | src/lib.rs:122-128 | `Err` iff there is no box; otherwise the box corners at the actor position. |
| LegacyActor.PointInsideCollider | src/lib.rs:130-132 | True iff the point lies in the closed box about the actor. |
| LegacyActor.CheckCollision | src/unused_code/actor.rs:98-100 | The collider's Minkowski test at both positions. |
| LegacyActor.InlineCheckCollision | src/lib.rs:134-142 | Equals the delegating test and is symmetric; exact for non-negative boxes. |
| LegacyActor.CollisionTests | src/unused_code/actor.rs:116-135 | Actors at (0,0) and (9,9) collide; actors at (0,0) and (11,9) do not. |

## Left out

- `src/main.rs`, `src/perceptron.rs`, `src/ui.rs` are left out. They are the frame driver, event handlers, HUD, audio, high-score file and neural-network numerics: I/O and floating-point heuristics.
- `src/assets.rs` is left out: it loads images and sounds. Animation length, frame rate and the state-to-animation map are total functions of an `Assets` record, with positive length and frame rate.
- Rendering is left out: every `Draw` impl, both `sprite.rs` and `ezshape.rs` files, and `draw_actor`/`draw_ground`.
- `src/core/movable.rs` is left out: it is a bare constructor. `src/components/mod.rs` holds only re-exports, and `src/types_and_constants.rs` is the constants in `Constants`.
- `v2!` is the constructor `Vec2(x, y)`, and `v2!()` is `Vectors.Zero`. Neither carries a contract.
- Rust type erasure (`Any`, downcasts, `RefCell`, `Box`) is replaced by closed kind and tag types. Borrow conflicts are not modelled.
- `BoxCollider::check_entity_collision` in `src/components/collision.rs` is not modelled. It is never called, and the current world has no stand-alone box kind.
- `Ecs.GetComponent` has no contract of its own. It is what the contracts of `NewEntity`, `AddComponent` and `SetComponent` are stated in.
- `ObstacleManager::get_speed` and `id` are field reads with nothing to state. `with_capacity` only reserves memory and is modelled as `new`.
- `Anim.NewAnimation` requires `fps > 0`. In the source a zero frame rate gives an infinite `f32` frame time, which a `real` cannot hold.
- `Movement.EulerStep` states only what the step keeps. Its arithmetic is stated by `Movement.EulerStepSemiImplicit`.
- The audio call in `DinoController::jump` is left out. Its success result is returned instead.
- `f32` rounding and overflow are not modelled: coordinates and times are `real`.
- `Component::update` of the `src/ecs/mod.rs` and `src/unused_code/ecs_old.rs` stores is a parameter `upd` (a per-component function). The effect of updating one component on others is not modelled.

## Findings

| source | as written | input that shows it | evidently intended | confidence | as-written member | corrected member |
|---|---|---|---|---|---|---|
| src/unused_code/ecs_old.rs:53-87 | Both lookups downcast to `RefCell<Vec<Option<Box<T>>>>`, but tables are created as `RefCell<Vec<RefCell<Option<Box<T>>>>>`, so no lookup ever finds a table | one entity, `add_component_to_entity(0, c)` then `borrow_component::<T>(0)` | the lookup type equals the stored table type, so an add is read back and a second add reuses the table | not executed | EcsOld.AddedComponentIsLost | EcsOld.AddThenBorrow |
| src/obstacles.rs:186-194 | the running `x` is compared with an obstacle's x coordinate but overwritten with a distance, so later obstacles are compared against a distance | player at (-200, 0); obstacles at x = 300 then x = 400: reports 600 instead of 500 | keep the smallest obstacle x apart from the signal of that obstacle | not executed | ObstacleSignal.AsWrittenReportsFartherObstacle | ObstacleSignal.GetObstacle |
