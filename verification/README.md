# Kaitank arena shooter: the authoritative game core in Dafny

This project models the server-side game core of the Kaitank top-down arena
shooter (`server/impl.ts`). The core is a small sequential state machine
over a world state that holds the players in join order, the bullets in
spawn order, and a bullet counter. The host drives it in two ways:

- **Command handlers.** `initialize` takes no state and no user id and
  returns a fresh, empty state. `joinGame`, `moveTo`, `changeDir` and
  `shoot` receive the state, the acting user id and a payload. `joinGame`
  always succeeds and appends a player, even for an id that already joined.
  `moveTo`, `changeDir` and `shoot` fail with "Not joined" for an id that
  matches no player and succeed otherwise. Among those three, only `moveTo`
  is gated by hit points, and only `shoot` by hit points and ammunition;
  `changeDir` always takes effect.
- **Tick.** `onTick` does three things in order. It moves players toward
  their targets, snapping onto a target one axis at a time. It advances the
  bullets and resolves their hits on players. It prunes the bullets that hit
  somebody or left the open arena.

The model is functional. The state is an immutable datatype, `initialize` is a
constant function, each other handler is a pure function returning the
next state together with the response,
and the tick is a map over the players, then a left fold over the bullets
that threads the player list, then a filter.

Files and modules:

- `world.dfy` (`World`): entities, the response type and the game's constants.
- `commands.dfy` (`Commands`): the handlers, and `FindPlayer` (the first
  player with a given id, as `Array.find` returns it).
- `simulation.dfy` (`Simulation`): the tick, plus reference definitions of
  what a tick does to each player and to the bullet list, proved equal to it.
- `session.dfy` (`Session`): the invariant every handler and the tick
  preserve, runs of commands from a fresh room, and scenarios.

Modelling choices:

- Coordinates and the time step are exact `real`s. Hit points and ammunition
  are `int`s.
- The hit test `sqrt(dx*dx + dy*dy) <= 32` is written as the equivalent
  `dx*dx + dy*dy <= 1024`. This is exact over the reals.
- The random spawn point becomes a parameter of `JoinGame`. Its precondition
  is exactly what `Math.floor(Math.random() * 1024)` can produce on each
  axis: an integer in [0, 1024).

The model follows the code as written, including behaviour a reader might
not expect:

- The bullet counter is never advanced. Every bullet gets id
  `bulletsCount + 1`, which is 1 in every room that starts from
  `initialize`. Ids are therefore not unique (`Session.ReachableBulletIds`,
  `Session.TwoShotsShareAnId`).
- `targetLoc` and `targetDir` are never cleared, even once reached or applied.
- When the x axis snaps, the `continue` also skips the facing update for
  that tick.
- Tick movement does not check hit points. Only `moveTo` does, when it
  accepts a target.
- A duplicate join is neither rejected nor merged. Commands are always
  served by the first matching entry (`Commands.JoinThenFind`).

## Model

| member | source | states |
|---|---|---|
| Commands.FindPlayer | server/impl.ts:61 | The result is the index of the first player with the id. It is absent exactly when no player has that id. |
| Commands.Initialize | server/impl.ts:40-46 | A fresh room has no players, no bullets and a counter of 0. |
| Commands.JoinGame | server/impl.ts:47-58 | Join always succeeds and appends exactly one player at the end. That player has the given id, the spawn point (inside the arena), facing UP, 10 hp, 48 ammo and no pending intents. Earlier players, the bullets and the counter are unchanged. |
| Commands.JoinThenFind | server/impl.ts:47-62 | After a join, commands for that id go to the new entry only if the id was new. After a repeat join they still go to the old entry. |
| Commands.MoveTo | server/impl.ts:60-66 | An unknown id gets "Not joined" and leaves the state unchanged. Otherwise the result is ok and only the first matching player may change, and only in its target location. The target is set when that player's hp > 0. A dead player's request leaves the state unchanged. |
| Commands.ChangeDir | server/impl.ts:67-72 | An unknown id gets "Not joined" and leaves the state unchanged. Otherwise the result is ok and the first matching player's pending facing is set whatever its hp. Nothing else changes. |
| Commands.MuzzlePoint | server/impl.ts:84-99 | A bullet spawns exactly 33 units from the shooter, along the facing's axis. UP gives smaller y, DOWN larger y, LEFT smaller x, RIGHT larger x. |
| Commands.Shot | server/impl.ts:74-104 | The spawned bullet takes its id from the counter plus one, and its direction from the shooter's facing. It appears at the muzzle point. |
| Commands.Shoot | server/impl.ts:73-106 | An unknown id gets "Not joined" and leaves the state unchanged. With ammo and hp > 0, the first matching player loses exactly one round and exactly one bullet is appended. Otherwise the state is unchanged and the result is ok. The counter never changes and ammo never goes negative. |
| Simulation.Clamp | server/impl.ts:119-121 | A snapped coordinate lies in [0, 1024]. Values already inside are kept. Values below go to 0, values above go to 1024. |
| Simulation.MovePlayer | server/impl.ts:113-133 | Only location and facing can change, and targets are never cleared. At most one axis moves, and only onto the clamped target coordinate. An x move leaves the facing alone. A new facing is always the pending one. A player inside the arena stays inside. |
| Simulation.SnapOnArrivalX | server/impl.ts:118-123 | If the x distance is positive and within 90·delta, x snaps to the clamped target x. y and the facing are unchanged. |
| Simulation.SnapOnArrivalY | server/impl.ts:124-132 | If x is not within reach and the y distance is positive and within 90·delta, y snaps to the clamped target y. Then the pending facing is applied. |
| Simulation.NoSnap | server/impl.ts:114-132 | With no target, or neither axis within reach, the location is unchanged and only the pending facing is applied. |
| Simulation.FacingIdempotent | server/impl.ts:130-132 | Once the facing equals the pending facing, every later tick keeps it. |
| Simulation.ArrivesWithinTwoTicks | server/impl.ts:115-128 | A target inside the arena and within reach on both axes is reached after at most two ticks and then kept. |
| Simulation.FacingStarvesBeyondEdge | server/impl.ts:118-122 | A player on the x edge whose target x lies just beyond it snaps onto the edge every tick and never applies its pending facing. |
| Simulation.BulletFlight | server/impl.ts:134-146 | A bullet moves exactly 300·delta along one axis. UP decreases y and DOWN increases y. LEFT increases x and RIGHT decreases x. |
| Simulation.MoveBullet | server/impl.ts:134-146 | Moving a bullet never changes its id or its direction. |
| Simulation.ApplyHit | server/impl.ts:153-154 | Only hp and ammo change. A living player loses exactly one hp and a dead one loses none, so non-negative hp stays non-negative. A player left at hp ≤ 0 has ammo 0. Otherwise ammo is kept. |
| Simulation.ApplyHitsClosedForm | server/impl.ts:152-155 | k hits lower hp by k but not below 0, and leave hp ≤ 0 unchanged. Any hit that leaves hp ≤ 0 sets ammo to 0. |
| Simulation.Strike | server/impl.ts:147-155 | A bullet's strike keeps the number of players. The hit count is at most the number of players, and it is positive exactly when some player, alive or dead, is within distance 32. |
| Simulation.StrikeAt | server/impl.ts:147-155 | Every player within distance 32 of the bullet takes exactly one hit. Every other player is unchanged. |
| Simulation.StrikeKeepsBodies | server/impl.ts:147-155 | A strike changes only hp and ammo, so nobody moves, turns or loses an intent. |
| Simulation.ProcessBullets | server/impl.ts:134-157 | The bullet pass keeps the number of players and the number of bullets. |
| Simulation.ProcessBulletsMarks | server/impl.ts:134-157 | Each bullet leaves the pass moved. It is marked −1 exactly when some player, alive or dead, stood within range of its new position; otherwise it keeps its id. |
| Simulation.ProcessBulletsBodies | server/impl.ts:134-157 | The bullet pass changes only the players' hp and ammo. |
| Simulation.ProcessBulletsDamage | server/impl.ts:134-157 | Each player ends the pass as if hit once, in order, for every bullet that landed in range of it. Later bullets see earlier bullets' damage. |
| Simulation.Prune | server/impl.ts:158-165 | The prune keeps every bullet that is unmarked and strictly inside (0, 1024) on both axes, and only those. The list never grows. |
| Simulation.PruneAppend | server/impl.ts:158-165 | The prune preserves order: pruning a concatenation is the concatenation of the prunes. |
| Simulation.PruneIdempotent | server/impl.ts:158-165 | Pruning an already pruned list changes nothing. |
| Simulation.OnTick | server/impl.ts:110-166 | A tick keeps the number of players and their ids and targets. The bullet list never grows and the counter is unchanged. Every remaining bullet is unmarked and strictly inside the arena. |
| Simulation.TickBullets | server/impl.ts:134-165 | The bullets after a tick are exactly the moved bullets, in original order, that were unmarked, reached no player where the players stood after moving, and ended strictly inside the arena. |
| Simulation.TickPlayers | server/impl.ts:113-157 | Each player after a tick is that player moved, then hit once per bullet that landed within range of its new location. |
| Simulation.BoundaryPruning | server/impl.ts:158-165 | A bullet that ends a tick on or beyond an arena edge is removed in that same tick. |
| Session.InitializeConsistent | server/impl.ts:40-46 | A fresh room satisfies the room invariant. |
| Session.JoinConsistent | server/impl.ts:47-58 | Join preserves the room invariant: hp in [0,10], ammo in [0,48], no ammo at 0 hp, players inside the arena, counter 0, every bullet id 1. |
| Session.MoveToConsistent | server/impl.ts:60-66 | moveTo preserves the room invariant and every player's id. |
| Session.ChangeDirConsistent | server/impl.ts:67-72 | changeDir preserves the room invariant and every player's id. |
| Session.ShootConsistent | server/impl.ts:73-106 | shoot preserves the room invariant and every player's id. Ammo and hp never go negative. |
| Session.HitsKeepPlayerConsistent | server/impl.ts:152-155 | Any number of hits keeps a player's hp and ammo within bounds, and a player at 0 hp has no ammo. |
| Session.TickConsistent | server/impl.ts:110-166 | A tick preserves the room invariant: clamped movement keeps players inside, hits keep hp and ammo in bounds, and survivors keep id 1. |
| Session.Step | server/impl.ts:39-167 | One command or tick preserves the invariant and the counter. Only a join adds a player, and no player's id changes. |
| Session.Run | server/impl.ts:39-167 | Over any run, players are only appended, one per join. Ids never change, the counter never moves, and the invariant holds throughout. |
| Session.ReachableBulletIds | server/impl.ts:74-103 | In every room reachable from a fresh one, the counter is 0 and every bullet's id is 1. |
| Session.TwoShotsShareAnId | server/impl.ts:73-105 | Two shots from a new player produce two bullets that both have id 1, and 46 rounds remain. |
| Session.SquareWithinRadius | server/impl.ts:150-151 | A squared distance within 1024 is the same as a distance within 32. |
| Session.OwnShotReachesShooter | server/impl.ts:84-151 | A shooter who stays put is in range of its own horizontal shot after one tick exactly when the bullet travels 1 to 65 units. A vertical shot never comes back for a non-negative time step. |
| Session.ScenarioSetup | server/impl.ts:47-105 | Joining at (100,100) and firing once gives a room with that player (facing UP, 47 rounds) and one bullet at (100,67). |
| Session.ScenarioTick | server/impl.ts:110-165 | In that room, a 0.11 s tick moves a bullet 33 units up without hitting the shooter. It survives exactly while its new y is above 0. |
| Session.StraightShotScenario | server/impl.ts:73-165 | A player at (100,100) facing UP fires a bullet at (100,67) and has 47 rounds left. Ticks of 0.11 s put the bullet at (100,34), then (100,1). The third tick prunes it. |

## Left out

- `getUserState` returns the state unchanged, so there is nothing to model.
- The random spawn draw (`Math.random`) is a parameter of `JoinGame`, constrained to integer coordinates in [0, 1024).
- IEEE-754 floating point is not modelled. All arithmetic is exact over the reals, and the square root in the hit test becomes a squared comparison.
- The framework plumbing (`Methods`, `Context`, the request types, `Response.ok`/`Response.error`) is left out. `Response` is the two-case datatype `Ok | Error(msg)`.
- The generated API types are not part of this model. `Direction` is a four-case enumeration and `Location` is a pair of reals.
- JavaScript object aliasing is not modelled. Bullets are mutated in place and `targetLoc` shares the request's location object; the model uses value semantics. The core never writes through either alias in a way another reader could observe.
- `Session.Run` discards the handlers' responses. Each handler's own contract states them.
- Simulation.BulletFlight: fixes the sign of travel only for a non-negative time step. For a negative step it states the axis and the distance only.
