# rusttd combat and placement rules in Dafny

This project models the rules of the rusttd tower-defence game as pure
functions over plain data. It covers:

- the occupancy grid;
- leg-by-leg route resolution;
- creep spawning and walking;
- tower targeting;
- projectile flight;
- the eight gem stat tables and their attack systems;
- building and choosing gems;
- on-hit damage multipliers;
- attack-speed auras and buffs.

The Bevy ECS is replaced by plain data:

- a query is a sequence in iteration order;
- a component insertion is a map update, and the last write wins;
- a system run is a function from the old state to the new one.

Modelling choices:

- Positions are `real` vectors. "Distance ≤ r" is tested without a square root as `0 ≤ r ∧ |a−b|² ≤ r²`. `Geometry.DistanceAtMostIsDistance` proves this is the same test.
- Engine timers are reduced to whether they finished on the tick at hand. This applies to the spawner, the tower cooldowns and the `Slowed` timer, and the value is passed in.
- Each random choice is passed in: the gem rolled for a hole, and the damage roll.
- The BFS of the pathfinding crate is a function parameter with the shape of `bfs(start, successors, success)`.
- `Grid::get` and `Grid::neighbours` are used but not defined in the grid source:
  - `Grids.Occupant` stands for `get`, yielding the entity of an `Occupied` cell;
  - `neighbours` is a function parameter;
  - the route filter reads "`get` is none" as "the cell is not in the map".
- The source files come from different revisions, so `TowerBundle` is the union of their fields. A table that does not name abilities, auras or a target gets the empty list, the empty list and no target.

Modules, one per source file or component:

- `Common`, `Geometry`, `Grids`, `Path`, `Creeps`;
- `Targeting`, `Projectiles`;
- `Abilities`, `Auras`, `Stats`, `Buffs`;
- `Attacks`, the attack shared by the per-gem files;
- the per-gem modules `Sapphire`, `Ruby`, `Opal`, `Aquamarine`, `Emerald`, `Amethyst`, `Topaz` and `Diamond`;
- `Towers`, for placement.

Behaviour worth noting:

- Creep count: a spawner releases 20 creeps (src/creeps.rs:29).
- Auras: an aura buff replaces the tower's buff, and the last aura processed wins (src/abilities/aura.rs:30, src/abilities/aura.rs:49).
- Topaz: it fires one projectile at the closest creep, like the other gems (src/towers/topaz.rs:41-51).
- Emerald: it has no on-hit abilities (src/towers/emerald.rs:60-103).

## Model

| member | source | states |
|---|---|---|
| Geometry.Within | src/towers.rs:464-474 | `Range::within`: the half-range box on x and z, then the distance test; its meaning is stated by `Geometry.WithinMeaning` |
| Geometry.DistanceAtMostIsDistance | src/towers.rs:472 | for any d ≥ 0 with d² = the squared distance, d ≤ r holds exactly when the sqrt-free test holds |
| Geometry.WithinMeaning | src/towers.rs:464-474 | `within` holds iff \|dx\| ≤ r/2, \|dz\| ≤ r/2, r ≥ 0 and the squared 3-D distance is at most r² |
| Geometry.WithinSymmetric | src/towers.rs:464-474 | swapping target and origin never changes `within` |
| Geometry.PlanarBoxSuffices | src/towers.rs:466-472 | with equal heights and r ≥ 0 the box test alone decides `within`, so the distance clause never rejects |
| Geometry.AxisHalfRangeAccepted | src/towers.rs:466-469 | a target r/2 along x from the origin is within range |
| Geometry.AxisFullRangeRejected | src/towers.rs:466-472 | a target r along x (r > 0) is rejected by the box although its distance is exactly r |
| Geometry.NegativeRangeIsEmpty | src/towers.rs:466-469 | a negative range contains nothing |
| Geometry.WithinReflexive | src/towers.rs:464-474 | a point is within any non-negative range of itself |
| Grids.Buildable | src/grid.rs:24-31 | a cell list is buildable iff none of its cells is a key of the map |
| Grids.InsertAll | src/grid.rs:35-37 | every listed cell maps to the entity; other keys and values are unchanged |
| Grids.AddBuilding | src/grid.rs:33-42 | succeeds iff every cell is free; on success every listed cell is `Occupied(entity)`; on failure the grid is unchanged; cells outside the list never change |
| Grids.Clear | src/grid.rs:54-56 | after clearing every cell is free |
| Grids.Block | src/grid.rs:58-65 | succeeds iff the cell is free, then maps it to `Blocked`; otherwise the grid is unchanged; no other cell changes |
| Grids.Occupant | src/towers.rs:213 | yields an entity exactly for an `Occupied` cell, and that entity is the occupant |
| Grids.EmptyListBuildable | src/grid.rs:24-31 | the empty cell list is always buildable |
| Grids.ClearedIsBuildable | src/grid.rs:54-56 | every cell list is buildable on a cleared grid |
| Grids.OverlappingBuildFails | src/grid.rs:33-42 | after a successful build, a second build sharing a cell fails and leaves the grid as it was |
| Grids.BlockedCellNotBuildable | src/grid.rs:58-65 | once a cell is blocked, no list containing it is buildable |
| Path.Retain | src/path.rs:13-17 | the kept cells are exactly the input cells the predicate accepts, never more of them |
| Path.RetainAppend | src/path.rs:13-17 | `retain` keeps the kept cells in their original order: filtering two runs gives the two results appended |
| Path.Successors | src/path.rs:11-19 | a search successor is exactly a neighbour with both coordinates in [-100, 100] that is absent from the grid |
| Path.LegSearch | src/path.rs:7-20 | one leg is the search from the previous goal over `Path.Successors` whose success test is equality with the goal; its shape is stated by `Path.LegShape` |
| Path.ResolveFrom | src/path.rs:6-22 | the loop from leg i on fails iff some later leg's search fails; otherwise every leg was found and the result is the concatenation of all legs |
| Path.Resolve | src/path.rs:4-25 | fewer than two goals give the empty route; the result is none iff some leg's search fails; otherwise it is the in-order concatenation of the legs |
| Path.LegShape | src/path.rs:9-21 | for a sound search, a found leg starts at the previous goal, ends at the goal, and its other cells are in bounds and free |
| Path.ResolvedRouteAvoidsObstacles | src/path.rs:9-24 | every cell of a resolved route is one of the goals or an in-bounds free cell |
| Path.FirstLegFailureFails | src/path.rs:22 | when the first leg's search fails the whole resolution fails |
| Creeps.StartSpawn | src/creeps.rs:25-35 | the spawner starts with 20 creeps to release and a repeating 1-second timer |
| Creeps.Spawn | src/creeps.rs:49-82 | without a finished timer nothing changes; otherwise one creep with life 20, the given route and destination 0 appears at the spawner, the count drops by one, and the spawner is gone exactly when the count reaches 0 |
| Creeps.SpawnerReleasesAtMostAmount | src/creeps.rs:49-82 | over any run of ticks the spawner releases min(amount, finished ticks) identical creeps and is gone iff the finished ticks reach the amount |
| Creeps.TwentyCreepsPerSpawner | src/creeps.rs:25-82 | a fresh spawner given at least 20 finished ticks releases exactly 20 creeps and is despawned |
| Creeps.Moving | src/creeps.rs:86-116 | a creep leaks iff no waypoint remains; otherwise its destination advances by exactly one when it is within 0.05 on x and z of the waypoint and stays put otherwise; life and route never change |
| Creeps.WalkKeepsRouteInvariant | src/creeps.rs:91-106 | over any sequence of moves the destination stays within the route, and life and route are unchanged |
| Creeps.ArrivingAdvances | src/creeps.rs:102-106 | a creep whose post-move position is within 0.05 of its waypoint on x and z advances to the next one |
| Targeting.Passes | src/towers.rs:345-351 | the type filter: no filter lets every creep through, a filter only creeps of its type |
| Targeting.NearestIndex | src/towers.rs:342-360 | none iff no creep passes the filter; otherwise the index of the first passing creep with minimal squared distance |
| Targeting.FirstNearestUnique | src/towers.rs:356-359 | the first nearest passing creep is unique |
| Targeting.ClosestCreepWithinRange | src/towers.rs:336-367 | none when no creep passes the filter; otherwise the first nearest passing creep, returned only when its squared distance is strictly below range² |
| Targeting.ClosestIsNearestPassing | src/towers.rs:344-366 | a returned creep is one of the creeps and passes the filter |
| Targeting.AllCreepsWithinRange | src/towers.rs:369-389 | an entity is returned iff it is a creep that is `within` range and passes the filter |
| Targeting.AllCreepsWithinRangeAppend | src/towers.rs:375-388 | the result follows iteration order: two runs of creeps give the two results appended |
| Targeting.AllTowersWithinRange | src/towers.rs:391-406 | an entity is returned iff it is a tower `within` range of the position |
| Targeting.AllTowersWithinRangeAppend | src/towers.rs:398-405 | the result follows the tower query's order: two runs of towers give the two results appended |
| Targeting.Lookup | src/towers.rs:483 | a position is found iff the entity is among the creeps, and it is that creep's position |
| Targeting.PickTarget | src/towers.rs:477-494 | a held target is kept iff it still exists and is `within` range, and is otherwise cleared without acquiring a new one; no target takes the unfiltered closest creep in range |
| Targeting.DespawnedTargetDropped | src/towers.rs:483-489 | a target that no longer exists is dropped |
| Targeting.AcquiredTargetMayBeDroppedNextTick | src/towers.rs:477-494 | a creep at distance 3 on the x axis of a range-4 tower is acquired, then dropped on the next tick because it lies outside the half-range box |
| Projectiles.MoveProjectile | src/towers.rs:250-266 | a missing target removes the projectile with no hit; arriving within 0.05 on x and z emits exactly one hit and removes it; otherwise it keeps flying from its new position |
| Projectiles.MoveAll | src/towers.rs:243-268 | no more projectiles and hits than before; each hit comes from a projectile whose live target it reached; every projectile that reached its target hits; every survivor had a live target; every projectile with a live target that has not reached it survives, at its moved position |
| Projectiles.MoveAllAppend | src/towers.rs:249-266 | moving a query split in two moves each half on its own: survivors and hits keep query order, the first half's before the second's |
| Projectiles.MoveOne | src/towers.rs:250-265 | a single projectile survives, hits, or vanishes exactly as one step of `move_projectile` says |
| Projectiles.StaleTargetNoHit | src/towers.rs:264-266 | a projectile whose target is gone vanishes without a hit |
| Abilities.Apply | src/abilities/on_hit.rs:9-19 | for a roll in [0, 100), damage is multiplied when roll ≤ chance and unchanged otherwise |
| Abilities.ChanceIsInclusive | src/abilities/on_hit.rs:13 | a roll equal to the chance fires |
| Abilities.HighChanceAlwaysFires | src/abilities/on_hit.rs:13 | with chance ≥ 99 every roll fires |
| Abilities.NeverDecreases | src/abilities/on_hit.rs:15 | with multiplier ≥ 1 damage never decreases, and multiplier 1 is the identity |
| Abilities.FiringOdds | src/abilities/on_hit.rs:13 | of the first n rolls exactly min(chance + 1, n) fire |
| Auras.InsertAll | src/abilities/aura.rs:30 | each insertion adds its tower; untouched towers keep their value; a tower ends with the value of its last insertion |
| Auras.InsertAllAppend | src/abilities/aura.rs:30 | inserting one list and then another is inserting their concatenation, so only the order of insertions matters |
| Auras.LastInsertionFor | src/abilities/aura.rs:30 | an entity that is inserted has a last insertion |
| Auras.InsertUniform | src/abilities/aura.rs:30 | when every insertion carries the same value, every tower inserted ends with that value |
| Auras.AuraInsertions | src/abilities/aura.rs:27-31 | one aura yields a buff of its value exactly for the towers `within` its range, and no more buffs than tower entries |
| Auras.AuraInsertionsAppend | src/abilities/aura.rs:27-29 | one aura's buffs come in the tower query's order: two runs of towers give their buffs appended |
| Auras.SourceInsertions | src/abilities/aura.rs:26-33 | a source's buffs are exactly those of its (aura, covered tower) pairs |
| Auras.SourceInsertionsAppend | src/abilities/aura.rs:26-33 | a source's buffs come aura by aura in list order: splitting the aura list splits the buffs, the first part first |
| Auras.NewAuraInsertions | src/abilities/aura.rs:24-35 | the new-aura pass produces exactly the buffs of (new source, aura, covered tower) triples |
| Auras.NewAuraInsertionsAppend | src/abilities/aura.rs:24-35 | the new-aura buffs come source by source in query order: two runs of sources give their buffs appended |
| Auras.LastReachingUnique | src/abilities/aura.rs:24-35 | at most one (source, aura) pair is the last, in processing order, to reach a tower |
| Auras.SourcePassAt | src/abilities/aura.rs:26-33 | after one source's buffs, a tower one of its auras reaches holds the value of the last such aura in list order; any other tower is untouched |
| Auras.NewAuraPassAt | src/abilities/aura.rs:24-35 | after the new-aura buffs, a reached tower holds the value of the last (source, aura) pair to reach it, sources in query order and auras in list order; any other tower is untouched |
| Auras.ApplyNewAura | src/abilities/aura.rs:19-36 | a tower some new aura reaches ends with the value of the last (source, aura) pair in processing order that reaches it; every other tower keeps its buff or lack of one |
| Auras.TowerInsertions | src/abilities/aura.rs:44-53 | one new tower gets a buff exactly from each (source, aura) whose range contains it |
| Auras.NewTowerInsertions | src/abilities/aura.rs:43-54 | the new-tower pass produces exactly the buffs of (source, aura, covered new tower) triples |
| Auras.NewTowerInsertionsAppend | src/abilities/aura.rs:43-54 | the new-tower buffs come tower by tower in query order: two runs of new towers give their buffs appended |
| Auras.LastTowerHitUnique | src/abilities/aura.rs:43-54 | at most one (new tower, source, aura) triple is the last, in processing order, to hit a tower |
| Auras.NewTowerPassAt | src/abilities/aura.rs:43-54 | after the new-tower buffs, a hit tower holds the value of the last triple to hit it, new towers in query order, then sources, then auras; any other tower is untouched |
| Auras.ApplyAuraToNewTower | src/abilities/aura.rs:38-56 | a new tower some aura covers ends with the value of the last (new tower, source, aura) triple in processing order that hits it; every other tower keeps its buff or lack of one |
| Auras.SelfBuff | src/abilities/aura.rs:27 | a tower with a non-negative aura range buffs itself with the aura's value |
| Auras.LastAuraWins | src/abilities/aura.rs:30 | a 0.35 aura followed by a 0.1 aura leaves the tower at 0.1: insertion replaces, it takes no maximum |
| Buffs.Apply | src/buffs.rs:16-20 | each tower with a newly added buff has the buff added to its speed stat; other towers are unchanged |
| Buffs.EachBuffAppliedOnce | src/buffs.rs:16-19 | over several runs a tower's stat grows by exactly the sum of the buffs added to it, each counted once |
| Buffs.NothingAddedNothingChanges | src/buffs.rs:16 | with no new buff the stats are unchanged |
| Buffs.PositiveBuffLengthensCooldown | src/buffs.rs:18 | a positive buff makes the cooldown, 1.0 × speed, strictly longer |
| Stats.CooldownDuration | src/towers.rs:328-334 | the period `cooldown_is_done` sets before ticking, 1.0 × speed; the diamond gem's own cooldown uses the same period (src/towers/diamond.rs:23-24); `Buffs.PositiveBuffLengthensCooldown` states what a buff does to it |
| Attacks.Fire | src/towers/sapphire.rs:40-62 | a gem fires iff it has the system's type, its cooldown finished and the closest-in-range search finds a creep; the projectile goes from the gem to that creep |
| Attacks.Volley | src/towers/sapphire.rs:26-63 | a projectile is launched iff some ready gem of the type picks its target; at most one per ready gem |
| Attacks.AtMostOnePerGem | src/towers/sapphire.rs:40-62 | one gem's turn in the loop launches at most one projectile |
| Attacks.VolleyAppend | src/towers/sapphire.rs:40-42 | projectiles come out in query order: two runs of gems give their volleys appended |
| Sapphire.Tower | src/towers/sapphire.rs:65-108 | each quality has a well-formed bundle, speed BASE−0.2 for Chipped and BASE otherwise, no aura, and exactly one slow of 20 to 40 |
| Sapphire.TableGraded | src/towers/sapphire.rs:68-104 | a better quality's damage range lies wholly above a worse one's, its range is strictly longer and its slow strictly larger |
| Sapphire.Attack | src/towers/sapphire.rs:26-63 | only ready Sapphires fire, at most one projectile each, at the unfiltered closest creep strictly in range |
| Sapphire.Expire | src/towers/sapphire.rs:118-130 | a slowed creep loses `Slowed` iff its timer finished this tick; the amounts of the others are unchanged |
| Sapphire.SlowLastsUntilExpiry | src/towers/sapphire.rs:123-128 | over any run of ticks a slow survives iff its timer never finished, and its amount never changes |
| Ruby.Tower | src/towers/ruby.rs:64-114 | every quality has range 8.0, no aura, the standard speed rule, and one half-damage splash of radius 3.0, or 3.5 at Perfect |
| Ruby.TableGraded | src/towers/ruby.rs:69-107 | a better Ruby's damage range lies wholly above a worse one's, at equal range |
| Ruby.Attack | src/towers/ruby.rs:25-62 | only ready Rubies fire, at most one projectile each, at the unfiltered closest creep strictly in range |
| Opal.Tower | src/towers/opal.rs:63-121 | fixed damage, no on-hit ability, the standard speed rule, and one positive attack-speed aura whose range equals the tower's |
| Opal.TableGraded | src/towers/opal.rs:66-117 | a better Opal does more damage, reaches strictly farther and grants a strictly larger buff |
| Opal.Attack | src/towers/opal.rs:24-61 | only ready Opals fire, at most one projectile each, at the unfiltered closest creep strictly in range |
| Aquamarine.Tower | src/towers/aquamarine.rs:60-108 | speed BASE/2 at every quality, range below 6, nothing attached |
| Aquamarine.TableGraded | src/towers/aquamarine.rs:63-101 | a better Aquamarine's damage range lies wholly above a worse one's and its range is strictly longer |
| Aquamarine.AttacksTwiceAsOften | src/towers/aquamarine.rs:64 | its cooldown is half the base cooldown |
| Aquamarine.Attack | src/towers/aquamarine.rs:21-58 | only ready Aquamarines fire, at most one projectile each, at the unfiltered closest creep strictly in range |
| Emerald.Tower | src/towers/emerald.rs:60-103 | the standard speed rule, no on-hit ability and no aura |
| Emerald.TableGraded | src/towers/emerald.rs:63-97 | a better Emerald's damage range lies wholly above a worse one's; range never shrinks, and Flawless and Perfect reach equally far |
| Emerald.Attack | src/towers/emerald.rs:21-58 | only ready Emeralds fire, at most one projectile each, at the unfiltered closest creep strictly in range |
| Amethyst.Tower | src/towers/amethyst.rs:58-91 | the standard speed rule, nothing attached |
| Amethyst.TableGraded | src/towers/amethyst.rs:61-87 | a better Amethyst's damage range lies wholly above a worse one's and its range is strictly longer |
| Amethyst.Attack | src/towers/amethyst.rs:16-56 | only ready Amethysts fire, at most one projectile each, at the closest flying creep strictly in range; every target is a flying creep |
| Amethyst.GroundOnlyIsIgnored | src/towers/amethyst.rs:41-46 | with only ground creeps about no Amethyst launches anything |
| Topaz.Tower | src/towers/topaz.rs:55-88 | fixed damage, range 5.0 everywhere, the standard speed rule, nothing attached |
| Topaz.TableGraded | src/towers/topaz.rs:58-82 | a better Topaz does strictly more damage |
| Topaz.Attack | src/towers/topaz.rs:16-53 | only ready Topazes fire, at most one projectile each, at the unfiltered closest creep strictly in range |
| Diamond.AttackAsWritten | src/towers/diamond.rs:22-62 | a ready gem fires at the first nearest creep exactly when its squared distance is below range × 2.0; never with no creep |
| Diamond.Attack | src/towers/diamond.rs:22-62 | a ready gem fires at the first nearest creep exactly when its squared distance is below range²; never with no creep |
| Diamond.AttackIsSharedAttack | src/towers/diamond.rs:30-44 | with the threshold corrected, the inline search is the shared closest-in-range search without a filter |
| Diamond.Volley | src/towers/diamond.rs:15-64 | corrected threshold: a projectile is launched iff some ready gem of any type has the closest creep strictly in range as its target; at most one per ready gem |
| Diamond.VolleyAsWritten | src/towers/diamond.rs:15-64 | as written: a projectile is launched iff some ready gem of any type has a first nearest creep whose squared distance is below range × 2.0, and it targets that creep; at most one per ready gem |
| Diamond.SapphireFiresTwice | src/towers/diamond.rs:19-22 | corrected threshold: a ready Sapphire with a creep in range gets one projectile from the diamond system as well as its own |
| Diamond.SapphireHeldAsWritten | src/towers/diamond.rs:42 | as written, a Chipped Sapphire (range 5.5) with a creep at distance 4 fires from its own system but not from the diamond one, since 16 is not below 11 |
| Diamond.AsWrittenMissesCreepInRange | src/towers/diamond.rs:42 | range 8 and a creep at distance 5: the as-written gem does not fire, the corrected one does |
| Diamond.AsWrittenHitsCreepOutOfRange | src/towers/diamond.rs:42 | range 1 and a creep at distance 1.2: the as-written gem fires, the corrected one does not |
| Diamond.ThresholdsAgreeOnlyAtZeroAndTwo | src/towers/diamond.rs:42 | a ready gem attacks the same creep under the `range * 2.0` threshold as under range² for every set of creeps exactly when its range is 0 or 2 |
| Diamond.ThresholdsAgree | src/towers/diamond.rs:42 | at range 0 or 2, the as-written attack equals the corrected one for any creeps |
| Diamond.ThresholdsDiffer | src/towers/diamond.rs:42 | at any other range some set of one creep makes a ready gem attack under one threshold and not the other |
| Towers.GemTower | src/towers.rs:123-134 | the Diamond row is the given table; every other type yields a well-formed bundle; only Opal carries an aura and only Sapphire and Ruby carry on-hit abilities |
| Towers.ShownTablesGraded | src/towers.rs:123-134 | for every type but Diamond a better quality's damage range lies wholly above a worse one's and its range is no shorter |
| Towers.Footprint | src/towers.rs:152-157 | four cells, the first being the event position |
| Towers.FootprintCells | src/towers.rs:152-157 | the four cells are distinct and are exactly the 2×2 block whose lower corner is the event position |
| Towers.FootprintsOverlap | src/towers.rs:152-161 | two holes share a cell iff their corners are at most one cell apart on both axes |
| Towers.PlaceIsAddBuilding | src/towers.rs:174 | on a free footprint `add_building` succeeds and leaves exactly the grid in which the four cells go to the new entity |
| Towers.BuildGem | src/towers.rs:145-177 | each built hole comes from an event; cells taken before the batch are never changed; the k-th hole built holds all four of its cells as entity `next + k` |
| Towers.NewCellsAreHoles | src/towers.rs:159-176 | every newly taken cell belongs to the footprint of a hole built in the batch |
| Towers.BuildsIffFree | src/towers.rs:159-161 | a build event produces a hole iff its whole footprint is free, and a skipped event leaves the grid unchanged |
| Towers.BuildGemSnoc | src/towers.rs:150-176 | one more event at the end of the batch builds on the grid the earlier events left, as entity `next` + the holes built so far, or changes nothing |
| Towers.BuildGemAppend | src/towers.rs:150-176 | a batch split in two runs the second half's events, in order, on what the first half built |
| Towers.BuildGemIsFold | src/towers.rs:150-176 | a batch is the event-by-event fold of the single-event step from the starting grid |
| Towers.FoldAfter | src/towers.rs:150-176 | running further events after earlier holes equals running them as a fresh batch on the grid those holes left, numbered after them, with the earlier holes in front |
| Towers.BuildsIffFreeAfter | src/towers.rs:159-176 | after any earlier events, one more event adds its site iff its footprint is free on the grid they left, and otherwise the batch is unchanged |
| Towers.BatchHolesDisjoint | src/towers.rs:145-177 | holes built in one batch never share a cell |
| Towers.Reveal | src/towers.rs:184-200 | every just-built hole gets the rolled gem, that gem's bundle and the tower tag; other entities are unchanged |
| Towers.ChooseGem | src/towers.rs:205-233 | unless the chosen cell holds a just-built entity nothing changes; otherwise the chosen entity keeps its gem, every other just-built one becomes a plain rock, and none stays just-built |
| Towers.ExactlyOneGemKept | src/towers.rs:184-233 | after revealing and choosing, exactly the chosen hole of the batch still has a gem, and its bundle matches that gem |

## Left out

- Rendering, meshes, materials, range display, gem colours and shapes, UI, camera, input, app wiring and the level state machine: none of these affects the rules modelled.
- Randomness: the gem rolled for each hole and the damage roll are parameters.
- Floating-point arithmetic: coordinates are exact reals and f32 rounding is not modelled.
- Movement: the `normalize` step of creep and projectile movement is not modelled. The position after the move is a parameter, and the 0.05 arrival test on it is exact.
- Engine timers: each timer is reduced to whether it finished on the tick. This covers `cooldown_is_done`, the spawner timer, the `Slowed` timer and the diamond gem's own cooldown. The period is modelled only as `CooldownDuration`.
- The BFS itself belongs to the pathfinding crate and is a parameter. `Path.LegShape` assumes only the shape any sound BFS result has.
- `Grid::neighbours` is a parameter, since it is not defined in the grid source.
- The creep route constant `CREEP_ROUTE` (src/level_1/map.rs) is a parameter, since the level map is not part of this model.
- Deferred ECS commands and query staleness within one frame are not modelled. Each event or system sees the state its predecessors left.
- The `Name` field of the bundle, and the splash and slow effects applied when a projectile hits, are not modelled.
- `diamond::tower` is not part of this model.
- Towers.GemTower: the Diamond row only forwards to a table passed in, because `diamond::tower` is not part of this model.
- Abilities.Apply: requires the product to fit in a u64. The source's overflow, a panic in debug builds and wrap-around in release builds, is not modelled.
- Creeps.Spawn: requires at least one creep left to release. This always holds for a live spawner, because it is despawned on the tick its count reaches zero.
- Towers.Footprint: cell coordinates are unbounded integers. The i32 overflow of `pos + 1` at the edge of the integer range is not modelled.
- Grids.Occupant and Path.Successors read the undefined `Grid::get` in two ways that disagree on a `Blocked` cell. `Occupant` gives none for it, the reading `choose_gem` needs (src/towers.rs:213). The route filter treats every key of the map as taken (src/path.rs:15). The model does not decide which reading the missing `get` has. Path.ResolvedRouteAvoidsObstacles relies on the route reading; under the `Occupant` reading a blocked cell would count as free for routing.
- Diamond.Volley, Diamond.VolleyAsWritten and Diamond.SapphireFiresTwice: one `cooldownDone` flag per gem stands for two timers. The diamond system ticks the gem's own `cooldown` (src/towers/diamond.rs:23-26). The per-type systems tick the tower `Cooldown` (src/towers.rs:328-334). The two are not tied together, so a Sapphire fires from both systems on the same tick only when both timers finish on it.
- Buffs.Apply: the `Added<AttackSpeed>` filter is the parameter `added`, and the model does not derive it from the aura passes. An aura pass that inserts a buff on a tower already holding one replaces the value, but the engine marks that component as changed, not added. The replacing buff is therefore never added to the speed stat. Buffs.EachBuffAppliedOnce holds relative to the `added` maps passed in.
- Towers.BuildGem: the entity spawned for the k-th hole is numbered `next + k`. The engine's entity allocator is not modelled, only freshness within the batch.

## Findings

| source | as written | input that shows it | evidently intended | confidence | as-written member | corrected member |
|---|---|---|---|---|---|---|
| src/towers/diamond.rs:42 | the minimal squared distance is compared with `range * 2.0` | range 8 with a creep at distance 5 (25 ≥ 16): the gem holds fire although the creep is in range; range 1 with a creep at distance 1.2 (1.44 < 2): it fires beyond its range | compare with range², as `get_closest_creep_within_range` does with `range.powf(2.0)` (src/towers.rs:362) | high, not executed | Diamond.AttackAsWritten | Diamond.Attack |
