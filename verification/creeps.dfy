/** Creep spawning and waypoint following (src/creeps.rs). The engine timer
    is reduced to whether it finished on this tick, and the per-tick step
    toward the next waypoint (a normalised f32 vector) to the position it
    produced; the arrival test on that position is modelled exactly. */
module Creeps {
  import opened Common
  import opened Geometry
  import opened Grids

  /** `creeps::Type`: decides which towers may target a creep. */
  datatype CreepKind = Ground | Flying

  /** How many creeps one spawner releases. */
  const SPAWN_AMOUNT: u32 := 20
  /** Life of a freshly spawned creep. */
  const CREEP_LIFE: u64 := 20
  /** Seconds between two spawns. */
  const SPAWN_PERIOD: real := 1.0
  const SPAWNER_POSITION: Vec3 := Vec3(-20.0, 0.0, 2.0)
  /** How close, on x and on z, a creep must come to a waypoint to reach it. */
  const ARRIVAL_TOLERANCE: real := 0.05

  /** An engine timer's configuration: its period and whether it repeats. */
  datatype Timer = Timer(duration: real, repeating: bool)

  datatype Spawner = Spawner(amount: u32, timer: Timer, position: Vec3)

  /** `Creep`: its life, the waypoints it follows and the index of the next one. */
  datatype Creep = Creep(life: u64, route: seq<Cell>, destination: nat)

  /** A creep entity as spawned: the component and where it appears. */
  datatype Spawned = Spawned(creep: Creep, position: Vec3)

  /** `start_spawn`. */
  function StartSpawn(): (s: Spawner)
    ensures s.amount == SPAWN_AMOUNT && s.amount >= 1
    ensures s.timer == Timer(SPAWN_PERIOD, true)
  {
    Spawner(SPAWN_AMOUNT, Timer(SPAWN_PERIOD, true), SPAWNER_POSITION)
  }

  /** The result of one `spawn` tick for one spawner: the spawner if it is
      still alive, and the creep released on this tick if any. */
  datatype SpawnTick = SpawnTick(spawner: Option<Spawner>, spawned: Option<Spawned>)

  /** `spawn` for one spawner. A live spawner always has something left to
      release: it is created with 20 and despawned when the count hits 0. */
  function Spawn(s: Spawner, justFinished: bool, route: seq<Cell>): (r: SpawnTick)
    requires s.amount >= 1
    ensures !justFinished ==> r == SpawnTick(Some(s), None)
    ensures justFinished ==> r.spawned == Some(Spawned(Creep(CREEP_LIFE, route, 0), s.position))
    ensures justFinished ==> (r.spawner.None? <==> s.amount == 1)
    ensures r.spawner.Some? ==> r.spawner.value.amount >= 1
    ensures r.spawner.Some? ==> r.spawner.value == s.(amount := s.amount - (if justFinished then 1 else 0))
  {
    if !justFinished then SpawnTick(Some(s), None)
    else
      var creep := Spawned(Creep(CREEP_LIFE, route, 0), s.position);
      var left := s.amount - 1;
      if left == 0 then SpawnTick(None, Some(creep))
      else SpawnTick(Some(s.(amount := left)), Some(creep))
  }

  function CountTrue(ticks: seq<bool>): (n: nat)
    ensures n <= |ticks|
  {
    if |ticks| == 0 then 0 else (if ticks[0] then 1 else 0) + CountTrue(ticks[1..])
  }

  datatype SpawnRun = SpawnRun(spawner: Option<Spawner>, spawned: seq<Spawned>)

  /** Several ticks of `spawn`; `ticks[k]` says whether the timer finished on
      tick k. A despawned spawner releases nothing more. */
  function RunSpawner(s: Option<Spawner>, ticks: seq<bool>, route: seq<Cell>): SpawnRun
    requires s.Some? ==> s.value.amount >= 1
    decreases |ticks|
  {
    if |ticks| == 0 || s.None? then SpawnRun(s, [])
    else
      var t := Spawn(s.value, ticks[0], route);
      var rest := RunSpawner(t.spawner, ticks[1..], route);
      SpawnRun(rest.spawner, (if t.spawned.Some? then [t.spawned.value] else []) + rest.spawned)
  }

  /** A spawner holding `amount` releases one creep per finished tick until
      `amount` creeps are out, and is gone exactly when that happens. */
  lemma {:induction false} SpawnerReleasesAtMostAmount(s: Spawner, ticks: seq<bool>, route: seq<Cell>)
    requires s.amount >= 1
    ensures var run := RunSpawner(Some(s), ticks, route);
      && |run.spawned| == (if CountTrue(ticks) < s.amount then CountTrue(ticks) else s.amount)
      && (run.spawner.None? <==> CountTrue(ticks) >= s.amount)
      && (run.spawner.Some? ==> run.spawner.value.amount == s.amount - CountTrue(ticks))
      && forall k :: 0 <= k < |run.spawned| ==> run.spawned[k] == Spawned(Creep(CREEP_LIFE, route, 0), s.position)
    decreases |ticks|
  {
    if |ticks| > 0 {
      var t := Spawn(s, ticks[0], route);
      if t.spawner.Some? {
        SpawnerReleasesAtMostAmount(t.spawner.value, ticks[1..], route);
      } else {
        assert CountTrue(ticks) >= 1;
      }
    }
  }

  /** The spawner started by `start_spawn` yields exactly 20 creeps once its
      timer has finished 20 times, and is then despawned. */
  lemma TwentyCreepsPerSpawner(ticks: seq<bool>, route: seq<Cell>)
    requires CountTrue(ticks) >= 20
    ensures |RunSpawner(Some(StartSpawn()), ticks, route).spawned| == 20
    ensures RunSpawner(Some(StartSpawn()), ticks, route).spawner.None?
  {
    SpawnerReleasesAtMostAmount(StartSpawn(), ticks, route);
  }

  /** The arrival test of `moving`, on the position after this tick's step. */
  predicate Arrived(pos: Vec3, dest: Cell)
  {
    Abs(pos.x - dest.0 as real) <= ARRIVAL_TOLERANCE && Abs(pos.z - dest.1 as real) <= ARRIVAL_TOLERANCE
  }

  /** What `moving` does to one creep: it keeps walking, or it has no
      waypoint left and leaks (and is despawned). */
  datatype Step = Walking(creep: Creep) | Leaked(creep: Creep)

  /** `moving` for one creep; `moved` is where this tick's step put it. */
  function Moving(c: Creep, moved: Vec3): (r: Step)
    ensures r.Leaked? <==> c.destination >= |c.route|
    ensures r.Leaked? ==> r.creep == c
    ensures r.creep.life == c.life && r.creep.route == c.route
    ensures r.Walking? ==> r.creep.destination <= |c.route|
    ensures r.Walking? && Arrived(moved, c.route[c.destination]) ==> r.creep.destination == c.destination + 1
    ensures r.Walking? && !Arrived(moved, c.route[c.destination]) ==> r.creep.destination == c.destination
  {
    if c.destination < |c.route| then
      if Arrived(moved, c.route[c.destination]) then Walking(c.(destination := c.destination + 1))
      else Walking(c)
    else Leaked(c)
  }

  /** Several ticks of `moving`; `moves[k]` is the position after tick k's
      step. Stops when the creep leaks. */
  function RunMoving(c: Creep, moves: seq<Vec3>): Step
    decreases |moves|
  {
    if |moves| == 0 then Walking(c)
    else match Moving(c, moves[0])
      case Leaked(l) => Leaked(l)
      case Walking(w) => RunMoving(w, moves[1..])
  }

  /** Over any number of ticks the destination index only grows, by at most
      one per tick, never passes the end of the route, life and route stay as
      they were, and a creep that started on its route leaks only after
      having reached every waypoint. */
  lemma {:induction false} WalkKeepsRouteInvariant(c: Creep, moves: seq<Vec3>)
    requires c.destination <= |c.route|
    ensures var r := RunMoving(c, moves);
      && r.creep.life == c.life && r.creep.route == c.route
      && c.destination <= r.creep.destination <= |c.route|
      && r.creep.destination <= c.destination + |moves|
      && (r.Leaked? ==> r.creep.destination == |c.route|)
    decreases |moves|
  {
    if |moves| > 0 {
      match Moving(c, moves[0])
      case Leaked(l) =>
      case Walking(w) => WalkKeepsRouteInvariant(w, moves[1..]);
    }
  }

  /** A creep with waypoints left whose move ends within the arrival
      tolerance of the next one advances by one, and nothing else about it
      changes. */
  lemma ArrivingAdvances(c: Creep, moved: Vec3)
    requires c.destination < |c.route|
    requires Arrived(moved, c.route[c.destination])
    ensures Moving(c, moved) == Walking(c.(destination := c.destination + 1))
  {
  }
}
