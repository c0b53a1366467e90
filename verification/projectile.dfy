/** Projectiles (src/towers.rs `Projectile`, `move_projectile`). The step
    toward the target (a normalised f32 vector scaled by the frame time) is
    abstracted to the position it produced; the arrival test is exact. */
module Projectiles {
  import opened Common
  import opened Geometry

  datatype Projectile = Projectile(origin: Entity, target: Entity)

  /** The `ProjectileHit` event. */
  datatype ProjectileHit = ProjectileHit(projectile: Projectile)

  /** How close, on x and on z, a projectile must come to its target to hit. */
  const HIT_TOLERANCE: real := 0.05

  predicate Reached(pos: Vec3, target: Vec3)
  {
    Abs(target.x - pos.x) <= HIT_TOLERANCE && Abs(target.z - pos.z) <= HIT_TOLERANCE
  }

  /** A projectile entity in flight, with the position this tick's step
      moves it to. */
  datatype Flying = Flying(projectile: Projectile, pos: Vec3, moved: Vec3)

  /** What happens to one projectile on one tick. */
  datatype Fate = Continues(f: Flying) | Despawned(hit: Option<ProjectileHit>)

  /** `move_projectile` for one projectile; `targetPos` is the target's
      transform if the target still exists. */
  function MoveProjectile(f: Flying, targetPos: Option<Vec3>): (r: Fate)
    ensures targetPos.None? ==> r == Despawned(None)
    ensures targetPos.Some? && Reached(f.moved, targetPos.value) ==> r == Despawned(Some(ProjectileHit(f.projectile)))
    ensures targetPos.Some? && !Reached(f.moved, targetPos.value) ==> r.Continues? && r.f.pos == f.moved
                                                                      && r.f.projectile == f.projectile
  {
    match targetPos
    case None => Despawned(None)
    case Some(t) =>
      if Reached(f.moved, t) then Despawned(Some(ProjectileHit(f.projectile)))
      else Continues(Flying(f.projectile, f.moved, f.moved))
  }

  /** One tick of `move_projectile` over all projectiles. */
  datatype Tick = Tick(flying: seq<Flying>, hits: seq<ProjectileHit>)

  /** The projectile's target still exists and this tick's step reaches it. */
  predicate HitsNow(f: Flying, positions: map<Entity, Vec3>)
  {
    f.projectile.target in positions && Reached(f.moved, positions[f.projectile.target])
  }

  /** Some projectile of `fs` equal to `p` hits on this tick. */
  ghost predicate Hits(fs: seq<Flying>, positions: map<Entity, Vec3>, p: Projectile)
  {
    exists i :: 0 <= i < |fs| && fs[i].projectile == p && HitsNow(fs[i], positions)
  }

  /** `positions` holds the transform of every entity that still exists. */
  function MoveAll(fs: seq<Flying>, positions: map<Entity, Vec3>): (r: Tick)
    ensures |r.flying| + |r.hits| <= |fs|
    ensures forall h :: h in r.hits ==> Hits(fs, positions, h.projectile)
    ensures forall i :: 0 <= i < |fs| && HitsNow(fs[i], positions) ==> ProjectileHit(fs[i].projectile) in r.hits
    ensures forall g :: g in r.flying ==>
      exists i :: 0 <= i < |fs| && g.projectile == fs[i].projectile && fs[i].projectile.target in positions && g.pos == fs[i].moved
    ensures forall i :: 0 <= i < |fs| && fs[i].projectile.target in positions && !HitsNow(fs[i], positions) ==>
      Flying(fs[i].projectile, fs[i].moved, fs[i].moved) in r.flying
    decreases |fs|
  {
    if |fs| == 0 then Tick([], [])
    else
      var rest := MoveAll(fs[1..], positions);
      assert forall i :: 0 < i < |fs| ==> fs[i] == fs[1..][i - 1];
      var target := fs[0].projectile.target;
      match MoveProjectile(fs[0], if target in positions then Some(positions[target]) else None)
      case Despawned(None) => rest
      case Despawned(Some(h)) => Tick(rest.flying, [h] + rest.hits)
      case Continues(g) => Tick([g] + rest.flying, rest.hits)
  }

  /** The tick handles the projectiles one at a time in query order: the
      tick over two runs of projectiles is the ticks over each, appended. */
  lemma {:induction false} MoveAllAppend(xs: seq<Flying>, ys: seq<Flying>, positions: map<Entity, Vec3>)
    ensures MoveAll(xs + ys, positions)
         == Tick(MoveAll(xs, positions).flying + MoveAll(ys, positions).flying,
                 MoveAll(xs, positions).hits + MoveAll(ys, positions).hits)
    decreases |xs|
  {
    if |xs| == 0 {
      assert xs + ys == ys;
    } else {
      assert (xs + ys)[0] == xs[0];
      assert (xs + ys)[1..] == xs[1..] + ys;
      MoveAllCons(xs + ys, positions);
      MoveAllCons(xs, positions);
      MoveAllAppend(xs[1..], ys, positions);
      RecordJoin(FateOf(xs[0], positions), MoveAll(xs[1..], positions), MoveAll(ys, positions));
    }
  }

  /** The fate of one projectile this tick, its target looked up in
      `positions`. */
  function FateOf(f: Flying, positions: map<Entity, Vec3>): Fate
  {
    var t := f.projectile.target;
    MoveProjectile(f, if t in positions then Some(positions[t]) else None)
  }

  /** Adds one projectile's fate in front of a tick's results. */
  function Record(x: Fate, t: Tick): Tick
  {
    match x
    case Despawned(None) => t
    case Despawned(Some(h)) => Tick(t.flying, [h] + t.hits)
    case Continues(g) => Tick([g] + t.flying, t.hits)
  }

  /** The tick over a non-empty query records the first projectile's fate
      in front of the tick over the rest. */
  lemma MoveAllCons(fs: seq<Flying>, positions: map<Entity, Vec3>)
    requires |fs| > 0
    ensures MoveAll(fs, positions) == Record(FateOf(fs[0], positions), MoveAll(fs[1..], positions))
  {
  }

  /** Recording a fate in front of two appended ticks records it in front of
      the first. */
  lemma RecordJoin(x: Fate, a: Tick, b: Tick)
    ensures Record(x, Tick(a.flying + b.flying, a.hits + b.hits))
         == Tick(Record(x, a).flying + b.flying, Record(x, a).hits + b.hits)
  {
    match x
    case Despawned(None) =>
    case Despawned(Some(h)) =>
      assert [h] + (a.hits + b.hits) == ([h] + a.hits) + b.hits;
    case Continues(g) =>
      assert [g] + (a.flying + b.flying) == ([g] + a.flying) + b.flying;
  }

  /** The tick over one projectile is `move_projectile` on it, with the
      target's transform looked up in `positions`. */
  lemma MoveOne(f: Flying, positions: map<Entity, Vec3>)
    ensures var t := f.projectile.target;
      MoveAll([f], positions) == match MoveProjectile(f, if t in positions then Some(positions[t]) else None)
        case Continues(g) => Tick([g], [])
        case Despawned(None) => Tick([], [])
        case Despawned(Some(h)) => Tick([], [h])
  {
    assert [f][1..] == [];
  }

  /** A projectile whose target is gone produces no hit on this tick or any
      later one: it is despawned at once. */
  lemma StaleTargetNoHit(f: Flying, positions: map<Entity, Vec3>)
    requires f.projectile.target !in positions
    ensures MoveAll([f], positions) == Tick([], [])
  {
  }
}
