/** The single-target attack that each gem file under src/towers repeats in
    its `attack` system: skip gems of another type, skip gems whose cooldown has not
    finished, otherwise launch one projectile at the closest creep in range,
    if there is one. */
module Attacks {
  import opened Common
  import opened Geometry
  import opened Creeps
  import opened Targeting
  import opened Stats
  import opened Projectiles

  /** A row of the attack query `(Entity, &GlobalTransform, &Gem,
      &AttackSpeed, &Range, &mut Cooldown)`; `cooldownDone` is what ticking
      its cooldown, set to `CooldownDuration(speed)`, reported on this tick. */
  datatype Shooter = Shooter(id: Entity, pos: Vec3, gem: Gem, speed: real, range: real, cooldownDone: bool)

  /** One gem's turn in the attack system of gem type `kind`. */
  function Fire(kind: GemType, filter: Option<CreepKind>, g: Shooter, cs: seq<CreepView>): (r: Option<Projectile>)
    ensures r.Some? ==> g.gem.kind == kind && g.cooldownDone && r.value.origin == g.id
    ensures r.Some? ==> ClosestCreepWithinRange(cs, g.pos, g.range, filter) == Some(r.value.target)
    ensures r.None? <==> g.gem.kind != kind || !g.cooldownDone || ClosestCreepWithinRange(cs, g.pos, g.range, filter).None?
  {
    if g.gem.kind != kind then None
    else if !g.cooldownDone then None
    else match ClosestCreepWithinRange(cs, g.pos, g.range, filter)
      case Some(c) => Some(Projectile(g.id, c))
      case None => None
  }

  /** `p` is launched by some ready gem of type `kind` at the creep the
      closest-in-range search picks for it. */
  ghost predicate Launched(kind: GemType, filter: Option<CreepKind>, gems: seq<Shooter>, cs: seq<CreepView>, p: Projectile)
  {
    exists i :: 0 <= i < |gems| && gems[i].gem.kind == kind && gems[i].cooldownDone && p.origin == gems[i].id
             && ClosestCreepWithinRange(cs, gems[i].pos, gems[i].range, filter) == Some(p.target)
  }

  /** The gems of type `kind` whose cooldown finished on this tick. */
  function Ready(kind: GemType, gems: seq<Shooter>): nat
  {
    if |gems| == 0 then 0
    else (if gems[0].gem.kind == kind && gems[0].cooldownDone then 1 else 0) + Ready(kind, gems[1..])
  }

  /** The whole attack system for gem type `kind` on one tick. */
  function Volley(kind: GemType, filter: Option<CreepKind>, gems: seq<Shooter>, cs: seq<CreepView>): (r: seq<Projectile>)
    ensures |r| <= Ready(kind, gems)
    ensures forall p :: p in r <==> Launched(kind, filter, gems, cs, p)
    decreases |gems|
  {
    if |gems| == 0 then []
    else
      var rest := Volley(kind, filter, gems[1..], cs);
      assert forall i :: 0 < i < |gems| ==> gems[i] == gems[1..][i - 1];
      match Fire(kind, filter, gems[0], cs)
      case Some(p) => [p] + rest
      case None => rest
  }

  /** Projectiles come out in query order: attacking two runs of gems is
      attacking each and appending. */
  lemma {:induction false} VolleyAppend(kind: GemType, filter: Option<CreepKind>, gems1: seq<Shooter>, gems2: seq<Shooter>, cs: seq<CreepView>)
    ensures Volley(kind, filter, gems1 + gems2, cs) == Volley(kind, filter, gems1, cs) + Volley(kind, filter, gems2, cs)
    decreases |gems1|
  {
    if |gems1| > 0 {
      assert (gems1 + gems2)[1..] == gems1[1..] + gems2;
      VolleyAppend(kind, filter, gems1[1..], gems2, cs);
    } else {
      assert gems1 + gems2 == gems2;
    }
  }

  /** A lone gem fires at most once per tick. */
  lemma AtMostOnePerGem(kind: GemType, filter: Option<CreepKind>, g: Shooter, cs: seq<CreepView>)
    ensures |Volley(kind, filter, [g], cs)| <= 1
  {
    assert Ready(kind, [g]) <= 1;
  }
}
