/** src/towers/amethyst.rs: the Amethyst stat table and its anti-air attack
    system. */
module Amethyst {
  import opened Common
  import opened Creeps
  import opened Stats
  import opened Targeting
  import opened Projectiles
  import opened Attacks

  /** `tower`: the Amethyst table. It names no ability, aura or target, which
      the superset bundle fills with empty lists and no target. */
  function Tower(q: Quality): (r: TowerBundle)
    ensures WellFormed(r)
    ensures r.speed == StandardSpeed(q)
    ensures r.abilities == [] && r.auras == []
  {
    match q
    case Chipped => Bundle(Range(10, 15), BASE_TOWER_SPEED - 0.2, 10.0, [], [])
    case Flawed => Bundle(Range(20, 27), BASE_TOWER_SPEED, 12.0, [], [])
    case Normal => Bundle(Range(30, 45), BASE_TOWER_SPEED, 13.0, [], [])
    case Flawless => Bundle(Range(60, 80), BASE_TOWER_SPEED, 13.5, [], [])
    case Perfect => Bundle(Range(140, 170), BASE_TOWER_SPEED, 16.0, [], [])
  }

  /** A better Amethyst hits harder and reaches strictly farther. */
  lemma TableGraded()
    ensures Graded(Tower)
    ensures forall q1, q2 :: Rank(q1) < Rank(q2) ==> Tower(q1).range < Tower(q2).range
  {
  }

  /** `attack`: each ready Amethyst fires at most one projectile, at the
      closest flying creep strictly within range; ground creeps are never
      chosen. */
  function Attack(gems: seq<Shooter>, cs: seq<CreepView>): (r: seq<Projectile>)
    ensures |r| <= Ready(Amethyst, gems)
    ensures forall p :: p in r <==> Launched(Amethyst, Some(CreepKind.Flying), gems, cs, p)
    ensures forall p :: p in r ==> exists k :: 0 <= k < |cs| && cs[k].id == p.target && cs[k].kind == CreepKind.Flying
  {
    Volley(Amethyst, Some(CreepKind.Flying), gems, cs)
  }

  /** With only ground creeps about, no Amethyst fires. */
  lemma GroundOnlyIsIgnored(gems: seq<Shooter>, cs: seq<CreepView>)
    requires forall k :: 0 <= k < |cs| ==> cs[k].kind == Ground
    ensures forall p :: p !in Attack(gems, cs)
  {
  }
}
