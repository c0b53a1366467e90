/** src/towers/topaz.rs: the Topaz stat table and its attack system. */
module Topaz {
  import opened Common
  import opened Stats
  import opened Targeting
  import opened Projectiles
  import opened Attacks

  /** `tower`: the Topaz table. Fixed damage at a constant reach, with no
      ability or aura attached. */
  function Tower(q: Quality): (r: TowerBundle)
    ensures WellFormed(r)
    ensures r.damage.Fixed?
    ensures r.speed == StandardSpeed(q)
    ensures r.range == 5.0
    ensures r.abilities == [] && r.auras == []
  {
    match q
    case Chipped => Bundle(Fixed(4), BASE_TOWER_SPEED - 0.2, 5.0, [], [])
    case Flawed => Bundle(Fixed(8), BASE_TOWER_SPEED, 5.0, [], [])
    case Normal => Bundle(Fixed(14), BASE_TOWER_SPEED, 5.0, [], [])
    case Flawless => Bundle(Fixed(25), BASE_TOWER_SPEED, 5.0, [], [])
    case Perfect => Bundle(Fixed(75), BASE_TOWER_SPEED, 5.0, [], [])
  }

  /** A better Topaz hits harder, at the same reach. */
  lemma TableGraded()
    ensures Graded(Tower)
  {
  }

  /** `attack`: each ready Topaz fires at most one projectile, at the closest
      creep of any type strictly within range. */
  function Attack(gems: seq<Shooter>, cs: seq<CreepView>): (r: seq<Projectile>)
    ensures |r| <= Ready(Topaz, gems)
    ensures forall p :: p in r <==> Launched(Topaz, None, gems, cs, p)
  {
    Volley(Topaz, None, gems, cs)
  }
}
