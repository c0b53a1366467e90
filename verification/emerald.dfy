/** src/towers/emerald.rs: the Emerald stat table and its attack system. */
module Emerald {
  import opened Common
  import opened Stats
  import opened Targeting
  import opened Projectiles
  import opened Attacks

  /** `tower`: the Emerald table, with no ability or aura attached. */
  function Tower(q: Quality): (r: TowerBundle)
    ensures WellFormed(r)
    ensures r.speed == StandardSpeed(q)
    ensures r.abilities == [] && r.auras == []
  {
    match q
    case Chipped => Bundle(Range(4, 7), BASE_TOWER_SPEED - 0.2, 5.0, [], [])
    case Flawed => Bundle(Range(10, 13), BASE_TOWER_SPEED, 5.5, [], [])
    case Normal => Bundle(Range(15, 25), BASE_TOWER_SPEED, 6.0, [], [])
    case Flawless => Bundle(Range(30, 37), BASE_TOWER_SPEED, 7.0, [], [])
    case Perfect => Bundle(Range(80, 95), BASE_TOWER_SPEED, 7.0, [], [])
  }

  /** A better Emerald hits harder; its reach never shrinks, and the top two
      qualities reach equally far. */
  lemma TableGraded()
    ensures Graded(Tower)
    ensures Tower(Flawless).range == Tower(Perfect).range
  {
  }

  /** `attack`: each ready Emerald fires at most one projectile, at the
      closest creep of any type strictly within range. */
  function Attack(gems: seq<Shooter>, cs: seq<CreepView>): (r: seq<Projectile>)
    ensures |r| <= Ready(Emerald, gems)
    ensures forall p :: p in r <==> Launched(Emerald, None, gems, cs, p)
  {
    Volley(Emerald, None, gems, cs)
  }
}
