/** src/towers/aquamarine.rs: the Aquamarine stat table and its attack
    system. */
module Aquamarine {
  import opened Common
  import opened Stats
  import opened Targeting
  import opened Projectiles
  import opened Attacks

  /** `tower`: the Aquamarine table. Short reach, but a cooldown half the
      base period at every quality, and nothing else attached. */
  function Tower(q: Quality): (r: TowerBundle)
    ensures WellFormed(r)
    ensures r.speed == BASE_TOWER_SPEED / 2.0
    ensures r.range < 6.0
    ensures r.abilities == [] && r.auras == []
  {
    match q
    case Chipped => Bundle(Range(6, 8), BASE_TOWER_SPEED / 2.0, 3.5, [], [])
    case Flawed => Bundle(Range(12, 15), BASE_TOWER_SPEED / 2.0, 3.65, [], [])
    case Normal => Bundle(Range(24, 30), BASE_TOWER_SPEED / 2.0, 3.8, [], [])
    case Flawless => Bundle(Range(48, 55), BASE_TOWER_SPEED / 2.0, 4.0, [], [])
    case Perfect => Bundle(Range(100, 120), BASE_TOWER_SPEED / 2.0, 5.5, [], [])
  }

  /** A better Aquamarine hits harder and reaches strictly farther. */
  lemma TableGraded()
    ensures Graded(Tower)
    ensures forall q1, q2 :: Rank(q1) < Rank(q2) ==> Tower(q1).range < Tower(q2).range
  {
  }

  /** Every Aquamarine waits exactly half as long between shots as a
      base-speed tower. */
  lemma AttacksTwiceAsOften(q: Quality)
    ensures CooldownDuration(Tower(q).speed) * 2.0 == CooldownDuration(BASE_TOWER_SPEED)
  {
  }

  /** `attack`: each ready Aquamarine fires at most one projectile, at the
      closest creep of any type strictly within range. */
  function Attack(gems: seq<Shooter>, cs: seq<CreepView>): (r: seq<Projectile>)
    ensures |r| <= Ready(Aquamarine, gems)
    ensures forall p :: p in r <==> Launched(Aquamarine, None, gems, cs, p)
  {
    Volley(Aquamarine, None, gems, cs)
  }
}
