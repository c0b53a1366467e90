/** src/towers/ruby.rs: the Ruby stat table and its attack system. */
module Ruby {
  import opened Common
  import opened Abilities
  import opened Stats
  import opened Targeting
  import opened Projectiles
  import opened Attacks

  /** `tower`: the Ruby table. Every quality splashes half damage around the
      hit; only the Perfect gem's splash reaches farther. */
  function Tower(q: Quality): (r: TowerBundle)
    ensures WellFormed(r)
    ensures r.speed == StandardSpeed(q)
    ensures r.range == 8.0
    ensures r.auras == []
    ensures r.abilities == [Splash(Multiplier(0.5), if q == Perfect then 3.5 else 3.0)]
  {
    match q
    case Chipped => Bundle(Range(8, 9), BASE_TOWER_SPEED - 0.2, 8.0, [Splash(Multiplier(0.5), 3.0)], [])
    case Flawed => Bundle(Range(13, 16), BASE_TOWER_SPEED, 8.0, [Splash(Multiplier(0.5), 3.0)], [])
    case Normal => Bundle(Range(20, 25), BASE_TOWER_SPEED, 8.0, [Splash(Multiplier(0.5), 3.0)], [])
    case Flawless => Bundle(Range(38, 45), BASE_TOWER_SPEED, 8.0, [Splash(Multiplier(0.5), 3.0)], [])
    case Perfect => Bundle(Range(80, 100), BASE_TOWER_SPEED, 8.0, [Splash(Multiplier(0.5), 3.5)], [])
  }

  /** A better Ruby always hits harder, at the same reach. */
  lemma TableGraded()
    ensures Graded(Tower)
    ensures forall q1, q2 :: Tower(q1).range == Tower(q2).range
  {
  }

  /** `attack`: each ready Ruby fires at most one projectile, at the closest
      creep of any type strictly within range. */
  function Attack(gems: seq<Shooter>, cs: seq<CreepView>): (r: seq<Projectile>)
    ensures |r| <= Ready(Ruby, gems)
    ensures forall p :: p in r <==> Launched(Ruby, None, gems, cs, p)
  {
    Volley(Ruby, None, gems, cs)
  }
}
