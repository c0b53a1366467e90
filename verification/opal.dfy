/** src/towers/opal.rs: the Opal stat table, whose towers carry an
    attack-speed aura, and its attack system. */
module Opal {
  import opened Common
  import opened Auras
  import opened Stats
  import opened Targeting
  import opened Projectiles
  import opened Attacks

  /** `tower`: the Opal table. Fixed damage, no on-hit ability, and one
      attack-speed aura reaching exactly as far as the tower itself. */
  function Tower(q: Quality): (r: TowerBundle)
    ensures WellFormed(r)
    ensures r.damage.Fixed?
    ensures r.speed == StandardSpeed(q)
    ensures r.abilities == []
    ensures |r.auras| == 1 && r.auras[0].range == r.range
    ensures r.auras[0].kind.AttackSpeed? && 0.0 < r.auras[0].kind.val
  {
    match q
    case Chipped => Bundle(Fixed(5), BASE_TOWER_SPEED - 0.2, 6.0, [], [Aura(6.0, AttackSpeed(0.1))])
    case Flawed => Bundle(Fixed(10), BASE_TOWER_SPEED, 7.0, [], [Aura(7.0, AttackSpeed(0.15))])
    case Normal => Bundle(Fixed(20), BASE_TOWER_SPEED, 8.0, [], [Aura(8.0, AttackSpeed(0.2))])
    case Flawless => Bundle(Fixed(40), BASE_TOWER_SPEED, 9.0, [], [Aura(9.0, AttackSpeed(0.25))])
    case Perfect => Bundle(Fixed(85), BASE_TOWER_SPEED, 10.0, [], [Aura(10.0, AttackSpeed(0.35))])
  }

  /** A better Opal hits harder, reaches strictly farther and grants a
      strictly larger attack-speed buff. */
  lemma TableGraded()
    ensures Graded(Tower)
    ensures forall q1, q2 :: Rank(q1) < Rank(q2) ==> Tower(q1).range < Tower(q2).range
    ensures forall q1, q2 :: Rank(q1) < Rank(q2) ==> Tower(q1).auras[0].kind.val < Tower(q2).auras[0].kind.val
  {
  }

  /** `attack`: each ready Opal fires at most one projectile, at the closest
      creep of any type strictly within range. */
  function Attack(gems: seq<Shooter>, cs: seq<CreepView>): (r: seq<Projectile>)
    ensures |r| <= Ready(Opal, gems)
    ensures forall p :: p in r <==> Launched(Opal, None, gems, cs, p)
  {
    Volley(Opal, None, gems, cs)
  }
}
