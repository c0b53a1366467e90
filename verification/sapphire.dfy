/** src/towers/sapphire.rs: the Sapphire stat table, its attack system and
    the expiry of the `Slowed` effect its hits apply. */
module Sapphire {
  import opened Common
  import opened Abilities
  import opened Stats
  import opened Targeting
  import opened Projectiles
  import opened Attacks

  /** `tower`: the Sapphire table. Every quality carries one slowing ability. */
  function Tower(q: Quality): (r: TowerBundle)
    ensures WellFormed(r)
    ensures r.speed == StandardSpeed(q)
    ensures r.auras == []
    ensures |r.abilities| == 1 && r.abilities[0].SapphireSlow?
    ensures 20 <= r.abilities[0].amount <= 40
  {
    match q
    case Chipped => Bundle(Range(5, 8), BASE_TOWER_SPEED - 0.2, 5.5, [SapphireSlow(20)], [])
    case Flawed => Bundle(Range(10, 14), BASE_TOWER_SPEED, 7.5, [SapphireSlow(25)], [])
    case Normal => Bundle(Range(16, 22), BASE_TOWER_SPEED, 8.0, [SapphireSlow(30)], [])
    case Flawless => Bundle(Range(30, 40), BASE_TOWER_SPEED, 8.5, [SapphireSlow(35)], [])
    case Perfect => Bundle(Range(60, 80), BASE_TOWER_SPEED, 14.0, [SapphireSlow(40)], [])
  }

  /** A better Sapphire hits harder, reaches strictly farther and slows more. */
  lemma TableGraded()
    ensures Graded(Tower)
    ensures forall q1, q2 :: Rank(q1) < Rank(q2) ==> Tower(q1).range < Tower(q2).range
    ensures forall q1, q2 :: Rank(q1) < Rank(q2) ==> Tower(q1).abilities[0].amount < Tower(q2).abilities[0].amount
  {
  }

  /** `attack`: each ready Sapphire fires at most one projectile, at the
      closest creep of any type strictly within range. */
  function Attack(gems: seq<Shooter>, cs: seq<CreepView>): (r: seq<Projectile>)
    ensures |r| <= Ready(Sapphire, gems)
    ensures forall p :: p in r <==> Launched(Sapphire, None, gems, cs, p)
  {
    Volley(Sapphire, None, gems, cs)
  }

  /** The `Slowed` component: the slow amount; its timer is reduced to whether
      it finished on a given tick. */
  datatype Slowed = Slowed(amount: u32)

  /** `Slowed::system` for one tick: creeps whose slow timer just finished
      lose `Slowed`; every other slowed creep keeps it as it was. */
  function Expire(slowed: map<Entity, Slowed>, finished: set<Entity>): (r: map<Entity, Slowed>)
    ensures forall e :: e in r <==> e in slowed && e !in finished
    ensures forall e :: e in r ==> r[e] == slowed[e]
  {
    map e | e in slowed && e !in finished :: slowed[e]
  }

  /** Running the expiry system over consecutive ticks. */
  function RunExpire(slowed: map<Entity, Slowed>, ticks: seq<set<Entity>>): map<Entity, Slowed>
    decreases |ticks|
  {
    if |ticks| == 0 then slowed else RunExpire(Expire(slowed, ticks[0]), ticks[1..])
  }

  /** A slow lasts exactly until the first tick its timer finishes, and its
      amount never changes while it lasts. */
  lemma {:induction false} SlowLastsUntilExpiry(slowed: map<Entity, Slowed>, ticks: seq<set<Entity>>, e: Entity)
    ensures e in RunExpire(slowed, ticks) <==> e in slowed && forall t :: 0 <= t < |ticks| ==> e !in ticks[t]
    ensures e in RunExpire(slowed, ticks) ==> RunExpire(slowed, ticks)[e] == slowed[e]
    decreases |ticks|
  {
    if |ticks| > 0 {
      SlowLastsUntilExpiry(Expire(slowed, ticks[0]), ticks[1..], e);
      assert forall t :: 0 < t < |ticks| ==> ticks[t] == ticks[1..][t - 1];
    }
  }
}
