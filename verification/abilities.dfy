/** On-hit abilities (src/abilities/on_hit.rs). The random roll
    `gen_range(0..100)` is a parameter. */
module Abilities {
  import opened Common

  /** The effect a splash carries. */
  datatype SplashEffect = Multiplier(multiplier: real)

  /** `OnHit`: every variant any gem table uses. Only `MultiplyDamage` changes
      the damage of the hit itself. */
  datatype OnHit =
    | MultiplyDamage(chance: u32, multiplier: u64)
    | Splash(effect: SplashEffect, radius: real)
    | SapphireSlow(amount: u32)

  /** Rolls are drawn from [0, ROLL_BOUND). */
  const ROLL_BOUND: nat := 100

  /** The multiplier takes effect: the roll is at most the chance, inclusive. */
  predicate Fires(a: OnHit, roll: nat)
  {
    a.MultiplyDamage? && roll <= a.chance
  }

  /** `OnHit::apply` on the running damage of one hit. The u64 product must
      not overflow (Rust would panic or wrap). */
  function Apply(a: OnHit, damage: u64, roll: nat): (r: u64)
    requires roll < ROLL_BOUND
    requires Fires(a, roll) ==> damage * a.multiplier <= U64_MAX
    ensures Fires(a, roll) ==> r == damage * a.multiplier
    ensures !Fires(a, roll) ==> r == damage
  {
    match a
    case MultiplyDamage(chance, multiplier) =>
      if roll <= chance then damage * multiplier else damage
    case Splash(_, _) => damage
    case SapphireSlow(_) => damage
  }

  /** A roll equal to the chance still fires. */
  lemma ChanceIsInclusive(chance: u32, multiplier: u64, damage: u64)
    requires chance < ROLL_BOUND
    requires damage * multiplier <= U64_MAX
    ensures Apply(MultiplyDamage(chance, multiplier), damage, chance) == damage * multiplier
  {
  }

  /** A chance of 99 or more fires on every roll. */
  lemma HighChanceAlwaysFires(chance: u32, multiplier: u64, damage: u64, roll: nat)
    requires chance >= 99 && roll < ROLL_BOUND
    requires damage * multiplier <= U64_MAX
    ensures Apply(MultiplyDamage(chance, multiplier), damage, roll) == damage * multiplier
  {
  }

  /** With a multiplier of at least 1 damage never drops; a multiplier of 1
      changes nothing. */
  lemma {:induction false} NeverDecreases(a: OnHit, damage: u64, roll: nat)
    requires roll < ROLL_BOUND
    requires Fires(a, roll) ==> damage * a.multiplier <= U64_MAX
    requires a.MultiplyDamage? ==> a.multiplier >= 1
    ensures Apply(a, damage, roll) >= damage
    ensures a.MultiplyDamage? && a.multiplier == 1 ==> Apply(a, damage, roll) == damage
  {
    if Fires(a, roll) {
      MultiplyAtLeastOne(damage, a.multiplier);
    }
  }

  lemma MultiplyAtLeastOne(d: nat, m: nat)
    requires m >= 1
    ensures d * m >= d
  {
    assert d * m == d + d * (m - 1);
  }

  /** How many of the rolls 0 .. n-1 fire. */
  function FiringRolls(a: OnHit, n: nat): nat
  {
    if n == 0 then 0 else FiringRolls(a, n - 1) + (if Fires(a, n - 1) then 1 else 0)
  }

  /** Because the test is inclusive, `chance` fires on chance+1 of the 100
      equally likely rolls (capped at 100), not on `chance` of them. */
  lemma {:induction false} FiringOdds(chance: u32, multiplier: u64, n: nat)
    ensures FiringRolls(MultiplyDamage(chance, multiplier), n) == (if chance + 1 < n then chance + 1 else n)
  {
    if n > 0 {
      FiringOdds(chance, multiplier, n - 1);
    }
  }
}
