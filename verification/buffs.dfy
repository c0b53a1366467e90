/** `AttackSpeed::apply` (src/buffs.rs): a newly added attack-speed buff is
    added onto the tower's `AttackSpeed` stat. Which buff components count as
    newly added since the last run is the engine's change detection and is
    passed in. */
module Buffs {
  import opened Common
  import opened Stats

  /** The `towers::AttackSpeed` stat of each tower. */
  type StatMap = map<Entity, real>

  /** One run of `AttackSpeed::apply`; `added` holds the buff values of the
      components added since the previous run. */
  function Apply(stats: StatMap, added: map<Entity, real>): (r: StatMap)
    ensures r.Keys == stats.Keys
    ensures forall e :: e in stats && e in added ==> r[e] == stats[e] + added[e]
    ensures forall e :: e in stats && e !in added ==> r[e] == stats[e]
  {
    map e | e in stats :: if e in added then stats[e] + added[e] else stats[e]
  }

  /** Successive runs; `added[k]` is what run k sees as newly added. */
  function RunApply(stats: StatMap, added: seq<map<Entity, real>>): StatMap
    decreases |added|
  {
    if |added| == 0 then stats else RunApply(Apply(stats, added[0]), added[1..])
  }

  /** The sum of the buffs ever added to `e`. */
  function TotalBuff(e: Entity, added: seq<map<Entity, real>>): real
    decreases |added|
  {
    if |added| == 0 then 0.0
    else (if e in added[0] then added[0][e] else 0.0) + TotalBuff(e, added[1..])
  }

  /** Each addition is applied exactly once: after any number of runs a
      tower's stat is its starting stat plus every buff added to it. */
  lemma {:induction false} EachBuffAppliedOnce(stats: StatMap, added: seq<map<Entity, real>>)
    ensures RunApply(stats, added).Keys == stats.Keys
    ensures forall e :: e in stats ==> RunApply(stats, added)[e] == stats[e] + TotalBuff(e, added)
    decreases |added|
  {
    if |added| > 0 {
      EachBuffAppliedOnce(Apply(stats, added[0]), added[1..]);
    }
  }

  /** A run that finds nothing newly added changes nothing. */
  lemma NothingAddedNothingChanges(stats: StatMap)
    ensures Apply(stats, map[]) == stats
  {
  }

  /** The stat is a cooldown period multiplier, so a positive buff makes the
      tower's cooldown longer, i.e. the tower slower. */
  lemma PositiveBuffLengthensCooldown(stats: StatMap, added: map<Entity, real>, e: Entity)
    requires e in stats && e in added && added[e] > 0.0
    ensures CooldownDuration(Apply(stats, added)[e]) > CooldownDuration(stats[e])
  {
  }
}
