/** Gem identities and the stat bundle a gem's table yields (src/towers.rs).
    `TowerBundle` is the union of the fields the per-gem tables fill in; a
    table that leaves out abilities, auras or the target gets the empty
    list, the empty list and no target. */
module Stats {
  import opened Common
  import opened Abilities
  import opened Auras

  datatype Quality = Chipped | Flawed | Normal | Flawless | Perfect

  /** Position of a quality on the Chipped..Perfect scale. */
  function Rank(q: Quality): nat
  {
    match q
    case Chipped => 0
    case Flawed => 1
    case Normal => 2
    case Flawless => 3
    case Perfect => 4
  }

  datatype GemType = Diamond | Aquamarine | Ruby | Emerald | Sapphire | Topaz | Opal | Amethyst

  datatype Gem = Gem(quality: Quality, kind: GemType)

  /** `Damage`: an inclusive range rolled per hit, or a fixed amount. */
  datatype Damage = Range(low: u64, high: u64) | Fixed(value: u64)

  function Low(d: Damage): nat
  {
    if d.Range? then d.low else d.value
  }

  function High(d: Damage): nat
  {
    if d.Range? then d.high else d.value
  }

  /** Most towers attack once per second. */
  const BASE_TOWER_SPEED: real := 1.0

  /** Every table starts the cooldown as `Timer::from_seconds(1.0, true)`. */
  const INITIAL_COOLDOWN: real := 1.0

  /** The components a gem's table attaches to its tower. `speed` is the
      `AttackSpeed` stat: the cooldown period in seconds per unit. */
  datatype TowerBundle = TowerBundle(
    damage: Damage,
    speed: real,
    range: real,
    cooldown: real,
    abilities: seq<OnHit>,
    auras: seq<Aura>,
    target: Option<Entity>)

  /** A bundle as every table builds it: a fresh 1-second repeating
      cooldown and no target yet. */
  function Bundle(damage: Damage, speed: real, range: real, abilities: seq<OnHit>, auras: seq<Aura>): TowerBundle
  {
    TowerBundle(damage, speed, range, INITIAL_COOLDOWN, abilities, auras, None)
  }

  /** What every shown table respects: a non-empty damage range, a positive
      speed and range, the initial cooldown, no target, and auras of positive
      range. */
  predicate WellFormed(b: TowerBundle)
  {
    && Low(b.damage) <= High(b.damage)
    && 0.0 < b.speed
    && 0.0 < b.range
    && b.cooldown == INITIAL_COOLDOWN
    && b.target.None?
    && forall a :: a in b.auras ==> 0.0 < a.range
  }

  /** The attack-speed rule most tables follow: Chipped gems get
      `BASE_TOWER_SPEED - 0.2`, every other quality `BASE_TOWER_SPEED`. */
  function StandardSpeed(q: Quality): real
  {
    if q == Chipped then BASE_TOWER_SPEED - 0.2 else BASE_TOWER_SPEED
  }

  /** `hi` outclasses `lo`: every damage `hi` can roll is above every damage
      `lo` can roll, and its reach is at least as long. */
  predicate Escalates(lo: TowerBundle, hi: TowerBundle)
  {
    High(lo.damage) < Low(hi.damage) && lo.range <= hi.range
  }

  /** A gem table in which every higher quality outclasses every lower one. */
  ghost predicate Graded(table: Quality -> TowerBundle)
  {
    forall q1, q2 :: Rank(q1) < Rank(q2) ==> Escalates(table(q1), table(q2))
  }

  /** The cooldown period `cooldown_is_done` sets before ticking: 1.0 × speed. */
  function CooldownDuration(speed: real): real
  {
    1.0 * speed
  }
}
