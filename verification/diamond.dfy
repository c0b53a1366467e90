/** src/towers/diamond.rs: an attack system with its own inline nearest-creep
    scan. It runs over every gem, whatever its type, against every creep, and
    gates on the gem's own cooldown. Its range threshold compares a squared
    distance with `range * 2.0`; `AttackAsWritten` keeps that comparison and
    `Attack` compares with range², as the shared search does. */
module Diamond {
  import opened Common
  import opened Geometry
  import opened Creeps
  import opened Targeting
  import opened Projectiles
  import opened Attacks
  import SapphireTable = Sapphire

  /** The threshold as written: the scan's minimal squared distance must be
      below `range * 2.0`; no creep at all leaves it at infinity, which never
      is. */
  function AttackAsWritten(g: Shooter, cs: seq<CreepView>): (r: Option<Projectile>)
    ensures r.Some? ==> g.cooldownDone && r.value.origin == g.id
    ensures r.Some? ==> exists k :: IsFirstNearest(cs, g.pos, None, k) && cs[k].id == r.value.target
                                    && DistSq(cs[k].pos, g.pos) < g.range * 2.0
    ensures forall k :: g.cooldownDone && IsFirstNearest(cs, g.pos, None, k) ==>
      r == (if DistSq(cs[k].pos, g.pos) < g.range * 2.0 then Some(Projectile(g.id, cs[k].id)) else None)
    ensures |cs| == 0 ==> r.None?
  {
    if !g.cooldownDone then None
    else match NearestIndex(cs, g.pos, None)
      case None => None
      case Some(k) =>
        FirstNearestUniqueAll(cs, g.pos, None, k);
        if DistSq(cs[k].pos, g.pos) >= g.range * 2.0 then None
        else Some(Projectile(g.id, cs[k].id))
  }

  /** The threshold corrected to range²: a ready gem fires at the first
      nearest creep exactly when it is strictly within range. */
  function Attack(g: Shooter, cs: seq<CreepView>): (r: Option<Projectile>)
    ensures r.Some? ==> g.cooldownDone && r.value.origin == g.id
    ensures r.Some? ==> exists k :: IsFirstNearest(cs, g.pos, None, k) && cs[k].id == r.value.target
                                    && DistSq(cs[k].pos, g.pos) < g.range * g.range
    ensures forall k :: g.cooldownDone && IsFirstNearest(cs, g.pos, None, k) ==>
      r == (if DistSq(cs[k].pos, g.pos) < g.range * g.range then Some(Projectile(g.id, cs[k].id)) else None)
    ensures |cs| == 0 ==> r.None?
  {
    if !g.cooldownDone then None
    else match NearestIndex(cs, g.pos, None)
      case None => None
      case Some(k) =>
        FirstNearestUniqueAll(cs, g.pos, None, k);
        if DistSq(cs[k].pos, g.pos) >= g.range * g.range then None
        else Some(Projectile(g.id, cs[k].id))
  }

  /** Apart from the gem-type check, the corrected diamond attack is the
      shared one with no creep filter. */
  lemma AttackIsSharedAttack(g: Shooter, cs: seq<CreepView>)
    ensures Attack(g, cs) == Fire(g.gem.kind, None, g, cs)
  {
    if !g.cooldownDone {
      assert Attack(g, cs).None?;
    } else if |cs| == 0 {
      assert Attack(g, cs).None?;
      assert ClosestCreepWithinRange(cs, g.pos, g.range, None).None?;
    } else {
      assert Passes(None, cs[0]);
      var k := NearestIndex(cs, g.pos, None).value;
      assert IsFirstNearest(cs, g.pos, None, k);
      ClosestAt(g, cs, k);
      AttackAt(g, cs, k);
    }
  }

  lemma ClosestAt(g: Shooter, cs: seq<CreepView>, k: int)
    requires IsFirstNearest(cs, g.pos, None, k)
    ensures ClosestCreepWithinRange(cs, g.pos, g.range, None)
         == (if DistSq(cs[k].pos, g.pos) < g.range * g.range then Some(cs[k].id) else None)
  {
  }

  lemma AttackAt(g: Shooter, cs: seq<CreepView>, k: int)
    requires g.cooldownDone && IsFirstNearest(cs, g.pos, None, k)
    ensures Attack(g, cs) == (if DistSq(cs[k].pos, g.pos) < g.range * g.range then Some(Projectile(g.id, cs[k].id)) else None)
  {
  }

  /** `p` comes from some ready gem, of any type, at the creep the closest
      search picks for it. */
  ghost predicate LaunchedByAny(gems: seq<Shooter>, cs: seq<CreepView>, p: Projectile)
  {
    exists i :: 0 <= i < |gems| && gems[i].cooldownDone && p.origin == gems[i].id
             && ClosestCreepWithinRange(cs, gems[i].pos, gems[i].range, None) == Some(p.target)
  }

  /** The ready gems, of any type. */
  function ReadyAny(gems: seq<Shooter>): nat
  {
    if |gems| == 0 then 0 else (if gems[0].cooldownDone then 1 else 0) + ReadyAny(gems[1..])
  }

  /** The corrected system over the whole gem query: no gem-type check. */
  function Volley(gems: seq<Shooter>, cs: seq<CreepView>): (r: seq<Projectile>)
    ensures |r| <= ReadyAny(gems)
    ensures forall p :: p in r <==> LaunchedByAny(gems, cs, p)
    decreases |gems|
  {
    if |gems| == 0 then []
    else
      var rest := Volley(gems[1..], cs);
      assert forall i :: 0 < i < |gems| ==> gems[i] == gems[1..][i - 1];
      AttackIsSharedAttack(gems[0], cs);
      match Attack(gems[0], cs)
      case Some(p) => [p] + rest
      case None => rest
  }

  /** `p` comes from some ready gem, of any type, at the first nearest creep,
      whose squared distance is below the as-written threshold `range * 2.0`. */
  ghost predicate LaunchedAsWritten(gems: seq<Shooter>, cs: seq<CreepView>, p: Projectile)
  {
    exists i, k :: 0 <= i < |gems| && gems[i].cooldownDone && IsFirstNearest(cs, gems[i].pos, None, k)
                && DistSq(cs[k].pos, gems[i].pos) < gems[i].range * 2.0 && p == Projectile(gems[i].id, cs[k].id)
  }

  /** A projectile is launched as written by a gem list exactly when the head
      gem's attack launches it or the tail launches it. */
  lemma LaunchedAsWrittenSplit(gems: seq<Shooter>, cs: seq<CreepView>, p: Projectile)
    requires 0 < |gems|
    ensures LaunchedAsWritten(gems, cs, p) <==> AttackAsWritten(gems[0], cs) == Some(p) || LaunchedAsWritten(gems[1..], cs, p)
  {
    if LaunchedAsWritten(gems, cs, p) {
      var i, k :| 0 <= i < |gems| && gems[i].cooldownDone && IsFirstNearest(cs, gems[i].pos, None, k)
               && DistSq(cs[k].pos, gems[i].pos) < gems[i].range * 2.0 && p == Projectile(gems[i].id, cs[k].id);
      if i > 0 {
        assert gems[1..][i - 1] == gems[i];
      }
    }
    if AttackAsWritten(gems[0], cs) == Some(p) {
      var k :| IsFirstNearest(cs, gems[0].pos, None, k) && cs[k].id == p.target
            && DistSq(cs[k].pos, gems[0].pos) < gems[0].range * 2.0;
      assert p == Projectile(gems[0].id, cs[k].id);
    }
    if LaunchedAsWritten(gems[1..], cs, p) {
      var i, k :| 0 <= i < |gems[1..]| && gems[1..][i].cooldownDone && IsFirstNearest(cs, gems[1..][i].pos, None, k)
               && DistSq(cs[k].pos, gems[1..][i].pos) < gems[1..][i].range * 2.0 && p == Projectile(gems[1..][i].id, cs[k].id);
      assert gems[i + 1] == gems[1..][i];
    }
  }

  /** The system as written over the whole gem query: no gem-type check and
      the `range * 2.0` threshold. */
  function VolleyAsWritten(gems: seq<Shooter>, cs: seq<CreepView>): (r: seq<Projectile>)
    ensures |r| <= ReadyAny(gems)
    ensures forall p :: p in r <==> LaunchedAsWritten(gems, cs, p)
    decreases |gems|
  {
    if |gems| == 0 then []
    else
      var rest := VolleyAsWritten(gems[1..], cs);
      assert forall p :: LaunchedAsWritten(gems, cs, p) <==> AttackAsWritten(gems[0], cs) == Some(p) || LaunchedAsWritten(gems[1..], cs, p) by {
        forall p
          ensures LaunchedAsWritten(gems, cs, p) <==> AttackAsWritten(gems[0], cs) == Some(p) || LaunchedAsWritten(gems[1..], cs, p)
        {
          LaunchedAsWrittenSplit(gems, cs, p);
        }
      }
      match AttackAsWritten(gems[0], cs)
      case Some(p) => [p] + rest
      case None => rest
  }

  /** As written, a Chipped Sapphire (range 5.5) with a creep at distance 4
      fires from its own system but not from the diamond one: 16 is not below
      5.5 × 2.0 = 11. The Sapphire does not fire twice there. */
  lemma SapphireHeldAsWritten()
    ensures var g := Shooter(0, Vec3(0.0, 0.0, 0.0), Stats.Gem(Stats.Chipped, Stats.Sapphire), 1.0, SapphireTable.Tower(Stats.Chipped).range, true);
            var cs := [CreepView(1, Vec3(4.0, 0.0, 0.0), Ground)];
            VolleyAsWritten([g], cs) == [] && Attacks.Volley(Stats.Sapphire, None, [g], cs) == [Projectile(0, 1)]
  {
    var g := Shooter(0, Vec3(0.0, 0.0, 0.0), Stats.Gem(Stats.Chipped, Stats.Sapphire), 1.0, SapphireTable.Tower(Stats.Chipped).range, true);
    var cs := [CreepView(1, Vec3(4.0, 0.0, 0.0), Ground)];
    assert g.range == 5.5;
    assert IsFirstNearest(cs, g.pos, None, 0);
    assert DistSq(cs[0].pos, g.pos) == 16.0;
    assert [g][1..] == [];
    assert AttackAsWritten(g, cs).None?;
    assert Fire(Stats.Sapphire, None, g, cs) == Some(Projectile(0, 1));
  }

  /** Every ready Sapphire is also shot for by the diamond system, so a ready
      Sapphire with a creep in range launches one projectile from each. */
  lemma SapphireFiresTwice(g: Shooter, cs: seq<CreepView>)
    requires g.gem.kind == Stats.Sapphire && g.cooldownDone
    requires ClosestCreepWithinRange(cs, g.pos, g.range, None).Some?
    ensures Volley([g], cs) == Attacks.Volley(Stats.Sapphire, None, [g], cs)
    ensures |Volley([g], cs)| == 1
  {
    AttackIsSharedAttack(g, cs);
    assert [g][1..] == [];
  }

  /** As written, a creep well inside range 8 (distance 5) is not attacked:
      25 is not below 8 × 2.0 = 16. */
  lemma AsWrittenMissesCreepInRange()
    ensures var g := Shooter(0, Vec3(0.0, 0.0, 0.0), Stats.Gem(Stats.Chipped, Stats.Diamond), 1.0, 8.0, true);
            var cs := [CreepView(1, Vec3(5.0, 0.0, 0.0), Ground)];
            AttackAsWritten(g, cs).None? && Attack(g, cs) == Some(Projectile(0, 1))
  {
    var g := Shooter(0, Vec3(0.0, 0.0, 0.0), Stats.Gem(Stats.Chipped, Stats.Diamond), 1.0, 8.0, true);
    var cs := [CreepView(1, Vec3(5.0, 0.0, 0.0), Ground)];
    assert IsFirstNearest(cs, g.pos, None, 0);
    assert DistSq(cs[0].pos, g.pos) == 25.0;
  }

  /** As written, a creep beyond range 1 (distance 1.2) is attacked:
      1.44 is below 1 × 2.0 = 2. */
  lemma AsWrittenHitsCreepOutOfRange()
    ensures var g := Shooter(0, Vec3(0.0, 0.0, 0.0), Stats.Gem(Stats.Chipped, Stats.Diamond), 1.0, 1.0, true);
            var cs := [CreepView(1, Vec3(1.2, 0.0, 0.0), Ground)];
            AttackAsWritten(g, cs) == Some(Projectile(0, 1)) && Attack(g, cs).None?
  {
    var g := Shooter(0, Vec3(0.0, 0.0, 0.0), Stats.Gem(Stats.Chipped, Stats.Diamond), 1.0, 1.0, true);
    var cs := [CreepView(1, Vec3(1.2, 0.0, 0.0), Ground)];
    assert IsFirstNearest(cs, g.pos, None, 0);
    assert DistSq(cs[0].pos, g.pos) == 1.44;
  }

  /** A ready gem attacks the same creep under both thresholds, whatever the
      creeps, exactly when its range is 0 or 2, the two ranges at which
      range × 2.0 equals range². At any other range one creep, placed
      between the two thresholds, tells them apart. */
  lemma ThresholdsAgreeOnlyAtZeroAndTwo(g: Shooter)
    requires g.cooldownDone
    ensures (forall cs :: AttackAsWritten(g, cs) == Attack(g, cs)) <==> g.range == 0.0 || g.range == 2.0
  {
    if g.range == 0.0 || g.range == 2.0 {
      forall cs
        ensures AttackAsWritten(g, cs) == Attack(g, cs)
      {
        ThresholdsAgree(g, cs);
      }
    } else {
      var cs := ThresholdsDiffer(g);
    }
  }

  /** At range 0 or 2 the two thresholds are the same number. */
  lemma ThresholdsAgree(g: Shooter, cs: seq<CreepView>)
    requires g.range == 0.0 || g.range == 2.0
    ensures AttackAsWritten(g, cs) == Attack(g, cs)
  {
    assert g.range * 2.0 == g.range * g.range;
    if k :| g.cooldownDone && IsFirstNearest(cs, g.pos, None, k) {
    }
  }

  /** At any other range, a ready gem with one creep between the two
      thresholds attacks under one and not the other. */
  lemma ThresholdsDiffer(g: Shooter) returns (cs: seq<CreepView>)
    requires g.cooldownDone && g.range != 0.0 && g.range != 2.0
    ensures AttackAsWritten(g, cs) != Attack(g, cs)
  {
    if g.range < 0.0 {
      cs := DifferBelowZero(g);
    } else if g.range < 2.0 {
      cs := DifferBelowTwo(g);
    } else {
      cs := DifferAboveTwo(g);
    }
  }

  /** Below range 0, a creep on the gem passes range² but not range × 2. */
  lemma DifferBelowZero(g: Shooter) returns (cs: seq<CreepView>)
    requires g.cooldownDone && g.range < 0.0
    ensures AttackAsWritten(g, cs) != Attack(g, cs)
  {
    cs := [CreepView(1, g.pos, Ground)];
    assert IsFirstNearest(cs, g.pos, None, 0);
    SquarePositive(g.range);
    calc {
      DistSq(cs[0].pos, g.pos);
      == 0.0;
      < g.range * g.range;
    }
    assert AttackAsWritten(g, cs).None? && Attack(g, cs).Some?;
  }

  /** A nonzero real's square is above zero. */
  lemma SquarePositive(r: real)
    requires r != 0.0
    ensures 0.0 < r * r
  {
  }

  /** Between ranges 0 and 2, a creep at distance range passes range × 2 but
      not range². */
  lemma DifferBelowTwo(g: Shooter) returns (cs: seq<CreepView>)
    requires g.cooldownDone && 0.0 < g.range < 2.0
    ensures AttackAsWritten(g, cs) != Attack(g, cs)
  {
    var r := g.range;
    assert 0.0 < r * (2.0 - r) == r * 2.0 - r * r;
    cs := [CreepView(1, Vec3(g.pos.x + r, g.pos.y, g.pos.z), Ground)];
    assert IsFirstNearest(cs, g.pos, None, 0);
    assert DistSq(cs[0].pos, g.pos) == r * r;
    assert AttackAsWritten(g, cs).Some? && Attack(g, cs).None?;
  }

  /** Above range 2, a creep halfway between 2 and range passes range² but
      not range × 2. */
  lemma DifferAboveTwo(g: Shooter) returns (cs: seq<CreepView>)
    requires g.cooldownDone && 2.0 < g.range
    ensures AttackAsWritten(g, cs) != Attack(g, cs)
  {
    var r := g.range;
    var x := (r + 2.0) / 2.0;
    LargeRange(r, x);
    cs := [CreepView(1, Vec3(g.pos.x + x, g.pos.y, g.pos.z), Ground)];
    assert IsFirstNearest(cs, g.pos, None, 0);
    assert DistSq(cs[0].pos, g.pos) == x * x;
    assert AttackAsWritten(g, cs).None? && Attack(g, cs).Some?;
  }

  /** Halfway between 2 and a range above 2, the squared distance is at
      least range × 2 and below range². */
  lemma LargeRange(r: real, x: real)
    requires 2.0 < r && x * 2.0 == r + 2.0
    ensures !(x * x < r * 2.0) && x * x < r * r
  {
    assert 4.0 * (x * x) == (r + 2.0) * (r + 2.0) by {
      assert (x * 2.0) * (x * 2.0) == 4.0 * (x * x);
    }
    assert 0.0 <= (r - 2.0) * (r - 2.0);
    assert 0.0 < x < r;
    assert x * x < x * r;
    assert x * r < r * r;
  }
}
