/** Auras (src/abilities/aura.rs): a tower-carried list of range-limited
    effects, pushed as `buffs::AttackSpeed` components onto the towers they
    reach. Inserting a component replaces the one already there, so the
    buff map keeps whatever was inserted last, and the order in which the
    two systems walk sources, auras and towers decides the final value. */
module Auras {
  import opened Common
  import opened Geometry
  import opened Targeting

  datatype Kind = AttackSpeed(val: real)

  datatype Aura = Aura(range: real, kind: Kind)

  /** An entity carrying `Auras`, with its position. */
  datatype AuraSource = AuraSource(pos: Vec3, auras: seq<Aura>)

  /** The `buffs::AttackSpeed` component of each entity that has one. */
  type BuffMap = map<Entity, real>

  /** One `commands.entity(target).insert(buffs::AttackSpeed(val))`. */
  datatype Insertion = Insertion(target: Entity, val: real)

  /** Applies the insertions in order: a later insertion on the same entity
      replaces an earlier one. */
  function InsertAll(buffs: BuffMap, ins: seq<Insertion>): (r: BuffMap)
    ensures forall e :: e in r <==> e in buffs || exists k :: 0 <= k < |ins| && ins[k].target == e
    ensures forall e :: e in buffs && (forall k :: 0 <= k < |ins| ==> ins[k].target != e) ==> r[e] == buffs[e]
    ensures forall k :: 0 <= k < |ins| && (forall k' :: k < k' < |ins| ==> ins[k'].target != ins[k].target) ==>
      r[ins[k].target] == ins[k].val
    decreases |ins|
  {
    if |ins| == 0 then buffs
    else
      var r := InsertAll(buffs[ins[0].target := ins[0].val], ins[1..]);
      assert forall k :: 0 < k < |ins| ==> ins[k] == ins[1..][k - 1];
      r
  }

  /** Inserting one list and then another is inserting the two appended. */
  lemma {:induction false} InsertAllAppend(buffs: BuffMap, x: seq<Insertion>, y: seq<Insertion>)
    ensures InsertAll(buffs, x + y) == InsertAll(InsertAll(buffs, x), y)
    decreases |x|
  {
    if |x| == 0 {
      assert x + y == y;
    } else {
      assert (x + y)[1..] == x[1..] + y;
      InsertAllAppend(buffs[x[0].target := x[0].val], x[1..], y);
    }
  }

  /** The last insertion aimed at `e`. */
  lemma LastInsertionFor(ins: seq<Insertion>, e: Entity) returns (k: nat)
    requires exists k :: 0 <= k < |ins| && ins[k].target == e
    ensures k < |ins| && ins[k].target == e
    ensures forall k' :: k < k' < |ins| ==> ins[k'].target != e
  {
    k := |ins| - 1;
    while ins[k].target != e
      invariant 0 <= k < |ins|
      invariant forall k' :: k < k' < |ins| ==> ins[k'].target != e
      invariant exists k0 :: 0 <= k0 <= k && ins[k0].target == e
      decreases k
    {
      k := k - 1;
    }
  }

  /** Insertions that all carry the value `v` set every entity they aim at
      to `v`, whatever their order. */
  lemma InsertUniform(buffs: BuffMap, ins: seq<Insertion>, v: real)
    requires forall k :: 0 <= k < |ins| ==> ins[k].val == v
    ensures forall e :: (exists k :: 0 <= k < |ins| && ins[k].target == e) ==>
      e in InsertAll(buffs, ins) && InsertAll(buffs, ins)[e] == v
  {
    forall e | exists k :: 0 <= k < |ins| && ins[k].target == e
      ensures e in InsertAll(buffs, ins) && InsertAll(buffs, ins)[e] == v
    {
      var k := LastInsertionFor(ins, e);
    }
  }

  /** The source's aura number `j` reaches a tower standing at `p`. */
  predicate Covers(s: AuraSource, j: int, p: Vec3)
  {
    0 <= j < |s.auras| && Within(s.auras[j].range, p, s.pos)
  }

  /** Aura `a` of `s` reaches an entry of `towers` whose id is `e`. */
  ghost predicate Reaches(s: AuraSource, a: int, towers: seq<TowerView>, e: Entity)
  {
    exists t :: 0 <= t < |towers| && towers[t].id == e && Covers(s, a, towers[t].pos)
  }

  /** The insertions of one aura: one per tower that
      `get_all_towers_within_range` returns, in the order it returns them,
      all with the aura's value. */
  function AuraInsertions(pos: Vec3, a: Aura, towers: seq<TowerView>): (r: seq<Insertion>)
    ensures |r| <= |towers|
    ensures forall k :: 0 <= k < |r| ==> r[k].val == a.kind.val
    ensures forall x :: x in r <==> exists t :: 0 <= t < |towers| && Within(a.range, towers[t].pos, pos)
                                           && x == Insertion(towers[t].id, a.kind.val)
  {
    var ts := AllTowersWithinRange(towers, pos, a.range);
    var r := seq(|ts|, k requires 0 <= k < |ts| => Insertion(ts[k], a.kind.val));
    assert forall x: Insertion :: x in r <==> x.target in ts && x.val == a.kind.val by {
      forall x: Insertion | x.target in ts && x.val == a.kind.val
        ensures x in r
      {
        var k :| 0 <= k < |ts| && ts[k] == x.target;
        assert r[k] == x;
      }
    }
    r
  }

  /** The order of one aura's insertions is the tower query's order: two runs
      of the query give their insertions appended. */
  lemma AuraInsertionsAppend(pos: Vec3, a: Aura, x: seq<TowerView>, y: seq<TowerView>)
    ensures AuraInsertions(pos, a, x + y) == AuraInsertions(pos, a, x) + AuraInsertions(pos, a, y)
  {
    AllTowersWithinRangeAppend(x, y, pos, a.range);
  }

  /** The insertions of every aura of one source, aura after aura. */
  function SourceInsertions(s: AuraSource, towers: seq<TowerView>): (r: seq<Insertion>)
    ensures forall x :: x in r <==> exists a, t :: 0 <= a < |s.auras| && 0 <= t < |towers| && Covers(s, a, towers[t].pos)
                                                && x == Insertion(towers[t].id, s.auras[a].kind.val)
    decreases |s.auras|
  {
    if |s.auras| == 0 then []
    else
      var rest := SourceInsertions(AuraSource(s.pos, s.auras[1..]), towers);
      assert forall a :: 0 < a < |s.auras| ==> s.auras[a] == s.auras[1..][a - 1];
      AuraInsertions(s.pos, s.auras[0], towers) + rest
  }

  /** A source's insertions follow its aura list: splitting the list splits
      the insertions, the first part's coming first. */
  lemma {:induction false} SourceInsertionsAppend(pos: Vec3, x: seq<Aura>, y: seq<Aura>, towers: seq<TowerView>)
    ensures SourceInsertions(AuraSource(pos, x + y), towers)
         == SourceInsertions(AuraSource(pos, x), towers) + SourceInsertions(AuraSource(pos, y), towers)
    decreases |x|
  {
    if |x| == 0 {
      assert x + y == y;
    } else {
      assert (x + y)[1..] == x[1..] + y;
      SourceInsertionsAppend(pos, x[1..], y, towers);
    }
  }

  /** `x` is the buff that some aura of some source gives some tower. */
  ghost predicate AuraBuff(sources: seq<AuraSource>, towers: seq<TowerView>, x: Insertion)
  {
    exists i, a, t ::
      && 0 <= i < |sources| && 0 <= a < |sources[i].auras| && 0 <= t < |towers|
      && Covers(sources[i], a, towers[t].pos)
      && x == Insertion(towers[t].id, sources[i].auras[a].kind.val)
  }

  /** Some aura of some source reaches a tower with id `e`. */
  ghost predicate Reached(sources: seq<AuraSource>, towers: seq<TowerView>, e: Entity)
  {
    exists i, a :: 0 <= i < |sources| && Reaches(sources[i], a, towers, e)
  }

  /** Aura `a` is the last aura of `s`, in list order, that reaches `e`. */
  ghost predicate LastAura(s: AuraSource, towers: seq<TowerView>, e: Entity, a: int)
  {
    Reaches(s, a, towers, e) && forall a' :: Reaches(s, a', towers, e) ==> a' <= a
  }

  /** Aura `a` of source `i` is the last one reaching `e` when sources are
      walked in order and each source's auras in list order. */
  ghost predicate LastReaching(sources: seq<AuraSource>, towers: seq<TowerView>, e: Entity, i: int, a: int)
  {
    && 0 <= i < |sources| && Reaches(sources[i], a, towers, e)
    && forall i', a' :: 0 <= i' < |sources| && Reaches(sources[i'], a', towers, e) ==> i' < i || (i' == i && a' <= a)
  }

  /** At most one (source, aura) pair is the last to reach an entity, so the
      value the new-aura pass leaves is determined. */
  lemma LastReachingUnique(sources: seq<AuraSource>, towers: seq<TowerView>, e: Entity, i1: int, a1: int, i2: int, a2: int)
    requires LastReaching(sources, towers, e, i1, a1) && LastReaching(sources, towers, e, i2, a2)
    ensures i1 == i2 && a1 == a2
  {
  }

  /** The insertions of `apply_new_aura`: source after source. */
  function NewAuraInsertions(sources: seq<AuraSource>, towers: seq<TowerView>): (r: seq<Insertion>)
    ensures forall x :: x in r <==> AuraBuff(sources, towers, x)
    decreases |sources|
  {
    if |sources| == 0 then []
    else
      var rest := NewAuraInsertions(sources[1..], towers);
      assert forall i :: 0 < i < |sources| ==> sources[i] == sources[1..][i - 1];
      SourceInsertions(sources[0], towers) + rest
  }

  /** The new-aura insertions follow the source query's order. */
  lemma {:induction false} NewAuraInsertionsAppend(x: seq<AuraSource>, y: seq<AuraSource>, towers: seq<TowerView>)
    ensures NewAuraInsertions(x + y, towers) == NewAuraInsertions(x, towers) + NewAuraInsertions(y, towers)
    decreases |x|
  {
    if |x| == 0 {
      assert x + y == y;
    } else {
      assert (x + y)[1..] == x[1..] + y;
      NewAuraInsertionsAppend(x[1..], y, towers);
    }
  }
  /** `e` keeps its buff, or its lack of one. */
  ghost predicate Untouched(buffs: BuffMap, r: BuffMap, e: Entity)
  {
    (e in r <==> e in buffs) && (e in buffs ==> r[e] == buffs[e])
  }

  /** One aura's insertions give every tower it reaches the aura's value and
      leave every other entity as it was. */
  lemma AuraPassAt(s: AuraSource, a: int, towers: seq<TowerView>, buffs: BuffMap, e: Entity)
    requires 0 <= a < |s.auras|
    ensures var r := InsertAll(buffs, AuraInsertions(s.pos, s.auras[a], towers));
      if Reaches(s, a, towers, e) then e in r && r[e] == s.auras[a].kind.val else Untouched(buffs, r, e)
  {
    var ins := AuraInsertions(s.pos, s.auras[a], towers);
    if Reaches(s, a, towers, e) {
      var t :| 0 <= t < |towers| && towers[t].id == e && Covers(s, a, towers[t].pos);
      assert Insertion(e, s.auras[a].kind.val) in ins;
      var k :| 0 <= k < |ins| && ins[k] == Insertion(e, s.auras[a].kind.val);
      InsertUniform(buffs, ins, s.auras[a].kind.val);
    } else {
      forall k | 0 <= k < |ins|
        ensures ins[k].target != e
      {
        assert ins[k] in ins;
      }
    }
  }

  /** The source `s` with only its first `m` auras. */
  function FirstAuras(s: AuraSource, m: nat): AuraSource
    requires m <= |s.auras|
  {
    AuraSource(s.pos, s.auras[..m])
  }

  /** An aura of `FirstAuras(s, m)` reaches exactly what the same aura of `s` reaches. */
  lemma FirstAurasReach(s: AuraSource, m: nat, towers: seq<TowerView>, e: Entity)
    requires m <= |s.auras|
    ensures forall a :: Reaches(FirstAuras(s, m), a, towers, e) <==> a < m && Reaches(s, a, towers, e)
  {
    forall a
      ensures Reaches(FirstAuras(s, m), a, towers, e) <==> a < m && Reaches(s, a, towers, e)
    {
      if 0 <= a < m {
        assert FirstAuras(s, m).auras[a] == s.auras[a];
      }
    }
  }

  /** A source's insertions are those of all its auras but the last, then
      those of the last. */
  lemma SourceInsertionsSplit(s: AuraSource, towers: seq<TowerView>)
    requires 0 < |s.auras|
    ensures SourceInsertions(s, towers)
         == SourceInsertions(FirstAuras(s, |s.auras| - 1), towers) + AuraInsertions(s.pos, s.auras[|s.auras| - 1], towers)
  {
    var n := |s.auras|;
    var p := FirstAuras(s, n - 1);
    var last := AuraSource(s.pos, [s.auras[n - 1]]);
    assert s.auras == p.auras + last.auras;
    SourceInsertionsAppend(s.pos, p.auras, last.auras, towers);
    assert last.auras[1..] == [];
    assert SourceInsertions(last, towers) == AuraInsertions(s.pos, s.auras[n - 1], towers) + [];
  }

  /** Applying a source's insertions is applying all its auras but the last,
      then the last. */
  lemma SourceSplit(s: AuraSource, towers: seq<TowerView>, buffs: BuffMap)
    requires 0 < |s.auras|
    ensures InsertAll(buffs, SourceInsertions(s, towers))
         == InsertAll(InsertAll(buffs, SourceInsertions(FirstAuras(s, |s.auras| - 1), towers)),
                      AuraInsertions(s.pos, s.auras[|s.auras| - 1], towers))
  {
    SourceInsertionsSplit(s, towers);
    InsertAllAppend(buffs, SourceInsertions(FirstAuras(s, |s.auras| - 1), towers), AuraInsertions(s.pos, s.auras[|s.auras| - 1], towers));
  }

  /** What a source's insertions leave at `e`: the value of the last of its
      auras that reaches `e`, or `e` untouched when none does. */
  ghost predicate SourceOutcome(s: AuraSource, towers: seq<TowerView>, buffs: BuffMap, r: BuffMap, e: Entity)
  {
    if exists a :: Reaches(s, a, towers, e)
    then e in r && exists a :: LastAura(s, towers, e, a) && r[e] == s.auras[a].kind.val
    else Untouched(buffs, r, e)
  }

  /** No aura lies past the end of the list, so the final aura, when it
      reaches `e`, is the last to do so. */
  lemma LastListedAura(s: AuraSource, towers: seq<TowerView>, e: Entity)
    requires 0 < |s.auras| && Reaches(s, |s.auras| - 1, towers, e)
    ensures LastAura(s, towers, e, |s.auras| - 1)
  {
    forall a' | Reaches(s, a', towers, e)
      ensures a' <= |s.auras| - 1
    {
      var t :| 0 <= t < |towers| && towers[t].id == e && Covers(s, a', towers[t].pos);
    }
  }

  /** When the final aura misses `e`, the last aura of the shorter list to
      reach `e` is also the last of the whole list to do so. */
  lemma LastAuraOfPrefix(s: AuraSource, towers: seq<TowerView>, e: Entity, a: int)
    requires 0 < |s.auras| && !Reaches(s, |s.auras| - 1, towers, e)
    requires LastAura(FirstAuras(s, |s.auras| - 1), towers, e, a)
    ensures LastAura(s, towers, e, a) && s.auras[a] == FirstAuras(s, |s.auras| - 1).auras[a]
  {
    var p := FirstAuras(s, |s.auras| - 1);
    FirstAurasReach(s, |s.auras| - 1, towers, e);
    forall a' | Reaches(s, a', towers, e)
      ensures a' <= a
    {
      var t :| 0 <= t < |towers| && towers[t].id == e && Covers(s, a', towers[t].pos);
      assert Reaches(p, a', towers, e);
    }
  }

  /** `SourceStep` when the final aura misses `e` but an earlier one reaches it. */
  lemma SourceStepEarlier(s: AuraSource, towers: seq<TowerView>, buffs: BuffMap, mid: BuffMap, r: BuffMap, e: Entity, a0: int)
    requires 0 < |s.auras| && !Reaches(s, |s.auras| - 1, towers, e) && Reaches(s, a0, towers, e)
    requires SourceOutcome(FirstAuras(s, |s.auras| - 1), towers, buffs, mid, e)
    requires Untouched(mid, r, e)
    ensures SourceOutcome(s, towers, buffs, r, e)
  {
    var p := FirstAuras(s, |s.auras| - 1);
    FirstAurasReach(s, |s.auras| - 1, towers, e);
    assert Reaches(p, a0, towers, e);
    var a :| LastAura(p, towers, e, a) && mid[e] == p.auras[a].kind.val;
    LastAuraOfPrefix(s, towers, e, a);
  }

  /** `SourceStep` when no aura of the list reaches `e`. */
  lemma SourceStepNone(s: AuraSource, towers: seq<TowerView>, buffs: BuffMap, mid: BuffMap, r: BuffMap, e: Entity)
    requires 0 < |s.auras| && forall a :: !Reaches(s, a, towers, e)
    requires SourceOutcome(FirstAuras(s, |s.auras| - 1), towers, buffs, mid, e)
    requires Untouched(mid, r, e)
    ensures SourceOutcome(s, towers, buffs, r, e)
  {
    var p := FirstAuras(s, |s.auras| - 1);
    FirstAurasReach(s, |s.auras| - 1, towers, e);
    assert forall a :: !Reaches(p, a, towers, e);
  }

  /** The inductive step of `SourcePassAt`: the outcome of all auras but the
      last, followed by the last aura's, is the outcome of the whole list. */
  lemma SourceStep(s: AuraSource, towers: seq<TowerView>, buffs: BuffMap, mid: BuffMap, r: BuffMap, e: Entity)
    requires 0 < |s.auras|
    requires SourceOutcome(FirstAuras(s, |s.auras| - 1), towers, buffs, mid, e)
    requires if Reaches(s, |s.auras| - 1, towers, e) then e in r && r[e] == s.auras[|s.auras| - 1].kind.val
             else Untouched(mid, r, e)
    ensures SourceOutcome(s, towers, buffs, r, e)
  {
    if Reaches(s, |s.auras| - 1, towers, e) {
      LastListedAura(s, towers, e);
    } else if exists a :: Reaches(s, a, towers, e) {
      var a0 :| Reaches(s, a0, towers, e);
      SourceStepEarlier(s, towers, buffs, mid, r, e, a0);
    } else {
      SourceStepNone(s, towers, buffs, mid, r, e);
    }
  }

  /** A source's insertions give every tower it reaches the value of the last
      of its auras that reaches it, and leave every other entity as it was. */
  lemma {:induction false} SourcePassAt(s: AuraSource, towers: seq<TowerView>, buffs: BuffMap, e: Entity)
    ensures SourceOutcome(s, towers, buffs, InsertAll(buffs, SourceInsertions(s, towers)), e)
    decreases |s.auras|
  {
    var n := |s.auras|;
    if n == 0 {
      return;
    }
    var p := FirstAuras(s, n - 1);
    var mid := InsertAll(buffs, SourceInsertions(p, towers));
    SourceSplit(s, towers, buffs);
    SourcePassAt(p, towers, buffs, e);
    AuraPassAt(s, n - 1, towers, mid, e);
    SourceStep(s, towers, buffs, mid, InsertAll(mid, AuraInsertions(s.pos, s.auras[n - 1], towers)), e);
  }

  /** The new-aura insertions are those of all sources but the last, then
      those of the last. */
  lemma NewAuraInsertionsSplit(sources: seq<AuraSource>, towers: seq<TowerView>)
    requires 0 < |sources|
    ensures NewAuraInsertions(sources, towers)
         == NewAuraInsertions(sources[..|sources| - 1], towers) + SourceInsertions(sources[|sources| - 1], towers)
  {
    var n := |sources|;
    var p := sources[..n - 1];
    assert sources == p + [sources[n - 1]];
    NewAuraInsertionsAppend(p, [sources[n - 1]], towers);
    assert [sources[n - 1]][1..] == [];
    assert NewAuraInsertions([sources[n - 1]], towers) == SourceInsertions(sources[n - 1], towers) + [];
  }

  /** Applying the new-aura insertions is applying those of all sources but
      the last, then those of the last. */
  lemma NewAuraSplit(sources: seq<AuraSource>, towers: seq<TowerView>, buffs: BuffMap)
    requires 0 < |sources|
    ensures InsertAll(buffs, NewAuraInsertions(sources, towers))
         == InsertAll(InsertAll(buffs, NewAuraInsertions(sources[..|sources| - 1], towers)),
                      SourceInsertions(sources[|sources| - 1], towers))
  {
    NewAuraInsertionsSplit(sources, towers);
    InsertAllAppend(buffs, NewAuraInsertions(sources[..|sources| - 1], towers), SourceInsertions(sources[|sources| - 1], towers));
  }

  /** What the new-aura insertions leave at `e`: the value of the last aura
      to reach it, or `e` untouched when none does. */
  ghost predicate NewAuraOutcome(sources: seq<AuraSource>, towers: seq<TowerView>, buffs: BuffMap, r: BuffMap, e: Entity)
  {
    if Reached(sources, towers, e)
    then e in r && exists i, a :: LastReaching(sources, towers, e, i, a) && r[e] == sources[i].auras[a].kind.val
    else Untouched(buffs, r, e)
  }

  /** The inductive step of `NewAuraPassAt`: the outcome of all sources but
      the last, followed by the last source's, is the outcome of them all. */
  lemma NewAuraStep(sources: seq<AuraSource>, towers: seq<TowerView>, buffs: BuffMap, mid: BuffMap, r: BuffMap, e: Entity)
    requires 0 < |sources|
    requires NewAuraOutcome(sources[..|sources| - 1], towers, buffs, mid, e)
    requires SourceOutcome(sources[|sources| - 1], towers, mid, r, e)
    ensures NewAuraOutcome(sources, towers, buffs, r, e)
  {
    var n := |sources|;
    var p := sources[..n - 1];
    var last := sources[n - 1];
    if exists a :: Reaches(last, a, towers, e) {
      var a :| LastAura(last, towers, e, a) && r[e] == last.auras[a].kind.val;
      assert LastReaching(sources, towers, e, n - 1, a);
    } else if Reached(sources, towers, e) {
      var i0, a0 :| 0 <= i0 < n && Reaches(sources[i0], a0, towers, e);
      assert i0 < n - 1 && p[i0] == sources[i0];
      assert Reached(p, towers, e);
      var i, a :| LastReaching(p, towers, e, i, a) && mid[e] == p[i].auras[a].kind.val;
      forall i', a' | 0 <= i' < n && Reaches(sources[i'], a', towers, e)
        ensures i' < i || (i' == i && a' <= a)
      {
        assert i' < n - 1 && p[i'] == sources[i'];
      }
      assert p[i] == sources[i];
      assert LastReaching(sources, towers, e, i, a);
    }
  }

  /** The new-aura insertions give every reached tower the value of the last
      aura to reach it, sources in query order and auras in list order, and
      leave every other entity as it was. */
  lemma {:induction false} NewAuraPassAt(sources: seq<AuraSource>, towers: seq<TowerView>, buffs: BuffMap, e: Entity)
    ensures NewAuraOutcome(sources, towers, buffs, InsertAll(buffs, NewAuraInsertions(sources, towers)), e)
    decreases |sources|
  {
    var n := |sources|;
    if n == 0 {
      return;
    }
    var mid := InsertAll(buffs, NewAuraInsertions(sources[..n - 1], towers));
    NewAuraSplit(sources, towers, buffs);
    NewAuraPassAt(sources[..n - 1], towers, buffs, e);
    SourcePassAt(sources[n - 1], towers, mid, e);
    NewAuraStep(sources, towers, buffs, mid, InsertAll(mid, SourceInsertions(sources[n - 1], towers)), e);
  }

  /** The new-aura outcome at every entity at once. */
  lemma NewAuraPass(sources: seq<AuraSource>, towers: seq<TowerView>, buffs: BuffMap)
    ensures forall e :: NewAuraOutcome(sources, towers, buffs, InsertAll(buffs, NewAuraInsertions(sources, towers)), e)
  {
    forall e
      ensures NewAuraOutcome(sources, towers, buffs, InsertAll(buffs, NewAuraInsertions(sources, towers)), e)
    {
      NewAuraPassAt(sources, towers, buffs, e);
    }
  }

  /** `Auras::apply_new_aura`: every tower inside the range of an aura of a
      newly added source ends with the value of the last aura, in processing
      order, that reaches it; no other entity is touched. */
  function ApplyNewAura(sources: seq<AuraSource>, towers: seq<TowerView>, buffs: BuffMap): (r: BuffMap)
    ensures forall e :: NewAuraOutcome(sources, towers, buffs, r, e)
  {
    NewAuraPass(sources, towers, buffs);
    InsertAll(buffs, NewAuraInsertions(sources, towers))
  }

  /** The insertions of `apply_aura_to_new_tower` for one new tower: every
      aura of every source whose range holds it, sources in query order and
      auras in list order. */
  function TowerInsertions(t: TowerView, sources: seq<AuraSource>): (r: seq<Insertion>)
    ensures forall x :: x in r <==> AuraBuff(sources, [t], x)
  {
    NewAuraInsertions(sources, [t])
  }

  /** The insertions of `apply_aura_to_new_tower`: new tower after new tower. */
  function NewTowerInsertions(newTowers: seq<TowerView>, sources: seq<AuraSource>): (r: seq<Insertion>)
    ensures forall x :: x in r <==> AuraBuff(sources, newTowers, x)
    decreases |newTowers|
  {
    if |newTowers| == 0 then []
    else
      var rest := NewTowerInsertions(newTowers[1..], sources);
      forall x {
        AuraBuffSplit(sources, newTowers, x);
      }
      TowerInsertions(newTowers[0], sources) + rest
  }

  /** A buff for some new tower is a buff for the first one or for one of the rest. */
  lemma AuraBuffSplit(sources: seq<AuraSource>, newTowers: seq<TowerView>, x: Insertion)
    requires 0 < |newTowers|
    ensures AuraBuff(sources, newTowers, x) <==> AuraBuff(sources, [newTowers[0]], x) || AuraBuff(sources, newTowers[1..], x)
  {
    if AuraBuff(sources, newTowers, x) {
      var i, a, t :| && 0 <= i < |sources| && 0 <= a < |sources[i].auras| && 0 <= t < |newTowers|
                     && Covers(sources[i], a, newTowers[t].pos)
                     && x == Insertion(newTowers[t].id, sources[i].auras[a].kind.val);
      if t == 0 {
        assert [newTowers[0]][0] == newTowers[t];
      } else {
        assert newTowers[1..][t - 1] == newTowers[t];
      }
    }
    if AuraBuff(sources, [newTowers[0]], x) {
      var i, a, t :| && 0 <= i < |sources| && 0 <= a < |sources[i].auras| && 0 <= t < 1
                     && Covers(sources[i], a, [newTowers[0]][t].pos)
                     && x == Insertion([newTowers[0]][t].id, sources[i].auras[a].kind.val);
      assert [newTowers[0]][t] == newTowers[0];
    }
    if AuraBuff(sources, newTowers[1..], x) {
      var i, a, t :| && 0 <= i < |sources| && 0 <= a < |sources[i].auras| && 0 <= t < |newTowers[1..]|
                     && Covers(sources[i], a, newTowers[1..][t].pos)
                     && x == Insertion(newTowers[1..][t].id, sources[i].auras[a].kind.val);
      assert newTowers[1..][t] == newTowers[t + 1];
    }
  }

  /** The new-tower insertions follow the new-tower query's order. */
  lemma {:induction false} NewTowerInsertionsAppend(x: seq<TowerView>, y: seq<TowerView>, sources: seq<AuraSource>)
    ensures NewTowerInsertions(x + y, sources) == NewTowerInsertions(x, sources) + NewTowerInsertions(y, sources)
    decreases |x|
  {
    if |x| == 0 {
      assert x + y == y;
    } else {
      assert (x + y)[1..] == x[1..] + y;
      NewTowerInsertionsAppend(x[1..], y, sources);
    }
  }

  /** Entry `t` of the new towers has id `e` and lies in aura `a` of source `i`. */
  ghost predicate TowerHit(sources: seq<AuraSource>, newTowers: seq<TowerView>, t: int, i: int, a: int, e: Entity)
  {
    0 <= t < |newTowers| && newTowers[t].id == e && 0 <= i < |sources| && Covers(sources[i], a, newTowers[t].pos)
  }

  /** (t, i, a) is the last hit on `e` when new towers are walked in query
      order, then sources in query order, then auras in list order. */
  ghost predicate LastTowerHit(sources: seq<AuraSource>, newTowers: seq<TowerView>, e: Entity, t: int, i: int, a: int)
  {
    && TowerHit(sources, newTowers, t, i, a, e)
    && forall t', i', a' :: TowerHit(sources, newTowers, t', i', a', e) ==>
         t' < t || (t' == t && (i' < i || (i' == i && a' <= a)))
  }

  /** At most one triple is the last hit on an entity. */
  lemma LastTowerHitUnique(sources: seq<AuraSource>, newTowers: seq<TowerView>, e: Entity,
                           t1: int, i1: int, a1: int, t2: int, i2: int, a2: int)
    requires LastTowerHit(sources, newTowers, e, t1, i1, a1) && LastTowerHit(sources, newTowers, e, t2, i2, a2)
    ensures t1 == t2 && i1 == i2 && a1 == a2
  {
  }

  /** Being reached by the new-tower pass is being hit by some triple. */
  lemma ReachedIsTowerHit(sources: seq<AuraSource>, newTowers: seq<TowerView>, e: Entity)
    ensures Reached(sources, newTowers, e) <==> exists t, i, a :: TowerHit(sources, newTowers, t, i, a, e)
  {
    if Reached(sources, newTowers, e) {
      var i, a :| 0 <= i < |sources| && Reaches(sources[i], a, newTowers, e);
      var t :| 0 <= t < |newTowers| && newTowers[t].id == e && Covers(sources[i], a, newTowers[t].pos);
      assert TowerHit(sources, newTowers, t, i, a, e);
    }
    if exists t, i, a :: TowerHit(sources, newTowers, t, i, a, e) {
      var t, i, a :| TowerHit(sources, newTowers, t, i, a, e);
      assert Reaches(sources[i], a, newTowers, e);
    }
  }

  /** A hit on entry `t` is that entry, taken alone, being reached. */
  lemma EntryHits(sources: seq<AuraSource>, newTowers: seq<TowerView>, t: int, e: Entity)
    requires 0 <= t < |newTowers|
    ensures forall i, a :: TowerHit(sources, newTowers, t, i, a, e) <==>
      0 <= i < |sources| && Reaches(sources[i], a, [newTowers[t]], e)
  {
    forall i, a
      ensures TowerHit(sources, newTowers, t, i, a, e) <==> 0 <= i < |sources| && Reaches(sources[i], a, [newTowers[t]], e)
    {
      assert [newTowers[t]][0] == newTowers[t];
    }
  }

  /** A hit in the first `m` new towers is a hit on one of those entries. */
  lemma PrefixHits(sources: seq<AuraSource>, newTowers: seq<TowerView>, m: nat, e: Entity)
    requires m <= |newTowers|
    ensures forall t, i, a :: TowerHit(sources, newTowers[..m], t, i, a, e) <==> t < m && TowerHit(sources, newTowers, t, i, a, e)
  {
  }

  /** The new-tower insertions are those of all new towers but the last,
      then those of the last. */
  lemma NewTowerInsertionsSplit(newTowers: seq<TowerView>, sources: seq<AuraSource>)
    requires 0 < |newTowers|
    ensures NewTowerInsertions(newTowers, sources)
         == NewTowerInsertions(newTowers[..|newTowers| - 1], sources) + NewAuraInsertions(sources, [newTowers[|newTowers| - 1]])
  {
    var n := |newTowers|;
    var p := newTowers[..n - 1];
    var tn := newTowers[n - 1];
    assert newTowers == p + [tn];
    NewTowerInsertionsAppend(p, [tn], sources);
    assert [tn][1..] == [];
    assert NewTowerInsertions([tn], sources) == NewAuraInsertions(sources, [tn]) + [];
  }

  /** Applying the new-tower insertions is applying those of all new towers
      but the last, then those of the last. */
  lemma NewTowerSplit(newTowers: seq<TowerView>, sources: seq<AuraSource>, buffs: BuffMap)
    requires 0 < |newTowers|
    ensures InsertAll(buffs, NewTowerInsertions(newTowers, sources))
         == InsertAll(InsertAll(buffs, NewTowerInsertions(newTowers[..|newTowers| - 1], sources)),
                      NewAuraInsertions(sources, [newTowers[|newTowers| - 1]]))
  {
    NewTowerInsertionsSplit(newTowers, sources);
    InsertAllAppend(buffs, NewTowerInsertions(newTowers[..|newTowers| - 1], sources), NewAuraInsertions(sources, [newTowers[|newTowers| - 1]]));
  }

  /** What the new-tower insertions leave at `e`: the value of the last
      triple to hit it, or `e` untouched when none does. */
  ghost predicate NewTowerOutcome(sources: seq<AuraSource>, newTowers: seq<TowerView>, buffs: BuffMap, r: BuffMap, e: Entity)
  {
    if Reached(sources, newTowers, e)
    then e in r && exists t, i, a :: LastTowerHit(sources, newTowers, e, t, i, a) && r[e] == sources[i].auras[a].kind.val
    else Untouched(buffs, r, e)
  }

  /** The inductive step of `NewTowerPassAt`: the outcome of all new towers
      but the last, followed by the last one's, is the outcome of them all. */
  lemma NewTowerStep(newTowers: seq<TowerView>, sources: seq<AuraSource>, buffs: BuffMap, mid: BuffMap, r: BuffMap, e: Entity)
    requires 0 < |newTowers|
    requires NewTowerOutcome(sources, newTowers[..|newTowers| - 1], buffs, mid, e)
    requires NewAuraOutcome(sources, [newTowers[|newTowers| - 1]], mid, r, e)
    ensures NewTowerOutcome(sources, newTowers, buffs, r, e)
  {
    var n := |newTowers|;
    var p := newTowers[..n - 1];
    var tn := newTowers[n - 1];
    ReachedIsTowerHit(sources, newTowers, e);
    ReachedIsTowerHit(sources, p, e);
    EntryHits(sources, newTowers, n - 1, e);
    PrefixHits(sources, newTowers, n - 1, e);
    if Reached(sources, [tn], e) {
      var i, a :| LastReaching(sources, [tn], e, i, a) && r[e] == sources[i].auras[a].kind.val;
      assert TowerHit(sources, newTowers, n - 1, i, a, e);
      assert LastTowerHit(sources, newTowers, e, n - 1, i, a);
    } else if Reached(sources, newTowers, e) {
      var t0, i0, a0 :| TowerHit(sources, newTowers, t0, i0, a0, e);
      assert TowerHit(sources, p, t0, i0, a0, e);
      var t, i, a :| LastTowerHit(sources, p, e, t, i, a) && mid[e] == sources[i].auras[a].kind.val;
      assert LastTowerHit(sources, newTowers, e, t, i, a);
    }
  }

  /** The new-tower insertions give every reached new tower the value of the
      last triple to hit it, and leave every other entity as it was. */
  lemma {:induction false} NewTowerPassAt(newTowers: seq<TowerView>, sources: seq<AuraSource>, buffs: BuffMap, e: Entity)
    ensures NewTowerOutcome(sources, newTowers, buffs, InsertAll(buffs, NewTowerInsertions(newTowers, sources)), e)
    decreases |newTowers|
  {
    var n := |newTowers|;
    if n == 0 {
      return;
    }
    var mid := InsertAll(buffs, NewTowerInsertions(newTowers[..n - 1], sources));
    NewTowerSplit(newTowers, sources, buffs);
    NewTowerPassAt(newTowers[..n - 1], sources, buffs, e);
    NewAuraPassAt(sources, [newTowers[n - 1]], mid, e);
    NewTowerStep(newTowers, sources, buffs, mid, InsertAll(mid, NewAuraInsertions(sources, [newTowers[n - 1]])), e);
  }

  /** The new-tower outcome at every entity at once. */
  lemma NewTowerPass(newTowers: seq<TowerView>, sources: seq<AuraSource>, buffs: BuffMap)
    ensures forall e :: NewTowerOutcome(sources, newTowers, buffs, InsertAll(buffs, NewTowerInsertions(newTowers, sources)), e)
  {
    forall e
      ensures NewTowerOutcome(sources, newTowers, buffs, InsertAll(buffs, NewTowerInsertions(newTowers, sources)), e)
    {
      NewTowerPassAt(newTowers, sources, buffs, e);
    }
  }

  /** `Auras::apply_aura_to_new_tower`: each newly added tower that an aura's
      range holds ends with the value of the last such aura in processing
      order; no other entity is touched. */
  function ApplyAuraToNewTower(newTowers: seq<TowerView>, sources: seq<AuraSource>, buffs: BuffMap): (r: BuffMap)
    ensures forall e :: NewTowerOutcome(sources, newTowers, buffs, r, e)
  {
    NewTowerPass(newTowers, sources, buffs);
    InsertAll(buffs, NewTowerInsertions(newTowers, sources))
  }

  /** A tower carrying an aura stands at distance 0 from it, so with a
      non-negative range it buffs itself. */
  lemma SelfBuff(t: TowerView, a: Aura, buffs: BuffMap)
    requires 0.0 <= a.range
    ensures t.id in ApplyNewAura([AuraSource(t.pos, [a])], [t], buffs)
    ensures ApplyNewAura([AuraSource(t.pos, [a])], [t], buffs)[t.id] == a.kind.val
  {
    var sources := [AuraSource(t.pos, [a])];
    var towers := [t];
    assert Covers(sources[0], 0, towers[0].pos) && towers[0].id == t.id;
    assert Reaches(sources[0], 0, towers, t.id);
    assert Reached(sources, towers, t.id);
    assert NewAuraOutcome(sources, towers, buffs, ApplyNewAura(sources, towers, buffs), t.id);
  }

  /** Insertion replaces: of two auras reaching one tower the one processed
      last decides its buff, even when it is the smaller one. */
  lemma LastAuraWins(p: Vec3)
    ensures var sources := [AuraSource(p, [Aura(10.0, AttackSpeed(0.35))]), AuraSource(p, [Aura(6.0, AttackSpeed(0.1))])];
      ApplyNewAura(sources, [TowerView(1, p)], map[]) == map[1 := 0.1]
  {
    var sources := [AuraSource(p, [Aura(10.0, AttackSpeed(0.35))]), AuraSource(p, [Aura(6.0, AttackSpeed(0.1))])];
    var towers := [TowerView(1, p)];
    assert Covers(sources[1], 0, towers[0].pos);
    assert Reaches(sources[1], 0, towers, 1);
    assert Reached(sources, towers, 1);
    var r := ApplyNewAura(sources, towers, map[]);
    assert NewAuraOutcome(sources, towers, map[], r, 1);
    var i, a :| LastReaching(sources, towers, 1, i, a) && r[1] == sources[i].auras[a].kind.val;
    assert i == 1 && a == 0;
    forall e | e in r
      ensures e == 1
    {
      assert NewAuraOutcome(sources, towers, map[], r, e);
      var i', a' :| 0 <= i' < |sources| && Reaches(sources[i'], a', towers, e);
    }
  }
}
