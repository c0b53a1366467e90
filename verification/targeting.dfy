/** Target selection of src/towers.rs: nearest creep in range, every creep or
    tower in range, and the sticky per-tower target of `pick_target`. A query
    is a sequence in iteration order. */
module Targeting {
  import opened Common
  import opened Geometry
  import opened Creeps

  /** A row of the creep query `(Entity, &GlobalTransform, &creeps::Type)`. */
  datatype CreepView = CreepView(id: Entity, pos: Vec3, kind: CreepKind)

  /** A row of the tower query `(Entity, &GlobalTransform)`. */
  datatype TowerView = TowerView(id: Entity, pos: Vec3)

  /** The type filter: `None` lets every creep through, `Some(t)` only type `t`. */
  predicate Passes(filter: Option<CreepKind>, c: CreepView)
  {
    filter.None? || filter.value == c.kind
  }

  /** `k` is the first creep, in iteration order, among those passing the
      filter, whose squared distance to `pos` is minimal. */
  ghost predicate IsFirstNearest(cs: seq<CreepView>, pos: Vec3, filter: Option<CreepKind>, k: int)
  {
    && 0 <= k < |cs|
    && Passes(filter, cs[k])
    && (forall j :: 0 <= j < |cs| && Passes(filter, cs[j]) ==> DistSq(cs[k].pos, pos) <= DistSq(cs[j].pos, pos))
    && (forall j :: 0 <= j < k && Passes(filter, cs[j]) ==> DistSq(cs[k].pos, pos) < DistSq(cs[j].pos, pos))
  }

  /** The scan loop of `get_closest_creep_within_range` over the first |cs|
      creeps: a creep replaces the current best only when strictly closer. */
  function NearestIndex(cs: seq<CreepView>, pos: Vec3, filter: Option<CreepKind>): (r: Option<nat>)
    ensures r.None? <==> forall j :: 0 <= j < |cs| ==> !Passes(filter, cs[j])
    ensures r.Some? ==> IsFirstNearest(cs, pos, filter, r.value)
    decreases |cs|
  {
    if |cs| == 0 then None
    else
      var n := |cs| - 1;
      var best := NearestIndex(cs[..n], pos, filter);
      if Passes(filter, cs[n]) && (best.None? || DistSq(cs[n].pos, pos) < DistSq(cs[best.value].pos, pos))
      then Some(n)
      else best
  }

  /** There is only one first nearest creep. */
  lemma FirstNearestUnique(cs: seq<CreepView>, pos: Vec3, filter: Option<CreepKind>, k1: int, k2: int)
    requires IsFirstNearest(cs, pos, filter, k1) && IsFirstNearest(cs, pos, filter, k2)
    ensures k1 == k2
  {
  }

  /** `get_closest_creep_within_range`: the first nearest creep passing the
      filter, but only when its squared distance is strictly below range². */
  function ClosestCreepWithinRange(cs: seq<CreepView>, pos: Vec3, range: real, filter: Option<CreepKind>): (r: Option<Entity>)
    ensures (forall j :: 0 <= j < |cs| ==> !Passes(filter, cs[j])) ==> r.None?
    ensures forall k :: IsFirstNearest(cs, pos, filter, k) ==>
      r == (if DistSq(cs[k].pos, pos) < range * range then Some(cs[k].id) else None)
    ensures r.Some? ==> exists k :: IsFirstNearest(cs, pos, filter, k) && cs[k].id == r.value
                                    && DistSq(cs[k].pos, pos) < range * range
  {
    match NearestIndex(cs, pos, filter)
    case None => None
    case Some(k) =>
      FirstNearestUniqueAll(cs, pos, filter, k);
      if DistSq(cs[k].pos, pos) >= range * range then None else Some(cs[k].id)
  }

  lemma FirstNearestUniqueAll(cs: seq<CreepView>, pos: Vec3, filter: Option<CreepKind>, k: int)
    requires IsFirstNearest(cs, pos, filter, k)
    ensures forall k' :: IsFirstNearest(cs, pos, filter, k') ==> k' == k
  {
    forall k' | IsFirstNearest(cs, pos, filter, k')
      ensures k' == k
    {
      FirstNearestUnique(cs, pos, filter, k, k');
    }
  }

  /** A creep closer than the chosen one can only be one the filter rejects,
      and the chosen creep has the filter's type. */
  lemma ClosestIsNearestPassing(cs: seq<CreepView>, pos: Vec3, range: real, filter: Option<CreepKind>, e: Entity, j: int)
    requires ClosestCreepWithinRange(cs, pos, range, filter) == Some(e)
    requires 0 <= j < |cs| && Passes(filter, cs[j])
    ensures exists k :: 0 <= k < |cs| && cs[k].id == e && Passes(filter, cs[k])
                        && DistSq(cs[k].pos, pos) <= DistSq(cs[j].pos, pos)
                        && DistSq(cs[k].pos, pos) < range * range
  {
  }

  /** `get_all_creeps_within_range`: the creeps that pass `within` and the
      filter, in iteration order. */
  function AllCreepsWithinRange(cs: seq<CreepView>, pos: Vec3, range: real, filter: Option<CreepKind>): (r: seq<Entity>)
    ensures |r| <= |cs|
    ensures forall e :: e in r <==>
      exists i :: 0 <= i < |cs| && cs[i].id == e && Within(range, cs[i].pos, pos) && Passes(filter, cs[i])
  {
    if |cs| == 0 then []
    else
      var rest := AllCreepsWithinRange(cs[1..], pos, range, filter);
      assert forall i :: 0 < i < |cs| ==> cs[i] == cs[1..][i - 1];
      if Within(range, cs[0].pos, pos) && Passes(filter, cs[0]) then [cs[0].id] + rest else rest
  }

  /** The selection keeps iteration order: selecting from two runs of the
      query one after the other is selecting from each and appending. */
  lemma {:induction false} AllCreepsWithinRangeAppend(cs1: seq<CreepView>, cs2: seq<CreepView>, pos: Vec3, range: real, filter: Option<CreepKind>)
    ensures AllCreepsWithinRange(cs1 + cs2, pos, range, filter)
         == AllCreepsWithinRange(cs1, pos, range, filter) + AllCreepsWithinRange(cs2, pos, range, filter)
  {
    if |cs1| > 0 {
      assert (cs1 + cs2)[1..] == cs1[1..] + cs2;
      AllCreepsWithinRangeAppend(cs1[1..], cs2, pos, range, filter);
    } else {
      assert cs1 + cs2 == cs2;
    }
  }

  /** `get_all_towers_within_range`: the towers inside the range around
      `pos`, in iteration order. */
  function AllTowersWithinRange(ts: seq<TowerView>, pos: Vec3, range: real): (r: seq<Entity>)
    ensures |r| <= |ts|
    ensures forall e :: e in r <==> exists i :: 0 <= i < |ts| && ts[i].id == e && Within(range, ts[i].pos, pos)
  {
    if |ts| == 0 then []
    else
      var rest := AllTowersWithinRange(ts[1..], pos, range);
      assert forall i :: 0 < i < |ts| ==> ts[i] == ts[1..][i - 1];
      if Within(range, ts[0].pos, pos) then [ts[0].id] + rest else rest
  }

  /** The tower selection keeps iteration order: selecting from two runs of
      the query one after the other is selecting from each and appending. */
  lemma {:induction false} AllTowersWithinRangeAppend(ts1: seq<TowerView>, ts2: seq<TowerView>, pos: Vec3, range: real)
    ensures AllTowersWithinRange(ts1 + ts2, pos, range)
         == AllTowersWithinRange(ts1, pos, range) + AllTowersWithinRange(ts2, pos, range)
  {
    if |ts1| > 0 {
      assert (ts1 + ts2)[1..] == ts1[1..] + ts2;
      AllTowersWithinRangeAppend(ts1[1..], ts2, pos, range);
    } else {
      assert ts1 + ts2 == ts2;
    }
  }

  /** Where the creep query puts entity `e`, if it holds it. */
  function Lookup(cs: seq<CreepView>, e: Entity): (r: Option<Vec3>)
    ensures r.Some? <==> exists i :: 0 <= i < |cs| && cs[i].id == e
    ensures r.Some? ==> exists i :: 0 <= i < |cs| && cs[i].id == e && cs[i].pos == r.value
  {
    if |cs| == 0 then None
    else if cs[0].id == e then Some(cs[0].pos)
    else
      assert forall i :: 0 < i < |cs| ==> cs[i] == cs[1..][i - 1];
      Lookup(cs[1..], e)
  }

  /** `pick_target` for one tower. A held target is kept while it still
      exists and is `within` range, and otherwise dropped without picking a
      new one on the same tick; an empty slot takes the closest creep of any
      type. */
  function PickTarget(target: Option<Entity>, towerPos: Vec3, range: real, cs: seq<CreepView>): (r: Option<Entity>)
    ensures target.Some? ==> r == target || r.None?
    ensures target.Some? ==>
      (r == target <==> Lookup(cs, target.value).Some? && Within(range, Lookup(cs, target.value).value, towerPos))
    ensures target.None? ==> r == ClosestCreepWithinRange(cs, towerPos, range, None)
  {
    match target
    case Some(t) =>
      (match Lookup(cs, t)
       case Some(p) => if !Within(range, p, towerPos) then None else target
       case None => None)
    case None => ClosestCreepWithinRange(cs, towerPos, range, None)
  }

  /** A target that has left the query is forgotten. */
  lemma DespawnedTargetDropped(t: Entity, towerPos: Vec3, range: real, cs: seq<CreepView>)
    requires forall i :: 0 <= i < |cs| ==> cs[i].id != t
    ensures PickTarget(Some(t), towerPos, range, cs) == None
  {
  }

  /** The two range tests disagree: a creep acquired by the circular
      `distance² < range²` test may be dropped on the very next tick by the
      half-width box of `within`, then acquired again on the tick after. */
  lemma AcquiredTargetMayBeDroppedNextTick()
    ensures var tower := Vec3(0.0, 0.0, 0.0);
      var cs := [CreepView(7, Vec3(3.0, 0.0, 0.0), Ground)];
      && PickTarget(None, tower, 4.0, cs) == Some(7)
      && PickTarget(Some(7), tower, 4.0, cs) == None
  {
    var tower := Vec3(0.0, 0.0, 0.0);
    var cs := [CreepView(7, Vec3(3.0, 0.0, 0.0), Ground)];
    assert IsFirstNearest(cs, tower, None, 0);
  }
}
