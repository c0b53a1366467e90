/** The placement grid of src/grid.rs: a finite map from integer cells to
    what occupies them. A cell that is not a key is free. */
module Grids {
  import opened Common

  type Cell = (int, int)

  /** `Slot`: a cell taken by a building entity, or blocked terrain. */
  datatype Slot = Occupied(entity: Entity) | Blocked

  /** `Grid(HashMap<(i32, i32), Slot>)`. */
  datatype Grid = Grid(slots: map<Cell, Slot>)

  /** A mutating call on the grid: the grid afterwards and whether the call
      returned `Ok(())`. */
  datatype Outcome = Outcome(after: Grid, ok: bool)

  function Empty(): Grid
  {
    Grid(map[])
  }

  predicate Free(g: Grid, p: Cell)
  {
    p !in g.slots
  }

  /** `Grid::buildable`: scans the cells in order and stops at the first taken one. */
  function Buildable(g: Grid, ps: seq<Cell>): (r: bool)
    ensures r <==> forall i :: 0 <= i < |ps| ==> Free(g, ps[i])
  {
    if |ps| == 0 then true
    else if ps[0] in g.slots then false
    else Buildable(g, ps[1..])
  }

  /** The insertion loop of `add_building`, one cell after another. */
  function InsertAll(g: Grid, ps: seq<Cell>, e: Entity): (r: Grid)
    ensures forall p :: p in ps ==> p in r.slots && r.slots[p] == Occupied(e)
    ensures forall p :: p !in ps ==> (p in r.slots <==> p in g.slots)
    ensures forall p :: p !in ps && p in g.slots ==> r.slots[p] == g.slots[p]
    decreases |ps|
  {
    if |ps| == 0 then g
    else InsertAll(Grid(g.slots[ps[0] := Occupied(e)]), ps[1..], e)
  }

  /** `Grid::add_building`: all cells or none. */
  function AddBuilding(g: Grid, ps: seq<Cell>, e: Entity): (r: Outcome)
    ensures r.ok <==> forall i :: 0 <= i < |ps| ==> Free(g, ps[i])
    ensures !r.ok ==> r.after == g
    ensures r.ok ==> forall p :: p in ps ==> p in r.after.slots && r.after.slots[p] == Occupied(e)
    ensures forall p :: p !in ps ==> (p in r.after.slots <==> p in g.slots)
    ensures forall p :: p !in ps && p in g.slots ==> r.after.slots[p] == g.slots[p]
  {
    if Buildable(g, ps) then Outcome(InsertAll(g, ps, e), true)
    else Outcome(g, false)
  }

  /** `Grid::clear`. */
  function Clear(g: Grid): (r: Grid)
    ensures forall p :: Free(r, p)
  {
    Empty()
  }

  /** `Grid::block`: marks one free cell as blocked terrain. */
  function Block(g: Grid, p: Cell): (r: Outcome)
    ensures r.ok <==> Free(g, p)
    ensures r.ok ==> p in r.after.slots && r.after.slots[p] == Blocked
    ensures !r.ok ==> r.after == g
    ensures forall q :: q != p ==> (q in r.after.slots <==> q in g.slots)
    ensures forall q :: q != p && q in g.slots ==> r.after.slots[q] == g.slots[q]
  {
    if Buildable(g, [p]) then Outcome(Grid(g.slots[p := Blocked]), true)
    else Outcome(g, false)
  }

  /** The lookup `Grid::get` used when choosing a gem: the entity occupying
      the cell, if any. */
  function Occupant(g: Grid, p: Cell): (r: Option<Entity>)
    ensures r.Some? <==> p in g.slots && g.slots[p].Occupied?
    ensures r.Some? ==> g.slots[p] == Occupied(r.value)
  {
    if p in g.slots && g.slots[p].Occupied? then Some(g.slots[p].entity) else None
  }

  /** The empty cell list is buildable on any grid. */
  lemma EmptyListBuildable(g: Grid)
    ensures Buildable(g, [])
  {
  }

  /** After `clear`, every list of cells is buildable. */
  lemma ClearedIsBuildable(g: Grid, ps: seq<Cell>)
    ensures Buildable(Clear(g), ps)
  {
  }

  /** After a successful `add_building`, a second one that shares a cell fails
      and leaves the grid as the first left it. */
  lemma {:induction false} OverlappingBuildFails(g: Grid, ps: seq<Cell>, e: Entity, qs: seq<Cell>, e2: Entity, p: Cell)
    requires AddBuilding(g, ps, e).ok
    requires p in ps && p in qs
    ensures !AddBuilding(AddBuilding(g, ps, e).after, qs, e2).ok
    ensures AddBuilding(AddBuilding(g, ps, e).after, qs, e2).after == AddBuilding(g, ps, e).after
  {
    var g1 := AddBuilding(g, ps, e).after;
    assert p in g1.slots;
    var i :| 0 <= i < |qs| && qs[i] == p;
    assert !Free(g1, qs[i]);
  }

  /** A blocked cell can no longer be built on. */
  lemma {:induction false} BlockedCellNotBuildable(g: Grid, p: Cell, ps: seq<Cell>)
    requires Block(g, p).ok
    requires p in ps
    ensures !Buildable(Block(g, p).after, ps)
  {
    var i :| 0 <= i < |ps| && ps[i] == p;
    assert !Free(Block(g, p).after, ps[i]);
  }
}
