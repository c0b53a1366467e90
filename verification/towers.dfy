/** The placement rules of src/towers.rs: the gem-to-table dispatch, building
    2×2 gem holes, revealing them as random gems and choosing the one to keep. */
module Towers {
  import opened Common
  import opened Grids
  import opened Stats
  import SapphireTable = Sapphire
  import RubyTable = Ruby
  import OpalTable = Opal
  import AquamarineTable = Aquamarine
  import EmeraldTable = Emerald
  import AmethystTable = Amethyst
  import TopazTable = Topaz

  /** `Gem::tower`: the table of the gem's type at the gem's quality. The
      Diamond table is not part of this model and is passed in. */
  function GemTower(g: Gem, diamond: Quality -> TowerBundle): (r: TowerBundle)
    ensures g.kind == GemType.Diamond ==> r == diamond(g.quality)
    ensures g.kind != GemType.Diamond ==> WellFormed(r)
    ensures g.kind != GemType.Diamond && r.auras != [] ==> g.kind == GemType.Opal
    ensures g.kind != GemType.Diamond && r.abilities != [] ==> g.kind == GemType.Sapphire || g.kind == GemType.Ruby
  {
    match g.kind
    case Diamond => diamond(g.quality)
    case Aquamarine => AquamarineTable.Tower(g.quality)
    case Ruby => RubyTable.Tower(g.quality)
    case Emerald => EmeraldTable.Tower(g.quality)
    case Sapphire => SapphireTable.Tower(g.quality)
    case Topaz => TopazTable.Tower(g.quality)
    case Opal => OpalTable.Tower(g.quality)
    case Amethyst => AmethystTable.Tower(g.quality)
  }

  /** Every shown table is graded: for a fixed type, a better quality always
      outclasses a worse one. */
  lemma ShownTablesGraded(kind: GemType, diamond: Quality -> TowerBundle)
    requires kind != GemType.Diamond
    ensures Graded(q => GemTower(Gem(q, kind), diamond))
  {
    match kind
    case Aquamarine => AquamarineTable.TableGraded();
    case Ruby => RubyTable.TableGraded();
    case Emerald => EmeraldTable.TableGraded();
    case Sapphire => SapphireTable.TableGraded();
    case Topaz => TopazTable.TableGraded();
    case Opal => OpalTable.TableGraded();
    case Amethyst => AmethystTable.TableGraded();
  }

  /** The 2×2 block of cells a gem hole at `p` covers. */
  function Footprint(p: Cell): (r: seq<Cell>)
    ensures |r| == 4 && r[0] == p
  {
    [p, (p.0 + 1, p.1), (p.0, p.1 + 1), (p.0 + 1, p.1 + 1)]
  }

  /** The footprint is exactly the 2×2 square with `p` as its low corner, and
      its four cells are distinct. */
  lemma FootprintCells(p: Cell)
    ensures forall c :: c in Footprint(p) <==> p.0 <= c.0 <= p.0 + 1 && p.1 <= c.1 <= p.1 + 1
    ensures forall i, j :: 0 <= i < j < 4 ==> Footprint(p)[i] != Footprint(p)[j]
  {
  }

  /** Two holes collide exactly when their corners are at most one cell
      apart on both axes. */
  lemma FootprintsOverlap(p: Cell, q: Cell)
    ensures (exists c :: c in Footprint(p) && c in Footprint(q))
        <==> -1 <= p.0 - q.0 <= 1 && -1 <= p.1 - q.1 <= 1
  {
    if -1 <= p.0 - q.0 <= 1 && -1 <= p.1 - q.1 <= 1 {
      var c := (if p.0 < q.0 then q.0 else p.0, if p.1 < q.1 then q.1 else p.1);
      assert c in Footprint(p) && c in Footprint(q);
    }
  }

  /** The grid after a batch of `BuildGem` events, and the corners of the holes
      built, in event order. The k-th hole built is entity `next + k`. */
  datatype Batch = Batch(grid: Grid, sites: seq<Cell>)

  /** Entity `e` holds every cell of the hole at `p`. */
  ghost predicate Owns(g: Grid, e: Entity, p: Cell)
  {
    var fp := Footprint(p);
    Holds(g, e, fp[0]) && Holds(g, e, fp[1]) && Holds(g, e, fp[2]) && Holds(g, e, fp[3])
  }

  /** Entity `e` holds cell `c`. */
  ghost predicate Holds(g: Grid, e: Entity, c: Cell)
  {
    c in g.slots && g.slots[c] == Occupied(e)
  }

  /** The grid `add_building` leaves when the hole at `p` is free: its four
      cells go to entity `e`. */
  function Place(g: Grid, p: Cell, e: Entity): Grid
  {
    var fp := Footprint(p);
    Grid(g.slots[fp[0] := Occupied(e)][fp[1] := Occupied(e)][fp[2] := Occupied(e)][fp[3] := Occupied(e)])
  }

  /** On a free footprint, `add_building` succeeds and leaves exactly the grid
      `Place` describes. */
  lemma PlaceIsAddBuilding(g: Grid, p: Cell, e: Entity)
    requires Buildable(g, Footprint(p))
    ensures AddBuilding(g, Footprint(p), e) == Outcome(Place(g, p, e), true)
  {
    var fp := Footprint(p);
    var o := Occupied(e);
    var g1 := Grid(g.slots[fp[0] := o]);
    var g2 := Grid(g1.slots[fp[1] := o]);
    var g3 := Grid(g2.slots[fp[2] := o]);
    var g4 := Grid(g3.slots[fp[3] := o]);
    assert fp[1..][0] == fp[1] && fp[1..][1..] == fp[2..];
    assert fp[2..][0] == fp[2] && fp[2..][1..] == fp[3..];
    assert fp[3..][0] == fp[3] && fp[3..][1..] == [];
    assert InsertAll(g4, [], e) == g4;
    assert InsertAll(g3, fp[3..], e) == g4;
    assert InsertAll(g2, fp[2..], e) == g4;
    assert InsertAll(g1, fp[1..], e) == g4;
  }

  /** Placing a hole gives its entity all four of its cells. */
  lemma PlaceOwns(g: Grid, p: Cell, e: Entity)
    ensures Owns(Place(g, p, e), e, p)
  {
  }

  /** Placing a hole on a free footprint leaves every taken cell as it was. */
  lemma PlaceKeeps(g: Grid, p: Cell, e: Entity)
    requires Buildable(g, Footprint(p))
    ensures forall c :: c in g.slots ==> c in Place(g, p, e).slots && Place(g, p, e).slots[c] == g.slots[c]
  {
    var fp := Footprint(p);
    assert forall i :: 0 <= i < 4 ==> fp[i] !in g.slots;
  }

  /** A cell that placing a hole newly takes is one of the hole's cells. */
  lemma PlaceAdds(g: Grid, p: Cell, e: Entity, c: Cell)
    requires c in Place(g, p, e).slots && c !in g.slots
    ensures c in Footprint(p)
  {
    var fp := Footprint(p);
    assert c == fp[0] || c == fp[1] || c == fp[2] || c == fp[3];
  }

  /** Holes owned by two different entities share no cell. */
  lemma OwnedApart(g: Grid, e1: Entity, p1: Cell, e2: Entity, p2: Cell, c: Cell)
    requires Owns(g, e1, p1) && Owns(g, e2, p2) && e1 != e2
    ensures !(c in Footprint(p1) && c in Footprint(p2))
  {
    if c in Footprint(p1) && c in Footprint(p2) {
      OwnsHolds(g, e1, p1, c);
      OwnsHolds(g, e2, p2, c);
    }
  }

  /** A cell of an owned hole is held by its owner. */
  lemma OwnsHolds(g: Grid, e: Entity, p: Cell, c: Cell)
    requires Owns(g, e, p) && c in Footprint(p)
    ensures Holds(g, e, c)
  {
    var fp := Footprint(p);
    assert c == fp[0] || c == fp[1] || c == fp[2] || c == fp[3];
  }

  /** `build_gem`: each event whose footprint is free spawns a fresh
      `JustBuilt` entity that takes all four cells; any other event is
      skipped. Events see the grid left by the ones before them. Cells taken
      before the batch are never touched, and the k-th hole built holds all
      four of its cells as entity `next + k`. */
  function BuildGem(g: Grid, events: seq<Cell>, next: Entity): (r: Batch)
    ensures |r.sites| <= |events|
    ensures forall k :: 0 <= k < |r.sites| ==> r.sites[k] in events
    ensures forall c :: c in g.slots ==> c in r.grid.slots && r.grid.slots[c] == g.slots[c]
    ensures forall k :: 0 <= k < |r.sites| ==> Owns(r.grid, next + k, r.sites[k])
    decreases |events|
  {
    if |events| == 0 then Batch(g, [])
    else if Buildable(g, Footprint(events[0])) then
      PlaceKeeps(g, events[0], next);
      PlaceOwns(g, events[0], next);
      var rest := BuildGem(Place(g, events[0], next), events[1..], next + 1);
      assert forall k :: 0 <= k < |rest.sites| ==> rest.sites[k] in events[1..];
      var r := Batch(rest.grid, [events[0]] + rest.sites);
      assert forall k :: 0 < k < |r.sites| ==> r.sites[k] == rest.sites[k - 1];
      r
    else
      var rest := BuildGem(g, events[1..], next);
      assert forall k :: 0 <= k < |rest.sites| ==> rest.sites[k] in events[1..];
      rest
  }

  /** An event whose footprint is free builds the first hole of the batch and
      leaves the rest of the batch to the grid it produced. */
  lemma BuildGemBuilds(g: Grid, events: seq<Cell>, next: Entity)
    requires 0 < |events| && Buildable(g, Footprint(events[0]))
    ensures var rest := BuildGem(Place(g, events[0], next), events[1..], next + 1);
      BuildGem(g, events, next) == Batch(rest.grid, [events[0]] + rest.sites)
  {
  }

  /** An event whose footprint is taken is skipped. */
  lemma BuildGemSkips(g: Grid, events: seq<Cell>, next: Entity)
    requires 0 < |events| && !Buildable(g, Footprint(events[0]))
    ensures BuildGem(g, events, next) == BuildGem(g, events[1..], next)
  {
  }

  /** Every cell a batch takes lies in the footprint of a hole it built. */
  lemma {:induction false} NewCellsAreHoles(g: Grid, events: seq<Cell>, next: Entity, c: Cell)
    requires c in BuildGem(g, events, next).grid.slots && c !in g.slots
    ensures exists k :: 0 <= k < |BuildGem(g, events, next).sites| && c in Footprint(BuildGem(g, events, next).sites[k])
    decreases |events|, 1
  {
    assert |events| > 0;
    if Buildable(g, Footprint(events[0])) {
      NewCellOfBuiltBatch(g, events, next, c);
    } else {
      BuildGemSkips(g, events, next);
      NewCellsAreHoles(g, events[1..], next, c);
    }
  }

  /** `NewCellsAreHoles` when the first event builds: the cell is either one
      of the first hole's or one a later hole took. */
  lemma NewCellOfBuiltBatch(g: Grid, events: seq<Cell>, next: Entity, c: Cell)
    requires 0 < |events| && Buildable(g, Footprint(events[0]))
    requires c in BuildGem(g, events, next).grid.slots && c !in g.slots
    ensures exists k :: 0 <= k < |BuildGem(g, events, next).sites| && c in Footprint(BuildGem(g, events, next).sites[k])
    decreases |events|, 0
  {
    var placed := Place(g, events[0], next);
    var rest := BuildGem(placed, events[1..], next + 1);
    var b := BuildGem(g, events, next);
    BuildGemBuilds(g, events, next);
    if c in placed.slots {
      PlaceAdds(g, events[0], next, c);
      assert b.sites[0] == events[0];
    } else {
      NewCellsAreHoles(placed, events[1..], next + 1, c);
      var k :| 0 <= k < |rest.sites| && c in Footprint(rest.sites[k]);
      assert b.sites[k + 1] == rest.sites[k];
    }
  }

  /** A single event builds exactly when its whole footprint is free. */
  lemma BuildsIffFree(g: Grid, p: Cell, next: Entity)
    ensures BuildGem(g, [p], next).sites == [p] <==> Buildable(g, Footprint(p))
    ensures !Buildable(g, Footprint(p)) ==> BuildGem(g, [p], next) == Batch(g, [])
  {
    assert [p][1..] == [];
  }

  /** One event on top of a batch: it builds the next hole, numbered after
      the holes already built, exactly when its footprint is free in the grid
      the batch left; otherwise it changes nothing. */
  function Then(b: Batch, p: Cell, next: Entity): Batch
  {
    if Buildable(b.grid, Footprint(p)) then Batch(Place(b.grid, p, next + |b.sites|), b.sites + [p])
    else b
  }

  /** Events are handled one after another: the batch of `xs + [p]` is the
      batch of `xs` followed by the event `p`. */
  lemma {:induction false} BuildGemSnoc(g: Grid, xs: seq<Cell>, p: Cell, next: Entity)
    ensures BuildGem(g, xs + [p], next) == Then(BuildGem(g, xs, next), p, next)
    decreases |xs|, 1
  {
    if |xs| == 0 {
      assert xs + [p] == [p];
      assert [p][1..] == [];
    } else if Buildable(g, Footprint(xs[0])) {
      SnocBuilt(g, xs, p, next);
    } else {
      assert (xs + [p])[0] == xs[0];
      assert (xs + [p])[1..] == xs[1..] + [p];
      BuildGemSkips(g, xs + [p], next);
      BuildGemSkips(g, xs, next);
      BuildGemSnoc(g, xs[1..], p, next);
    }
  }

  /** `BuildGemSnoc` when the first event builds. */
  lemma SnocBuilt(g: Grid, xs: seq<Cell>, p: Cell, next: Entity)
    requires 0 < |xs| && Buildable(g, Footprint(xs[0]))
    ensures BuildGem(g, xs + [p], next) == Then(BuildGem(g, xs, next), p, next)
    decreases |xs|, 0
  {
    assert (xs + [p])[0] == xs[0];
    assert (xs + [p])[1..] == xs[1..] + [p];
    var placed := Place(g, xs[0], next);
    BuildGemBuilds(g, xs + [p], next);
    BuildGemBuilds(g, xs, next);
    BuildGemSnoc(placed, xs[1..], p, next + 1);
    ThenShift([xs[0]], BuildGem(placed, xs[1..], next + 1), p, next);
  }

  /** `Then` on a batch with holes `pre` in front sees the same grid and
      numbers its hole after them. */
  lemma ThenShift(pre: seq<Cell>, t: Batch, p: Cell, next: Entity)
    ensures Then(Batch(t.grid, pre + t.sites), p, next)
         == Batch(Then(t, p, next + |pre|).grid, pre + Then(t, p, next + |pre|).sites)
  {
    assert (pre + t.sites) + [p] == pre + (t.sites + [p]);
  }

  /** The events `ys` one after another on top of batch `b`, each seeing the
      grid the ones before it left. */
  function ThenAll(b: Batch, ys: seq<Cell>, next: Entity): Batch
    decreases |ys|
  {
    if |ys| == 0 then b else ThenAll(Then(b, ys[0], next), ys[1..], next)
  }

  /** A batch split in two is the first part, then the events of the second
      part one at a time on the batch the first part left. */
  lemma {:induction false} BuildGemAppend(g: Grid, xs: seq<Cell>, ys: seq<Cell>, next: Entity)
    ensures BuildGem(g, xs + ys, next) == ThenAll(BuildGem(g, xs, next), ys, next)
    decreases |ys|
  {
    if |ys| == 0 {
      assert xs + ys == xs;
    } else {
      assert xs + ys == (xs + [ys[0]]) + ys[1..];
      BuildGemSnoc(g, xs, ys[0], next);
      BuildGemAppend(g, xs + [ys[0]], ys[1..], next);
    }
  }

  /** `build_gem` is the left fold of its events over the grid: every batch
      is the empty batch followed by its events one at a time. */
  lemma BuildGemIsFold(g: Grid, events: seq<Cell>, next: Entity)
    ensures BuildGem(g, events, next) == ThenAll(Batch(g, []), events, next)
  {
    BuildGemAppend(g, [], events, next);
    assert [] + events == events;
  }

  /** `ThenAll` on a batch with holes `pre` in front sees the same grids and
      numbers its holes after them. */
  lemma {:induction false} ThenAllShift(pre: seq<Cell>, t: Batch, ys: seq<Cell>, next: Entity)
    ensures ThenAll(Batch(t.grid, pre + t.sites), ys, next)
         == Batch(ThenAll(t, ys, next + |pre|).grid, pre + ThenAll(t, ys, next + |pre|).sites)
    decreases |ys|
  {
    if |ys| > 0 {
      ThenShift(pre, t, ys[0], next);
      ThenAllShift(pre, Then(t, ys[0], next + |pre|), ys[1..], next);
    }
  }

  /** Folding events onto a batch `a` is folding them onto an empty batch
      on `a`'s grid, numbered after `a`'s holes, with `a`'s holes in front. */
  lemma FoldAfter(a: Batch, ys: seq<Cell>, next: Entity, b: Batch)
    requires b == ThenAll(Batch(a.grid, []), ys, next + |a.sites|)
    ensures ThenAll(a, ys, next) == Batch(b.grid, a.sites + b.sites)
  {
    ThenAllShift(a.sites, Batch(a.grid, []), ys, next);
    assert a.sites + [] == a.sites;
  }

  /** An event is built exactly when its whole footprint is free in the grid
      the events before it left; otherwise it changes nothing. */
  lemma BuildsIffFreeAfter(g: Grid, xs: seq<Cell>, p: Cell, next: Entity)
    ensures BuildGem(g, xs + [p], next).sites == BuildGem(g, xs, next).sites + [p]
        <==> Buildable(BuildGem(g, xs, next).grid, Footprint(p))
    ensures !Buildable(BuildGem(g, xs, next).grid, Footprint(p)) ==> BuildGem(g, xs + [p], next) == BuildGem(g, xs, next)
  {
    BuildGemSnoc(g, xs, p, next);
    var a := BuildGem(g, xs, next);
    assert |a.sites + [p]| != |a.sites|;
  }

  /** Holes built in one batch never share a cell. */
  lemma BatchHolesDisjoint(g: Grid, events: seq<Cell>, next: Entity, k1: int, k2: int, c: Cell)
    requires 0 <= k1 < k2 < |BuildGem(g, events, next).sites|
    ensures !(c in Footprint(BuildGem(g, events, next).sites[k1]) && c in Footprint(BuildGem(g, events, next).sites[k2]))
  {
    var r := BuildGem(g, events, next);
    OwnedApart(r.grid, next + k1, r.sites[k1], next + k2, r.sites[k2], c);
  }

  /** The components of a gem-hole entity that the choosing phase reads and
      writes: the `JustBuilt` tag, the `Gem`, the tower bundle, and the
      `Tower` and `Rock` tags. */
  datatype Piece = Piece(justBuilt: bool, gem: Option<Gem>, bundle: Option<TowerBundle>, tower: bool, rock: bool)

  type World = map<Entity, Piece>

  /** A piece whose bundle is the one its gem's table gives. */
  predicate Consistent(p: Piece, diamond: Quality -> TowerBundle)
  {
    p.gem.Some? && p.tower && p.bundle == Some(GemTower(p.gem.value, diamond))
  }

  /** `reveal_gems`: every `JustBuilt` entity gets the gem `roll` draws for it,
      that gem's tower bundle and the `Tower` tag. */
  function Reveal(w: World, roll: Entity -> Gem, diamond: Quality -> TowerBundle): (r: World)
    ensures r.Keys == w.Keys
    ensures forall e :: e in w && w[e].justBuilt ==> r[e].justBuilt && r[e].gem == Some(roll(e)) && Consistent(r[e], diamond)
    ensures forall e :: e in w && !w[e].justBuilt ==> r[e] == w[e]
  {
    map e | e in w :: if w[e].justBuilt then w[e].(gem := Some(roll(e)), bundle := Some(GemTower(roll(e), diamond)), tower := true) else w[e]
  }

  /** The piece an unchosen hole becomes: a plain rock. */
  const RockPiece: Piece := Piece(false, None, None, false, true)

  /** `choose_gem` for one event at `pos`: unless the cell belongs to a
      `JustBuilt` entity nothing happens; otherwise that entity keeps its gem,
      every other `JustBuilt` entity turns into a rock, and all of them lose
      `JustBuilt`. */
  function ChooseGem(w: World, g: Grid, pos: Cell): (r: World)
    ensures r.Keys == w.Keys
    ensures (Occupant(g, pos).None? || Occupant(g, pos).value !in w || !w[Occupant(g, pos).value].justBuilt) ==> r == w
    ensures forall e :: e in w && !w[e].justBuilt ==> r[e] == w[e]
    ensures Occupant(g, pos).Some? && Occupant(g, pos).value in w && w[Occupant(g, pos).value].justBuilt ==>
      && (forall e :: e in r ==> !r[e].justBuilt)
      && r[Occupant(g, pos).value] == w[Occupant(g, pos).value].(justBuilt := false)
      && (forall e :: e in w && w[e].justBuilt && e != Occupant(g, pos).value ==> r[e] == RockPiece)
  {
    match Occupant(g, pos)
    case None => w
    case Some(chosen) =>
      if chosen !in w || !w[chosen].justBuilt then w
      else map e | e in w :: if !w[e].justBuilt then w[e] else if e == chosen then w[e].(justBuilt := false) else RockPiece
  }

  /** After revealing a batch and choosing one of its holes, exactly that
      hole is left holding a gem and a tower, with the bundle its gem
      dictates; no hole of the batch is still waiting to be chosen. */
  lemma ExactlyOneGemKept(w: World, roll: Entity -> Gem, diamond: Quality -> TowerBundle, g: Grid, pos: Cell, chosen: Entity)
    requires Occupant(g, pos) == Some(chosen)
    requires chosen in w && w[chosen].justBuilt
    ensures var r := ChooseGem(Reveal(w, roll, diamond), g, pos);
            && (forall e :: e in w && w[e].justBuilt ==> (r[e].gem.Some? <==> e == chosen))
            && Consistent(r[chosen], diamond)
            && r[chosen].gem == Some(roll(chosen))
            && (forall e :: e in r ==> !r[e].justBuilt)
  {
    var v := Reveal(w, roll, diamond);
    assert v[chosen].justBuilt;
  }
}
