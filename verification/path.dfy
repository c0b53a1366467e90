/** Route resolution of src/path.rs: one breadth-first search per pair of
    consecutive waypoints, the legs appended in order. The search itself
    (pathfinding's `bfs`) is a parameter with the same shape. */
module Path {
  import opened Common
  import opened Grids

  /** Searches are confined to the square [-BORDER, BORDER]^2. */
  const BORDER: int := 100

  /** `bfs(start, successors, success)`: a path from `start` to a cell that
      satisfies `success`, or nothing. */
  type Bfs = (Cell, Cell -> seq<Cell>, Cell -> bool) -> Option<seq<Cell>>

  predicate InBounds(p: Cell)
  {
    -BORDER <= p.0 <= BORDER && -BORDER <= p.1 <= BORDER
  }

  /** `Vec::retain`: keeps the cells satisfying `keep`, in their order. */
  function Retain(xs: seq<Cell>, keep: Cell -> bool): (r: seq<Cell>)
    ensures forall x :: x in r <==> x in xs && keep(x)
    ensures |r| <= |xs|
  {
    if |xs| == 0 then []
    else if keep(xs[0]) then [xs[0]] + Retain(xs[1..], keep)
    else Retain(xs[1..], keep)
  }

  /** `retain` keeps the order of the cells: filtering two runs one after the
      other is filtering each and appending. */
  lemma {:induction false} RetainAppend(xs: seq<Cell>, ys: seq<Cell>, keep: Cell -> bool)
    ensures Retain(xs + ys, keep) == Retain(xs, keep) + Retain(ys, keep)
  {
    if |xs| > 0 {
      assert (xs + ys)[1..] == xs[1..] + ys;
      RetainAppend(xs[1..], ys, keep);
    } else {
      assert xs + ys == ys;
    }
  }

  /** The successor closure: the grid's neighbours of `p` that lie inside the
      border and have no entry in the grid. */
  function Successors(g: Grid, neighbours: Cell -> seq<Cell>, p: Cell): (r: seq<Cell>)
    ensures forall q :: q in r <==> q in neighbours(p) && InBounds(q) && Free(g, q)
  {
    Retain(neighbours(p), q => InBounds(q) && Free(g, q))
  }

  /** One leg: a search from `start` whose success test is equality with `goal`. */
  function LegSearch(g: Grid, neighbours: Cell -> seq<Cell>, bfs: Bfs, start: Cell, goal: Cell): Option<seq<Cell>>
  {
    bfs(start, p => Successors(g, neighbours, p), p => p == goal)
  }

  predicate LegFound(g: Grid, neighbours: Cell -> seq<Cell>, bfs: Bfs, goals: seq<Cell>, i: nat)
    requires 1 <= i < |goals|
  {
    LegSearch(g, neighbours, bfs, goals[i - 1], goals[i]).Some?
  }

  /** Reference definition: the legs 1 .. n-1 found for `goals`, joined in order. */
  function Joined(g: Grid, neighbours: Cell -> seq<Cell>, bfs: Bfs, goals: seq<Cell>, n: nat): seq<Cell>
    requires n <= |goals|
    requires forall i :: 1 <= i < n ==> LegFound(g, neighbours, bfs, goals, i)
  {
    if n < 2 then []
    else
      assert LegFound(g, neighbours, bfs, goals, n - 1);
      Joined(g, neighbours, bfs, goals, n - 1) + LegSearch(g, neighbours, bfs, goals[n - 2], goals[n - 1]).value
  }

  function Min(a: nat, b: nat): nat
  {
    if a < b then a else b
  }

  /** The loop of `resolve` from index `i` on, with `res` collected so far;
      `?` returns `None` at the first failed leg. */
  function ResolveFrom(g: Grid, neighbours: Cell -> seq<Cell>, bfs: Bfs, goals: seq<Cell>, i: nat, res: seq<Cell>): (r: Option<seq<Cell>>)
    requires 1 <= i
    requires forall j :: 1 <= j < i && j < |goals| ==> LegFound(g, neighbours, bfs, goals, j)
    requires res == Joined(g, neighbours, bfs, goals, Min(i, |goals|))
    ensures r.None? <==> exists j :: i <= j < |goals| && !LegFound(g, neighbours, bfs, goals, j)
    ensures r.Some? ==> (forall j :: 1 <= j < |goals| ==> LegFound(g, neighbours, bfs, goals, j))
                        && r.value == Joined(g, neighbours, bfs, goals, |goals|)
    decreases |goals| - i
  {
    if i >= |goals| then Some(res)
    else match LegSearch(g, neighbours, bfs, goals[i - 1], goals[i])
      case None =>
        assert !LegFound(g, neighbours, bfs, goals, i);
        None
      case Some(leg) => ResolveFrom(g, neighbours, bfs, goals, i + 1, res + leg)
  }

  /** `path::resolve`. */
  function Resolve(g: Grid, neighbours: Cell -> seq<Cell>, bfs: Bfs, goals: seq<Cell>): (r: Option<seq<Cell>>)
    ensures |goals| < 2 ==> r == Some([])
    ensures r.None? <==> exists i :: 1 <= i < |goals| && !LegFound(g, neighbours, bfs, goals, i)
    ensures r.Some? ==> (forall i :: 1 <= i < |goals| ==> LegFound(g, neighbours, bfs, goals, i))
                        && r.value == Joined(g, neighbours, bfs, goals, |goals|)
  {
    ResolveFrom(g, neighbours, bfs, goals, 1, [])
  }

  /** A path as pathfinding's `bfs` returns it: it starts at `start`, each
      later cell is a successor of the one before, and the last cell passes
      `success`. */
  ghost predicate IsWalk(path: seq<Cell>, start: Cell, succ: Cell -> seq<Cell>, success: Cell -> bool)
  {
    && |path| >= 1
    && path[0] == start
    && success(path[|path| - 1])
    && forall k :: 0 < k < |path| ==> path[k] in succ(path[k - 1])
  }

  /** A search that only ever answers with genuine walks. */
  ghost predicate SoundBfs(bfs: Bfs)
  {
    forall start, succ, success :: bfs(start, succ, success).Some? ==>
      IsWalk(bfs(start, succ, success).value, start, succ, success)
  }

  /** With a sound search, a leg runs from its start waypoint to its goal
      waypoint and every other cell on it is inside the border and free. */
  lemma {:induction false} LegShape(g: Grid, neighbours: Cell -> seq<Cell>, bfs: Bfs, start: Cell, goal: Cell)
    requires SoundBfs(bfs)
    requires LegSearch(g, neighbours, bfs, start, goal).Some?
    ensures var leg := LegSearch(g, neighbours, bfs, start, goal).value;
      && |leg| >= 1 && leg[0] == start && leg[|leg| - 1] == goal
      && forall k :: 0 < k < |leg| ==> InBounds(leg[k]) && Free(g, leg[k])
  {
    var succ := p => Successors(g, neighbours, p);
    var success := p => p == goal;
    var leg := LegSearch(g, neighbours, bfs, start, goal).value;
    assert IsWalk(leg, start, succ, success);
    forall k | 0 < k < |leg|
      ensures InBounds(leg[k]) && Free(g, leg[k])
    {
      assert leg[k] in Successors(g, neighbours, leg[k - 1]);
    }
  }

  /** With a sound search, every cell of a resolved route is a waypoint or a
      free cell inside the border: routes never cross a building or a block. */
  lemma {:induction false} ResolvedRouteAvoidsObstacles(g: Grid, neighbours: Cell -> seq<Cell>, bfs: Bfs, goals: seq<Cell>, n: nat)
    requires SoundBfs(bfs)
    requires n <= |goals|
    requires forall i :: 1 <= i < n ==> LegFound(g, neighbours, bfs, goals, i)
    ensures forall k :: 0 <= k < |Joined(g, neighbours, bfs, goals, n)| ==>
      var c := Joined(g, neighbours, bfs, goals, n)[k];
      c in goals || (InBounds(c) && Free(g, c))
  {
    if n >= 2 {
      assert LegFound(g, neighbours, bfs, goals, n - 1);
      ResolvedRouteAvoidsObstacles(g, neighbours, bfs, goals, n - 1);
      LegShape(g, neighbours, bfs, goals[n - 2], goals[n - 1]);
      var front := Joined(g, neighbours, bfs, goals, n - 1);
      var leg := LegSearch(g, neighbours, bfs, goals[n - 2], goals[n - 1]).value;
      var route := Joined(g, neighbours, bfs, goals, n);
      assert route == front + leg;
      forall k | 0 <= k < |route|
        ensures route[k] in goals || (InBounds(route[k]) && Free(g, route[k]))
      {
        if k < |front| {
          assert route[k] == front[k];
          assert front[k] in goals || (InBounds(front[k]) && Free(g, front[k]));
        } else {
          var m := k - |front|;
          assert route[k] == leg[m];
          if m == 0 {
            assert route[k] == goals[n - 2];
            assert goals[n - 2] in goals;
          } else {
            assert InBounds(leg[m]) && Free(g, leg[m]);
          }
        }
      }
    }
  }

  /** A search that finds nothing for the first leg makes the whole
      resolution fail, whatever the later legs would give. */
  lemma FirstLegFailureFails(g: Grid, neighbours: Cell -> seq<Cell>, bfs: Bfs, goals: seq<Cell>)
    requires |goals| >= 2
    requires LegSearch(g, neighbours, bfs, goals[0], goals[1]).None?
    ensures Resolve(g, neighbours, bfs, goals).None?
  {
    assert !LegFound(g, neighbours, bfs, goals, 1);
  }
}
