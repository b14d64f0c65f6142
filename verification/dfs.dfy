/**
 `DFS_Count`: the recursive depth-first variant of the flood fill.  The
 program keeps it as an alternative to `BFS_Count` (its call in
 `findChocoLine` is commented out); it applies the same filter to a
 coordinate before counting it.
 */
module DepthFirst {
  import opened ChipGrid
  import opened Connectivity
  import BreadthFirst

  /** Part way through a fill started at chip p on grid g: the set done of
      cells handled so far lies inside the region of p, holds p, and every
      chip next to a cell of done is in done, unless it is a neighbour of p
      still to be visited (in pending). */
  ghost predicate PartialFill(g: Grid, p: Coord, done: set<Coord>, pending: seq<Coord>) {
    && p in done
    && done <= Region(g, p)
    && (forall y :: y in pending ==> Adjacent(p, y))
    && (forall x, y :: x in done && Adjacent(x, y) && IsChipAt(g, y) ==> y in done || (x == p && y in pending))
  }

  /** Marking p alone starts a fill with all four neighbours pending. */
  lemma FillInit(g: Grid, p: Coord)
    requires IsChipAt(g, p)
    ensures PartialFill(g, p, {p}, Neighbours(p))
  {
    RegionStart(g, p);
  }

  /** Filling the region of the next pending neighbour n on the current grid
      h, in which the cells of done are no longer chips, extends the fill. */
  lemma FillNeighbour(g: Grid, p: Coord, done: set<Coord>, pending: seq<Coord>, h: Grid)
    requires PartialFill(g, p, done, pending) && pending != []
    requires Chips(h) == Chips(g) - done
    ensures PartialFill(g, p, done + Region(h, pending[0]), pending[1..])
  {
    var n := pending[0];
    var done' := done + Region(h, n);
    RegionMonotone(g, h, n);
    if IsChipAt(h, n) {
      RegionStart(g, p);
      RegionStep(g, p, p, n);
      SameRegion(g, p, n);
    } else {
      RegionStart(h, n);
    }
    forall x, y | x in done' && Adjacent(x, y) && IsChipAt(g, y)
      ensures y in done' || (x == p && y in pending[1..])
    {
      if y !in done {
        assert y in Chips(h);
        if x in done {
          assert x == p && y in pending;
          if y == n {
            RegionStart(h, n);
          } else {
            assert y in pending[1..];
          }
        } else {
          RegionStep(h, n, x, y);
        }
      }
    }
  }

  /** One recursive call of the fill: the call marks the region of the next
      pending neighbour on the current grid h, giving h'. */
  lemma FillStep(g: Grid, p: Coord, done: set<Coord>, pending: seq<Coord>, h: Grid, h': Grid)
    requires PartialFill(g, p, done, pending) && pending != []
    requires MarksExactly(g, h, done)
    requires MarksExactly(h, h', Region(h, pending[0]))
    ensures PartialFill(g, p, done + Region(h, pending[0]), pending[1..])
    ensures MarksExactly(g, h', done + Region(h, pending[0]))
  {
    MarksRemovesChips(g, h, done);
    FillNeighbour(g, p, done, pending, h);
    MarksCompose(g, h, h', done, Region(h, pending[0]));
  }

  /** The state of a fill of the region of chip p on grid g after some of
      the recursive calls: h is the current grid, done the cells marked so
      far, pending the neighbours of p still to visit and count the chips
      counted so far. */
  ghost predicate FillState(g: Grid, p: Coord, done: set<Coord>, pending: seq<Coord>, h: Grid, count: int) {
    && PartialFill(g, p, done, pending)
    && MarksExactly(g, h, done)
    && count == |Chips(g)| - |Chips(h)|
  }

  /** Adding the count and the grid of one recursive call keeps the state. */
  lemma FillStateStep(g: Grid, p: Coord, done: set<Coord>, pending: seq<Coord>, h: Grid, count: int, c: int, h': Grid)
    requires FillState(g, p, done, pending, h, count) && pending != []
    requires MarksExactly(h, h', Region(h, pending[0]))
    requires c == |Chips(h)| - |Chips(h')|
    ensures FillState(g, p, done + Region(h, pending[0]), pending[1..], h', count + c)
  {
    FillStep(g, p, done, pending, h, h');
  }

  /** With no neighbour pending, the fill is the whole region. */
  lemma FillDone(g: Grid, p: Coord, done: set<Coord>)
    requires PartialFill(g, p, done, [])
    ensures done == Region(g, p)
  {
    ClosedContainsRegion(g, done, p);
  }

  /** The program's `DFS_Count(i, j)`: counts and marks the region of (i, j)
      recursively.  A coordinate outside the grid, a visited cell and a cell
      that is not a chip each count 0 and change nothing. */
  method DfsCount(g: Grid, i: int, j: int) returns (count: int, g': Grid)
    requires InRange(g, (i, j))
    ensures MarksExactly(g, g', Region(g, (i, j)))
    ensures count == |Region(g, (i, j))|
    ensures count == |Chips(g)| - |Chips(g')|
    decreases |Chips(g)|, 1
  {
    RegionStart(g, (i, j));
    if !IsValid(g, i, j) {
      return 0, g;
    }
    if IsVisited(g, i, j) {
      return 0, g;
    }
    if !IsChocoChip(g, i, j) {
      return 0, g;
    }
    count, g' := DfsExpand(g, i, j);
  }

  /** The rest of `DFS_Count` once (i, j) has passed the three tests: mark
      it, then add 1 and the counts of the four recursive calls.  The source
      leaves the evaluation order of that sum open; here it is left to
      right, a loop over the neighbours in the order the source writes them
      (row above, row below, column left, column right). */
  method DfsExpand(g: Grid, i: int, j: int) returns (count: int, g': Grid)
    requires IsChipAt(g, (i, j))
    ensures MarksExactly(g, g', Region(g, (i, j)))
    ensures count == |Region(g, (i, j))|
    ensures count == |Chips(g)| - |Chips(g')|
    decreases |Chips(g)|, 0
  {
    ghost var p := (i, j);
    g' := Visit(g, i, j);
    count := 1;
    ghost var done := {p};
    FillInit(g, p);
    var ns := Neighbours((i, j));
    for k := 0 to 4
      invariant FillState(g, p, done, ns[k..], g', count)
    {
      MarksRemovesChips(g, g', done);
      assert ns[k] == ns[k..][0];
      AdjacentInRange(g', p, ns[k]);
      var c, h := DfsCount(g', ns[k].0, ns[k].1);
      FillStateStep(g, p, done, ns[k..], g', count, c, h);
      assert ns[k..][1..] == ns[k + 1..];
      done := done + Region(g', ns[k]);
      count := count + c;
      g' := h;
    }
    FillDone(g, p, done);
    MarksRemovesChips(g, g', done);
  }

  /** The program treats the two traversals as interchangeable: from the
      same start on the same grid they return the same count and leave the
      same grid. */
  method TraversalsAgree(g: Grid, i: int, j: int) returns (bfsCount: int, bfsGrid: Grid, dfsCount: int, dfsGrid: Grid)
    requires InRange(g, (i, j))
    ensures bfsCount == dfsCount && bfsGrid == dfsGrid
  {
    bfsCount, bfsGrid := BreadthFirst.BfsCount(g, i, j);
    dfsCount, dfsGrid := DfsCount(g, i, j);
    MarksUnique(g, bfsGrid, dfsGrid, Region(g, (i, j)));
  }
}
