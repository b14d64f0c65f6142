/**
 `BFS_Count`: breadth-first flood fill from one coordinate.

 The queue is a FIFO of coordinates.  Every neighbour of an accepted cell is
 pushed without any test; the filter runs when a coordinate is popped: it
 must be a cell of the grid, a chip, and not visited.  An accepted pop counts
 one chip and marks it visited.
 */
module BreadthFirst {
  import opened ChipGrid
  import opened Connectivity

  /** The loop invariant of `BfsCount`, started at `start` on grid g0, with
      grid g, pending queue q and the ghost set of cells marked so far. */
  ghost predicate BfsInvariant(g0: Grid, start: Coord, g: Grid, q: seq<Coord>, marked: set<Coord>) {
    // every queued coordinate is at most one step outside the grid
    && (forall k :: 0 <= k < |q| ==> InRange(g0, q[k]))
    // the grid so far is g0 with exactly the marked chips visited
    && MarksExactly(g0, g, marked)
    // only cells of the start's region are marked or queued as chips
    && marked <= Region(g0, start)
    && (forall k :: 0 <= k < |q| && IsChipAt(g0, q[k]) ==> q[k] in Region(g0, start))
    // a chip next to a marked cell is still waiting in the queue
    && (forall x, y :: x in marked && Adjacent(x, y) && IsChipAt(g, y) ==> y in q)
    // the start, while it is still a chip, is waiting in the queue
    && (IsChipAt(g, start) ==> start in q)
  }

  /** The invariant holds with only the start queued and nothing marked. */
  lemma BfsInit(g0: Grid, start: Coord)
    requires InRange(g0, start)
    ensures BfsInvariant(g0, start, g0, [start], {})
  {
    RegionStart(g0, start);
  }

  /** Popping a coordinate the filter rejects keeps the invariant. */
  lemma BfsSkip(g0: Grid, start: Coord, g: Grid, q: seq<Coord>, marked: set<Coord>)
    requires q != [] && BfsInvariant(g0, start, g, q, marked)
    requires !IsChipAt(g, q[0])
    ensures BfsInvariant(g0, start, g, q[1..], marked)
  {
    forall x, y | x in marked && Adjacent(x, y) && IsChipAt(g, y)
      ensures y in q[1..]
    {
      assert y in q && y != q[0];
    }
  }

  /** Popping a chip and pushing its neighbours keeps every queued
      coordinate at most one step outside the grid. */
  lemma AcceptInRange(g0: Grid, q: seq<Coord>)
    requires q != [] && InBounds(g0, q[0])
    requires forall k :: 0 <= k < |q| ==> InRange(g0, q[k])
    ensures forall k :: 0 <= k < |q[1..] + Neighbours(q[0])| ==> InRange(g0, (q[1..] + Neighbours(q[0]))[k])
  {
    var q' := q[1..] + Neighbours(q[0]);
    forall k | 0 <= k < |q'|
      ensures InRange(g0, q'[k])
    {
      if k < |q| - 1 {
        assert q'[k] == q[k + 1];
      }
    }
  }

  /** The neighbours of a region cell that are chips are in the region. */
  lemma AcceptInRegion(g0: Grid, start: Coord, q: seq<Coord>)
    requires q != [] && q[0] in Region(g0, start)
    requires forall k :: 0 <= k < |q| && IsChipAt(g0, q[k]) ==> q[k] in Region(g0, start)
    ensures forall k :: 0 <= k < |q[1..] + Neighbours(q[0])| && IsChipAt(g0, (q[1..] + Neighbours(q[0]))[k])
              ==> (q[1..] + Neighbours(q[0]))[k] in Region(g0, start)
  {
    var v := q[0];
    var q' := q[1..] + Neighbours(v);
    forall k | 0 <= k < |q'| && IsChipAt(g0, q'[k])
      ensures q'[k] in Region(g0, start)
    {
      if k >= |q| - 1 {
        assert q'[k] in Neighbours(v);
        RegionStep(g0, start, v, q'[k]);
      } else {
        assert q'[k] == q[k + 1];
      }
    }
  }

  /** After marking v and pushing its neighbours, every chip next to a
      marked cell is still queued. */
  lemma AcceptFrontier(g: Grid, g': Grid, q: seq<Coord>, marked: set<Coord>)
    requires q != [] && IsChipAt(g, q[0])
    requires Chips(g') == Chips(g) - {q[0]}
    requires forall x, y :: x in marked && Adjacent(x, y) && IsChipAt(g, y) ==> y in q
    ensures forall x, y :: x in marked + {q[0]} && Adjacent(x, y) && IsChipAt(g', y) ==> y in q[1..] + Neighbours(q[0])
  {
    var v := q[0];
    var q' := q[1..] + Neighbours(v);
    forall x, y | x in marked + {v} && Adjacent(x, y) && IsChipAt(g', y)
      ensures y in q'
    {
      assert y in Chips(g');
      if x == v {
        assert y in Neighbours(v);
      } else {
        assert y in q && y != v;
      }
    }
  }

  /** Popping a chip, marking it and pushing its neighbours keeps the
      invariant. */
  lemma BfsAccept(g0: Grid, start: Coord, g: Grid, q: seq<Coord>, marked: set<Coord>)
    requires q != [] && BfsInvariant(g0, start, g, q, marked)
    requires IsChipAt(g, q[0])
    ensures BfsInvariant(g0, start, Visit(g, q[0].0, q[0].1), q[1..] + Neighbours(q[0]), marked + {q[0]})
    ensures |marked + {q[0]}| == |marked| + 1
    ensures |Chips(Visit(g, q[0].0, q[0].1))| < |Chips(g)|
  {
    var v := q[0];
    var g' := Visit(g, v.0, v.1);
    MarksRemovesChips(g0, g, marked);
    MarksCompose(g0, g, g', marked, {v});
    MarksRemovesChips(g, g', {v});
    assert v in Region(g0, start);
    AcceptInRange(g0, q);
    AcceptInRegion(g0, start, q);
    AcceptFrontier(g, g', q, marked);
  }

  /** With the queue empty, the marked cells are the whole region. */
  lemma BfsDone(g0: Grid, start: Coord, g: Grid, marked: set<Coord>)
    requires BfsInvariant(g0, start, g, [], marked)
    ensures marked == Region(g0, start)
  {
    MarksRemovesChips(g0, g, marked);
    RegionStart(g0, start);
    if IsChipAt(g0, start) {
      assert start in marked;
      assert IsClosed(g0, marked);
      ClosedContainsRegion(g0, marked, start);
    }
  }

  /** What an empty queue gives the caller: the region is marked, counted
      once per chip, and a start that is not a chip changes nothing. */
  lemma BfsFinish(g0: Grid, start: Coord, g: Grid, marked: set<Coord>)
    requires BfsInvariant(g0, start, g, [], marked)
    ensures MarksExactly(g0, g, Region(g0, start))
    ensures |marked| == |Region(g0, start)|
    ensures |marked| == |Chips(g0)| - |Chips(g)|
    ensures !IsChipAt(g0, start) ==> |marked| == 0 && g == g0
  {
    BfsDone(g0, start, g, marked);
    MarksRemovesChips(g0, g, marked);
    RegionStart(g0, start);
    if !IsChipAt(g0, start) {
      MarksNothing(g0, g);
    }
  }

  /** The program's `BFS_Count(i, j)`.  Returns the count and the grid after
      the fill.  The start must be at most one step outside the grid, as the
      program's bounds test is only correct there. */
  method BfsCount(g0: Grid, i: int, j: int) returns (count: int, g: Grid)
    requires InRange(g0, (i, j))
    ensures MarksExactly(g0, g, Region(g0, (i, j)))
    ensures count == |Region(g0, (i, j))|
    ensures count == |Chips(g0)| - |Chips(g)|
    ensures !IsChipAt(g0, (i, j)) ==> count == 0 && g == g0
  {
    ghost var start := (i, j);
    var q: seq<Coord> := [(i, j)];
    count := 0;
    g := g0;
    ghost var marked: set<Coord> := {};
    BfsInit(g0, start);
    while q != []
      invariant BfsInvariant(g0, start, g, q, marked)
      invariant count == |marked|
      decreases |Chips(g)|, |q|
    {
      var v := q[0];
      if IsValid(g, v.0, v.1) && IsChocoChip(g, v.0, v.1) && !IsVisited(g, v.0, v.1) {
        BfsAccept(g0, start, g, q, marked);
        count := count + 1;
        g := Visit(g, v.0, v.1);
        marked := marked + {v};
        q := q[1..] + Neighbours(v);
      } else {
        BfsSkip(g0, start, g, q, marked);
        q := q[1..];
      }
    }
    BfsFinish(g0, start, g, marked);
  }
}
