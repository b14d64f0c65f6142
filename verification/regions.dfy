/**
 Chocolate regions: chips joined by chains of horizontally or vertically
 adjacent chips.  Diagonal neighbours are not adjacent.  These definitions
 are the specification the traversals are proved against; the program
 never builds a region, it only counts one.
 */
module Connectivity {
  import opened ChipGrid

  /** p and q differ by one step up, down, left or right. */
  predicate Adjacent(p: Coord, q: Coord) {
    || (p.0 == q.0 && (p.1 == q.1 - 1 || p.1 == q.1 + 1))
    || (p.1 == q.1 && (p.0 == q.0 - 1 || p.0 == q.0 + 1))
  }

  /** The four neighbours of p, in the order the traversals visit them:
      row above, row below, column left, column right. */
  function Neighbours(p: Coord): (ns: seq<Coord>)
    ensures |ns| == 4
    ensures forall q :: q in ns <==> Adjacent(p, q)
  {
    [(p.0 - 1, p.1), (p.0 + 1, p.1), (p.0, p.1 - 1), (p.0, p.1 + 1)]
  }

  /** A step from a cell of the grid stays at most one step outside it. */
  lemma AdjacentInRange(g: Grid, p: Coord, q: Coord)
    requires InBounds(g, p) && Adjacent(p, q)
    ensures InRange(g, q)
  {
  }

  /** A non-empty chain of adjacent chips of g. */
  ghost predicate IsChipPath(g: Grid, path: seq<Coord>) {
    && |path| > 0
    && (forall k :: 0 <= k < |path| ==> IsChipAt(g, path[k]))
    && (forall k :: 0 < k < |path| ==> Adjacent(path[k - 1], path[k]))
  }

  /** Some chain of adjacent chips of g leads from a to b. */
  ghost predicate Connected(g: Grid, a: Coord, b: Coord) {
    exists path :: IsChipPath(g, path) && path[0] == a && path[|path| - 1] == b
  }

  /** The region of a: every chip connected to a.  It is empty when a is not
      an uncounted chip of g. */
  ghost function Region(g: Grid, a: Coord): (region: set<Coord>)
    ensures region <= Chips(g)
  {
    set b | b in Chips(g) && Connected(g, a, b)
  }

  /** No chip outside S is adjacent to a cell of S. */
  ghost predicate IsClosed(g: Grid, s: set<Coord>) {
    forall x, y :: x in s && Adjacent(x, y) && IsChipAt(g, y) ==> y in s
  }

  /** A chip is in its own region; anything else has an empty region. */
  lemma RegionStart(g: Grid, a: Coord)
    ensures a in Region(g, a) <==> IsChipAt(g, a)
    ensures !IsChipAt(g, a) ==> Region(g, a) == {}
  {
    if IsChipAt(g, a) {
      assert IsChipPath(g, [a]);
    }
  }

  /** A region grows by every chip adjacent to it. */
  lemma RegionStep(g: Grid, a: Coord, b: Coord, c: Coord)
    requires b in Region(g, a) && Adjacent(b, c) && IsChipAt(g, c)
    ensures c in Region(g, a)
  {
    var path :| IsChipPath(g, path) && path[0] == a && path[|path| - 1] == b;
    assert IsChipPath(g, path + [c]);
  }

  /** Connectivity is symmetric: a chain can be walked backwards. */
  lemma ConnectedSymmetric(g: Grid, a: Coord, b: Coord)
    requires Connected(g, a, b)
    ensures Connected(g, b, a)
  {
    var path :| IsChipPath(g, path) && path[0] == a && path[|path| - 1] == b;
    var back := seq(|path|, k requires 0 <= k < |path| => path[|path| - 1 - k]);
    forall k | 0 < k < |back|
      ensures Adjacent(back[k - 1], back[k])
    {
      assert back[k - 1] == path[|path| - k];
    }
    assert IsChipPath(g, back);
  }

  /** Connectivity is transitive: two chains can be joined. */
  lemma ConnectedTransitive(g: Grid, a: Coord, b: Coord, c: Coord)
    requires Connected(g, a, b) && Connected(g, b, c)
    ensures Connected(g, a, c)
  {
    var p1 :| IsChipPath(g, p1) && p1[0] == a && p1[|p1| - 1] == b;
    var p2 :| IsChipPath(g, p2) && p2[0] == b && p2[|p2| - 1] == c;
    var joined := p1 + p2[1..];
    assert forall k :: |p1| <= k < |joined| ==> joined[k] == p2[k - |p1| + 1];
    assert IsChipPath(g, joined);
  }

  /** Every cell of a region has that same region: regions are the classes
      of an equivalence on chips. */
  lemma SameRegion(g: Grid, a: Coord, b: Coord)
    requires b in Region(g, a)
    ensures Region(g, b) == Region(g, a)
  {
    ConnectedSymmetric(g, a, b);
    forall c | c in Region(g, b)
      ensures c in Region(g, a)
    {
      ConnectedTransitive(g, a, b, c);
    }
    forall c | c in Region(g, a)
      ensures c in Region(g, b)
    {
      ConnectedTransitive(g, b, a, c);
    }
  }

  /** Two chips that do not share a region have disjoint regions. */
  lemma RegionsDisjoint(g: Grid, a: Coord, b: Coord)
    requires a !in Region(g, b)
    ensures Region(g, a) !! Region(g, b)
  {
    if c :| c in Region(g, a) && c in Region(g, b) {
      SameRegion(g, a, c);
      SameRegion(g, b, c);
      RegionStart(g, a);
      assert false;
    }
  }

  /** A chain that starts inside a closed set never leaves it. */
  lemma {:induction false} PathStaysInClosed(g: Grid, s: set<Coord>, path: seq<Coord>)
    requires IsChipPath(g, path) && path[0] in s && IsClosed(g, s)
    ensures path[|path| - 1] in s
    decreases |path|
  {
    if |path| > 1 {
      var prefix := path[..|path| - 1];
      assert IsChipPath(g, prefix);
      PathStaysInClosed(g, s, prefix);
      assert Adjacent(path[|path| - 2], path[|path| - 1]);
    }
  }

  /** A closed set that holds a holds the whole region of a. */
  lemma ClosedContainsRegion(g: Grid, s: set<Coord>, a: Coord)
    requires a in s && IsClosed(g, s)
    ensures Region(g, a) <= s
  {
    forall b | b in Region(g, a)
      ensures b in s
    {
      var path :| IsChipPath(g, path) && path[0] == a && path[|path| - 1] == b;
      PathStaysInClosed(g, s, path);
    }
  }

  /** A region is the least closed set containing its start: closed, and
      contained in every closed set holding the start. */
  lemma RegionIsClosed(g: Grid, a: Coord)
    ensures IsClosed(g, Region(g, a))
  {
    forall x, y | x in Region(g, a) && Adjacent(x, y) && IsChipAt(g, y)
      ensures y in Region(g, a)
    {
      RegionStep(g, a, x, y);
    }
  }

  /** Fewer chips, smaller regions: a chain in h is a chain in g when every
      chip of h is a chip of g. */
  lemma RegionMonotone(g: Grid, h: Grid, a: Coord)
    requires Chips(h) <= Chips(g)
    ensures Region(h, a) <= Region(g, a)
  {
    forall b | b in Region(h, a)
      ensures b in Region(g, a)
    {
      var path :| IsChipPath(h, path) && path[0] == a && path[|path| - 1] == b;
      assert forall k :: 0 <= k < |path| ==> path[k] in Chips(h);
      assert IsChipPath(g, path);
    }
  }

  /** Removing whole regions from g0 leaves the region of every remaining
      chip as it was in g0. */
  lemma RegionAfterRemoval(g0: Grid, g: Grid, removed: set<Coord>, c: Coord)
    requires Chips(g) == Chips(g0) - removed
    requires forall y :: y in removed ==> Region(g0, y) <= removed
    requires IsChipAt(g, c)
    ensures Region(g, c) == Region(g0, c)
  {
    RegionMonotone(g0, g, c);
    forall b | b in Region(g0, c)
      ensures b in Region(g, c)
    {
      var path :| IsChipPath(g0, path) && path[0] == c && path[|path| - 1] == b;
      forall k | 0 <= k < |path|
        ensures IsChipAt(g, path[k])
      {
        assert IsChipPath(g0, path[..k + 1]);
        assert Connected(g0, c, path[k]);
        if path[k] in removed {
          ConnectedSymmetric(g0, c, path[k]);
          assert false;
        }
      }
      assert IsChipPath(g, path);
    }
  }

  /** A chip none of whose four neighbours is a chip is a region of size 1. */
  lemma IsolatedChip(g: Grid, a: Coord)
    requires IsChipAt(g, a)
    requires forall q :: Adjacent(a, q) ==> !IsChipAt(g, q)
    ensures Region(g, a) == {a}
    ensures |Region(g, a)| == 1
  {
    RegionStart(g, a);
    ClosedContainsRegion(g, {a}, a);
  }
}
