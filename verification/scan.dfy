/**
 `findChocoLine`: scan the grid in row-major order and, at every chip not
 yet visited, run the breadth-first fill and append the size it returns.
 */
module ChocoLines {
  import opened ChipGrid
  import opened Connectivity
  import opened BreadthFirst

  /** The sum of a list of region sizes. */
  function Sum(xs: seq<int>): int {
    if xs == [] then 0 else Sum(xs[..|xs| - 1]) + xs[|xs| - 1]
  }

  /** p comes strictly before q in row-major order. */
  predicate RowMajorBefore(p: Coord, q: Coord) {
    p.0 < q.0 || (p.0 == q.0 && p.1 < q.1)
  }

  /** The union of the regions, in grid g, of the given seeds. */
  ghost function Covered(g: Grid, seeds: seq<Coord>): (covered: set<Coord>)
    ensures forall k {:trigger Region(g, seeds[k])} :: 0 <= k < |seeds| ==> Region(g, seeds[k]) <= covered
  {
    if seeds == [] then {}
    else Covered(g, seeds[..|seeds| - 1]) + Region(g, seeds[|seeds| - 1])
  }

  /** Each seed is a chip of g0 and each size is the size of its seed's
      region. */
  ghost predicate SizesMatch(g0: Grid, lines: seq<int>, seeds: seq<Coord>) {
    && |seeds| == |lines|
    && (forall k :: 0 <= k < |seeds| ==> seeds[k] in Chips(g0) && lines[k] == |Region(g0, seeds[k])|)
    && (forall k :: 0 <= k < |lines| ==> lines[k] >= 1)
  }

  /** The regions of distinct seeds share no cell. */
  ghost predicate PairwiseDisjoint(g0: Grid, seeds: seq<Coord>) {
    forall k, l {:trigger Region(g0, seeds[k]), Region(g0, seeds[l])} ::
      0 <= k < l < |seeds| ==> Region(g0, seeds[k]) !! Region(g0, seeds[l])
  }

  /** The seeds were found in row-major order. */
  predicate Increasing(seeds: seq<Coord>) {
    forall k, l :: 0 <= k < l < |seeds| ==> RowMajorBefore(seeds[k], seeds[l])
  }

  /** What holds of a partial scan of g0: the current grid g is g0 with the
      regions of the seeds found so far marked, the marked cells are a union
      of whole regions, those regions are pairwise disjoint, and lines holds
      their sizes in the order found. */
  ghost predicate ScanState(g0: Grid, g: Grid, lines: seq<int>, seeds: seq<Coord>) {
    && MarksExactly(g0, g, Covered(g0, seeds))
    && (forall y :: y in Covered(g0, seeds) ==> Region(g0, y) <= Covered(g0, seeds))
    && SizesMatch(g0, lines, seeds)
    && PairwiseDisjoint(g0, seeds)
    && Increasing(seeds)
    && Sum(lines) == |Chips(g0)| - |Chips(g)|
  }

  /** Nothing has been found before the scan starts. */
  lemma ScanInit(g0: Grid)
    ensures ScanAt(g0, g0, [], [], (0, 0))
  {
  }

  /** Adding one seed adds its region to the covered cells. */
  lemma CoveredAppend(g: Grid, seeds: seq<Coord>, c: Coord)
    ensures Covered(g, seeds + [c]) == Covered(g, seeds) + Region(g, c)
  {
    assert (seeds + [c])[..|seeds|] == seeds;
  }

  /** Adding one size adds it to the sum. */
  lemma SumAppend(xs: seq<int>, x: int)
    ensures Sum(xs + [x]) == Sum(xs) + x
  {
    assert (xs + [x])[..|xs|] == xs;
  }

  /** Adding a whole region to a union of whole regions gives a union of
      whole regions. */
  lemma UnionOfRegions(g0: Grid, covered: set<Coord>, c: Coord)
    requires forall y :: y in covered ==> Region(g0, y) <= covered
    ensures forall y :: y in covered + Region(g0, c) ==> Region(g0, y) <= covered + Region(g0, c)
  {
    forall y | y in covered + Region(g0, c)
      ensures Region(g0, y) <= covered + Region(g0, c)
    {
      if y !in covered {
        SameRegion(g0, c, y);
      }
    }
  }

  /** One more seed and its size keep sizes matched. */
  lemma SizesMatchAppend(g0: Grid, lines: seq<int>, seeds: seq<Coord>, c: Coord, count: int)
    requires SizesMatch(g0, lines, seeds)
    requires c in Chips(g0) && count == |Region(g0, c)|
    ensures SizesMatch(g0, lines + [count], seeds + [c])
  {
    RegionStart(g0, c);
    forall k | 0 <= k < |seeds| + 1
      ensures (seeds + [c])[k] in Chips(g0) && (lines + [count])[k] == |Region(g0, (seeds + [c])[k])|
      ensures (lines + [count])[k] >= 1
    {
      if k < |seeds| {
        assert (seeds + [c])[k] == seeds[k] && (lines + [count])[k] == lines[k];
      }
    }
  }

  /** The region of a chip outside every earlier region is disjoint from
      each of them. */
  lemma DisjointAppend(g0: Grid, seeds: seq<Coord>, c: Coord)
    requires PairwiseDisjoint(g0, seeds)
    requires c !in Covered(g0, seeds)
    ensures PairwiseDisjoint(g0, seeds + [c])
  {
    var seeds' := seeds + [c];
    forall k, l | 0 <= k < l < |seeds'|
      ensures Region(g0, seeds'[k]) !! Region(g0, seeds'[l])
    {
      assert seeds'[k] == seeds[k];
      if l == |seeds| {
        RegionsDisjoint(g0, c, seeds[k]);
      } else {
        assert seeds'[l] == seeds[l];
      }
    }
  }

  /** A seed after all earlier seeds keeps them in row-major order. */
  lemma IncreasingAppend(seeds: seq<Coord>, c: Coord)
    requires Increasing(seeds)
    requires forall k :: 0 <= k < |seeds| ==> RowMajorBefore(seeds[k], c)
    ensures Increasing(seeds + [c])
  {
    var seeds' := seeds + [c];
    forall k, l | 0 <= k < l < |seeds'|
      ensures RowMajorBefore(seeds'[k], seeds'[l])
    {
      assert seeds'[k] == seeds[k];
      if l < |seeds| {
        assert seeds'[l] == seeds[l];
      }
    }
  }

  /** Filling the region of an unvisited chip c that comes after every seed
      so far extends the scan by one region. */
  lemma ScanFound(g0: Grid, g: Grid, lines: seq<int>, seeds: seq<Coord>, c: Coord, count: int, g': Grid)
    requires ScanState(g0, g, lines, seeds)
    requires IsChipAt(g, c)
    requires forall k :: 0 <= k < |seeds| ==> RowMajorBefore(seeds[k], c)
    requires MarksExactly(g, g', Region(g, c))
    requires count == |Region(g, c)| && count == |Chips(g)| - |Chips(g')|
    ensures ScanState(g0, g', lines + [count], seeds + [c])
    ensures count >= 1
    ensures !IsChipAt(g', c)
    ensures Chips(g') <= Chips(g)
  {
    var covered := Covered(g0, seeds);
    MarksRemovesChips(g0, g, covered);
    RegionAfterRemoval(g0, g, covered, c);
    var r := Region(g0, c);
    RegionStart(g, c);
    MarksRemovesChips(g, g', r);
    MarksCompose(g0, g, g', covered, r);
    CoveredAppend(g0, seeds, c);
    UnionOfRegions(g0, covered, c);
    SizesMatchAppend(g0, lines, seeds, c, count);
    DisjointAppend(g0, seeds, c);
    IncreasingAppend(seeds, c);
    SumAppend(lines, count);
  }

  /** The scan has reached cell c: every seed so far precedes c in
      row-major order and no chip is left before c. */
  ghost predicate ScanAt(g0: Grid, g: Grid, lines: seq<int>, seeds: seq<Coord>, c: Coord) {
    && ScanState(g0, g, lines, seeds)
    && (forall k :: 0 <= k < |seeds| ==> RowMajorBefore(seeds[k], c))
    && (forall p :: p in Chips(g) ==> !RowMajorBefore(p, c))
  }

  /** Seeds before (i, j), and (i, j) itself, come before (i, j + 1). */
  lemma SeedsBeforeNext(seeds: seq<Coord>, i: int, j: int)
    requires forall k :: 0 <= k < |seeds| ==> RowMajorBefore(seeds[k], (i, j))
    ensures forall k :: 0 <= k < |seeds + [(i, j)]| ==> RowMajorBefore((seeds + [(i, j)])[k], (i, j + 1))
  {
    var seeds' := seeds + [(i, j)];
    forall k | 0 <= k < |seeds'|
      ensures RowMajorBefore(seeds'[k], (i, j + 1))
    {
      if k < |seeds| {
        assert seeds'[k] == seeds[k];
      }
    }
  }

  /** Once (i, j) is no longer a chip, no chip is left before (i, j + 1). */
  lemma PastCell(chips: set<Coord>, chips': set<Coord>, i: int, j: int)
    requires forall p :: p in chips ==> !RowMajorBefore(p, (i, j))
    requires chips' <= chips && (i, j) !in chips'
    ensures forall p :: p in chips' ==> !RowMajorBefore(p, (i, j + 1))
  {
  }

  /** No chip is left before the end of row i, and every chip lies in a
      column before cols, so none is left in row i. */
  lemma PastRow(chips: set<Coord>, i: int, cols: int)
    requires forall p :: p in chips ==> !RowMajorBefore(p, (i, cols)) && 0 <= p.1 < cols
    ensures forall p :: p in chips ==> !RowMajorBefore(p, (i + 1, 0))
  {
  }

  /** Passing a cell that is not an unvisited chip changes nothing. */
  lemma ScanSkip(g0: Grid, g: Grid, lines: seq<int>, seeds: seq<Coord>, i: int, j: int)
    requires ScanAt(g0, g, lines, seeds, (i, j))
    requires !IsChipAt(g, (i, j))
    ensures ScanAt(g0, g, lines, seeds, (i, j + 1))
  {
  }

  /** Filling the region of the unvisited chip c moves the scan past c with
      one more region. */
  lemma ScanFill(g0: Grid, g: Grid, lines: seq<int>, seeds: seq<Coord>, i: int, j: int, count: int, g': Grid)
    requires ScanAt(g0, g, lines, seeds, (i, j))
    requires IsChipAt(g, (i, j))
    requires MarksExactly(g, g', Region(g, (i, j)))
    requires count == |Region(g, (i, j))| && count == |Chips(g)| - |Chips(g')|
    ensures ScanAt(g0, g', lines + [count], seeds + [(i, j)], (i, j + 1))
  {
    ScanFound(g0, g, lines, seeds, (i, j), count, g');
    SeedsBeforeNext(seeds, i, j);
    PastCell(Chips(g), Chips(g'), i, j);
  }

  /** At the end of a row the scan continues at the start of the next. */
  lemma ScanNextRow(g0: Grid, g: Grid, lines: seq<int>, seeds: seq<Coord>, i: int)
    requires ScanAt(g0, g, lines, seeds, (i, g0.cols))
    ensures ScanAt(g0, g, lines, seeds, (i + 1, 0))
  {
    assert g.cols == g0.cols;
    PastRow(Chips(g), i, g0.cols);
  }

  /** Past the last row no chip is left: every chip lies in a row before
      `rows`. */
  lemma NoChipsLeft(g0: Grid, g: Grid, lines: seq<int>, seeds: seq<Coord>)
    requires ScanAt(g0, g, lines, seeds, (g0.rows, 0))
    ensures Chips(g) == {}
  {
    assert g.rows == g0.rows;
  }

  /** A marking that leaves no chip marked every chip. */
  lemma MarkedAll(g0: Grid, g: Grid, marked: set<Coord>)
    requires MarksExactly(g0, g, marked) && Chips(g) == {}
    ensures marked == Chips(g0)
    ensures |marked| == |Chips(g0)|
  {
    MarksRemovesChips(g0, g, marked);
  }

  /** A scan with no chip left has found every region. */
  lemma ScanDone(g0: Grid, g: Grid, lines: seq<int>, seeds: seq<Coord>)
    requires ScanState(g0, g, lines, seeds) && Chips(g) == {}
    ensures forall k :: 0 <= k < |lines| ==> lines[k] >= 1
    ensures Sum(lines) == |Chips(g0)|
    ensures Chips(g) == {}
    ensures MarksExactly(g0, g, Chips(g0))
    ensures Chips(g0) == {} ==> lines == []
    ensures |seeds| == |lines|
    ensures forall k :: 0 <= k < |seeds| ==> seeds[k] in Chips(g0) && lines[k] == |Region(g0, seeds[k])|
    ensures forall k, l :: 0 <= k < l < |seeds| ==> Region(g0, seeds[k]) !! Region(g0, seeds[l])
    ensures forall k, l :: 0 <= k < l < |seeds| ==> RowMajorBefore(seeds[k], seeds[l])
    ensures Covered(g0, seeds) == Chips(g0)
  {
    MarkedAll(g0, g, Covered(g0, seeds));
    if lines != [] {
      assert seeds[0] in Chips(g0);
    }
  }

  /** One step of the inner loop of `findChocoLine`: at an unvisited chip
      (i, j), fill its region and append the size; pass any other cell. */
  method ScanCell(g0: Grid, g: Grid, lines: seq<int>, ghost seeds: seq<Coord>, i: int, j: int)
    returns (lines': seq<int>, g': Grid, ghost seeds': seq<Coord>)
    requires 0 <= i < g0.rows && 0 <= j < g0.cols
    requires ScanAt(g0, g, lines, seeds, (i, j))
    ensures ScanAt(g0, g', lines', seeds', (i, j + 1))
    ensures lines <= lines' && |lines'| <= |lines| + 1
  {
    assert g.rows == g0.rows && g.cols == g0.cols;
    if IsChocoChip(g, i, j) && !IsVisited(g, i, j) {
      var count, h := BfsCount(g, i, j);
      ScanFill(g0, g, lines, seeds, i, j, count, h);
      lines', g', seeds' := lines + [count], h, seeds + [(i, j)];
    } else {
      ScanSkip(g0, g, lines, seeds, i, j);
      lines', g', seeds' := lines, g, seeds;
    }
  }

  /** The inner loop of `findChocoLine`: scan row i from left to right. */
  method ScanRow(g0: Grid, g: Grid, lines: seq<int>, ghost seeds: seq<Coord>, i: int)
    returns (lines': seq<int>, g': Grid, ghost seeds': seq<Coord>)
    requires 0 <= i < g0.rows
    requires ScanAt(g0, g, lines, seeds, (i, 0))
    ensures ScanAt(g0, g', lines', seeds', (i + 1, 0))
    ensures lines <= lines' && |lines'| <= |lines| + g0.cols
  {
    lines', g', seeds' := lines, g, seeds;
    for j := 0 to g0.cols
      invariant ScanAt(g0, g', lines', seeds', (i, j))
      invariant lines <= lines' && |lines'| <= |lines| + j
    {
      lines', g', seeds' := ScanCell(g0, g', lines', seeds', i, j);
    }
    ScanNextRow(g0, g', lines', seeds', i);
  }

  /** The program's `findChocoLine`.  Returns the region sizes in the order
      found and the grid afterwards; the ghost result seeds holds the chip
      each region was found from. */
  method FindChocoLine(g0: Grid) returns (lines: seq<int>, g: Grid, ghost seeds: seq<Coord>)
    ensures forall k :: 0 <= k < |lines| ==> lines[k] >= 1
    ensures Sum(lines) == |Chips(g0)|
    ensures Chips(g) == {}
    ensures MarksExactly(g0, g, Chips(g0))
    ensures Chips(g0) == {} ==> lines == []
    ensures |seeds| == |lines|
    ensures forall k :: 0 <= k < |seeds| ==> seeds[k] in Chips(g0) && lines[k] == |Region(g0, seeds[k])|
    ensures forall k, l :: 0 <= k < l < |seeds| ==> Region(g0, seeds[k]) !! Region(g0, seeds[l])
    ensures forall k, l :: 0 <= k < l < |seeds| ==> RowMajorBefore(seeds[k], seeds[l])
    ensures Covered(g0, seeds) == Chips(g0)
  {
    lines, g, seeds := [], g0, [];
    ScanInit(g0);
    for i := 0 to g0.rows
      invariant ScanAt(g0, g, lines, seeds, (i, 0))
    {
      lines, g, seeds := ScanRow(g0, g, lines, seeds, i);
    }
    NoChipsLeft(g0, g, lines, seeds);
    ScanDone(g0, g, lines, seeds);
  }

  /** Two chips that touch only at a corner. */
  const Diagonal: Grid := Board(2, 2, [[1, 0], [0, 1]])

  /** A list of ones sums to its length. */
  lemma {:induction false} SumOfOnes(xs: seq<int>)
    requires forall k :: 0 <= k < |xs| ==> xs[k] == 1
    ensures Sum(xs) == |xs|
  {
    if xs != [] {
      SumOfOnes(xs[..|xs| - 1]);
    }
  }

  /** The chips of `Diagonal` are its two corners, each a region of its own:
      corner-to-corner contact does not join regions. */
  lemma DiagonalRegions()
    ensures Chips(Diagonal) == {(0, 0), (1, 1)}
    ensures Region(Diagonal, (0, 0)) == {(0, 0)}
    ensures Region(Diagonal, (1, 1)) == {(1, 1)}
  {
    var g := Diagonal;
    assert Cell(g, (0, 0)) == 1 && Cell(g, (1, 1)) == 1;
    assert Cell(g, (0, 1)) == 0 && Cell(g, (1, 0)) == 0;
    IsolatedChip(g, (0, 0));
    IsolatedChip(g, (1, 1));
  }

  /** Every region of `Diagonal` has size 1, so sizes matched to its
      chips are all 1. */
  lemma DiagonalSizes(lines: seq<int>, seeds: seq<Coord>)
    requires |seeds| == |lines|
    requires forall k :: 0 <= k < |seeds| ==> seeds[k] in Chips(Diagonal) && lines[k] == |Region(Diagonal, seeds[k])|
    ensures forall k :: 0 <= k < |lines| ==> lines[k] == 1
  {
    DiagonalRegions();
    forall k | 0 <= k < |lines|
      ensures lines[k] == 1
    {
      assert seeds[k] == (0, 0) || seeds[k] == (1, 1);
    }
  }

  /** Sizes of regions of `Diagonal` that add up to its chip count are
      two ones. */
  lemma DiagonalOutcome(lines: seq<int>, seeds: seq<Coord>)
    requires |seeds| == |lines|
    requires forall k :: 0 <= k < |seeds| ==> seeds[k] in Chips(Diagonal) && lines[k] == |Region(Diagonal, seeds[k])|
    requires Sum(lines) == |Chips(Diagonal)|
    ensures lines == [1, 1]
  {
    DiagonalRegions();
    DiagonalSizes(lines, seeds);
    SumOfOnes(lines);
    assert |Chips(Diagonal)| == 2;
    assert lines == [lines[0], lines[1]];
  }

  /** On `Diagonal` the scan reports two regions of size 1. */
  method DiagonalLines() returns (lines: seq<int>)
    ensures lines == [1, 1]
  {
    var g;
    ghost var seeds;
    lines, g, seeds := FindChocoLine(Diagonal);
    DiagonalOutcome(lines, seeds);
  }
}
