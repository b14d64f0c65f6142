/**
 The cookie grid: a rectangle of integer cells in which 0 is an empty cell,
 1 is a chocolate chip that has not been counted yet and 2 is a chip that a
 traversal has already counted ("visited").  Any other value is neither a
 chip nor visited.

 The cell tests and the single mutator of the program (`isVisited`,
 `isChocoChip`, `visit`, `isValid`) are modelled here.  The program keeps the
 grid in a global vector of vectors and mutates it in place; here the grid is
 an immutable value that every operation takes as a parameter and, when it
 changes it, returns.
 */
module ChipGrid {

  /** A (row, column) coordinate.  Traversals create coordinates one step
      outside the grid, so a coordinate may be negative or too large. */
  type Coord = (int, int)

  /** Cell value of an uncounted chocolate chip. */
  const Chip := 1

  /** Cell value the traversals write into a chip once they have counted it. */
  const Visited := 2

  /** `rows` rows of `cols` cells each. */
  datatype Board = Board(rows: nat, cols: nat, cells: seq<seq<int>>)
  {
    predicate Wf() {
      |cells| == rows && forall r :: 0 <= r < rows ==> |cells[r]| == cols
    }
  }

  /** Only rectangular boards are grids: the driver reads `rows` rows of
      exactly `cols` values each. */
  type Grid = b: Board | b.Wf() witness Board(0, 0, [])

  /** The true bounds test: p names a cell of g. */
  predicate InBounds(g: Grid, p: Coord) {
    0 <= p.0 < g.rows && 0 <= p.1 < g.cols
  }

  /** The coordinates a traversal can produce: a cell of g or a coordinate
      one step outside it. */
  predicate InRange(g: Grid, p: Coord) {
    -1 <= p.0 <= g.rows && -1 <= p.1 <= g.cols
  }

  function Cell(g: Grid, p: Coord): int
    requires InBounds(g, p)
  {
    g.cells[p.0][p.1]
  }

  /** p is a cell of g that holds an uncounted chip. */
  predicate IsChipAt(g: Grid, p: Coord) {
    InBounds(g, p) && Cell(g, p) == Chip
  }

  /** The set of all uncounted chips of g. */
  function Chips(g: Grid): (chips: set<Coord>)
    ensures forall p :: p in chips <==> IsChipAt(g, p)
  {
    set i, j | 0 <= i < g.rows && 0 <= j < g.cols && g.cells[i][j] == Chip :: (i, j)
  }

  /** The program's `isVisited`: the cell holds exactly 2. */
  function IsVisited(g: Grid, i: int, j: int): (visited: bool)
    requires InBounds(g, (i, j))
    ensures visited ==> (i, j) !in Chips(g)
  {
    Cell(g, (i, j)) == Visited
  }

  /** The program's `isChocoChip`: the cell holds exactly 1. */
  function IsChocoChip(g: Grid, i: int, j: int): (chip: bool)
    requires InBounds(g, (i, j))
    ensures chip <==> (i, j) in Chips(g)
  {
    Cell(g, (i, j)) == Chip
  }

  /** The program's `isValid`.  It rejects negative coordinates but compares
      with the dimensions by equality, so it agrees with the true bounds
      test only on coordinates at most one step outside the grid. */
  function IsValid(g: Grid, i: int, j: int): (valid: bool)
    ensures InRange(g, (i, j)) ==> (valid <==> InBounds(g, (i, j)))
    ensures i < 0 || j < 0 ==> !valid
  {
    !(i < 0 || j < 0 || i == g.rows || j == g.cols)
  }

  /** Outside `InRange` the test of `IsValid` lets coordinates through that
      are not cells of the grid: row `rows + 1` is one. */
  lemma IsValidBeyondRange(g: Grid)
    requires g.cols > 0
    ensures IsValid(g, g.rows + 1, 0) && !InBounds(g, (g.rows + 1, 0))
  {
  }

  /** g' is g with exactly the cells of `marked` changed, each of them from
      an uncounted chip into a visited one.  Every other cell, whatever
      value it holds, is unchanged. */
  ghost predicate MarksExactly(g: Grid, g': Grid, marked: set<Coord>) {
    && g'.rows == g.rows
    && g'.cols == g.cols
    && (forall p :: p in marked ==> IsChipAt(g, p) && Cell(g', p) == Visited)
    && (forall p :: InBounds(g, p) && p !in marked ==> Cell(g', p) == Cell(g, p))
  }

  /** The program's `visit`: write 2 into one cell and nothing else. */
  function Visit(g: Grid, i: int, j: int): (g': Grid)
    requires InBounds(g, (i, j))
    ensures g'.rows == g.rows && g'.cols == g.cols
    ensures IsVisited(g', i, j) && !IsChocoChip(g', i, j)
    ensures forall p :: InBounds(g, p) && p != (i, j) ==> Cell(g', p) == Cell(g, p)
    ensures Chips(g') == Chips(g) - {(i, j)}
    ensures IsChipAt(g, (i, j)) ==> MarksExactly(g, g', {(i, j)})
  {
    g.(cells := g.cells[i := g.cells[i][j := Visited]])
  }

  /** Marking changes chips into visited cells and nothing else, so the chips
      left are the old ones minus the marked ones: each marked cell is one
      chip fewer. */
  lemma MarksRemovesChips(g: Grid, g': Grid, marked: set<Coord>)
    requires MarksExactly(g, g', marked)
    ensures marked <= Chips(g)
    ensures Chips(g') == Chips(g) - marked
    ensures |Chips(g')| == |Chips(g)| - |marked|
  {
    assert Chips(g') == Chips(g) - marked;
  }

  /** Marking A and then B marks A and B. */
  lemma MarksCompose(g0: Grid, g1: Grid, g2: Grid, a: set<Coord>, b: set<Coord>)
    requires MarksExactly(g0, g1, a) && MarksExactly(g1, g2, b)
    ensures MarksExactly(g0, g2, a + b)
    ensures a !! b
  {
  }

  /** The marked set determines the resulting grid. */
  lemma MarksUnique(g: Grid, g1: Grid, g2: Grid, marked: set<Coord>)
    requires MarksExactly(g, g1, marked) && MarksExactly(g, g2, marked)
    ensures g1 == g2
  {
    forall r | 0 <= r < g.rows
      ensures g1.cells[r] == g2.cells[r]
    {
      forall c | 0 <= c < g.cols
        ensures g1.cells[r][c] == g2.cells[r][c]
      {
        assert Cell(g1, (r, c)) == Cell(g2, (r, c));
      }
    }
    assert g1.cells == g2.cells;
  }

  /** Marking nothing leaves the grid as it was. */
  lemma MarksNothing(g: Grid, g': Grid)
    requires MarksExactly(g, g', {})
    ensures g' == g
  {
    MarksUnique(g, g', g, {});
  }
}
