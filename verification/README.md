# Chocolate-chip regions

A Dafny model of `find-choco-chip-regions.cpp`. The program takes a grid of integer cells:

- 0 is an empty cell;
- 1 is a chocolate chip not yet counted;
- 2 is a chip a traversal has already counted ("visited").

It reports the size of every region of chips that are joined horizontally or vertically (never diagonally). It works like this:

- `findChocoLine` scans the grid in row-major order.
- At every unvisited chip it runs the breadth-first flood fill `BFS_Count` and appends the count that fill returns.
- `BFS_Count` pushes all four neighbours of an accepted cell without any test. It filters a coordinate only when the coordinate is popped: the coordinate must pass `isValid`, be a chip, and not be visited.
- `DFS_Count` is the recursive alternative with the same filter. Its call in `findChocoLine` is commented out.

The model has five modules:

- `ChipGrid` (`grid.dfy`): the grid and the cell operations `isVisited`, `isChocoChip`, `visit` and `isValid`.
- `Connectivity` (`regions.dfy`): 4-adjacency, chains of adjacent chips, and the region of a chip. These are ghost definitions that serve as the specification.
- `BreadthFirst` (`bfs.dfy`): `BFS_Count`, with its loop invariant proved step by step.
- `DepthFirst` (`dfs.dfy`): `DFS_Count`, and the proof that the two traversals agree.
- `ChocoLines` (`scan.dfy`): `findChocoLine`, split into a per-cell step, a row and the outer loop, plus a worked example.

The program keeps the grid in a global vector of vectors and mutates it in place. In the model:

- The grid is an immutable value (`Grid`: `rows` rows of `cols` integers).
- Every operation takes the grid as a parameter and returns the grid it leaves behind.
- The queue is a `seq` used as a FIFO.
- The result list is a `seq<int>`.

The central specification is `MarksExactly(g, g', S)`: g' is g with exactly the chips in S turned into visited cells, and every other cell unchanged. Both traversals are proved to satisfy `MarksExactly(g, g', Region(g, start))`, to return `|Region(g, start)|`, and to return exactly the number of chips they removed.

`isValid` compares the coordinates with the dimensions by equality (`i == rows`) rather than with `>=`. It equals the true bounds test only for coordinates in [-1, rows] × [-1, cols] (`InRange`). Every coordinate a traversal produces lies in that range. So the model carries `InRange` as the traversals' precondition and keeps the program's test as written. `IsValidBeyondRange` exhibits a coordinate outside the range that the test lets through.

## Model

| member | source | states |
|---|---|---|
| ChipGrid.IsVisited | Classic_Cookie_Challenge/find-choco-chip-regions.cpp:10-15 | a cell reported visited is not an uncounted chip |
| ChipGrid.IsChocoChip | Classic_Cookie_Challenge/find-choco-chip-regions.cpp:23-27 | the test is true exactly for the cells in the grid's set of uncounted chips |
| ChipGrid.Visit | Classic_Cookie_Challenge/find-choco-chip-regions.cpp:18-20 | afterwards the cell is visited and not a chip; dimensions and every other cell are unchanged; the chip set loses exactly that cell; for a chip this is marking exactly that one cell |
| ChipGrid.IsValid | Classic_Cookie_Challenge/find-choco-chip-regions.cpp:30-35 | within one step of the grid the test is true exactly for the cells of the grid; any negative coordinate is rejected |
| ChipGrid.IsValidBeyondRange | Classic_Cookie_Challenge/find-choco-chip-regions.cpp:31 | the equality test accepts row `rows + 1`, which is not a cell: the test is a bounds test only within one step of the grid |
| ChipGrid.MarksRemovesChips | Classic_Cookie_Challenge/find-choco-chip-regions.cpp:86-89 | marking only ever turns chips into visited cells, so the chips left are the old ones minus the marked ones; the count of chips drops by the number marked |
| ChipGrid.MarksUnique | Classic_Cookie_Challenge/find-choco-chip-regions.cpp:116-120 | the set of marked chips determines the grid left behind, whatever order the cells were marked in |
| Connectivity.Neighbours | Classic_Cookie_Challenge/find-choco-chip-regions.cpp:91-94 | the four pushed coordinates are exactly the horizontally and vertically adjacent ones; diagonals are not among them |
| Connectivity.AdjacentInRange | Classic_Cookie_Challenge/find-choco-chip-regions.cpp:91-94 | a coordinate pushed from a cell of the grid is at most one step outside it, where the bounds test is exact |
| BreadthFirst.BfsInit | Classic_Cookie_Challenge/find-choco-chip-regions.cpp:64-70 | with only the start queued and nothing counted, the loop invariant holds |
| BreadthFirst.BfsSkip | Classic_Cookie_Challenge/find-choco-chip-regions.cpp:75-86 | popping a coordinate the filter rejects changes no cell and keeps the invariant |
| BreadthFirst.BfsAccept | Classic_Cookie_Challenge/find-choco-chip-regions.cpp:86-94 | accepting a chip, marking it and pushing its four neighbours keeps the invariant, adds one new cell to the marked set and strictly lowers the number of chips left |
| BreadthFirst.BfsDone | Classic_Cookie_Challenge/find-choco-chip-regions.cpp:72-98 | when the queue is empty the marked cells are exactly the region of the start |
| BreadthFirst.BfsFinish | Classic_Cookie_Challenge/find-choco-chip-regions.cpp:100 | at return the region is marked, the count is its size and the number of chips removed, and a start that is not a chip leaves the grid unchanged with count 0 |
| BreadthFirst.BfsCount | Classic_Cookie_Challenge/find-choco-chip-regions.cpp:61-101 | terminates; reads only cells of the grid; the grid left is the input with exactly the start's region turned from 1 to 2 and every other cell, whatever its value, unchanged; the count is the region's size and the number of cells changed; an invalid start or one that is not an unvisited chip returns 0 with the grid unchanged |
| DepthFirst.FillStep | Classic_Cookie_Challenge/find-choco-chip-regions.cpp:57 | each recursive call, made on the grid the earlier calls left, extends the filled set by its region and keeps it inside the start's region |
| DepthFirst.FillDone | Classic_Cookie_Challenge/find-choco-chip-regions.cpp:57 | after the four recursive calls the filled set is the whole region |
| DepthFirst.DfsCount | Classic_Cookie_Challenge/find-choco-chip-regions.cpp:38-58 | an invalid, visited or non-chip coordinate returns 0 and changes nothing; otherwise the start's region is marked and its size returned; the count equals the chips removed |
| DepthFirst.DfsExpand | Classic_Cookie_Challenge/find-choco-chip-regions.cpp:52-57 | marking the chip and adding 1 to the four recursive counts marks the whole region and returns its size |
| DepthFirst.TraversalsAgree | Classic_Cookie_Challenge/find-choco-chip-regions.cpp:116-120 | from the same start on the same grid the depth-first and breadth-first fills return the same count and leave the same grid |
| ChocoLines.ScanFound | Classic_Cookie_Challenge/find-choco-chip-regions.cpp:114-120 | filling from a chip not yet covered appends a size of at least 1, the size of a region disjoint from all earlier ones, and keeps the sum of sizes equal to the chips removed |
| ChocoLines.ScanSkip | Classic_Cookie_Challenge/find-choco-chip-regions.cpp:111-114 | passing a cell that is not an unvisited chip changes nothing and leaves no chip behind the scan |
| ChocoLines.ScanFill | Classic_Cookie_Challenge/find-choco-chip-regions.cpp:114-122 | after the fill at (i, j) no chip is left at or before (i, j) in row-major order |
| ChocoLines.ScanCell | Classic_Cookie_Challenge/find-choco-chip-regions.cpp:111-122 | one step of the inner loop moves the scan one cell on and keeps its invariant; the list only grows, by appending at most one size |
| ChocoLines.ScanRow | Classic_Cookie_Challenge/find-choco-chip-regions.cpp:111-123 | after the inner loop no chip is left in row i or above; the sizes found in the row are appended to the list, at most one per column |
| ChocoLines.ScanNextRow | Classic_Cookie_Challenge/find-choco-chip-regions.cpp:110-111 | the end of one row is the start of the next: every chip lies in a column before `cols` |
| ChocoLines.NoChipsLeft | Classic_Cookie_Challenge/find-choco-chip-regions.cpp:110-124 | after the last row no cell holds 1 |
| ChocoLines.ScanDone | Classic_Cookie_Challenge/find-choco-chip-regions.cpp:125 | a scan with no chip left has covered every chip, its sizes sum to the initial number of chips, and it found nothing on a grid without chips |
| ChocoLines.FindChocoLine | Classic_Cookie_Challenge/find-choco-chip-regions.cpp:105-126 | every size is at least 1; the sizes sum to the number of 1-cells of the input; no cell holds 1 afterwards and exactly the input's chips changed; no chips gives an empty list; each size is the size of a distinct region, found in row-major order, and together they cover every chip |
| ChocoLines.DiagonalRegions | Classic_Cookie_Challenge/find-choco-chip-regions.cpp:91-94 | on the 2 × 2 grid with chips only on the diagonal, each chip is a region of its own |
| ChocoLines.DiagonalSizes | Classic_Cookie_Challenge/find-choco-chip-regions.cpp:114-120 | every region size found on that grid is 1 |
| ChocoLines.DiagonalOutcome | Classic_Cookie_Challenge/find-choco-chip-regions.cpp:105-126 | region sizes on that grid that add up to its chip count are exactly two ones |
| ChocoLines.DiagonalLines | Classic_Cookie_Challenge/find-choco-chip-regions.cpp:105-126 | the scan of that grid reports [1, 1]: diagonal contact does not merge regions |

## Left out

- `main` and its console I/O are not modelled. That covers reading `rows`, `cols` and the cells, and printing the bracketed list. The model takes the grid as an argument and returns the list.
- The globals `C`, `rows` and `cols` become a parameter and a result. The in-place mutation of the global vector becomes a returned grid value. The driver only ever builds rectangular grids, and `Grid` requires that.
- Negative `rows` or `cols` are not modelled. Dimensions are `nat`, because the loops in `findChocoLine` never run for them.
- `std::queue` and `std::vector` are modelled as `seq`. Allocation failure is not modelled.
- The 32-bit `int` of `count` and of the coordinates is not modelled; integers are unbounded. A region has at most `rows × cols` cells, and the coordinates stay within one step of the grid. So nothing overflows while `rows × cols` and `rows + 1`, `cols + 1` fit in `int`.
- Recursion depth and stack overflow of `DFS_Count` are not modelled.
- The order in which `DFS_Count` evaluates its four recursive calls is left unspecified by C++. The model evaluates them left to right, in the order written. `ChipGrid.MarksUnique` shows that the resulting grid does not depend on the order of marking.
- `DepthFirst.DfsCount` and `BreadthFirst.BfsCount` require the start to be at most one step outside the grid. The program's bounds test is only exact there, and every call the program makes meets this.
- The visiting order within a region is not specified beyond the resulting set and count. That includes the breadth-first order of the queue.
