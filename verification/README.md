# Maze graph model

A Dafny model of the `Maze` class of the Labyrinthe-2D project.  A maze of
`height` rows and `width` columns is an undirected graph.  Its vertices are
the grid cells `(row, col)`.  A dictionary maps each cell to the set of
cells it has an open passage to.  A wall is the absence of a passage.  In
the source, `add_wall` closes a passage and `remove_wall` opens one.

The model is functional.  `Mazes.Maze` is an immutable record holding
`height`, `width` and `neighbors: map<Cell, set<Cell>>`.  Every mutator is
a pure function returning the updated maze.  The invariants the class
relies on are predicates over that record:

- `Covers`: every grid cell is a key, so looking up a grid cell never fails.
- `WellFormed`: the keys are exactly the grid cells.
- `Symmetric`: c2 is a neighbour of c1 iff c1 is a neighbour of c2.  This is
  the check that `info` performs.
- `AdjacentOnly`: passages only join cells that differ by one in exactly one
  coordinate.
- `Valid`: the last three together.

Files:

- `grid.dfy` (module `Grid`): cells, bounds, adjacency, the row-major cell
  enumeration (`get_cells`) and the contiguous cells (`get_contiguous_cells`).
- `maze.dfy` (module `Mazes`): the maze record, its invariants, the
  constructor, `add_wall`, `remove_wall`, `fill`, `empty`,
  `get_reachable_cells`, `get_walls` and the symmetry check of `info`.
- `properties.dfy` (module `MazeProperties`): lemmas relating several
  operations.

The Python assertions in `add_wall` and `remove_wall` become `requires`
clauses.  So does a dictionary lookup that would raise `KeyError`.

The constructor does not check its dimensions: a non-positive height or
width gives a maze without cells, because `range` is then empty.

## Model

| member | source | states |
|---|---|---|
| `Mazes.New` | Maze.py:10-19 | the keys are exactly the grid cells; every neighbour set is empty; the result is valid (well-formed, symmetric, adjacency-only) |
| `Grid.Cells` | Maze.py:98-107 | lists every grid cell exactly once and nothing else: length height*width, cell (i, j) at index i*width+j, strictly increasing in row-major order |
| `Mazes.AddWall` | Maze.py:79-96 | both cells must be in the grid; afterwards neither direction of the passage is open; every other passage is as before; keys and other cells' sets unchanged; preserves well-formedness, symmetry and adjacency-only |
| `Mazes.RemoveWall` | Maze.py:109-126 | both cells must be in the grid; afterwards both directions are open; no other passage is added or removed; only the two cells' sets change; preserves well-formedness and symmetry, and adjacency-only when the two cells are grid-adjacent |
| `Mazes.Fill` | Maze.py:143-151 | as written: empties the cells of the transposed width x height grid, adds them as keys, leaves every other key alone; on a well-formed square maze the result is the fully walled maze |
| `Mazes.FillGrid` | Maze.py:143-151 | as intended: every grid cell ends with no neighbour; a well-formed maze becomes the fully walled maze of its dimensions |
| `Mazes.OpenRightAndDown` | Maze.py:159-164 | opens the passage from a cell to its right and its lower neighbour, both ways, when they are in the grid; removes no passage, and every new passage is one of those two pairs |
| `Mazes.OpenAllFrom` | Maze.py:158-164 | for every visited cell, the right and lower passages are open in both directions; removes no passage, and every new passage joins a visited cell and its right or lower neighbour |
| `Mazes.Empty` | Maze.py:153-164 | every pair of grid-adjacent grid cells is joined; no passage is removed and no other is created; symmetry is preserved; on a valid maze the result is valid and its passages are exactly the grid-adjacent pairs |
| `Grid.Contiguous` | Maze.py:166-181 | at most four cells, each adjacent to the given cell, in the order up, down, left, right; for a cell in the grid, exactly its in-grid adjacent cells |
| `Mazes.FilterOpen` | Maze.py:186-188 | keeps exactly the listed cells with an open passage from the cell, in their order |
| `Mazes.Reachable` | Maze.py:183-190 | exactly the contiguous cells with an open passage, in the order up, down, left, right, at most four; in a valid maze exactly the neighbour set of the cell |
| `Mazes.WallsAt` | Maze.py:135-140 | for one grid cell: lists the pair with the horizontal candidate, and the pair with the lower cell, exactly when that second cell is in the grid and not a neighbour; the candidate pair first |
| `Mazes.WallsFrom` | Maze.py:133-141 | over the given cells: every listed pair has an in-grid second cell with no passage from the first and is one of the two candidates; every such candidate pair is listed; pairs strictly ordered |
| `Mazes.Walls` | Maze.py:128-141 | as written: each listed pair has both cells in the grid, no passage from the first to the second, and second cell (row+1, col) or (row, row+1); every such pair without a passage is listed; row-major order, no duplicates |
| `Mazes.CanonicalWalls` | Maze.py:128-141 | as intended: a pair is listed iff it is a cell and its right or lower grid neighbour without a passage; row-major order, no duplicates |
| `Mazes.CheckSymmetry` | Maze.py:32-41 | reports no pair iff every neighbour of every grid cell has that cell as neighbour; a reported pair is a one-way passage; on a well-formed maze, no pair iff the maze is symmetric |
| `MazeProperties.AddWallIdempotent` | Maze.py:93-96 | closing the same wall twice equals closing it once |
| `MazeProperties.AddWallUnordered` | Maze.py:93-96 | closing the wall between c1 and c2 equals closing the one between c2 and c1 |
| `MazeProperties.RemoveWallIdempotent` | Maze.py:123-126 | opening the same passage twice equals opening it once |
| `MazeProperties.RemoveWallUnordered` | Maze.py:123-126 | opening c1–c2 equals opening c2–c1 |
| `MazeProperties.AddWallUndoesRemoveWall` | Maze.py:93-126 | on a closed pair, opening then closing gives back the same maze |
| `MazeProperties.RemoveWallUndoesAddWall` | Maze.py:93-126 | on a pair open both ways, closing then opening gives back the same maze |
| `MazeProperties.EmptyForgetsPassages` | Maze.py:158-164 | two valid mazes of the same dimensions empty to the same maze |
| `MazeProperties.EmptyOfNew` | Maze.py:158-164 | emptying any valid maze equals emptying the fully walled maze of its dimensions |
| `MazeProperties.EmptyIdempotent` | Maze.py:158-164 | emptying keeps validity, and emptying twice equals emptying once |
| `MazeProperties.FillGridUndoesEmpty` | Maze.py:148-164 | filling an emptied valid maze, as intended, gives the fully walled maze |
| `MazeProperties.FillGridKeepsValid` | Maze.py:148-150 | filling as intended keeps a valid maze valid and leaves no passage |
| `MazeProperties.ReachableSymmetric` | Maze.py:183-190 | in a valid maze, b is reachable from a iff a is reachable from b |
| `MazeProperties.CanonicalWallsComplementReachable` | Maze.py:133-141 | as intended (`CanonicalWalls`): for a cell and its right or lower neighbour, the pair is a listed wall iff the neighbour is not reachable |
| `MazeProperties.WallsPartitionAdjacentPairs` | Maze.py:133-141 | as intended (`CanonicalWalls`): every pair of grid-adjacent cells is either open or listed as a wall in one of its orders, never both, never neither |
| `MazeProperties.NewListsAllWalls` | Maze.py:14-19 | as intended (`CanonicalWalls`): a fully walled maze lists a pair iff it is a grid cell and its right or lower grid neighbour |
| `MazeProperties.EmptyListsNoWalls` | Maze.py:153-164 | as intended (`CanonicalWalls`): an emptied valid maze lists no wall |
| `MazeProperties.FillBreaksNonSquareMaze` | Maze.py:148-150 | on a 1 x 2 maze with its passage open, `fill` as written leaves a one-way passage and an out-of-grid key |
| `MazeProperties.WallsOmitsOffDiagonalRightWalls` | Maze.py:135-137 | as written, the ordered pair of a cell and its right neighbour is never listed unless the cell has row == col |
| `MazeProperties.WallsMissesWall` | Maze.py:133-140 | as written, on any maze at least two rows and two columns big, the wall between (1,0) and (1,1) is listed in neither order, while the intended listing contains it when the passage is closed |
| `MazeProperties.WallsListsNonAdjacentPairs` | Maze.py:133-140 | as written, on any maze at least two rows and three columns big, the self-pair ((0,1),(0,1)) and the non-adjacent pair ((1,0),(1,2)) are listed when they have no passage |

## Left out

- `__str__` (Maze.py:44-77): box-drawing rendering, presentation only.
- The text that `info` builds (Maze.py:28-31, 41): debug formatting.  Only its symmetry check is modelled, as `Mazes.CheckSymmetry`.
- The maze generators (binary tree, sidewinder, fusion, exploration): they are not in `Maze.py`, which is the only source file of this model.  Randomness goes with them.
- The assertion messages of `add_wall` and `remove_wall`: a failing assertion is a precondition here, not an error value.
- Mazes.CheckSymmetry: the source walks the grid cells in set order, the model in row-major order.  The verdict does not depend on the order; which one-way pair gets reported can differ.
- Mazes.Empty: requires every grid cell to be a key (`Covers`).  The source only looks up the cells it touches.  `Covers` holds for every maze the class can build: the constructor establishes it and no operation removes a key.
- Mazes.Walls: requires `Covers` for the same reason as `Empty`.  The source skips the lookup for a cell whose candidates are both outside the grid.
- Mazes.CanonicalWalls: requires `Covers` for the same reason.
- Grid.Contiguous: for a cell outside the grid, the contract only says that each result is adjacent to it and that the results come in direction order.  It does not say which ones pass the bounds tests.
- Python's integers are unbounded, like Dafny's `int`, so no wrap-around is modelled.

## Findings

| source | as written | input that shows it | evidently intended | confidence | as-written member | corrected member |
|---|---|---|---|---|---|---|
| Maze.py:148-150 | `fill` runs the row index over `range(width)` and the column index over `range(height)` | a 1 x 2 maze with its passage open: (0, 0) loses (0, 1), (0, 1) keeps (0, 0), and (1, 0) becomes a key | every grid cell loses all its neighbours | high, not executed | `MazeProperties.FillBreaksNonSquareMaze` (about `Mazes.Fill`) | `Mazes.FillGrid`, with `MazeProperties.FillGridKeepsValid` |
| Maze.py:135 | the horizontal candidate is `(c1[0], c1[0]+1)` | a fully walled 2 x 3 maze: the wall between (1,0) and (1,1) is listed in neither order, while ((0,1),(0,1)) and ((1,0),(1,2)), which are not walls between adjacent cells, are listed | the candidate is the right neighbour `(c1[0], c1[1]+1)` | high, not executed | `MazeProperties.WallsMissesWall`, `MazeProperties.WallsListsNonAdjacentPairs` and `MazeProperties.WallsOmitsOffDiagonalRightWalls` (about `Mazes.Walls`) | `Mazes.CanonicalWalls`, with `MazeProperties.WallsPartitionAdjacentPairs` |
