/** The maze as an undirected graph over the cells of a grid: every cell
    maps to the set of cells it has an open passage to.  A wall between two
    cells is the absence of a passage. */
module Mazes {
  import opened Grid

  datatype Option<T> = None | Some(value: T)

  /** A maze of `height` rows and `width` columns.  `neighbors` maps each
      cell to the cells reachable from it through an open passage. */
  datatype Maze = Maze(height: int, width: int, neighbors: map<Cell, set<Cell>>)

  predicate InGrid(m: Maze, c: Cell) {
    InBounds(m.height, m.width, c)
  }

  /** There is an open passage from `a` to `b`. */
  predicate Open(m: Maze, a: Cell, b: Cell) {
    a in m.neighbors && b in m.neighbors[a]
  }

  /** Every grid cell has a neighbour set: looking a grid cell up never fails. */
  ghost predicate Covers(m: Maze) {
    forall c :: InGrid(m, c) ==> c in m.neighbors
  }

  /** The keys are exactly the grid cells. */
  ghost predicate WellFormed(m: Maze) {
    forall c :: c in m.neighbors <==> InGrid(m, c)
  }

  /** Passages are undirected: b is a neighbour of a iff a is one of b. */
  ghost predicate Symmetric(m: Maze) {
    forall a, b :: Open(m, a, b) ==> Open(m, b, a)
  }

  /** Passages only join grid-adjacent cells. */
  ghost predicate AdjacentOnly(m: Maze) {
    forall a, b :: Open(m, a, b) ==> Adjacent(a, b)
  }

  /** The structural invariant of a maze. */
  ghost predicate Valid(m: Maze) {
    WellFormed(m) && Symmetric(m) && AdjacentOnly(m)
  }

  /** Two mazes with the same dimensions, the same keys and the same
      passages are the same maze. */
  lemma SamePassages(m: Maze, n: Maze)
    requires m.height == n.height && m.width == n.width
    requires m.neighbors.Keys == n.neighbors.Keys
    requires forall a, b :: Open(m, a, b) <==> Open(n, a, b)
    ensures m == n
  {
    forall c | c in m.neighbors
      ensures m.neighbors[c] == n.neighbors[c]
    {
      assert forall b :: b in m.neighbors[c] <==> Open(m, c, b);
    }
  }

  /** The constructor: a fully walled maze, every grid cell a key with an
      empty neighbour set.  Non-positive dimensions give a maze without
      cells, as `range` does. */
  function New(height: int, width: int): (m: Maze)
    ensures m.height == height && m.width == width
    ensures WellFormed(m)
    ensures forall a, b :: !Open(m, a, b)
    ensures Valid(m)
  {
    Maze(height, width, map c | c in GridSet(height, width) :: {})
  }

  /** `add_wall`: closes the passage between `c1` and `c2`, in both
      directions; nothing else changes.  The source asserts that both cells
      are in the grid and then looks both of them up. */
  function AddWall(m: Maze, c1: Cell, c2: Cell): (r: Maze)
    requires InGrid(m, c1) && InGrid(m, c2)
    requires c1 in m.neighbors && c2 in m.neighbors
    ensures r.height == m.height && r.width == m.width
    ensures r.neighbors.Keys == m.neighbors.Keys
    ensures !Open(r, c1, c2) && !Open(r, c2, c1)
    ensures forall a, b :: Open(r, a, b) <==>
              Open(m, a, b) && !(a == c1 && b == c2) && !(a == c2 && b == c1)
    ensures forall c :: c in m.neighbors && c != c1 && c != c2 ==> r.neighbors[c] == m.neighbors[c]
    ensures WellFormed(m) ==> WellFormed(r)
    ensures Symmetric(m) ==> Symmetric(r)
    ensures AdjacentOnly(m) ==> AdjacentOnly(r)
  {
    var n := m.neighbors[c1 := m.neighbors[c1] - {c2}];
    m.(neighbors := n[c2 := n[c2] - {c1}])
  }

  /** `remove_wall`: opens the passage between `c1` and `c2`, in both
      directions; nothing else changes. */
  function RemoveWall(m: Maze, c1: Cell, c2: Cell): (r: Maze)
    requires InGrid(m, c1) && InGrid(m, c2)
    requires c1 in m.neighbors && c2 in m.neighbors
    ensures r.height == m.height && r.width == m.width
    ensures r.neighbors.Keys == m.neighbors.Keys
    ensures Open(r, c1, c2) && Open(r, c2, c1)
    ensures forall a, b :: Open(r, a, b) <==>
              Open(m, a, b) || (a == c1 && b == c2) || (a == c2 && b == c1)
    ensures forall c :: c in m.neighbors && c != c1 && c != c2 ==> r.neighbors[c] == m.neighbors[c]
    ensures WellFormed(m) ==> WellFormed(r)
    ensures Symmetric(m) ==> Symmetric(r)
    ensures AdjacentOnly(m) && Adjacent(c1, c2) ==> AdjacentOnly(r)
  {
    var n := m.neighbors[c1 := m.neighbors[c1] + {c2}];
    m.(neighbors := n[c2 := n[c2] + {c1}])
  }

  /** `fill`, as written: the loops run the first coordinate over
      `range(width)` and the second over `range(height)`, so the cells it
      empties are those of the transposed grid.  Keys of the transposed grid
      that the maze lacked are added; grid cells outside it keep their
      neighbours.  Only a square maze ends up fully walled. */
  function Fill(m: Maze): (r: Maze)
    ensures r.height == m.height && r.width == m.width
    ensures forall c :: c in r.neighbors <==> c in m.neighbors || InBounds(m.width, m.height, c)
    ensures forall c :: InBounds(m.width, m.height, c) ==> r.neighbors[c] == {}
    ensures forall c :: c in m.neighbors && !InBounds(m.width, m.height, c) ==>
              r.neighbors[c] == m.neighbors[c]
    ensures m.height == m.width && WellFormed(m) ==> r == New(m.height, m.width)
  {
    var r := m.(neighbors := m.neighbors + map c | c in GridSet(m.width, m.height) :: {});
    ResetIsNew(m, r, m.width, m.height);
    r
  }

  /** `fill` as evidently intended: every grid cell loses all its
      neighbours, whatever the shape of the grid. */
  function FillGrid(m: Maze): (r: Maze)
    ensures r.height == m.height && r.width == m.width
    ensures forall c :: c in r.neighbors <==> c in m.neighbors || InGrid(m, c)
    ensures forall c :: InGrid(m, c) ==> r.neighbors[c] == {}
    ensures WellFormed(m) ==> r == New(m.height, m.width)
  {
    var r := m.(neighbors := m.neighbors + map c | c in GridSet(m.height, m.width) :: {});
    ResetIsNew(m, r, m.height, m.width);
    r
  }

  /** Emptying the neighbour sets of the cells of an h x w grid, adding them
      as keys, gives the freshly constructed maze when the maze is
      well-formed and h x w is its own grid. */
  lemma ResetIsNew(m: Maze, r: Maze, h: int, w: int)
    requires r.height == m.height && r.width == m.width
    requires r.neighbors == m.neighbors + map c | c in GridSet(h, w) :: {}
    ensures WellFormed(m) && h == m.height && w == m.width ==> r == New(m.height, m.width)
  {
    if WellFormed(m) && h == m.height && w == m.width {
      SamePassages(r, New(m.height, m.width));
    }
  }

  /** One pass of the loop body of `empty` at cell `c`: open the passage to
      the right neighbour, then the one to the lower neighbour, each when
      that neighbour is in the grid. */
  function OpenRightAndDown(m: Maze, c: Cell): (r: Maze)
    requires Covers(m) && InGrid(m, c)
    ensures r.height == m.height && r.width == m.width
    ensures r.neighbors.Keys == m.neighbors.Keys
    ensures InGrid(m, Right(c)) ==> Open(r, c, Right(c)) && Open(r, Right(c), c)
    ensures InGrid(m, Down(c)) ==> Open(r, c, Down(c)) && Open(r, Down(c), c)
    ensures forall a, b :: Open(m, a, b) ==> Open(r, a, b)
    ensures forall a, b :: Open(r, a, b) ==>
              || Open(m, a, b)
              || (a == c && (b == Right(c) || b == Down(c)))
              || (b == c && (a == Right(c) || a == Down(c)))
    ensures forall a, b :: Open(r, a, b) ==>
              Open(m, a, b) || (InGrid(m, a) && InGrid(m, b) && Adjacent(a, b))
  {
    var m1 := if c.1 + 1 < m.width then RemoveWall(m, c, Right(c)) else m;
    if c.0 + 1 < m.height then RemoveWall(m1, c, Down(c)) else m1
  }

  /** The loop of `empty` over the given cells, in order. */
  function OpenAllFrom(m: Maze, cells: seq<Cell>): (r: Maze)
    requires Covers(m)
    requires forall k :: 0 <= k < |cells| ==> InGrid(m, cells[k])
    ensures r.height == m.height && r.width == m.width
    ensures r.neighbors.Keys == m.neighbors.Keys
    ensures forall c :: c in cells && InGrid(m, Right(c)) ==> Open(r, c, Right(c)) && Open(r, Right(c), c)
    ensures forall c :: c in cells && InGrid(m, Down(c)) ==> Open(r, c, Down(c)) && Open(r, Down(c), c)
    ensures forall a, b :: Open(m, a, b) ==> Open(r, a, b)
    ensures forall a, b :: Open(r, a, b) ==>
              || Open(m, a, b)
              || (a in cells && (b == Right(a) || b == Down(a)))
              || (b in cells && (a == Right(b) || a == Down(b)))
    ensures forall a, b :: Open(r, a, b) ==>
              Open(m, a, b) || (InGrid(m, a) && InGrid(m, b) && Adjacent(a, b))
    decreases |cells|
  {
    if |cells| == 0 then m
    else OpenAllFrom(OpenRightAndDown(m, cells[0]), cells[1..])
  }

  /** `empty`: opens every passage between grid-adjacent cells.  Passages
      already open stay open and no other passage is created, so on a valid
      maze the neighbours of a cell are exactly its grid-adjacent cells. */
  function Empty(m: Maze): (r: Maze)
    requires Covers(m)
    ensures r.height == m.height && r.width == m.width
    ensures r.neighbors.Keys == m.neighbors.Keys
    ensures forall a, b :: InGrid(m, a) && InGrid(m, b) && Adjacent(a, b) ==> Open(r, a, b)
    ensures forall a, b :: Open(m, a, b) ==> Open(r, a, b)
    ensures forall a, b :: Open(r, a, b) ==>
              Open(m, a, b) || (InGrid(m, a) && InGrid(m, b) && Adjacent(a, b))
    ensures Symmetric(m) ==> Symmetric(r)
    ensures Valid(m) ==> Valid(r)
    ensures Valid(m) ==> forall a, b :: Open(r, a, b) <==> InGrid(m, a) && InGrid(m, b) && Adjacent(a, b)
  {
    var cells := Cells(m.height, m.width);
    var r := OpenAllFrom(m, cells);
    JoinsAdjacentPairs(m, r);
    EmptiedIsValid(m, r);
    r
  }

  /** A maze where every grid cell is joined to its right and lower grid
      neighbours, both ways, joins every pair of grid-adjacent cells. */
  lemma JoinsAdjacentPairs(m: Maze, r: Maze)
    requires forall c :: InGrid(m, c) && InGrid(m, Right(c)) ==> Open(r, c, Right(c)) && Open(r, Right(c), c)
    requires forall c :: InGrid(m, c) && InGrid(m, Down(c)) ==> Open(r, c, Down(c)) && Open(r, Down(c), c)
    ensures forall a, b :: InGrid(m, a) && InGrid(m, b) && Adjacent(a, b) ==> Open(r, a, b)
  {
    forall a, b | InGrid(m, a) && InGrid(m, b) && Adjacent(a, b)
      ensures Open(r, a, b)
    {
      AdjacentIsStep(a, b);
      if b == Up(a) {
        assert a == Down(b);
      } else if b == Left(a) {
        assert a == Right(b);
      }
    }
  }

  /** Joining all grid-adjacent pairs of a valid maze, and nothing else,
      gives a valid maze whose passages are exactly those pairs. */
  lemma EmptiedIsValid(m: Maze, r: Maze)
    requires r.height == m.height && r.width == m.width
    requires r.neighbors.Keys == m.neighbors.Keys
    requires forall a, b :: InGrid(m, a) && InGrid(m, b) && Adjacent(a, b) ==> Open(r, a, b)
    requires forall a, b :: Open(r, a, b) ==>
               Open(m, a, b) || (InGrid(m, a) && InGrid(m, b) && Adjacent(a, b))
    ensures Valid(m) ==> Valid(r)
    ensures Valid(m) ==> forall a, b :: Open(r, a, b) <==> InGrid(m, a) && InGrid(m, b) && Adjacent(a, b)
  {
    if Valid(m) {
      assert forall a, b :: Open(m, a, b) ==> InGrid(m, a) && InGrid(m, b) && Adjacent(a, b);
    }
  }

  /** The reachable-cell filter: the cells of `cells` with an open passage
      from `c`, in their order. */
  function FilterOpen(m: Maze, c: Cell, cells: seq<Cell>): (r: seq<Cell>)
    requires |cells| > 0 ==> c in m.neighbors
    requires forall k, l :: 0 <= k < l < |cells| ==> DirectionRank(c, cells[k]) < DirectionRank(c, cells[l])
    ensures forall d :: d in r <==> d in cells && Open(m, c, d)
    ensures forall k, l :: 0 <= k < l < |r| ==> DirectionRank(c, r[k]) < DirectionRank(c, r[l])
    ensures |r| <= |cells|
    decreases |cells|
  {
    if |cells| == 0 then []
    else
      var rest := FilterOpen(m, c, cells[1..]);
      assert forall d :: d in cells[1..] ==> DirectionRank(c, cells[0]) < DirectionRank(c, d) by {
        forall d | d in cells[1..]
          ensures DirectionRank(c, cells[0]) < DirectionRank(c, d)
        {
          var j :| 0 <= j < |cells[1..]| && cells[1..][j] == d;
          assert cells[j + 1] == d;
        }
      }
      if cells[0] in m.neighbors[c] then [cells[0]] + rest else rest
  }

  /** `get_reachable_cells`: the contiguous cells of `c` with an open
      passage from `c`, in the order up, down, left, right.  The source
      looks `c` up only when it has at least one contiguous cell. */
  function Reachable(m: Maze, c: Cell): (r: seq<Cell>)
    requires c in m.neighbors || Contiguous(m.height, m.width, c) == []
    ensures forall d :: d in r <==> d in Contiguous(m.height, m.width, c) && Open(m, c, d)
    ensures forall k, l :: 0 <= k < l < |r| ==> DirectionRank(c, r[k]) < DirectionRank(c, r[l])
    ensures |r| <= 4
    ensures Valid(m) && InGrid(m, c) ==> forall d :: d in r <==> Open(m, c, d)
  {
    FilterOpen(m, c, Contiguous(m.height, m.width, c))
  }

  /** The candidate right neighbour `get_walls` tests.  As written, the
      source builds it as (row, row + 1); `corrected` selects the intended
      (row, col + 1). */
  function HorizontalCandidate(c: Cell, corrected: bool): Cell {
    if corrected then Right(c) else (c.0, c.0 + 1)
  }

  /** The pair (a, b) occurs in the wall list `ws`. */
  predicate Listed(ws: seq<(Cell, Cell)>, a: Cell, b: Cell) {
    (a, b) in ws
  }

  /** Order of the pairs `get_walls` produces: row-major on the first cell,
      and for one first cell the horizontal candidate before the vertical. */
  predicate PairBefore(p: (Cell, Cell), q: (Cell, Cell)) {
    Before(p.0, q.0) || (p.0 == q.0 && p.1 != Down(p.0) && q.1 == Down(q.0))
  }

  /** The pairs `get_walls` emits for one cell. */
  function WallsAt(m: Maze, c: Cell, corrected: bool): (r: seq<(Cell, Cell)>)
    requires Covers(m) && InGrid(m, c)
    ensures forall k :: 0 <= k < |r| ==>
              && r[k].0 == c && InGrid(m, r[k].1) && !Open(m, c, r[k].1)
              && (r[k].1 == HorizontalCandidate(c, corrected) || r[k].1 == Down(c))
    ensures InGrid(m, HorizontalCandidate(c, corrected)) && !Open(m, c, HorizontalCandidate(c, corrected)) ==>
              (c, HorizontalCandidate(c, corrected)) in r
    ensures InGrid(m, Down(c)) && !Open(m, c, Down(c)) ==> (c, Down(c)) in r
    ensures forall k, l :: 0 <= k < l < |r| ==> PairBefore(r[k], r[l])
  {
    var c2 := HorizontalCandidate(c, corrected);
    var c3 := Down(c);
    (if InGrid(m, c2) && c2 !in m.neighbors[c] then [(c, c2)] else [])
    + (if InGrid(m, c3) && c3 !in m.neighbors[c] then [(c, c3)] else [])
  }

  /** The loop of `get_walls` over the given cells, in order. */
  function WallsFrom(m: Maze, cells: seq<Cell>, corrected: bool): (r: seq<(Cell, Cell)>)
    requires Covers(m)
    requires forall k :: 0 <= k < |cells| ==> InGrid(m, cells[k])
    requires forall k, l :: 0 <= k < l < |cells| ==> Before(cells[k], cells[l])
    ensures forall k :: 0 <= k < |r| ==>
              && r[k].0 in cells && InGrid(m, r[k].1) && !Open(m, r[k].0, r[k].1)
              && (r[k].1 == HorizontalCandidate(r[k].0, corrected) || r[k].1 == Down(r[k].0))
    ensures forall i :: 0 <= i < |cells| && InGrid(m, HorizontalCandidate(cells[i], corrected))
                        && !Open(m, cells[i], HorizontalCandidate(cells[i], corrected)) ==>
              (cells[i], HorizontalCandidate(cells[i], corrected)) in r
    ensures forall i :: 0 <= i < |cells| && InGrid(m, Down(cells[i])) && !Open(m, cells[i], Down(cells[i])) ==>
              (cells[i], Down(cells[i])) in r
    ensures forall k, l :: 0 <= k < l < |r| ==> PairBefore(r[k], r[l])
    decreases |cells|
  {
    if |cells| == 0 then []
    else
      var here := WallsAt(m, cells[0], corrected);
      var rest := WallsFrom(m, cells[1..], corrected);
      HeadBeforeTail(cells);
      PairsConcatOrdered(cells[0], here, rest);
      assert forall i :: 1 <= i < |cells| ==> cells[i] == cells[1..][i - 1];
      here + rest
  }

  /** In a strictly row-major list, the head comes before every later cell. */
  lemma HeadBeforeTail(cells: seq<Cell>)
    requires |cells| > 0
    requires forall k, l :: 0 <= k < l < |cells| ==> Before(cells[k], cells[l])
    ensures forall d :: d in cells[1..] ==> Before(cells[0], d)
  {
    forall d | d in cells[1..]
      ensures Before(cells[0], d)
    {
      var j :| 0 <= j < |cells[1..]| && cells[1..][j] == d;
      assert cells[j + 1] == d;
    }
  }

  /** The pairs of one cell followed by the pairs of later cells stay in
      order. */
  lemma PairsConcatOrdered(c: Cell, here: seq<(Cell, Cell)>, rest: seq<(Cell, Cell)>)
    requires forall k :: 0 <= k < |here| ==> here[k].0 == c
    requires forall k, l :: 0 <= k < l < |here| ==> PairBefore(here[k], here[l])
    requires forall k, l :: 0 <= k < l < |rest| ==> PairBefore(rest[k], rest[l])
    requires forall k :: 0 <= k < |rest| ==> Before(c, rest[k].0)
    ensures forall k, l :: 0 <= k < l < |here + rest| ==> PairBefore((here + rest)[k], (here + rest)[l])
  {
  }

  /** `get_walls`, as written.  A pair is listed only if both cells are in
      the grid, there is no passage between them, and the second cell is the
      lower neighbour (row + 1, col) of the first or the cell (row, row + 1).
      Every such pair is listed, in row-major order of the first cell, and
      no pair twice. */
  function Walls(m: Maze): (r: seq<(Cell, Cell)>)
    requires Covers(m)
    ensures forall a, b {:trigger Listed(r, a, b)} :: Listed(r, a, b) ==>
              && InGrid(m, a) && InGrid(m, b) && !Open(m, a, b)
              && (b == (a.0, a.0 + 1) || b == Down(a))
    ensures forall c {:trigger Listed(r, c, HorizontalCandidate(c, false))} ::
              (InGrid(m, c) && InGrid(m, HorizontalCandidate(c, false))
               && !Open(m, c, HorizontalCandidate(c, false))) ==>
              Listed(r, c, HorizontalCandidate(c, false))
    ensures forall c {:trigger Listed(r, c, Down(c))} ::
              InGrid(m, c) && InGrid(m, Down(c)) && !Open(m, c, Down(c)) ==> Listed(r, c, Down(c))
    ensures forall k, l :: 0 <= k < l < |r| ==> PairBefore(r[k], r[l]) && r[k] != r[l]
  {
    WallsFrom(m, Cells(m.height, m.width), false)
  }

  /** `get_walls` as evidently intended: the walls between each cell and its
      right and lower neighbours.  A pair is listed iff it is such a
      neighbouring pair of grid cells without a passage; row-major order,
      no pair twice. */
  function CanonicalWalls(m: Maze): (r: seq<(Cell, Cell)>)
    requires Covers(m)
    ensures forall a, b {:trigger Listed(r, a, b)} :: Listed(r, a, b) <==>
              InGrid(m, a) && InGrid(m, b) && (b == Right(a) || b == Down(a)) && !Open(m, a, b)
    ensures forall k, l :: 0 <= k < l < |r| ==> PairBefore(r[k], r[l]) && r[k] != r[l]
  {
    WallsFrom(m, Cells(m.height, m.width), true)
  }

  /** The symmetry check of `info`: reports a pair (c1, c2) with c2 a
      neighbour of the grid cell c1 but not the other way round, or None
      when there is no such pair.  The source needs every grid cell and
      every neighbour of one to be a key. */
  method CheckSymmetry(m: Maze) returns (bad: Option<(Cell, Cell)>)
    requires Covers(m)
    requires forall a, b :: InGrid(m, a) && Open(m, a, b) ==> b in m.neighbors
    ensures bad.None? <==> forall a, b :: InGrid(m, a) && Open(m, a, b) ==> Open(m, b, a)
    ensures bad.Some? ==> InGrid(m, bad.value.0) && Open(m, bad.value.0, bad.value.1)
                          && !Open(m, bad.value.1, bad.value.0)
    ensures WellFormed(m) ==> (bad.None? <==> Symmetric(m))
  {
    var cells := Cells(m.height, m.width);
    var k := 0;
    while k < |cells|
      invariant 0 <= k <= |cells|
      invariant forall i, b :: 0 <= i < k && Open(m, cells[i], b) ==> Open(m, b, cells[i])
    {
      var c1 := cells[k];
      var todo := m.neighbors[c1];
      while todo != {}
        invariant todo <= m.neighbors[c1]
        invariant forall b :: b in m.neighbors[c1] && b !in todo ==> Open(m, b, c1)
        decreases todo
      {
        var c2 :| c2 in todo;
        assert InGrid(m, c1) && Open(m, c1, c2);
        if c1 !in m.neighbors[c2] {
          return Some((c1, c2));
        }
        todo := todo - {c2};
      }
      k := k + 1;
    }
    return None;
  }
}
