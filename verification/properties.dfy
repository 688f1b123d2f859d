/** Properties relating several maze operations: idempotence, inverses,
    the complementarity of walls and passages, and the two places where the
    operations as written depart from their evident intent. */
module MazeProperties {
  import opened Grid
  import opened Mazes

  /** Closing a wall twice is closing it once. */
  lemma AddWallIdempotent(m: Maze, c1: Cell, c2: Cell)
    requires InGrid(m, c1) && InGrid(m, c2)
    requires c1 in m.neighbors && c2 in m.neighbors
    ensures AddWall(AddWall(m, c1, c2), c1, c2) == AddWall(m, c1, c2)
  {
    var once := AddWall(m, c1, c2);
    SamePassages(AddWall(once, c1, c2), once);
  }

  /** Closing a wall does not depend on the order of its two cells. */
  lemma AddWallUnordered(m: Maze, c1: Cell, c2: Cell)
    requires InGrid(m, c1) && InGrid(m, c2)
    requires c1 in m.neighbors && c2 in m.neighbors
    ensures AddWall(m, c1, c2) == AddWall(m, c2, c1)
  {
    SamePassages(AddWall(m, c1, c2), AddWall(m, c2, c1));
  }

  /** Opening a passage twice is opening it once. */
  lemma RemoveWallIdempotent(m: Maze, c1: Cell, c2: Cell)
    requires InGrid(m, c1) && InGrid(m, c2)
    requires c1 in m.neighbors && c2 in m.neighbors
    ensures RemoveWall(RemoveWall(m, c1, c2), c1, c2) == RemoveWall(m, c1, c2)
  {
    var once := RemoveWall(m, c1, c2);
    SamePassages(RemoveWall(once, c1, c2), once);
  }

  /** Opening a passage does not depend on the order of its two cells. */
  lemma RemoveWallUnordered(m: Maze, c1: Cell, c2: Cell)
    requires InGrid(m, c1) && InGrid(m, c2)
    requires c1 in m.neighbors && c2 in m.neighbors
    ensures RemoveWall(m, c1, c2) == RemoveWall(m, c2, c1)
  {
    SamePassages(RemoveWall(m, c1, c2), RemoveWall(m, c2, c1));
  }

  /** Closing a passage that was just opened restores the maze, when it
      was closed in both directions before. */
  lemma AddWallUndoesRemoveWall(m: Maze, c1: Cell, c2: Cell)
    requires InGrid(m, c1) && InGrid(m, c2)
    requires c1 in m.neighbors && c2 in m.neighbors
    requires !Open(m, c1, c2) && !Open(m, c2, c1)
    ensures AddWall(RemoveWall(m, c1, c2), c1, c2) == m
  {
    SamePassages(AddWall(RemoveWall(m, c1, c2), c1, c2), m);
  }

  /** Opening a passage that was just closed restores the maze, when it was
      open in both directions before. */
  lemma RemoveWallUndoesAddWall(m: Maze, c1: Cell, c2: Cell)
    requires InGrid(m, c1) && InGrid(m, c2)
    requires c1 in m.neighbors && c2 in m.neighbors
    requires Open(m, c1, c2) && Open(m, c2, c1)
    ensures RemoveWall(AddWall(m, c1, c2), c1, c2) == m
  {
    SamePassages(RemoveWall(AddWall(m, c1, c2), c1, c2), m);
  }

  /** Two well-formed mazes of the same dimensions have the same keys. */
  lemma WellFormedSameKeys(m: Maze, n: Maze)
    requires WellFormed(m) && WellFormed(n)
    requires m.height == n.height && m.width == n.width
    ensures m.neighbors.Keys == n.neighbors.Keys
  {
    assert forall c :: c in m.neighbors <==> c in n.neighbors;
  }

  /** Two valid mazes of the same dimensions empty to the same maze,
      whatever their passages were. */
  lemma EmptyForgetsPassages(m: Maze, n: Maze)
    requires Valid(m) && Valid(n)
    requires m.height == n.height && m.width == n.width
    ensures Empty(m) == Empty(n)
  {
    var em, en := Empty(m), Empty(n);
    WellFormedSameKeys(m, n);
    assert forall a, b :: Open(em, a, b) <==> Open(en, a, b) by {
      assert forall c :: InGrid(m, c) == InGrid(n, c);
    }
    SamePassages(em, en);
  }

  /** Emptying any valid maze gives the emptied fully walled maze. */
  lemma EmptyOfNew(m: Maze)
    requires Valid(m)
    ensures Empty(m) == Empty(New(m.height, m.width))
  {
    EmptyForgetsPassages(m, New(m.height, m.width));
  }

  /** Emptying an emptied maze changes nothing. */
  lemma EmptyIdempotent(m: Maze)
    requires Valid(m)
    ensures Valid(Empty(m))
    ensures Empty(Empty(m)) == Empty(m)
  {
    var e := Empty(m);
    SamePassages(Empty(e), e);
  }

  /** Filling an emptied maze, as intended, gives back the fully walled
      maze. */
  lemma FillGridUndoesEmpty(m: Maze)
    requires Valid(m)
    ensures FillGrid(Empty(m)) == New(m.height, m.width)
  {
  }

  /** In a valid maze reachability is symmetric: b is reachable from a iff
      a is reachable from b. */
  lemma ReachableSymmetric(m: Maze, a: Cell, b: Cell)
    requires Valid(m) && InGrid(m, a) && InGrid(m, b)
    ensures b in Reachable(m, a) <==> a in Reachable(m, b)
  {
  }

  /** A canonical wall is listed iff the lower or right neighbour is not
      among the reachable cells. */
  lemma CanonicalWallsComplementReachable(m: Maze, a: Cell, b: Cell)
    requires Valid(m) && InGrid(m, a) && InGrid(m, b)
    requires b == Right(a) || b == Down(a)
    ensures Listed(CanonicalWalls(m), a, b) <==> b !in Reachable(m, a)
  {
  }

  /** Each pair of grid-adjacent cells is either joined by a passage or
      listed as a wall (in one of its two orders), never both, never
      neither. */
  lemma WallsPartitionAdjacentPairs(m: Maze, a: Cell, b: Cell)
    requires Valid(m) && InGrid(m, a) && InGrid(m, b) && Adjacent(a, b)
    ensures Open(m, a, b) <==> !(Listed(CanonicalWalls(m), a, b) || Listed(CanonicalWalls(m), b, a))
  {
    AdjacentIsStep(a, b);
    if b == Up(a) {
      assert a == Down(b);
    } else if b == Left(a) {
      assert a == Right(b);
    }
  }

  /** The intended listing of a fully walled maze holds exactly the pairs
      of a grid cell and its right or lower grid neighbour. */
  lemma NewListsAllWalls(h: int, w: int, a: Cell, b: Cell)
    ensures Listed(CanonicalWalls(New(h, w)), a, b) <==>
              InBounds(h, w, a) && InBounds(h, w, b) && (b == Right(a) || b == Down(a))
  {
  }

  /** The intended listing of an emptied maze holds no wall. */
  lemma EmptyListsNoWalls(m: Maze)
    requires Valid(m)
    ensures CanonicalWalls(Empty(m)) == []
  {
    var r := CanonicalWalls(Empty(m));
    if |r| > 0 {
      assert r[0] == (r[0].0, r[0].1);
      assert Listed(r, r[0].0, r[0].1);
      AdjacentIsStep(r[0].0, r[0].1);
    }
  }

  /** `fill` as written breaks the maze invariant on a grid that is not
      square: on a 1 x 2 maze with its one passage open, the cell (0, 1)
      keeps (0, 0) as neighbour while (0, 0) loses (0, 1), and the cell
      (1, 0), outside the grid, becomes a key. */
  lemma FillBreaksNonSquareMaze()
    ensures var m := RemoveWall(New(1, 2), (0, 0), (0, 1));
            && Valid(m)
            && Open(Fill(m), (0, 1), (0, 0))
            && !Open(Fill(m), (0, 0), (0, 1))
            && !Symmetric(Fill(m))
            && (1, 0) in Fill(m).neighbors
            && !WellFormed(Fill(m))
  {
    var m := RemoveWall(New(1, 2), (0, 0), (0, 1));
    assert !InBounds(2, 1, (0, 1));
    assert InBounds(2, 1, (1, 0)) && !InGrid(m, (1, 0));
  }

  /** `fill` as intended restores the invariant on every grid. */
  lemma FillGridKeepsValid(m: Maze)
    requires Valid(m)
    ensures Valid(FillGrid(m))
    ensures forall a, b :: !Open(FillGrid(m), a, b)
  {
  }

  /** `get_walls` as written never lists the ordered pair of a cell and
      its right neighbour unless the cell lies on the diagonal (row == col):
      the candidate it builds is (row, row + 1).  The reversed pair can
      still be listed, from a cell with col == row + 1. */
  lemma WallsOmitsOffDiagonalRightWalls(m: Maze, c: Cell)
    requires Covers(m)
    requires c.0 != c.1
    ensures !Listed(Walls(m), c, Right(c))
  {
  }

  /** `get_walls` as written never lists the wall between (1, 0) and
      (1, 1), in either order, whatever the maze: neither cell builds the
      other as a candidate.  The intended listing contains it whenever the
      passage is closed, so the walls and passages of such a maze do not
      account for every adjacent pair. */
  lemma WallsMissesWall(m: Maze)
    requires Covers(m) && InGrid(m, (1, 1))
    requires !Open(m, (1, 0), (1, 1))
    ensures !Listed(Walls(m), (1, 0), (1, 1)) && !Listed(Walls(m), (1, 1), (1, 0))
    ensures Listed(CanonicalWalls(m), (1, 0), (1, 1))
  {
    assert (1, 1) == Right((1, 0));
  }

  /** `get_walls` as written lists pairs that are not walls at all: the
      cell (0, 1) against itself, and the cells (1, 0) and (1, 2), which
      are not adjacent. */
  lemma WallsListsNonAdjacentPairs(m: Maze)
    requires Covers(m) && InGrid(m, (1, 2))
    requires !Open(m, (0, 1), (0, 1)) && !Open(m, (1, 0), (1, 2))
    ensures Listed(Walls(m), (0, 1), (0, 1)) && !Adjacent((0, 1), (0, 1))
    ensures Listed(Walls(m), (1, 0), (1, 2)) && !Adjacent((1, 0), (1, 2))
  {
    assert InGrid(m, (0, 1)) && HorizontalCandidate((0, 1), false) == (0, 1);
    assert InGrid(m, (1, 0)) && HorizontalCandidate((1, 0), false) == (1, 2);
  }
}
