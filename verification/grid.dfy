/** The cell space of a maze: a height x width grid of (row, col) pairs.
    Everything here is coordinate arithmetic; no passage is involved. */
module Grid {

  /** A cell is a (row, col) pair, rows counted downwards, columns rightwards. */
  type Cell = (int, int)

  /** `c` lies in the grid of `h` rows and `w` columns.  A non-positive
      dimension gives an empty grid, as `range` does. */
  predicate InBounds(h: int, w: int, c: Cell) {
    0 <= c.0 < h && 0 <= c.1 < w
  }

  /** The set of all cells of an h x w grid. */
  function GridSet(h: int, w: int): (s: set<Cell>)
    ensures forall c :: c in s <==> InBounds(h, w, c)
  {
    set i, j | 0 <= i < h && 0 <= j < w :: (i, j)
  }

  function Up(c: Cell): Cell { (c.0 - 1, c.1) }
  function Down(c: Cell): Cell { (c.0 + 1, c.1) }
  function Left(c: Cell): Cell { (c.0, c.1 - 1) }
  function Right(c: Cell): Cell { (c.0, c.1 + 1) }

  /** Grid adjacency: the two cells differ by exactly one in exactly one
      coordinate. */
  predicate Adjacent(a: Cell, b: Cell) {
    || (a.0 == b.0 && (a.1 - b.1 == 1 || b.1 - a.1 == 1))
    || (a.1 == b.1 && (a.0 - b.0 == 1 || b.0 - a.0 == 1))
  }

  /** Adjacency is exactly "one of the four orthogonal steps". */
  lemma AdjacentIsStep(a: Cell, b: Cell)
    ensures Adjacent(a, b) <==> b == Up(a) || b == Down(a) || b == Left(a) || b == Right(a)
  {
  }

  /** Strict row-major order on cells. */
  predicate Before(a: Cell, b: Cell) {
    a.0 < b.0 || (a.0 == b.0 && a.1 < b.1)
  }

  /** Position of cell `c` in the row-major enumeration of a grid `w` wide. */
  function RowMajorIndex(w: int, c: Cell): int {
    c.0 * w + c.1
  }

  /** Position of `d` among the four directions up, down, left, right as
      seen from `c` (any other cell ranks last). */
  function DirectionRank(c: Cell, d: Cell): nat {
    if d == Up(c) then 0
    else if d == Down(c) then 1
    else if d == Left(c) then 2
    else 3
  }

  /** The first `w` cells of row `i`, left to right. */
  function Row(i: int, w: int): (r: seq<Cell>)
    ensures |r| == if w > 0 then w else 0
    ensures forall k :: 0 <= k < |r| ==> r[k].0 == i && r[k].1 == k
    decreases w
  {
    if w <= 0 then [] else Row(i, w - 1) + [(i, w - 1)]
  }

  /** `get_cells`: every cell of the grid with `h` rows and `w` columns, in
      row-major order.  The result lists each grid cell exactly once, cell
      (i, j) at index i * w + j, and nothing else. */
  function Cells(h: int, w: int): (r: seq<Cell>)
    ensures |r| == if h > 0 && w > 0 then h * w else 0
    ensures forall k :: 0 <= k < |r| ==> InBounds(h, w, r[k])
    ensures forall c :: InBounds(h, w, c) ==>
              0 <= RowMajorIndex(w, c) < |r| && r[RowMajorIndex(w, c)] == c
    ensures forall c :: c in r <==> InBounds(h, w, c)
    ensures forall k, l :: 0 <= k < l < |r| ==> Before(r[k], r[l])
    decreases h
  {
    if h <= 0 then []
    else
      var prefix := Cells(h - 1, w);
      var last := Row(h - 1, w);
      AppendRowIndex(h, w, prefix, last);
      AppendRowOrder(h, w, prefix, last);
      prefix + last
  }

  /** Index arithmetic for appending the last row to the first h - 1 rows. */
  lemma AppendRowIndex(h: int, w: int, prefix: seq<Cell>, last: seq<Cell>)
    requires h > 0
    requires |prefix| == if h - 1 > 0 && w > 0 then (h - 1) * w else 0
    requires forall c :: InBounds(h - 1, w, c) ==>
               0 <= RowMajorIndex(w, c) < |prefix| && prefix[RowMajorIndex(w, c)] == c
    requires |last| == (if w > 0 then w else 0)
    requires forall k :: 0 <= k < |last| ==> last[k] == (h - 1, k)
    ensures |prefix + last| == if h > 0 && w > 0 then h * w else 0
    ensures forall c :: InBounds(h, w, c) ==>
              0 <= RowMajorIndex(w, c) < |prefix + last| && (prefix + last)[RowMajorIndex(w, c)] == c
  {
    if w > 0 {
      assert |prefix| == (h - 1) * w;
      assert (h - 1) * w + w == h * w;
    }
    forall c | InBounds(h, w, c)
      ensures 0 <= RowMajorIndex(w, c) < |prefix + last| && (prefix + last)[RowMajorIndex(w, c)] == c
    {
      if c.0 < h - 1 {
        assert InBounds(h - 1, w, c);
      } else {
        assert RowMajorIndex(w, c) == (h - 1) * w + c.1;
        assert last[c.1] == c;
      }
    }
  }

  /** Appending the last row keeps the enumeration strictly row-major. */
  lemma AppendRowOrder(h: int, w: int, prefix: seq<Cell>, last: seq<Cell>)
    requires forall k :: 0 <= k < |prefix| ==> InBounds(h - 1, w, prefix[k])
    requires forall k, l :: 0 <= k < l < |prefix| ==> Before(prefix[k], prefix[l])
    requires forall k :: 0 <= k < |last| ==> last[k] == (h - 1, k) && InBounds(h, w, last[k])
    ensures forall k :: 0 <= k < |prefix + last| ==> InBounds(h, w, (prefix + last)[k])
    ensures forall k, l :: 0 <= k < l < |prefix + last| ==> Before((prefix + last)[k], (prefix + last)[l])
  {
  }

  /** `get_contiguous_cells`: the cells one step up, down, left and right of
      `c`, each kept only when it passes the bounds test on the coordinate
      it changes, in that order. */
  function Contiguous(h: int, w: int, c: Cell): (r: seq<Cell>)
    ensures |r| <= 4
    ensures forall d :: d in r ==> Adjacent(c, d)
    ensures InBounds(h, w, c) ==> forall d :: d in r <==> InBounds(h, w, d) && Adjacent(c, d)
    ensures forall k, l :: 0 <= k < l < |r| ==> DirectionRank(c, r[k]) < DirectionRank(c, r[l])
  {
    (if c.0 - 1 >= 0 then [Up(c)] else [])
    + (if c.0 + 1 < h then [Down(c)] else [])
    + (if c.1 - 1 >= 0 then [Left(c)] else [])
    + (if c.1 + 1 < w then [Right(c)] else [])
  }
}
