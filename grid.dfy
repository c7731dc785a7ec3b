/** The maze as the search sees it: a start cell, a neighbour function and an
    objective test. The maze object itself (file parsing, walls) lies outside
    this model; it is represented only by these queries. */
module Grid {

  /** A `(row, col)` position. */
  datatype Cell = Cell(row: int, col: int)

  /** The in-band marker `(-1, -1)` that the backtrack map stores as the
      start cell's predecessor. */
  const Sentinel: Cell := Cell(-1, -1)

  /** `getStart`, `getNeighbors` and `isObjective` of a maze, together with
      the finite set of its cells. */
  datatype Maze = Maze(
    cells: set<Cell>,
    start: Cell,
    neighbors: Cell -> seq<Cell>,
    isObjective: Cell -> bool)

  /** The start is a cell, no real cell is the sentinel, and neighbours of
      cells are cells. */
  ghost predicate Valid(m: Maze)
  {
    && m.start in m.cells
    && Sentinel !in m.cells
    && forall c :: c in m.cells ==>
         forall i :: 0 <= i < |m.neighbors(c)| ==> m.neighbors(c)[i] in m.cells
  }

  /** A walk from the start: each cell is a neighbour of the one before. */
  ghost predicate IsWalk(m: Maze, w: seq<Cell>)
  {
    && |w| >= 1
    && w[0] == m.start
    && forall i :: 0 <= i < |w| - 1 ==> w[i + 1] in m.neighbors(w[i])
  }

  /** The cells some walk from the start ends at. */
  ghost function Reachable(m: Maze): set<Cell>
  {
    set c | c in m.cells && exists w :: IsWalk(m, w) && w[|w| - 1] == c
  }

  /** Every cell on a walk is a cell of the maze. */
  lemma {:induction false} WalkInCells(m: Maze, w: seq<Cell>, k: nat)
    requires Valid(m) && IsWalk(m, w) && k < |w|
    ensures w[k] in m.cells
  {
    if k > 0 {
      WalkInCells(m, w, k - 1);
    }
  }

  /** The cell a walk ends at is reachable. */
  lemma WalkEndReachable(m: Maze, w: seq<Cell>)
    requires Valid(m) && IsWalk(m, w)
    ensures w[|w| - 1] in Reachable(m)
  {
    WalkInCells(m, w, |w| - 1);
  }
}
