/** The Manhattan distance between two positions. */
module Heuristic {
  import opened Grid

  function Abs(x: int): nat
  {
    if x < 0 then -x else x
  }

  /** `abs(row difference) + abs(column difference)`; never negative and zero
      exactly on equal positions. */
  function Manhattan(a: Cell, b: Cell): (r: nat)
    ensures r == 0 <==> a == b
  {
    Abs(a.row - b.row) + Abs(a.col - b.col)
  }

  lemma ManhattanSymmetric(a: Cell, b: Cell)
    ensures Manhattan(a, b) == Manhattan(b, a)
  {
  }

  lemma ManhattanTriangle(a: Cell, b: Cell, c: Cell)
    ensures Manhattan(a, c) <= Manhattan(a, b) + Manhattan(b, c)
  {
  }
}
