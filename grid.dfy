/** Cells of the 4x4 tile grid and their node numbering row * 4 + col. */
module Grid {
  datatype Cell = Cell(row: int, col: int)

  const Size: int := 4

  predicate InGrid(c: Cell) {
    0 <= c.row < Size && 0 <= c.col < Size
  }

  /** Node number of a cell, as the generator computes it (r * 4 + c). */
  function NodeOf(c: Cell): (n: int)
    ensures InGrid(c) ==> 0 <= n < 16
  {
    c.row * 4 + c.col
  }

  /** The cell of a node number; the inverse of NodeOf on the grid. */
  function CellOf(n: int): (c: Cell)
    requires 0 <= n < 16
    ensures InGrid(c) && NodeOf(c) == n
  {
    Cell(n / 4, n % 4)
  }

  lemma NodeOfInjective(a: Cell, b: Cell)
    requires InGrid(a) && InGrid(b) && NodeOf(a) == NodeOf(b)
    ensures a == b
  {
    assert CellOf(NodeOf(a)) == a;
    assert CellOf(NodeOf(b)) == b;
  }

  /** The king-move neighbourhood: the eight cells around c (c itself excluded). */
  predicate KingNeighbour(c: Cell, d: Cell) {
    -1 <= d.row - c.row <= 1 && -1 <= d.col - c.col <= 1 && d != c
  }
}
