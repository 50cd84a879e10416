/** Square grids of cells: the mutable arrays of a symbol and their value at a moment. */
module Grids {
  datatype Cell = Cell(x: int, y: int)

  predicate Inside(c: Cell, size: nat)
  {
    0 <= c.x < size && 0 <= c.y < size
  }

  /** A square grid's value: rows of cells. */
  type Grid = seq<seq<bool>>

  predicate Square(g: Grid, size: nat)
  {
    |g| == size && forall y :: 0 <= y < size ==> |g[y]| == size
  }

  /** The source's getModule: false outside the grid. */
  predicate At(g: Grid, c: Cell)
  {
    0 <= c.y < |g| && 0 <= c.x < |g[c.y]| && g[c.y][c.x]
  }

  /** The present value of a mutable grid. */
  function Snapshot(a: array2<bool>): (g: Grid)
    requires a.Length0 == a.Length1
    reads a
    ensures Square(g, a.Length0)
    ensures forall c :: Inside(c, a.Length0) ==> At(g, c) == a[c.y, c.x]
  {
    seq(a.Length0, y requires 0 <= y < a.Length0 reads a =>
      seq(a.Length1, x requires 0 <= x < a.Length1 reads a => a[y, x]))
  }

  lemma SameGrid(g: Grid, h: Grid, size: nat)
    requires Square(g, size) && Square(h, size)
    requires forall c :: Inside(c, size) ==> At(g, c) == At(h, c)
    ensures g == h
  {
    forall y | 0 <= y < size ensures g[y] == h[y] {
      forall x | 0 <= x < size ensures g[y][x] == h[y][x] {
        assert At(g, Cell(x, y)) == At(h, Cell(x, y));
      }
    }
  }
}
