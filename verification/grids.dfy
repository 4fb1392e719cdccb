/** Rectangular grids of cells, as values. */
module Grids {

  /** A generation of the world: `g[row][col]`, one integer per cell (1 means alive). */
  type Grid = seq<seq<int>>

  /** `g` has `rows` rows of `cols` entries each. */
  predicate IsRect<T>(g: seq<seq<T>>, rows: nat, cols: nat)
  {
    |g| == rows && forall r :: 0 <= r < rows ==> |g[r]| == cols
  }

  /** Every cell holds 0 or 1. */
  predicate IsBinary(g: Grid)
  {
    forall r, c :: 0 <= r < |g| && 0 <= c < |g[r]| ==> g[r][c] == 0 || g[r][c] == 1
  }

  /** The grid of the given shape whose every cell is `v`. */
  function Filled(rows: nat, cols: nat, v: int): (g: Grid)
    ensures IsRect(g, rows, cols)
    ensures forall r, c :: 0 <= r < rows && 0 <= c < cols ==> g[r][c] == v
  {
    seq(rows, r => seq(cols, c => v))
  }

  /** Two grids of one shape that agree on every cell are the same grid. */
  lemma SameCells(g: Grid, h: Grid, rows: nat, cols: nat)
    requires IsRect(g, rows, cols) && IsRect(h, rows, cols)
    requires forall r, c :: 0 <= r < rows && 0 <= c < cols ==> g[r][c] == h[r][c]
    ensures g == h
  {
    forall r | 0 <= r < rows
      ensures g[r] == h[r]
    {
    }
  }
}
