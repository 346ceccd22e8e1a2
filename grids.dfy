/** The grid both the parser and the metrics work on: rows of cell values. */
module Grids {
  type Grid = seq<seq<int>>

  /** What the parser produces: every row non-empty and every cell a digit value. */
  predicate DigitGrid(g: Grid) {
    forall i :: 0 <= i < |g| ==> g[i] != [] && forall j :: 0 <= j < |g[i]| ==> 0 <= g[i][j] <= 9
  }

  /** The cells of a grid in row-major order. */
  function Flatten(g: Grid): seq<int> {
    if g == [] then [] else g[0] + Flatten(g[1..])
  }

  /** A non-empty parsed grid has at least one cell. */
  lemma DigitGridCells(g: Grid)
    ensures DigitGrid(g) && g != [] ==> |Flatten(g)| > 0
  {
    if DigitGrid(g) && g != [] {
      assert Flatten(g) == g[0] + Flatten(g[1..]);
    }
  }
}
