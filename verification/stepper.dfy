/**
 One generation of the automaton (`update_grid`).

 The new value of every cell is computed from the old grid alone: the
 neighbour count comes from the wrapped Moore-kernel convolution, and the
 birth and survival masks are combined into a 0/1 result. `Step` is the
 whole-grid function; `UpdateGrid` computes the same grid with explicit
 loops over rows and columns.
 */
module Stepper {
  import opened Grids
  import opened Neighborhood

  /** The new value of cell (i, j), as the source's masks compute it from the
      convolution. A dead cell is born on exactly three neighbours, a live
      cell survives on two or three, and everything else, including a cell
      holding a value other than 0 or 1, is dead afterwards. */
  function NextCell(g: Grid, i: int, j: int): (c: int)
    requires IsMatrix(g) && InBounds(g, i, j)
    ensures IsCell(c)
    ensures g[i][j] == 0 ==> (c == 1 <==> Neighbors(g, i, j) == 3)
    ensures g[i][j] == 1 ==> (c == 1 <==> Neighbors(g, i, j) == 2 || Neighbors(g, i, j) == 3)
    ensures !IsCell(g[i][j]) ==> c == 0
  {
    var n := ConvolveAt(g, MooreKernel, i, j);
    ConvolveMooreIsNeighbors(g, i, j);
    var birth := g[i][j] == 0 && n == 3;
    var survive := g[i][j] == 1 && (n == 2 || n == 3);
    if birth || survive then 1 else 0
  }

  /** The next generation: same shape, every cell 0 or 1, and each cell's new
      value fixed by its old value and its wrapped neighbour count. */
  function Step(g: Grid): (r: Grid)
    requires IsMatrix(g)
    ensures IsMatrix(r) && HasShape(r, Height(g), Width(g))
    ensures IsBinary(r)
    ensures forall i, j {:trigger r[i][j]} :: 0 <= i < Height(g) && 0 <= j < Width(g) ==>
      (g[i][j] == 0 ==> (r[i][j] == 1 <==> Neighbors(g, i, j) == 3))
    ensures forall i, j {:trigger r[i][j]} :: 0 <= i < Height(g) && 0 <= j < Width(g) ==>
      (g[i][j] == 1 ==> (r[i][j] == 1 <==> Neighbors(g, i, j) == 2 || Neighbors(g, i, j) == 3))
    ensures forall i, j {:trigger r[i][j]} :: 0 <= i < Height(g) && 0 <= j < Width(g) && !IsCell(g[i][j]) ==> r[i][j] == 0
  {
    seq(Height(g), i requires 0 <= i < Height(g) =>
      seq(Width(g), j requires 0 <= j < Width(g) => NextCell(g, i, j)))
  }

  /** The generation step with explicit loops: a fresh grid is built row by
      row from the old one, which is never written, so every cell's update
      sees only the previous generation. */
  method UpdateGrid(g: Grid) returns (r: Grid)
    requires IsMatrix(g)
    ensures r == Step(g)
  {
    var h := |g|;
    var w := |g[0]|;
    r := [];
    var i := 0;
    while i < h
      invariant 0 <= i <= h
      invariant r == Step(g)[..i]
    {
      var row: seq<int> := [];
      var j := 0;
      while j < w
        invariant 0 <= j <= w
        invariant row == Step(g)[i][..j]
      {
        var n := CountNeighbors(g, i, j);
        var cell := if (g[i][j] == 0 && n == 3) || (g[i][j] == 1 && (n == 2 || n == 3)) then 1 else 0;
        row := row + [cell];
        j := j + 1;
      }
      assert row == Step(g)[i];
      assert Step(g)[..i + 1] == Step(g)[..i] + [Step(g)[i]];
      r := r + [row];
      i := i + 1;
    }
    assert Step(g)[..h] == Step(g);
  }
}
