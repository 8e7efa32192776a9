/**
 Properties of the generation step that relate several cells or several
 grids: locality, invariance under toroidal translation, the empty grid and a
 lone live cell, birth across the wrapped corner, and the classic block and
 blinker patterns.
 */
module StepFacts {
  import opened Grids
  import opened Neighborhood
  import opened Stepper

  /** Two grids of the same shape agree on the wrapped 3x3 window around
      (i, j): the cell itself and its eight neighbours. */
  predicate AgreeAround(g: Grid, g': Grid, i: int, j: int)
    requires IsMatrix(g) && InBounds(g, i, j)
    requires IsMatrix(g') && HasShape(g', Height(g), Width(g))
  {
    && g[i][j] == g'[i][j]
    && forall k :: 0 <= k < |MooreOffsets| ==> At(g, i, j, MooreOffsets[k]) == At(g', i, j, MooreOffsets[k])
  }

  /** The update is local and simultaneous: a cell's new value depends on
      nothing but the old values in its own wrapped window, never on another
      cell's new value. */
  lemma StepIsLocal(g: Grid, g': Grid, i: int, j: int)
    requires IsMatrix(g) && InBounds(g, i, j)
    requires IsMatrix(g') && HasShape(g', Height(g), Width(g))
    requires AgreeAround(g, g', i, j)
    ensures Step(g)[i][j] == Step(g')[i][j]
  {
    var h := Height(g);
    var w := Width(g);
    WrapInRange(i, h);
    WrapInRange(j, w);
    assert At(g, i, j, MooreOffsets[0]) == At(g', i, j, MooreOffsets[0]);
    assert At(g, i, j, MooreOffsets[1]) == At(g', i, j, MooreOffsets[1]);
    assert At(g, i, j, MooreOffsets[2]) == At(g', i, j, MooreOffsets[2]);
    assert At(g, i, j, MooreOffsets[3]) == At(g', i, j, MooreOffsets[3]);
    assert At(g, i, j, MooreOffsets[4]) == At(g', i, j, MooreOffsets[4]);
    assert At(g, i, j, MooreOffsets[5]) == At(g', i, j, MooreOffsets[5]);
    assert At(g, i, j, MooreOffsets[6]) == At(g', i, j, MooreOffsets[6]);
    assert At(g, i, j, MooreOffsets[7]) == At(g', i, j, MooreOffsets[7]);
    assert Neighbors(g, i, j) == Neighbors(g', i, j);
  }

  /** The grid translated by (dr, dc) on the torus: the cell at (x, y) is the
      one that sat at (x - dr, y - dc), wrapped. */
  function Shift(g: Grid, dr: int, dc: int): (s: Grid)
    requires IsMatrix(g)
    ensures IsMatrix(s) && HasShape(s, Height(g), Width(g))
  {
    var h := Height(g);
    var w := Width(g);
    var s := seq(h, x requires 0 <= x < h =>
      seq(w, y requires 0 <= y < w => g[Wrap(x - dr, h)][Wrap(y - dc, w)]));
    assert forall x :: 0 <= x < h ==> |s[x]| == w;
    s
  }

  /** Translating a grid moves every neighbourhood along with it. */
  lemma NeighborsOfShift(g: Grid, dr: int, dc: int, x: int, y: int)
    requires IsMatrix(g) && InBounds(g, x, y)
    ensures Neighbors(Shift(g, dr, dc), x, y)
         == Neighbors(g, Wrap(x - dr, Height(g)), Wrap(y - dc, Width(g)))
  {
    var h := Height(g);
    var w := Width(g);
    var s := Shift(g, dr, dc);
    var x', y' := Wrap(x - dr, h), Wrap(y - dc, w);
    ShiftedRow(x, dr, h);
    ShiftedRow(y, dc, w);
    assert s[Wrap(x - 1, h)][Wrap(y - 1, w)] == g[Wrap(x' - 1, h)][Wrap(y' - 1, w)];
    assert s[Wrap(x - 1, h)][y] == g[Wrap(x' - 1, h)][y'];
    assert s[Wrap(x - 1, h)][Wrap(y + 1, w)] == g[Wrap(x' - 1, h)][Wrap(y' + 1, w)];
    assert s[x][Wrap(y - 1, w)] == g[x'][Wrap(y' - 1, w)];
    assert s[x][Wrap(y + 1, w)] == g[x'][Wrap(y' + 1, w)];
    assert s[Wrap(x + 1, h)][Wrap(y - 1, w)] == g[Wrap(x' + 1, h)][Wrap(y' - 1, w)];
    assert s[Wrap(x + 1, h)][y] == g[Wrap(x' + 1, h)][y'];
    assert s[Wrap(x + 1, h)][Wrap(y + 1, w)] == g[Wrap(x' + 1, h)][Wrap(y' + 1, w)];
  }

  /** Moving one place along the ring and then translating back by d lands
      where translating first and then moving does. */
  lemma ShiftedRow(x: int, d: int, n: int)
    requires n > 0
    ensures Wrap(Wrap(x - 1, n) - d, n) == Wrap(Wrap(x - d, n) - 1, n)
    ensures Wrap(Wrap(x + 1, n) - d, n) == Wrap(Wrap(x - d, n) + 1, n)
  {
    WrapOfWrap(x - 1, -d, n);
    WrapOfWrap(x + 1, -d, n);
    WrapOfWrap(x - d, -1, n);
    WrapOfWrap(x - d, 1, n);
  }

  /** The torus has no distinguished position: stepping a translated grid is
      translating the stepped grid. */
  lemma StepCommutesWithShift(g: Grid, dr: int, dc: int)
    requires IsMatrix(g)
    ensures Step(Shift(g, dr, dc)) == Shift(Step(g), dr, dc)
  {
    var h := Height(g);
    var w := Width(g);
    var a := Step(Shift(g, dr, dc));
    var b := Shift(Step(g), dr, dc);
    forall x, y | 0 <= x < h && 0 <= y < w
      ensures a[x][y] == b[x][y]
    {
      NeighborsOfShift(g, dr, dc, x, y);
    }
    assert forall x :: 0 <= x < h ==> a[x] == b[x];
  }

  /** The empty grid of any size is a fixed point. */
  lemma EmptyIsFixed(h: nat, w: nat)
    requires h > 0 && w > 0
    ensures Step(Zeros(h, w)) == Zeros(h, w)
  {
    var z := Zeros(h, w);
    var r := Step(z);
    forall x, y | 0 <= x < h && 0 <= y < w
      ensures r[x][y] == 0
    {
      assert Neighbors(z, x, y) == 0;
    }
    assert forall x :: 0 <= x < h ==> r[x] == z[x];
  }

  /** The n-by-n grid whose only live cell is (i, j). */
  function Single(n: nat, i: int, j: int): (g: Grid)
    requires 0 <= i < n && 0 <= j < n
    ensures IsMatrix(g) && HasShape(g, n, n) && IsBinary(g)
    ensures g[i][j] == 1
    ensures forall x, y :: 0 <= x < n && 0 <= y < n && (x != i || y != j) ==> g[x][y] == 0
  {
    seq(n, x => seq(n, y => if x == i && y == j then 1 else 0))
  }

  /** A lone live cell dies, and nothing is born around it, on a square
      torus of any size (on a 1x1 grid the cell is its own neighbour eight
      times over, which is too many to survive). */
  lemma SingleCellDies(n: nat, i: int, j: int)
    requires 0 <= i < n && 0 <= j < n
    ensures Step(Single(n, i, j)) == Zeros(n, n)
  {
    var g := Single(n, i, j);
    var r := Step(g);
    forall x, y | 0 <= x < n && 0 <= y < n
      ensures r[x][y] == 0
    {
      if n == 1 {
        LoneCellOnOne(i, j, x, y);
      } else if n == 2 {
        LoneCellOnTwo(i, j, x, y);
      } else {
        LoneCellOnLarger(n, i, j, x, y);
      }
    }
    assert forall x :: 0 <= x < n ==> r[x] == Zeros(n, n)[x];
  }

  /** On a 1x1 torus all eight neighbours of the lone cell are the cell
      itself. */
  lemma LoneCellOnOne(i: int, j: int, x: int, y: int)
    requires i == 0 && j == 0 && x == 0 && y == 0
    ensures Neighbors(Single(1, i, j), x, y) == 8
  {
  }

  /** On a 2x2 torus every cell reaches each other cell an even number of
      times and never itself, so no count is 3 and the live cell sees 0. */
  lemma LoneCellOnTwo(i: int, j: int, x: int, y: int)
    requires 0 <= i < 2 && 0 <= j < 2 && 0 <= x < 2 && 0 <= y < 2
    ensures Neighbors(Single(2, i, j), x, y) % 2 == 0
    ensures x == i && y == j ==> Neighbors(Single(2, i, j), x, y) == 0
  {
    assert Wrap(x - 1, 2) == Wrap(x + 1, 2) == 1 - x;
    assert Wrap(y - 1, 2) == Wrap(y + 1, 2) == 1 - y;
  }

  /** On a larger torus the eight neighbours are distinct cells other than
      the cell itself, so at most one of them is the live cell. */
  lemma LoneCellOnLarger(n: nat, i: int, j: int, x: int, y: int)
    requires n >= 3 && 0 <= i < n && 0 <= j < n && 0 <= x < n && 0 <= y < n
    ensures Neighbors(Single(n, i, j), x, y) <= 1
    ensures x == i && y == j ==> Neighbors(Single(n, i, j), x, y) == 0
  {
    WrapInRange(x, n);
    WrapInRange(y, n);
    WrapPred(x, n);
    WrapSucc(x, n);
    WrapPred(y, n);
    WrapSucc(y, n);
  }

  /** The n-by-n grid whose live cells are exactly the three that touch the
      corner (0, 0) only across the wrapped edges. */
  function WrappedCorner(n: nat): (g: Grid)
    requires n >= 1
    ensures IsMatrix(g) && HasShape(g, n, n) && IsBinary(g)
  {
    seq(n, x => seq(n, y =>
      if (x == n - 1 && y == n - 1) || (x == n - 1 && y == 0) || (x == 0 && y == n - 1) then 1 else 0))
  }

  /** Neighbours wrap around both edges: on a torus of size at least 3, cell
      (0, 0) sees (n-1, n-1), (n-1, 0) and (0, n-1), counts three and is born. */
  lemma BirthAcrossCorner(n: nat)
    requires n >= 3
    ensures Neighbors(WrappedCorner(n), 0, 0) == 3
    ensures Step(WrappedCorner(n))[0][0] == 1
  {
    var g := WrappedCorner(n);
    assert Wrap(-1, n) == n - 1 by {
      WrapPred(0, n);
    }
    assert Wrap(1, n) == 1;
  }

  /** The n-by-n grid whose live cells are the 2x2 block in rows 0..1 and
      columns 0..1. */
  function Block(n: nat): (g: Grid)
    requires n >= 2
    ensures IsMatrix(g) && HasShape(g, n, n) && IsBinary(g)
  {
    seq(n, x => seq(n, y => if x < 2 && y < 2 then 1 else 0))
  }

  lemma BlockIsStillAtOrigin(n: nat)
    requires n >= 3
    ensures Step(Block(n)) == Block(n)
  {
    var g := Block(n);
    var r := Step(g);
    forall x, y | 0 <= x < n && 0 <= y < n
      ensures r[x][y] == g[x][y]
    {
      WrapInRange(x, n);
      WrapInRange(y, n);
      WrapPred(x, n);
      WrapSucc(x, n);
      WrapPred(y, n);
      WrapSucc(y, n);
    }
    assert forall x :: 0 <= x < n ==> r[x] == g[x];
  }

  /** The block is a still life on every torus of size at least 3, wherever
      it is placed. */
  lemma BlockIsStill(n: nat, dr: int, dc: int)
    requires n >= 3
    ensures Step(Shift(Block(n), dr, dc)) == Shift(Block(n), dr, dc)
  {
    BlockIsStillAtOrigin(n);
    StepCommutesWithShift(Block(n), dr, dc);
  }

  /** A blinker lying flat in row 1, columns 0..2. */
  function BlinkerFlat(n: nat): (g: Grid)
    requires n >= 3
    ensures IsMatrix(g) && HasShape(g, n, n) && IsBinary(g)
  {
    seq(n, x => seq(n, y => if x == 1 && y < 3 then 1 else 0))
  }

  /** The same blinker standing upright in column 1, rows 0..2. */
  function BlinkerUpright(n: nat): (g: Grid)
    requires n >= 3
    ensures IsMatrix(g) && HasShape(g, n, n) && IsBinary(g)
  {
    seq(n, x => seq(n, y => if x < 3 && y == 1 then 1 else 0))
  }

  lemma BlinkerFlips(n: nat)
    requires n >= 4
    ensures Step(BlinkerFlat(n)) == BlinkerUpright(n)
  {
    var g := BlinkerFlat(n);
    var u := BlinkerUpright(n);
    var r := Step(g);
    forall x, y | 0 <= x < n && 0 <= y < n
      ensures r[x][y] == u[x][y]
    {
      WrapInRange(x, n);
      WrapInRange(y, n);
      WrapPred(x, n);
      WrapSucc(x, n);
      WrapPred(y, n);
      WrapSucc(y, n);
    }
    assert forall x :: 0 <= x < n ==> r[x] == u[x];
  }

  lemma BlinkerFlipsBack(n: nat)
    requires n >= 4
    ensures Step(BlinkerUpright(n)) == BlinkerFlat(n)
  {
    var g := BlinkerUpright(n);
    var f := BlinkerFlat(n);
    var r := Step(g);
    forall x, y | 0 <= x < n && 0 <= y < n
      ensures r[x][y] == f[x][y]
    {
      WrapInRange(x, n);
      WrapInRange(y, n);
      WrapPred(x, n);
      WrapSucc(x, n);
      WrapPred(y, n);
      WrapSucc(y, n);
    }
    assert forall x :: 0 <= x < n ==> r[x] == f[x];
  }

  /** The blinker is an oscillator of period exactly 2 on every torus of size
      at least 4, wherever it is placed: one step turns it, a second step
      restores it. */
  lemma BlinkerHasPeriodTwo(n: nat, dr: int, dc: int)
    requires n >= 4
    ensures var flat := Shift(BlinkerFlat(n), dr, dc);
      && Step(flat) != flat
      && Step(Step(flat)) == flat
  {
    var f := BlinkerFlat(n);
    var u := BlinkerUpright(n);
    BlinkerFlips(n);
    BlinkerFlipsBack(n);
    StepCommutesWithShift(f, dr, dc);
    StepCommutesWithShift(u, dr, dc);
    assert f[0][1] != u[0][1];
    ShiftUndone(f, dr, dc);
    ShiftUndone(u, dr, dc);
  }

  /** Translating back by the opposite offsets restores the grid, so a
      translation loses nothing. */
  lemma ShiftUndone(g: Grid, dr: int, dc: int)
    requires IsMatrix(g)
    ensures Shift(Shift(g, dr, dc), -dr, -dc) == g
  {
    var h := Height(g);
    var w := Width(g);
    var s := Shift(Shift(g, dr, dc), -dr, -dc);
    forall x, y | 0 <= x < h && 0 <= y < w
      ensures s[x][y] == g[x][y]
    {
      WrapOfWrap(x + dr, -dr, h);
      WrapOfWrap(y + dc, -dc, w);
      WrapInRange(x, h);
      WrapInRange(y, w);
    }
    assert forall x :: 0 <= x < h ==> s[x] == g[x];
  }
}
