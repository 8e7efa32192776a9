/**
 Seeded initialisation (`initialize_grid` with `randomize=False`).

 The grid starts all dead, and the fixed 11x37 seed pattern (a Gosper glider
 gun with a one-cell dead border above and below) is copied cell by cell to
 the floor-centred offset. The source does not check that the pattern fits;
 this model asks for a grid at least as wide as the pattern, which also makes
 it tall enough.
 */
module Initializer {
  import opened Grids

  const PatternRows: nat := 11
  const PatternCols: nat := 37

  /** The seed pattern, row by row. */
  const GamePattern: Grid := [
    [0, 0, 0, 0, 0, 0, 0, 0, 0, 0, 0, 0, 0, 0, 0, 0, 0, 0, 0, 0, 0, 0, 0, 0, 0, 0, 0, 0, 0, 0, 0, 0, 0, 0, 0, 0, 0],
    [0, 0, 0, 0, 0, 0, 0, 0, 0, 0, 0, 0, 0, 0, 0, 0, 0, 0, 0, 0, 0, 0, 0, 0, 0, 1, 0, 0, 0, 0, 0, 0, 0, 0, 0, 0, 0],
    [0, 0, 0, 0, 0, 0, 0, 0, 0, 0, 0, 0, 0, 0, 0, 0, 0, 0, 0, 0, 0, 0, 0, 1, 0, 1, 0, 0, 0, 0, 0, 0, 0, 0, 0, 0, 0],
    [0, 0, 0, 0, 0, 0, 0, 0, 0, 0, 0, 0, 0, 1, 1, 0, 0, 0, 0, 0, 0, 1, 1, 0, 0, 0, 0, 0, 0, 0, 0, 0, 0, 0, 0, 1, 1],
    [0, 0, 0, 0, 0, 0, 0, 0, 0, 0, 0, 0, 1, 0, 0, 0, 1, 0, 0, 0, 0, 1, 1, 0, 0, 0, 0, 0, 0, 0, 0, 0, 0, 0, 0, 1, 1],
    [0, 1, 1, 0, 0, 0, 0, 0, 0, 0, 0, 1, 0, 0, 0, 0, 0, 1, 0, 0, 0, 1, 1, 0, 0, 0, 0, 0, 0, 0, 0, 0, 0, 0, 0, 0, 0],
    [0, 1, 1, 0, 0, 0, 0, 0, 0, 0, 0, 1, 0, 0, 0, 1, 0, 1, 1, 0, 0, 0, 0, 1, 0, 1, 0, 0, 0, 0, 0, 0, 0, 0, 0, 0, 0],
    [0, 0, 0, 0, 0, 0, 0, 0, 0, 0, 0, 1, 0, 0, 0, 0, 0, 1, 0, 0, 0, 0, 0, 0, 0, 1, 0, 0, 0, 0, 0, 0, 0, 0, 0, 0, 0],
    [0, 0, 0, 0, 0, 0, 0, 0, 0, 0, 0, 0, 1, 0, 0, 0, 1, 0, 0, 0, 0, 0, 0, 0, 0, 0, 0, 0, 0, 0, 0, 0, 0, 0, 0, 0, 0],
    [0, 0, 0, 0, 0, 0, 0, 0, 0, 0, 0, 0, 0, 1, 1, 0, 0, 0, 0, 0, 0, 0, 0, 0, 0, 0, 0, 0, 0, 0, 0, 0, 0, 0, 0, 0, 0],
    [0, 0, 0, 0, 0, 0, 0, 0, 0, 0, 0, 0, 0, 0, 0, 0, 0, 0, 0, 0, 0, 0, 0, 0, 0, 0, 0, 0, 0, 0, 0, 0, 0, 0, 0, 0, 0]]

  /** The pattern is an 11x37 matrix of dead and live cells. */
  lemma PatternIsWellFormed()
    ensures IsMatrix(GamePattern) && HasShape(GamePattern, PatternRows, PatternCols)
    ensures IsBinary(GamePattern)
  {
    forall i, j | 0 <= i < |GamePattern| && 0 <= j < |GamePattern[i]|
      ensures IsCell(GamePattern[i][j])
    {
      var row := GamePattern[i];
      assert forall c :: c in row ==> IsCell(c);
    }
  }

  /** The first row (column) of a pattern of the given extent floor-centred
      in n rows (columns), `(n - size) // 2`. The pattern fits, and the
      margin after it is the margin before it or one more. */
  function CentredStart(n: int, size: int): (s: int)
    requires 0 <= size <= n
    ensures 0 <= s && s + size <= n
    ensures s <= n - (s + size) <= s + 1
  {
    (n - size) / 2
  }

  /** Whether (x, y) lies in the h-by-w rectangle whose top-left cell is
      (top, left). */
  predicate InRect(top: int, left: int, h: int, w: int, x: int, y: int) {
    top <= x < top + h && left <= y < left + w
  }

  /** The value of cell (x, y) of g once p, with its top-left cell at
      (top, left), has been copied over it in row-major order up to, but not
      including, pattern cell (rows, cols). */
  function CopiedCell(g: Grid, p: Grid, top: int, left: int, rows: int, cols: int, x: int, y: int): int
    requires IsMatrix(g) && InBounds(g, x, y)
    requires IsMatrix(p)
  {
    var r := x - top;
    var c := y - left;
    if InRect(top, left, Height(p), Width(p), x, y) && (r < rows || (r == rows && c < cols)) then p[r][c] else g[x][y]
  }

  /** Copies pattern p cell by cell into g with p's top-left cell at
      (top, left), as the nested loop of the seeded initialisation does. The
      copy has g's shape, carries p exactly under its footprint, and leaves
      every other cell of g as it was. */
  method Place(g: Grid, p: Grid, top: int, left: int) returns (g': Grid)
    requires IsMatrix(g) && IsMatrix(p)
    requires 0 <= top && top + Height(p) <= Height(g)
    requires 0 <= left && left + Width(p) <= Width(g)
    ensures IsMatrix(g') && HasShape(g', Height(g), Width(g))
    ensures forall r, c :: 0 <= r < Height(p) && 0 <= c < Width(p) ==> g'[top + r][left + c] == p[r][c]
    ensures forall x, y :: 0 <= x < Height(g) && 0 <= y < Width(g) && !InRect(top, left, Height(p), Width(p), x, y) ==>
      g'[x][y] == g[x][y]
  {
    var h := |g|;
    var w := |g[0]|;
    var ph := |p|;
    var pw := |p[0]|;
    g' := g;
    for r := 0 to ph
      invariant HasShape(g', h, w)
      invariant forall x, y :: 0 <= x < h && 0 <= y < w ==> g'[x][y] == CopiedCell(g, p, top, left, r, 0, x, y)
    {
      for c := 0 to pw
        invariant HasShape(g', h, w)
        invariant forall x, y :: 0 <= x < h && 0 <= y < w ==> g'[x][y] == CopiedCell(g, p, top, left, r, c, x, y)
      {
        g' := g'[top + r := g'[top + r][left + c := p[r][c]]];
      }
    }
    forall r, c | 0 <= r < ph && 0 <= c < pw
      ensures g'[top + r][left + c] == p[r][c]
    {
      assert CopiedCell(g, p, top, left, ph, 0, top + r, left + c) == p[r][c];
    }
  }

  /** A 0/1 pattern copied onto an all-dead grid: the result is a 0/1 grid
      whose live cells are exactly the live pattern cells, moved by the
      offset. */
  lemma PlacedOnDead(dead: Grid, p: Grid, top: int, left: int, g: Grid)
    requires IsMatrix(dead) && IsMatrix(p) && IsBinary(p)
    requires forall x, y :: 0 <= x < Height(dead) && 0 <= y < Width(dead) ==> dead[x][y] == 0
    requires 0 <= top && top + Height(p) <= Height(dead)
    requires 0 <= left && left + Width(p) <= Width(dead)
    requires HasShape(g, Height(dead), Width(dead))
    requires forall r, c :: 0 <= r < Height(p) && 0 <= c < Width(p) ==> g[top + r][left + c] == p[r][c]
    requires forall x, y :: 0 <= x < Height(dead) && 0 <= y < Width(dead) && !InRect(top, left, Height(p), Width(p), x, y) ==>
      g[x][y] == dead[x][y]
    ensures IsBinary(g)
    ensures forall x, y :: 0 <= x < Height(dead) && 0 <= y < Width(dead) ==>
      (g[x][y] == 1 <==> InRect(top, left, Height(p), Width(p), x, y) && p[x - top][y - left] == 1)
  {
    forall x, y | 0 <= x < Height(dead) && 0 <= y < Width(dead)
      ensures IsCell(g[x][y])
      ensures g[x][y] == 1 <==> InRect(top, left, Height(p), Width(p), x, y) && p[x - top][y - left] == 1
    {
      if InRect(top, left, Height(p), Width(p), x, y) {
        var r := x - top;
        var c := y - left;
        assert g[top + r][left + c] == p[r][c];
      }
    }
  }

  /** The seeded initialisation for any 0/1 pattern p that fits in n rows and
      n columns: an all-dead n-by-n grid with p copied in at the floor-centred
      offset, the pattern's extent being read off p itself.
      Pattern cell (r, c) lands at (top + r, left + c); every other cell is
      dead; a cell is alive exactly when it lies over a live pattern cell. */
  method SeedGrid(n: int, p: Grid) returns (g: Grid)
    requires IsMatrix(p) && IsBinary(p) && Height(p) <= n && Width(p) <= n
    ensures IsMatrix(g) && HasShape(g, n, n) && IsBinary(g)
    ensures var top, left := CentredStart(n, Height(p)), CentredStart(n, Width(p));
      forall r, c :: 0 <= r < Height(p) && 0 <= c < Width(p) ==> g[top + r][left + c] == p[r][c]
    ensures var top, left := CentredStart(n, Height(p)), CentredStart(n, Width(p));
      forall x, y :: 0 <= x < n && 0 <= y < n && !InRect(top, left, Height(p), Width(p), x, y) ==> g[x][y] == 0
    ensures var top, left := CentredStart(n, Height(p)), CentredStart(n, Width(p));
      forall x, y :: 0 <= x < n && 0 <= y < n ==>
        (g[x][y] == 1 <==> InRect(top, left, Height(p), Width(p), x, y) && p[x - top][y - left] == 1)
  {
    var patternRows, patternCols := |p|, |p[0]|;
    var startRow := (n - patternRows) / 2;
    var startCol := (n - patternCols) / 2;
    var dead := Zeros(n, n);
    g := Place(dead, p, startRow, startCol);
    PlacedOnDead(dead, p, startRow, startCol, g);
  }

  /** `initialize_grid(n, randomize=False)` for n >= 37: the seed pattern
      floor-centred in an otherwise dead n-by-n grid. */
  method InitializeGrid(n: int) returns (g: Grid)
    requires n >= PatternCols
    ensures IsMatrix(g) && HasShape(g, n, n) && IsBinary(g)
    ensures var top, left := CentredStart(n, PatternRows), CentredStart(n, PatternCols);
      forall r, c :: 0 <= r < PatternRows && 0 <= c < PatternCols ==> g[top + r][left + c] == GamePattern[r][c]
    ensures var top, left := CentredStart(n, PatternRows), CentredStart(n, PatternCols);
      forall x, y :: 0 <= x < n && 0 <= y < n && !InRect(top, left, PatternRows, PatternCols, x, y) ==> g[x][y] == 0
    ensures var top, left := CentredStart(n, PatternRows), CentredStart(n, PatternCols);
      forall x, y :: 0 <= x < n && 0 <= y < n ==>
        (g[x][y] == 1 <==> InRect(top, left, PatternRows, PatternCols, x, y) && GamePattern[x - top][y - left] == 1)
  {
    PatternIsWellFormed();
    g := SeedGrid(n, GamePattern);
  }
}
