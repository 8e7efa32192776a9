/**
 Grids of cells and toroidal index arithmetic.

 A grid is a rectangular matrix of integer cells, stored row by row. The
 automaton only ever produces cells that are 0 (dead) or 1 (alive). Cells
 are unbounded integers here; the fixed-width integers of an array are not
 modelled, which makes no difference while cells are 0 or 1.
 */
module Grids {

  type Grid = seq<seq<int>>

  /** A non-empty rectangular matrix: at least one row, at least one column,
      and every row as wide as the first. */
  predicate IsMatrix(g: Grid) {
    && |g| > 0
    && |g[0]| > 0
    && forall i :: 0 <= i < |g| ==> |g[i]| == |g[0]|
  }

  function Height(g: Grid): nat {
    |g|
  }

  function Width(g: Grid): nat
    requires |g| > 0
  {
    |g[0]|
  }

  /** An h-by-w matrix (h rows of w cells). */
  predicate HasShape(g: Grid, h: nat, w: nat) {
    && |g| == h
    && forall i :: 0 <= i < |g| ==> |g[i]| == w
  }

  predicate InBounds(g: Grid, i: int, j: int)
    requires IsMatrix(g)
  {
    0 <= i < Height(g) && 0 <= j < Width(g)
  }

  predicate IsCell(v: int) {
    v == 0 || v == 1
  }

  /** Every cell is dead (0) or alive (1). */
  predicate IsBinary(g: Grid) {
    forall i, j :: 0 <= i < |g| && 0 <= j < |g[i]| ==> IsCell(g[i][j])
  }

  /** The h-by-w grid with every cell dead. */
  function Zeros(h: nat, w: nat): (g: Grid)
    ensures HasShape(g, h, w)
    ensures forall i, j :: 0 <= i < h && 0 <= j < w ==> g[i][j] == 0
  {
    seq(h, _ => seq(w, _ => 0))
  }

  /** The toroidal coordinate: x taken modulo n, always in 0..n-1. For a
      positive divisor, Dafny's Euclidean `%` agrees with Python's `%`, which
      is the arithmetic SciPy's wrap boundary performs. */
  function Wrap(x: int, n: int): (r: int)
    requires n > 0
    ensures 0 <= r < n
  {
    x % n
  }

  /** An index already on the ring is left where it is. */
  lemma WrapInRange(x: int, n: int)
    requires 0 <= x < n
    ensures Wrap(x, n) == x
  {
  }

  /** Stepping one place back on a ring of n places: 0 goes to n-1. */
  lemma WrapPred(x: int, n: int)
    requires n > 0
    ensures Wrap(x - 1, n) == if Wrap(x, n) == 0 then n - 1 else Wrap(x, n) - 1
  {
    var q := x / n;
    var m := x % n;
    assert x == n * q + m;
    if m == 0 {
      assert x - 1 == n * (q - 1) + (n - 1);
      ModOfDecomposition(x - 1, n, q - 1, n - 1);
    } else {
      assert x - 1 == n * q + (m - 1);
      ModOfDecomposition(x - 1, n, q, m - 1);
    }
  }

  /** Stepping one place forward on a ring of n places: n-1 goes to 0. */
  lemma WrapSucc(x: int, n: int)
    requires n > 0
    ensures Wrap(x + 1, n) == if Wrap(x, n) == n - 1 then 0 else Wrap(x, n) + 1
  {
    var q := x / n;
    var m := x % n;
    assert x == n * q + m;
    if m == n - 1 {
      assert x + 1 == n * (q + 1) + 0;
      ModOfDecomposition(x + 1, n, q + 1, 0);
    } else {
      assert x + 1 == n * q + (m + 1);
      ModOfDecomposition(x + 1, n, q, m + 1);
    }
  }

  /** A positive multiple of a positive number is at least that number. */
  lemma {:induction false} MulAtLeast(n: int, k: int)
    requires n > 0 && k > 0
    ensures n * k >= n
  {
    if k > 1 {
      MulAtLeast(n, k - 1);
      assert n * k == n * (k - 1) + n;
    }
  }

  /** The remainder is determined by any decomposition x == n*q + m with
      0 <= m < n. */
  lemma ModOfDecomposition(x: int, n: int, q: int, m: int)
    requires n > 0
    requires x == n * q + m && 0 <= m < n
    ensures x % n == m
  {
    var q' := x / n;
    var m' := x % n;
    assert n * q' + m' == n * q + m;
    if q' < q {
      assert n * (q - q') == m' - m;
      MulAtLeast(n, q - q');
    } else if q' > q {
      assert n * (q' - q) == m - m';
      MulAtLeast(n, q' - q);
    }
  }

  /** Wrapping absorbs whole turns around the ring. */
  lemma WrapOfWrap(x: int, d: int, n: int)
    requires n > 0
    ensures Wrap(Wrap(x, n) + d, n) == Wrap(x + d, n)
  {
    var q := x / n;
    var m := x % n;
    assert x + d == n * q + (m + d);
    var q2 := (m + d) / n;
    var m2 := (m + d) % n;
    assert m + d == n * q2 + m2;
    assert x + d == n * (q + q2) + m2;
    ModOfDecomposition(x + d, n, q + q2, m2);
  }
}
