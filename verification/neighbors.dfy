/**
 Counting a cell's Moore neighbours on the torus.

 The source counts neighbours by convolving the grid with a 3x3 kernel of
 ones with a zero centre, with the `wrap` boundary and the `same` output
 size. This module models that convolution tap by tap (`Convolve`), gives the
 explicit eight-term neighbour sum it amounts to (`Neighbors`), a reference
 count of live neighbours by offset (`LiveCount`), and an imperative double
 loop over the kernel that computes the same number (`CountNeighbors`).
 */
module Neighborhood {
  import opened Grids

  /** The 3x3 neighbour kernel: ones everywhere except the centre. */
  const MooreKernel: seq<seq<int>> := [[1, 1, 1], [1, 0, 1], [1, 1, 1]]

  predicate IsKernel(k: seq<seq<int>>) {
    |k| == 3 && forall a :: 0 <= a < 3 ==> |k[a]| == 3
  }

  /** Tap t (0 <= t < 9) of a 'same'-mode convolution at (i, j): kernel entry
      (a, b) = (t / 3, t % 3) weighs the input cell (i + 1 - a, j + 1 - b),
      the kernel being flipped as convolution (not correlation) requires and
      centred on its middle entry; the input index wraps around the torus. */
  function Tap(g: Grid, k: seq<seq<int>>, i: int, j: int, t: int): int
    requires IsMatrix(g) && InBounds(g, i, j)
    requires IsKernel(k) && 0 <= t < 9
  {
    var a := t / 3;
    var b := t % 3;
    k[a][b] * g[Wrap(i + 1 - a, Height(g))][Wrap(j + 1 - b, Width(g))]
  }

  /** A kernel whose entries are all 0 or 1. */
  predicate IsZeroOneKernel(k: seq<seq<int>>)
    requires IsKernel(k)
  {
    forall a, b :: 0 <= a < 3 && 0 <= b < 3 ==> IsCell(k[a][b])
  }

  /** The sum of the first t taps. */
  function Convolve(g: Grid, k: seq<seq<int>>, i: int, j: int, t: int): int
    requires IsMatrix(g) && InBounds(g, i, j)
    requires IsKernel(k) && 0 <= t <= 9
  {
    if t == 0 then 0 else Convolve(g, k, i, j, t - 1) + Tap(g, k, i, j, t - 1)
  }

  /** With 0/1 input and a 0/1 kernel each tap adds 0 or 1, so the sum of the
      first t taps lies in 0..t. */
  lemma {:induction false} ConvolveBounded(g: Grid, k: seq<seq<int>>, i: int, j: int, t: int)
    requires IsMatrix(g) && InBounds(g, i, j) && IsBinary(g)
    requires IsKernel(k) && IsZeroOneKernel(k) && 0 <= t <= 9
    ensures 0 <= Convolve(g, k, i, j, t) <= t
  {
    if t > 0 {
      ConvolveBounded(g, k, i, j, t - 1);
      var a, b := (t - 1) / 3, (t - 1) % 3;
      assert IsCell(k[a][b]);
      assert IsCell(g[Wrap(i + 1 - a, Height(g))][Wrap(j + 1 - b, Width(g))]);
    }
  }

  /** Entry (i, j) of `convolve2d(g, k, mode='same', boundary='wrap')`: with
      0/1 input and a 0/1 kernel, the number of the nine taps that meet a live
      cell under a 1 of the kernel. */
  function ConvolveAt(g: Grid, k: seq<seq<int>>, i: int, j: int): (s: int)
    requires IsMatrix(g) && InBounds(g, i, j)
    requires IsKernel(k)
    ensures IsBinary(g) && IsZeroOneKernel(k) ==> 0 <= s <= 9
  {
    if IsBinary(g) && IsZeroOneKernel(k) then
      ConvolveBounded(g, k, i, j, 9);
      Convolve(g, k, i, j, 9)
    else
      Convolve(g, k, i, j, 9)
  }

  /** The kernel with a single 1, at entry (a, b). */
  function UnitKernel(a: int, b: int): (k: seq<seq<int>>)
    ensures IsKernel(k)
  {
    seq(3, x => seq(3, y => if x == a && y == b then 1 else 0))
  }

  /** Convolution flips and centres the kernel: its entry (a, b) weighs the
      input cell (i + 1 - a, j + 1 - b), wrapped. So entry (0, 0) reads the
      cell below and to the right, and the middle entry reads (i, j) itself. */
  lemma ConvolveUnitKernel(g: Grid, i: int, j: int, a: int, b: int)
    requires IsMatrix(g) && InBounds(g, i, j)
    requires 0 <= a < 3 && 0 <= b < 3
    ensures ConvolveAt(g, UnitKernel(a, b), i, j) == g[Wrap(i + 1 - a, Height(g))][Wrap(j + 1 - b, Width(g))]
  {
    var k := UnitKernel(a, b);
    UnitTap(g, i, j, a, b, 0);
    UnitTap(g, i, j, a, b, 1);
    UnitTap(g, i, j, a, b, 2);
    UnitTap(g, i, j, a, b, 3);
    UnitTap(g, i, j, a, b, 4);
    UnitTap(g, i, j, a, b, 5);
    UnitTap(g, i, j, a, b, 6);
    UnitTap(g, i, j, a, b, 7);
    UnitTap(g, i, j, a, b, 8);
    UnfoldConvolve(g, k, i, j);
  }

  /** Of the taps of the unit kernel at (a, b), only tap 3 * a + b is live. */
  lemma UnitTap(g: Grid, i: int, j: int, a: int, b: int, t: int)
    requires IsMatrix(g) && InBounds(g, i, j)
    requires 0 <= a < 3 && 0 <= b < 3 && 0 <= t < 9
    ensures Tap(g, UnitKernel(a, b), i, j, t)
         == if t == 3 * a + b then g[Wrap(i + 1 - a, Height(g))][Wrap(j + 1 - b, Width(g))] else 0
  {
    var x, y := t / 3, t % 3;
    RowMajor(a, b);
    assert t == 3 * x + y;
  }

  /** The explicit neighbour sum of (i, j): the eight cells whose row differs
      by -1, 0 or 1 and whose column differs by -1, 0 or 1, not both 0, each
      coordinate taken modulo the grid's size. On a 0/1 grid it lies in 0..8. */
  function Neighbors(g: Grid, i: int, j: int): (n: int)
    requires IsMatrix(g) && InBounds(g, i, j)
    ensures IsBinary(g) ==> 0 <= n <= 8
  {
    var h := Height(g);
    var w := Width(g);
    var up := Wrap(i - 1, h);
    var down := Wrap(i + 1, h);
    var left := Wrap(j - 1, w);
    var right := Wrap(j + 1, w);
    g[up][left] + g[up][j] + g[up][right]
    + g[i][left] + g[i][right]
    + g[down][left] + g[down][j] + g[down][right]
  }

  /** Convolving with the Moore kernel yields exactly the explicit neighbour
      sum. */
  lemma ConvolveMooreIsNeighbors(g: Grid, i: int, j: int)
    requires IsMatrix(g) && InBounds(g, i, j)
    ensures ConvolveAt(g, MooreKernel, i, j) == Neighbors(g, i, j)
  {
    var h := Height(g);
    var w := Width(g);
    WrapInRange(i, h);
    WrapInRange(j, w);
    var k := MooreKernel;
    assert Tap(g, k, i, j, 0) == g[Wrap(i + 1, h)][Wrap(j + 1, w)];
    assert Tap(g, k, i, j, 1) == g[Wrap(i + 1, h)][j];
    assert Tap(g, k, i, j, 2) == g[Wrap(i + 1, h)][Wrap(j - 1, w)];
    assert Tap(g, k, i, j, 3) == g[i][Wrap(j + 1, w)];
    assert Tap(g, k, i, j, 4) == 0;
    assert Tap(g, k, i, j, 5) == g[i][Wrap(j - 1, w)];
    assert Tap(g, k, i, j, 6) == g[Wrap(i - 1, h)][Wrap(j + 1, w)];
    assert Tap(g, k, i, j, 7) == g[Wrap(i - 1, h)][j];
    assert Tap(g, k, i, j, 8) == g[Wrap(i - 1, h)][Wrap(j - 1, w)];
    UnfoldConvolve(g, k, i, j);
  }

  lemma UnfoldConvolve(g: Grid, k: seq<seq<int>>, i: int, j: int)
    requires IsMatrix(g) && InBounds(g, i, j) && IsKernel(k)
    ensures ConvolveAt(g, k, i, j)
         == Tap(g, k, i, j, 0) + Tap(g, k, i, j, 1) + Tap(g, k, i, j, 2)
          + Tap(g, k, i, j, 3) + Tap(g, k, i, j, 4) + Tap(g, k, i, j, 5)
          + Tap(g, k, i, j, 6) + Tap(g, k, i, j, 7) + Tap(g, k, i, j, 8)
  {
    assert Convolve(g, k, i, j, 1) == Tap(g, k, i, j, 0);
    assert Convolve(g, k, i, j, 2) == Convolve(g, k, i, j, 1) + Tap(g, k, i, j, 1);
    assert Convolve(g, k, i, j, 3) == Convolve(g, k, i, j, 2) + Tap(g, k, i, j, 2);
    assert Convolve(g, k, i, j, 4) == Convolve(g, k, i, j, 3) + Tap(g, k, i, j, 3);
    assert Convolve(g, k, i, j, 5) == Convolve(g, k, i, j, 4) + Tap(g, k, i, j, 4);
    assert Convolve(g, k, i, j, 6) == Convolve(g, k, i, j, 5) + Tap(g, k, i, j, 5);
    assert Convolve(g, k, i, j, 7) == Convolve(g, k, i, j, 6) + Tap(g, k, i, j, 6);
    assert Convolve(g, k, i, j, 8) == Convolve(g, k, i, j, 7) + Tap(g, k, i, j, 7);
    assert Convolve(g, k, i, j, 9) == Convolve(g, k, i, j, 8) + Tap(g, k, i, j, 8);
  }

  /** The eight Moore offsets (row, column), centre excluded. */
  const MooreOffsets: seq<(int, int)> :=
    [(-1, -1), (-1, 0), (-1, 1), (0, -1), (0, 1), (1, -1), (1, 0), (1, 1)]

  /** The cell reached from (i, j) by offset o on the torus. */
  function At(g: Grid, i: int, j: int, o: (int, int)): int
    requires IsMatrix(g) && InBounds(g, i, j)
  {
    g[Wrap(i + o.0, Height(g))][Wrap(j + o.1, Width(g))]
  }

  /** How many of the offsets in offs lead from (i, j) to a live cell. */
  function LiveCount(g: Grid, i: int, j: int, offs: seq<(int, int)>): (c: nat)
    requires IsMatrix(g) && InBounds(g, i, j)
    ensures c <= |offs|
  {
    if |offs| == 0 then 0
    else LiveCount(g, i, j, offs[..|offs| - 1]) + Bit(At(g, i, j, offs[|offs| - 1]))
  }

  /** On a 0/1 grid the neighbour sum is the number of live cells among the
      eight Moore neighbours, so it is between 0 and 8. */
  lemma NeighborsCountsLiveCells(g: Grid, i: int, j: int)
    requires IsMatrix(g) && InBounds(g, i, j) && IsBinary(g)
    ensures Neighbors(g, i, j) == LiveCount(g, i, j, MooreOffsets)
    ensures 0 <= Neighbors(g, i, j) <= 8
  {
    var offs := MooreOffsets;
    var h := Height(g);
    var w := Width(g);
    WrapInRange(i, h);
    WrapInRange(j, w);
    UnfoldLiveCount(g, i, j);
    assert At(g, i, j, offs[0]) == g[Wrap(i - 1, h)][Wrap(j - 1, w)];
    assert At(g, i, j, offs[1]) == g[Wrap(i - 1, h)][j];
    assert At(g, i, j, offs[2]) == g[Wrap(i - 1, h)][Wrap(j + 1, w)];
    assert At(g, i, j, offs[3]) == g[i][Wrap(j - 1, w)];
    assert At(g, i, j, offs[4]) == g[i][Wrap(j + 1, w)];
    assert At(g, i, j, offs[5]) == g[Wrap(i + 1, h)][Wrap(j - 1, w)];
    assert At(g, i, j, offs[6]) == g[Wrap(i + 1, h)][j];
    assert At(g, i, j, offs[7]) == g[Wrap(i + 1, h)][Wrap(j + 1, w)];
  }

  lemma UnfoldLiveCount(g: Grid, i: int, j: int)
    requires IsMatrix(g) && InBounds(g, i, j)
    ensures var offs := MooreOffsets;
      LiveCount(g, i, j, offs)
        == Bit(At(g, i, j, offs[0])) + Bit(At(g, i, j, offs[1])) + Bit(At(g, i, j, offs[2]))
         + Bit(At(g, i, j, offs[3])) + Bit(At(g, i, j, offs[4])) + Bit(At(g, i, j, offs[5]))
         + Bit(At(g, i, j, offs[6])) + Bit(At(g, i, j, offs[7]))
  {
    var offs := MooreOffsets;
    assert offs[..0] == [];
    assert offs[..1][..0] == [] && offs[..2][..1] == offs[..1] && offs[..3][..2] == offs[..2];
    assert offs[..4][..3] == offs[..3] && offs[..5][..4] == offs[..4] && offs[..6][..5] == offs[..5];
    assert offs[..7][..6] == offs[..6] && offs[..8] == offs && offs[..7] == offs[..|offs| - 1];
    assert LiveCount(g, i, j, offs[..1]) == Bit(At(g, i, j, offs[0]));
    assert LiveCount(g, i, j, offs[..2]) == LiveCount(g, i, j, offs[..1]) + Bit(At(g, i, j, offs[1]));
    assert LiveCount(g, i, j, offs[..3]) == LiveCount(g, i, j, offs[..2]) + Bit(At(g, i, j, offs[2]));
    assert LiveCount(g, i, j, offs[..4]) == LiveCount(g, i, j, offs[..3]) + Bit(At(g, i, j, offs[3]));
    assert LiveCount(g, i, j, offs[..5]) == LiveCount(g, i, j, offs[..4]) + Bit(At(g, i, j, offs[4]));
    assert LiveCount(g, i, j, offs[..6]) == LiveCount(g, i, j, offs[..5]) + Bit(At(g, i, j, offs[5]));
    assert LiveCount(g, i, j, offs[..7]) == LiveCount(g, i, j, offs[..6]) + Bit(At(g, i, j, offs[6]));
    assert LiveCount(g, i, j, offs) == LiveCount(g, i, j, offs[..7]) + Bit(At(g, i, j, offs[7]));
  }

  function Bit(v: int): int {
    if v == 1 then 1 else 0
  }

  /** Entry (i, j) of the wrapped convolution computed the way convolve2d
      does it: a double loop over the kernel rows and columns accumulating
      weighted, wrapped input cells. */
  method ConvolveCell(g: Grid, k: seq<seq<int>>, i: int, j: int) returns (n: int)
    requires IsMatrix(g) && InBounds(g, i, j) && IsKernel(k)
    ensures n == ConvolveAt(g, k, i, j)
  {
    var h := |g|;
    var w := |g[0]|;
    n := 0;
    for a := 0 to 3
      invariant n == Convolve(g, k, i, j, 3 * a)
    {
      for b := 0 to 3
        invariant n == Convolve(g, k, i, j, 3 * a + b)
      {
        ConvolveNextTap(g, k, i, j, a, b);
        n := n + k[a][b] * g[(i + 1 - a) % h][(j + 1 - b) % w];
      }
    }
  }

  /** Adding the tap for kernel entry (a, b) extends the partial sum by one
      tap in row-major order. */
  lemma ConvolveNextTap(g: Grid, k: seq<seq<int>>, i: int, j: int, a: int, b: int)
    requires IsMatrix(g) && InBounds(g, i, j) && IsKernel(k)
    requires 0 <= a < 3 && 0 <= b < 3
    ensures Convolve(g, k, i, j, 3 * a + b + 1)
         == Convolve(g, k, i, j, 3 * a + b) + k[a][b] * g[Wrap(i + 1 - a, Height(g))][Wrap(j + 1 - b, Width(g))]
  {
    var t := 3 * a + b;
    RowMajor(a, b);
    assert Convolve(g, k, i, j, t + 1) == Convolve(g, k, i, j, t) + Tap(g, k, i, j, t);
  }

  /** Kernel entry (a, b) is tap 3 * a + b in row-major order. */
  lemma RowMajor(a: int, b: int)
    requires 0 <= a < 3 && 0 <= b < 3
    ensures (3 * a + b) / 3 == a && (3 * a + b) % 3 == b
  {
    if a == 0 {
      assert 3 * a + b == b;
    } else if a == 1 {
      assert 3 * a + b == 3 + b;
    } else {
      assert 3 * a + b == 6 + b;
    }
  }

  /** The neighbour count as the source obtains it, by convolving with the
      Moore kernel, is the explicit neighbour sum. */
  method CountNeighbors(g: Grid, i: int, j: int) returns (n: int)
    requires IsMatrix(g) && InBounds(g, i, j)
    ensures n == Neighbors(g, i, j)
  {
    n := ConvolveCell(g, MooreKernel, i, j);
    ConvolveMooreIsNeighbors(g, i, j);
  }
}
