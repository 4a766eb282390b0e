/** Square grids of interior size n: cells (i, j) with 0 <= i, j <= n + 1,
    where rows and columns 0 and n + 1 are the ghost (boundary) cells. */
module Grids {

  /** A grid as a value: a sequence of rows. */
  type Grid = seq<seq<real>>

  /** `g` has the (n+2)x(n+2) shape the solver works on, with n >= 1. */
  ghost predicate IsGrid(n: int, g: Grid)
  {
    n >= 1 && |g| == n + 2 && forall i :: 0 <= i < |g| ==> |g[i]| == n + 2
  }

  /** (i, j) is one of the simulated cells 1..n x 1..n. */
  predicate IsInterior(n: int, i: int, j: int)
  {
    1 <= i <= n && 1 <= j <= n
  }

  /** `g` and `h` agree on every interior cell. */
  ghost predicate SameInterior(n: int, g: Grid, h: Grid)
    requires IsGrid(n, g) && IsGrid(n, h)
  {
    forall i, j :: IsInterior(n, i, j) ==> g[i][j] == h[i][j]
  }

  /** Every cell of `g`, ghosts included, is zero. */
  ghost predicate IsZero(n: int, g: Grid)
    requires IsGrid(n, g)
  {
    forall i, j :: 0 <= i < n + 2 && 0 <= j < n + 2 ==> g[i][j] == 0.0
  }

  /** Every interior cell of `g` is zero. */
  ghost predicate IsZeroInside(n: int, g: Grid)
    requires IsGrid(n, g)
  {
    forall i, j :: IsInterior(n, i, j) ==> g[i][j] == 0.0
  }

  /** The all-zero grid, as created by the simulation at start-up. */
  function Zero(n: nat): (g: Grid)
    requires n >= 1
    ensures IsGrid(n, g) && IsZero(n, g)
  {
    seq(n + 2, i => seq(n + 2, j => 0.0))
  }

  /** The array has the (n+2)x(n+2) shape. */
  predicate Fits(n: int, a: array2<real>)
  {
    a.Length0 == n + 2 && a.Length1 == n + 2
  }

  /** The current contents of an array as a grid value. */
  function Snap(a: array2<real>): (g: Grid)
    reads a
    ensures |g| == a.Length0
    ensures forall i :: 0 <= i < a.Length0 ==> |g[i]| == a.Length1
    ensures forall i, j :: 0 <= i < a.Length0 && 0 <= j < a.Length1 ==> g[i][j] == a[i, j]
  {
    seq(a.Length0, i requires 0 <= i < a.Length0 reads a =>
      seq(a.Length1, j requires 0 <= j < a.Length1 reads a => a[i, j]))
  }

  /** Two grids of the same shape that agree cell by cell are equal. */
  lemma {:induction false} GridExt(n: int, g: Grid, h: Grid)
    requires IsGrid(n, g) && IsGrid(n, h)
    requires forall i, j :: 0 <= i < n + 2 && 0 <= j < n + 2 ==> g[i][j] == h[i][j]
    ensures g == h
  {
    forall i | 0 <= i < n + 2
      ensures g[i] == h[i]
    {
      assert forall j :: 0 <= j < n + 2 ==> g[i][j] == h[i][j];
    }
  }

  /** An array whose cells are those of `g` snapshots to `g`. */
  lemma SnapIs(n: int, a: array2<real>, g: Grid)
    requires IsGrid(n, g) && Fits(n, a)
    requires forall i, j :: 0 <= i < n + 2 && 0 <= j < n + 2 ==> a[i, j] == g[i][j]
    ensures Snap(a) == g
  {
    GridExt(n, Snap(a), g);
  }
}
