/** `lin_solve`, `add_source` and `diffuse` on grid values.

    A sweep of `lin_solve` is one whole-slice assignment: every interior cell is
    recomputed from the grid as it was before the sweep (Jacobi relaxation),
    and the ghost cells are left to the `set_bnd` call that follows. */
module Relax {
  import opened Grids
  import opened Boundary

  /** The fixed number of relaxation sweeps `lin_solve` performs. */
  const Sweeps: nat := 20

  /** Sum of the four neighbours of an interior cell. */
  function Neighbours(n: int, g: Grid, i: int, j: int): real
    requires IsGrid(n, g) && IsInterior(n, i, j)
  {
    g[i - 1][j] + g[i + 1][j] + g[i][j - 1] + g[i][j + 1]
  }

  /** The value one sweep gives an interior cell. */
  function SweepCell(n: int, g: Grid, g0: Grid, a: real, c: real, i: int, j: int): real
    requires IsGrid(n, g) && IsGrid(n, g0) && IsInterior(n, i, j) && c != 0.0
  {
    (g0[i][j] + a * Neighbours(n, g, i, j)) / c
  }

  /** One sweep (the whole-slice assignment of `lin_solve`): every interior
      cell is recomputed from the grid before the sweep; ghost cells are not
      written. */
  function Sweep(n: int, g: Grid, g0: Grid, a: real, c: real): (r: Grid)
    requires IsGrid(n, g) && IsGrid(n, g0) && c != 0.0
    ensures IsGrid(n, r)
    ensures forall i, j :: 0 <= i < n + 2 && 0 <= j < n + 2 && !IsInterior(n, i, j) ==> r[i][j] == g[i][j]
    ensures forall i, j :: IsInterior(n, i, j) ==> r[i][j] == SweepCell(n, g, g0, a, c, i, j)
  {
    seq(n + 2, i requires 0 <= i < n + 2 =>
      seq(n + 2, j requires 0 <= j < n + 2 =>
        if IsInterior(n, i, j) then SweepCell(n, g, g0, a, c, i, j) else g[i][j]))
  }

  /** k sweeps of `lin_solve`, each followed by `set_bnd(N, b, x)`. */
  function Relax(n: int, b: int, g: Grid, g0: Grid, a: real, c: real, k: nat): (r: Grid)
    requires IsGrid(n, g) && IsGrid(n, g0) && c != 0.0
    ensures IsGrid(n, r)
    decreases k
  {
    if k == 0 then g else SetBnd(n, b, Sweep(n, Relax(n, b, g, g0, a, c, k - 1), g0, a, c))
  }

  /** `lin_solve(N, b, x, x0, a, c)`: the value of x after the 20 sweeps. */
  function LinSolve(n: int, b: int, g: Grid, g0: Grid, a: real, c: real): (r: Grid)
    requires IsGrid(n, g) && IsGrid(n, g0) && c != 0.0
    ensures IsGrid(n, r)
  {
    Relax(n, b, g, g0, a, c, Sweeps)
  }

  /** After any positive number of sweeps, and so after `lin_solve`, the
      ghost cells of x obey the wall rules for `b`. */
  lemma LinSolveWalls(n: int, b: int, g: Grid, g0: Grid, a: real, c: real)
    requires IsGrid(n, g) && IsGrid(n, g0) && c != 0.0
    ensures WallsHold(n, b, LinSolve(n, b, g, g0, a, c))
  {
    SetBndWalls(n, b, Sweep(n, Relax(n, b, g, g0, a, c, Sweeps - 1), g0, a, c));
  }

  /** Dividing by a non-zero c and multiplying back gives the dividend. */
  lemma DivideBack(y: real, c: real)
    requires c != 0.0
    ensures c * (y / c) == y
  {
  }

  /** A cell whose row is already solved is a fixed point of the sweep formula. */
  lemma SolvedCell(x: real, x0: real, a: real, nb: real, c: real)
    requires c != 0.0 && c * x == x0 + a * nb
    ensures (x0 + a * nb) / c == x
  {
    DivideBack(x0 + a * nb, c);
    assert c * ((x0 + a * nb) / c) == c * x;
    assert c * ((x0 + a * nb) / c - x) == 0.0;
  }

  /** With a = 0 and c = 1 every sweep copies the interior of x0, so any
      positive number of sweeps gives `set_bnd` applied to x0. */
  lemma {:induction false} RelaxCopy(n: int, b: int, g: Grid, g0: Grid, k: nat)
    requires IsGrid(n, g) && IsGrid(n, g0) && k > 0
    ensures Relax(n, b, g, g0, 0.0, 1.0, k) == SetBnd(n, b, g0)
  {
    var prev := Relax(n, b, g, g0, 0.0, 1.0, k - 1);
    var s := Sweep(n, prev, g0, 0.0, 1.0);
    assert SameInterior(n, s, g0) by {
      forall i, j | IsInterior(n, i, j) ensures s[i][j] == g0[i][j] {
        assert s[i][j] == SweepCell(n, prev, g0, 0.0, 1.0, i, j);
      }
    }
    SetBndInteriorOnly(n, b, s, g0);
  }

  /** `lin_solve` with a = 0, c = 1 leaves x with the interior of x0. */
  lemma LinSolveCopy(n: int, b: int, g: Grid, g0: Grid)
    requires IsGrid(n, g) && IsGrid(n, g0)
    ensures LinSolve(n, b, g, g0, 0.0, 1.0) == SetBnd(n, b, g0)
    ensures SameInterior(n, LinSolve(n, b, g, g0, 0.0, 1.0), g0)
  {
    RelaxCopy(n, b, g, g0, Sweeps);
  }

  /** One sweep on an all-zero grid with an all-zero x0 gives zero interior. */
  lemma SweepZero(n: int, g: Grid, g0: Grid, a: real, c: real)
    requires IsGrid(n, g) && IsGrid(n, g0) && c != 0.0
    requires IsZero(n, g) && IsZero(n, g0)
    ensures IsZeroInside(n, Sweep(n, g, g0, a, c))
  {
    forall i, j | IsInterior(n, i, j)
      ensures SweepCell(n, g, g0, a, c, i, j) == 0.0
    {
      SweepCellZero(n, g, g0, a, c, i, j);
    }
  }

  /** A cell whose right-hand side and four neighbours are zero sweeps to zero. */
  lemma SweepCellZero(n: int, g: Grid, g0: Grid, a: real, c: real, i: int, j: int)
    requires IsGrid(n, g) && IsGrid(n, g0) && IsInterior(n, i, j) && c != 0.0
    requires g[i - 1][j] == 0.0 && g[i + 1][j] == 0.0 && g[i][j - 1] == 0.0 && g[i][j + 1] == 0.0
    requires g0[i][j] == 0.0
    ensures SweepCell(n, g, g0, a, c, i, j) == 0.0
  {
  }

  /** If x and x0 are both all zero, every sweep keeps x all zero. */
  lemma {:induction false} RelaxZero(n: int, b: int, g: Grid, g0: Grid, a: real, c: real, k: nat)
    requires IsGrid(n, g) && IsGrid(n, g0) && c != 0.0
    requires IsZero(n, g) && IsZero(n, g0)
    ensures Relax(n, b, g, g0, a, c, k) == Zero(n)
  {
    if k == 0 {
      GridExt(n, g, Zero(n));
    } else {
      RelaxZero(n, b, g, g0, a, c, k - 1);
      var z := Zero(n);
      assert Relax(n, b, g, g0, a, c, k) == SetBnd(n, b, Sweep(n, z, g0, a, c));
      SweepZero(n, z, g0, a, c);
      SetBndZero(n, b, Sweep(n, z, g0, a, c));
    }
  }

  /** `lin_solve` maps an all-zero x and x0 to an all-zero x. */
  lemma LinSolveZero(n: int, b: int, g: Grid, g0: Grid, a: real, c: real)
    requires IsGrid(n, g) && IsGrid(n, g0) && c != 0.0
    requires IsZero(n, g) && IsZero(n, g0)
    ensures LinSolve(n, b, g, g0, a, c) == Zero(n)
  {
    RelaxZero(n, b, g, g0, a, c, Sweeps);
  }

  /** g solves the linear system of `lin_solve` exactly on every interior cell. */
  ghost predicate Solves(n: int, g: Grid, g0: Grid, a: real, c: real)
    requires IsGrid(n, g) && IsGrid(n, g0)
  {
    forall i, j {:trigger Neighbours(n, g, i, j)} :: IsInterior(n, i, j) ==> c * g[i][j] == g0[i][j] + a * Neighbours(n, g, i, j)
  }

  /** A cell whose row of the system is solved keeps its value in a sweep. */
  lemma SweepCellSolved(n: int, g: Grid, g0: Grid, a: real, c: real, i: int, j: int)
    requires IsGrid(n, g) && IsGrid(n, g0) && c != 0.0 && IsInterior(n, i, j)
    requires c * g[i][j] == g0[i][j] + a * Neighbours(n, g, i, j)
    ensures SweepCell(n, g, g0, a, c, i, j) == g[i][j]
  {
    SolvedCell(g[i][j], g0[i][j], a, Neighbours(n, g, i, j), c);
  }

  /** One sweep keeps the interior of an exact solution. */
  lemma SweepSolved(n: int, g: Grid, g0: Grid, a: real, c: real)
    requires IsGrid(n, g) && IsGrid(n, g0) && c != 0.0 && Solves(n, g, g0, a, c)
    ensures SameInterior(n, Sweep(n, g, g0, a, c), g)
  {
    forall i, j | IsInterior(n, i, j)
      ensures SweepCell(n, g, g0, a, c, i, j) == g[i][j]
    {
      SweepCellSolved(n, g, g0, a, c, i, j);
    }
  }

  /** An exact solution of the system whose ghosts already obey the wall
      rules for `b` is left unchanged by any number of sweeps. */
  lemma {:induction false} RelaxFixedPoint(n: int, b: int, g: Grid, g0: Grid, a: real, c: real, k: nat)
    requires IsGrid(n, g) && IsGrid(n, g0) && c != 0.0
    requires Solves(n, g, g0, a, c) && WallsHold(n, b, g)
    ensures Relax(n, b, g, g0, a, c, k) == g
  {
    if k > 0 {
      RelaxFixedPoint(n, b, g, g0, a, c, k - 1);
      assert Relax(n, b, g, g0, a, c, k) == SetBnd(n, b, Sweep(n, g, g0, a, c));
      SweepSolved(n, g, g0, a, c);
      SetBndUnique(n, b, Sweep(n, g, g0, a, c), g);
    }
  }

  /** The grid whose every cell, ghosts included, is `v`. */
  function Constant(n: nat, v: real): (g: Grid)
    requires n >= 1
    ensures IsGrid(n, g)
    ensures forall i, j :: 0 <= i < n + 2 && 0 <= j < n + 2 ==> g[i][j] == v
  {
    seq(n + 2, i => seq(n + 2, j => v))
  }

  /** With an all-zero x0 and c = 4a (the pressure solve has a = 1, c = 4),
      a constant x stays constant under `lin_solve` with tag 0: a zero
      right-hand side alone does not make the result zero. */
  lemma ZeroRhsKeepsConstant(n: nat, g0: Grid, a: real, c: real, v: real)
    requires n >= 1 && IsGrid(n, g0) && IsZero(n, g0) && c == 4.0 * a && c != 0.0
    ensures LinSolve(n, 0, Constant(n, v), g0, a, c) == Constant(n, v)
  {
    var g := Constant(n, v);
    forall i, j | IsInterior(n, i, j)
      ensures c * g[i][j] == g0[i][j] + a * Neighbours(n, g, i, j)
    {
      assert Neighbours(n, g, i, j) == 4.0 * v;
    }
    RelaxFixedPoint(n, 0, g, g0, a, c, Sweeps);
  }

  /** `add_source(N, x, s, dt)`: every cell, ghosts included, gains dt * s. */
  function AddSource(n: int, g: Grid, s: Grid, dt: real): (r: Grid)
    requires IsGrid(n, g) && IsGrid(n, s)
    ensures IsGrid(n, r)
    ensures forall i, j :: 0 <= i < n + 2 && 0 <= j < n + 2 ==> r[i][j] == g[i][j] + dt * s[i][j]
  {
    seq(n + 2, i requires 0 <= i < n + 2 =>
      seq(n + 2, j requires 0 <= j < n + 2 => g[i][j] + dt * s[i][j]))
  }

  /** Adding a source over dt1 and then over dt2 is adding it over dt1 + dt2. */
  lemma AddSourceTwice(n: int, g: Grid, s: Grid, dt1: real, dt2: real)
    requires IsGrid(n, g) && IsGrid(n, s)
    ensures AddSource(n, AddSource(n, g, s, dt1), s, dt2) == AddSource(n, g, s, dt1 + dt2)
  {
    GridExt(n, AddSource(n, AddSource(n, g, s, dt1), s, dt2), AddSource(n, g, s, dt1 + dt2));
  }

  /** An all-zero source, or a zero time step, leaves the grid unchanged. */
  lemma AddSourceNothing(n: int, g: Grid, s: Grid, dt: real)
    requires IsGrid(n, g) && IsGrid(n, s) && (IsZero(n, s) || dt == 0.0)
    ensures AddSource(n, g, s, dt) == g
  {
    GridExt(n, AddSource(n, g, s, dt), g);
  }

  /** The coefficient a = dt * diff * N * N of the implicit diffusion system. */
  function DiffusionRate(n: int, diff: real, dt: real): real
  {
    dt * diff * (n as real) * (n as real)
  }

  /** `diffuse` can run: its system coefficient c = 1 + 4a is not zero. */
  predicate CanDiffuse(n: int, diff: real, dt: real)
  {
    1.0 + 4.0 * DiffusionRate(n, diff, dt) != 0.0
  }

  /** `diffuse(N, b, x, x0, diff, dt)`: `lin_solve` with a = dt*diff*N*N and
      c = 1 + 4a, starting from x. */
  function Diffuse(n: int, b: int, g: Grid, g0: Grid, diff: real, dt: real): (r: Grid)
    requires IsGrid(n, g) && IsGrid(n, g0) && CanDiffuse(n, diff, dt)
    ensures IsGrid(n, r)
  {
    var a := DiffusionRate(n, diff, dt);
    LinSolve(n, b, g, g0, a, 1.0 + 4.0 * a)
  }

  /** After `diffuse` the ghosts of x obey the wall rules for `b`. */
  lemma DiffuseWalls(n: int, b: int, g: Grid, g0: Grid, diff: real, dt: real)
    requires IsGrid(n, g) && IsGrid(n, g0) && CanDiffuse(n, diff, dt)
    ensures WallsHold(n, b, Diffuse(n, b, g, g0, diff, dt))
  {
    var a := DiffusionRate(n, diff, dt);
    var c := 1.0 + 4.0 * a;
    assert Diffuse(n, b, g, g0, diff, dt) == LinSolve(n, b, g, g0, a, c);
    LinSolveWalls(n, b, g, g0, a, c);
  }

  /** With diff = 0 diffusion is `set_bnd` of x0: the interior of x0 is copied. */
  lemma DiffuseStill(n: int, b: int, g: Grid, g0: Grid, dt: real)
    requires IsGrid(n, g) && IsGrid(n, g0)
    ensures CanDiffuse(n, 0.0, dt)
    ensures Diffuse(n, b, g, g0, 0.0, dt) == SetBnd(n, b, g0)
  {
    assert DiffusionRate(n, 0.0, dt) == 0.0;
    LinSolveCopy(n, b, g, g0);
  }

  /** Diffusing an all-zero grid from an all-zero start gives all zeros. */
  lemma DiffuseZero(n: int, b: int, g: Grid, g0: Grid, diff: real, dt: real)
    requires IsGrid(n, g) && IsGrid(n, g0) && CanDiffuse(n, diff, dt)
    requires IsZero(n, g) && IsZero(n, g0)
    ensures Diffuse(n, b, g, g0, diff, dt) == Zero(n)
  {
    var a := DiffusionRate(n, diff, dt);
    LinSolveZero(n, b, g, g0, a, 1.0 + 4.0 * a);
  }
}
