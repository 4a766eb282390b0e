/** The two time steps of the solver, `dens_step` and `vel_step`, as values:
    which grid each caller-visible buffer holds once the step returns. The
    local swaps of the source only rebind names, so each routine below is
    written in terms of the caller's buffers. */
module Steps {
  import opened Grids
  import opened Boundary
  import opened Relax
  import opened Advection
  import opened Projection

  /** The caller's density buffers after `dens_step`. */
  datatype Density = Density(x: Grid, x0: Grid)

  /** `dens_step(N, x, x0, u, v, diff, dt)`: the source is added into x, x0
      receives the diffusion of that sum, and x receives its advection by
      (u, v). */
  function DensStep(n: int, x: Grid, x0: Grid, u: Grid, v: Grid, diff: real, dt: real): (r: Density)
    requires IsGrid(n, x) && IsGrid(n, x0) && IsGrid(n, u) && IsGrid(n, v)
    requires CanDiffuse(n, diff, dt)
    ensures IsGrid(n, r.x) && IsGrid(n, r.x0)
  {
    var x1 := AddSource(n, x, x0, dt);
    var d := Diffuse(n, 0, x0, x1, diff, dt);
    Density(Advect(n, 0, x1, d, u, v, dt), d)
  }

  /** Both density buffers end with the tag-0 wall rules. */
  lemma DensStepWalls(n: int, x: Grid, x0: Grid, u: Grid, v: Grid, diff: real, dt: real, r: Density)
    requires IsGrid(n, x) && IsGrid(n, x0) && IsGrid(n, u) && IsGrid(n, v)
    requires CanDiffuse(n, diff, dt)
    requires r == DensStep(n, x, x0, u, v, diff, dt)
    ensures WallsHold(n, 0, r.x) && WallsHold(n, 0, r.x0)
  {
    var x1 := AddSource(n, x, x0, dt);
    DiffuseWalls(n, 0, x0, x1, diff, dt);
    AdvectWalls(n, 0, x1, r.x0, u, v, dt);
  }

  /** The new density in x is the advection, by (u, v), of the grid left in
      x0, whatever buffer it is written over: x0 holds the diffused
      intermediate the advection read. */
  lemma DensStepAdvectsScratch(n: int, x: Grid, x0: Grid, u: Grid, v: Grid, diff: real, dt: real, r: Density, d: Grid)
    requires IsGrid(n, x) && IsGrid(n, x0) && IsGrid(n, u) && IsGrid(n, v) && IsGrid(n, d)
    requires CanDiffuse(n, diff, dt)
    requires r == DensStep(n, x, x0, u, v, diff, dt)
    ensures r.x == Advect(n, 0, d, r.x0, u, v, dt)
  {
    AdvectIgnoresTarget(n, 0, AddSource(n, x, x0, dt), d, r.x0, u, v, dt);
  }

  /** A grid holding 0 everywhere except v at interior cell (i, j). */
  function Spike(n: nat, i: int, j: int, v: real): (g: Grid)
    requires n >= 1 && IsInterior(n, i, j)
    ensures IsGrid(n, g)
    ensures forall k, l :: 0 <= k < n + 2 && 0 <= l < n + 2 ==> g[k][l] == (if k == i && l == j then v else 0.0)
  {
    var z := Zero(n);
    z[i := z[i][j := v]]
  }

  /** With diff = 0 and a velocity that is zero on the interior, the new
      density is `set_bnd` of x + dt * x0: every interior cell gains dt times
      its source. */
  lemma DensStepStill(n: int, x: Grid, x0: Grid, u: Grid, v: Grid, dt: real)
    requires IsGrid(n, x) && IsGrid(n, x0) && IsGrid(n, u) && IsGrid(n, v)
    requires IsZeroInside(n, u) && IsZeroInside(n, v)
    ensures CanDiffuse(n, 0.0, dt)
    ensures DensStep(n, x, x0, u, v, 0.0, dt).x == SetBnd(n, 0, AddSource(n, x, x0, dt))
    ensures forall i, j :: IsInterior(n, i, j) ==>
              DensStep(n, x, x0, u, v, 0.0, dt).x[i][j] == x[i][j] + dt * x0[i][j]
  {
    var x1 := AddSource(n, x, x0, dt);
    DiffuseStill(n, 0, x0, x1, dt);
    var d := Diffuse(n, 0, x0, x1, 0.0, dt);
    AdvectStill(n, 0, x1, d, u, v, dt);
    SetBndIdempotent(n, 0, x1);
  }

  /** N = 4, no diffusion, no velocity, a single source of 100 at (2, 2) and
      dt = 0.1: the density becomes 10 at (2, 2) and 0 in every other
      interior cell. */
  lemma DensStepSpike()
    ensures var r := DensStep(4, Zero(4), Spike(4, 2, 2, 100.0), Zero(4), Zero(4), 0.0, 0.1);
            r.x[2][2] == 10.0 &&
            forall i, j :: IsInterior(4, i, j) && (i, j) != (2, 2) ==> r.x[i][j] == 0.0
  {
    DensStepStill(4, Zero(4), Spike(4, 2, 2, 100.0), Zero(4), Zero(4), 0.1);
  }

  /** All-zero density and source stay all zero, whatever the velocity. */
  lemma DensStepZero(n: int, x: Grid, x0: Grid, u: Grid, v: Grid, diff: real, dt: real)
    requires IsGrid(n, x) && IsGrid(n, x0) && IsGrid(n, u) && IsGrid(n, v)
    requires CanDiffuse(n, diff, dt) && IsZero(n, x) && IsZero(n, x0)
    ensures DensStep(n, x, x0, u, v, diff, dt) == Density(Zero(n), Zero(n))
  {
    var x1 := AddSource(n, x, x0, dt);
    AddSourceNothing(n, x, x0, dt);
    DiffuseZero(n, 0, x0, x1, diff, dt);
    AdvectZero(n, 0, x1, Zero(n), u, v, dt);
  }

  /** The caller's four velocity buffers at some point of `vel_step`. */
  datatype Velocity = Velocity(u: Grid, v: Grid, u0: Grid, v0: Grid)

  /** The first part of `vel_step`, up to and including the two `advect`
      calls: forces are added, the result is diffused into u0 and v0 and
      projected there (with u and v as the pressure and divergence scratch),
      and then the projected field is advected by itself into u and v. */
  function VelMoved(n: int, u: Grid, v: Grid, u0: Grid, v0: Grid, visc: real, dt: real): (r: Velocity)
    requires IsGrid(n, u) && IsGrid(n, v) && IsGrid(n, u0) && IsGrid(n, v0)
    requires CanDiffuse(n, visc, dt)
    ensures IsGrid(n, r.u) && IsGrid(n, r.v) && IsGrid(n, r.u0) && IsGrid(n, r.v0)
  {
    var u1 := AddSource(n, u, u0, dt);
    var v1 := AddSource(n, v, v0, dt);
    var du := Diffuse(n, 1, u0, u1, visc, dt);
    var dv := Diffuse(n, 2, v0, v1, visc, dt);
    var pr := Project(n, du, dv, u1, v1);
    Velocity(Advect(n, 1, pr.p, pr.u, pr.u, pr.v, dt), Advect(n, 2, pr.div, pr.v, pr.u, pr.v, dt), pr.u, pr.v)
  }

  /** `vel_step(N, u, v, u0, v0, visc, dt)`: the moved field is projected
      once more, in u and v, with u0 and v0 as the pressure and divergence
      scratch. */
  function VelStep(n: int, u: Grid, v: Grid, u0: Grid, v0: Grid, visc: real, dt: real): (r: Velocity)
    requires IsGrid(n, u) && IsGrid(n, v) && IsGrid(n, u0) && IsGrid(n, v0)
    requires CanDiffuse(n, visc, dt)
    ensures IsGrid(n, r.u) && IsGrid(n, r.v) && IsGrid(n, r.u0) && IsGrid(n, r.v0)
  {
    Settle(n, VelMoved(n, u, v, u0, v0, visc, dt))
  }

  /** The final `project(N, u, v, u0, v0)` of `vel_step` on the buffers m:
      u and v are made (nearly) divergence-free, u0 receives the pressure and
      v0 the divergence. */
  function Settle(n: int, m: Velocity): (r: Velocity)
    requires IsGrid(n, m.u) && IsGrid(n, m.v) && IsGrid(n, m.u0) && IsGrid(n, m.v0)
    ensures IsGrid(n, r.u) && IsGrid(n, r.v) && IsGrid(n, r.u0) && IsGrid(n, r.v0)
  {
    var fin := Project(n, m.u, m.v, m.u0, m.v0);
    Velocity(fin.u, fin.v, fin.p, fin.div)
  }

  /** The gradient subtraction of the final projection, along i, with the
      pressure left in u0. */
  lemma SettleGradientU(n: int, m: Velocity, r: Velocity)
    requires IsGrid(n, m.u) && IsGrid(n, m.v) && IsGrid(n, m.u0) && IsGrid(n, m.v0)
    requires r == Settle(n, m)
    ensures forall i, j :: IsInterior(n, i, j) ==>
              r.u[i][j] == m.u[i][j] - 0.5 * (r.u0[i + 1][j] - r.u0[i - 1][j]) / Spacing(n)
  {
    GradientStepU(n, m.u, r.u0, r.u);
  }

  /** The gradient subtraction of the final projection, along j, with the
      pressure left in u0. */
  lemma SettleGradientV(n: int, m: Velocity, r: Velocity)
    requires IsGrid(n, m.u) && IsGrid(n, m.v) && IsGrid(n, m.u0) && IsGrid(n, m.v0)
    requires r == Settle(n, m)
    ensures forall i, j :: IsInterior(n, i, j) ==>
              r.v[i][j] == m.v[i][j] - 0.5 * (r.u0[i][j + 1] - r.u0[i][j - 1]) / Spacing(n)
  {
    GradientStepV(n, m.v, r.u0, r.v);
  }

  /** After `vel_step` u and v obey the tag 1 and tag 2 wall rules, and the
      scratch buffers u0 and v0 the tag 0 rules. */
  lemma VelStepWalls(n: int, u: Grid, v: Grid, u0: Grid, v0: Grid, visc: real, dt: real, r: Velocity)
    requires IsGrid(n, u) && IsGrid(n, v) && IsGrid(n, u0) && IsGrid(n, v0)
    requires CanDiffuse(n, visc, dt)
    requires r == VelStep(n, u, v, u0, v0, visc, dt)
    ensures WallsHold(n, 1, r.u) && WallsHold(n, 2, r.v)
    ensures WallsHold(n, 0, r.u0) && WallsHold(n, 0, r.v0)
  {
    var m := VelMoved(n, u, v, u0, v0, visc, dt);
    ProjectWalls(n, m.u, m.v, m.u0, m.v0, Project(n, m.u, m.v, m.u0, m.v0));
  }

  /** After `vel_step`, u0 holds the pressure: the 20-sweep Poisson solve,
      from zero, whose right-hand side is what v0 holds. */
  lemma VelStepPressure(n: int, u: Grid, v: Grid, u0: Grid, v0: Grid, visc: real, dt: real, r: Velocity)
    requires IsGrid(n, u) && IsGrid(n, v) && IsGrid(n, u0) && IsGrid(n, v0)
    requires CanDiffuse(n, visc, dt)
    requires r == VelStep(n, u, v, u0, v0, visc, dt)
    ensures r.u0 == LinSolve(n, 0, Zero(n), r.v0, 1.0, 4.0)
  {
    var m := VelMoved(n, u, v, u0, v0, visc, dt);
    ProjectPressure(n, m.u, m.v, m.u0, m.v0);
  }

  /** After `vel_step`, v0 holds the divergence of the moved field on the
      interior. */
  lemma VelStepDivergence(n: int, u: Grid, v: Grid, u0: Grid, v0: Grid, visc: real, dt: real, r: Velocity, m: Velocity)
    requires IsGrid(n, u) && IsGrid(n, v) && IsGrid(n, u0) && IsGrid(n, v0)
    requires CanDiffuse(n, visc, dt)
    requires r == VelStep(n, u, v, u0, v0, visc, dt) && m == VelMoved(n, u, v, u0, v0, visc, dt)
    ensures forall i, j :: IsInterior(n, i, j) ==>
              r.v0[i][j] == -0.5 * Spacing(n) * (m.u[i + 1][j] - m.u[i - 1][j] + m.v[i][j + 1] - m.v[i][j - 1])
  {
    ProjectDivergence(n, m.u, m.v, m.u0, m.v0);
  }

  /** After `vel_step`, u is the moved field's u minus the central difference
      along i of the pressure left in u0, divided by h. */
  lemma VelStepGradientU(n: int, u: Grid, v: Grid, u0: Grid, v0: Grid, visc: real, dt: real, r: Velocity, m: Velocity)
    requires IsGrid(n, u) && IsGrid(n, v) && IsGrid(n, u0) && IsGrid(n, v0)
    requires CanDiffuse(n, visc, dt)
    requires r == VelStep(n, u, v, u0, v0, visc, dt) && m == VelMoved(n, u, v, u0, v0, visc, dt)
    ensures forall i, j :: IsInterior(n, i, j) ==>
              r.u[i][j] == m.u[i][j] - 0.5 * (r.u0[i + 1][j] - r.u0[i - 1][j]) / Spacing(n)
  {
    SettleGradientU(n, m, r);
  }

  /** After `vel_step`, v is the moved field's v minus the central difference
      along j of the pressure left in u0, divided by h. */
  lemma VelStepGradientV(n: int, u: Grid, v: Grid, u0: Grid, v0: Grid, visc: real, dt: real, r: Velocity, m: Velocity)
    requires IsGrid(n, u) && IsGrid(n, v) && IsGrid(n, u0) && IsGrid(n, v0)
    requires CanDiffuse(n, visc, dt)
    requires r == VelStep(n, u, v, u0, v0, visc, dt) && m == VelMoved(n, u, v, u0, v0, visc, dt)
    ensures forall i, j :: IsInterior(n, i, j) ==>
              r.v[i][j] == m.v[i][j] - 0.5 * (r.u0[i][j + 1] - r.u0[i][j - 1]) / Spacing(n)
  {
    SettleGradientV(n, m, r);
  }

  /** A fluid at rest with no forces stays at rest: all four buffers end
      all zero. */
  lemma VelStepZero(n: int, u: Grid, v: Grid, u0: Grid, v0: Grid, visc: real, dt: real)
    requires IsGrid(n, u) && IsGrid(n, v) && IsGrid(n, u0) && IsGrid(n, v0)
    requires CanDiffuse(n, visc, dt)
    requires IsZero(n, u) && IsZero(n, v) && IsZero(n, u0) && IsZero(n, v0)
    ensures VelStep(n, u, v, u0, v0, visc, dt) == Velocity(Zero(n), Zero(n), Zero(n), Zero(n))
  {
    var z := Zero(n);
    AddSourceNothing(n, u, u0, dt);
    AddSourceNothing(n, v, v0, dt);
    DiffuseZero(n, 1, u0, u, visc, dt);
    DiffuseZero(n, 2, v0, v, visc, dt);
    ProjectZero(n, z, z, u, v);
    AdvectZero(n, 1, z, z, z, z, dt);
    AdvectZero(n, 2, z, z, z, z, dt);
    assert VelMoved(n, u, v, u0, v0, visc, dt) == Velocity(z, z, z, z);
    ProjectZero(n, z, z, z, z);
  }
}
