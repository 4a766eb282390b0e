# Stable fluids solver in Dafny

This project models the solver kernel of a Python implementation of Jos Stam's
"Real-Time Fluid Dynamics for Games" (2003), `src/solver.py`, and proves
properties of the model.

The solver works on square grids of size (N+2)×(N+2). Rows and columns 1..N
are the interior. Rows and columns 0 and N+1 are ghost cells that hold the
boundary conditions. It has eight routines:

- `set_bnd` writes the ghosts, using a tag `b` that says which walls negate;
- `lin_solve` runs 20 relaxation sweeps;
- `add_source` adds `dt*s` to every cell;
- `diffuse` solves the implicit diffusion system;
- `advect` does semi-Lagrangian transport;
- `project` computes the divergence, solves for pressure and subtracts the gradient;
- `dens_step` and `vel_step` are the two time steps, built from the routines above.

The model has two layers.

- **Values.** Modules `Grids`, `Boundary`, `Relax`, `Advection`, `Projection`
  and `Steps` describe each routine as a function on `Grid = seq<seq<real>>`:
  what an array holds once the routine returns. The lemmas state the
  routines' properties about these functions:
  - the wall sign rules and the corner rule;
  - which cells each routine writes;
  - idempotence of `set_bnd`;
  - bounds and in-range reads under clamping;
  - identities for zero input and zero velocity;
  - which caller buffer holds what after the swaps.
- **Arrays.** Module `Solver` has one method per routine on `array2<real>`,
  with the source's loops. Each method updates its arrays in place, writes
  only what `modifies` names, and ensures that the new contents (`Snap`)
  equal the value-level function applied to the old contents.

Points where the code is easy to misread:

- **Jacobi, not Gauss-Seidel.** The sweep of `lin_solve` (`src/solver.py:29`)
  is one whole-slice assignment: the array library (numarray, as
  `src/demo.py` imports it) computes the entire right-hand side from the
  old `x` before it writes the interior. That is a Jacobi step,
  although the docstring of `diffuse` (`src/solver.py:41`) speaks of
  Gauss-Seidel relaxation. `Solver.Sweep` computes into a fresh array and then
  copies it into the interior.
- **Gradient divided by h.** The gradient subtraction of `project`
  (`src/solver.py:73-74`) divides by `h = 1/N`. The code itself marks this
  as "not in the paper". The model reproduces it.
  `Projection.ProjectScaledGradientU` and `Projection.ProjectScaledGradientV`
  show that the output of `project` subtracts 0.5·N·(central difference of p).
- **`int(x)` is truncation.** `int(x)` in `advect` truncates toward zero.
  `Advection.Int` models exactly that. It agrees with `Floor` for x >= 0,
  which the clamp guarantees.
- **Zero right-hand side, for `lin_solve`.** A zero `x0` alone does not
  make the result zero: `x` must be zero too. `Relax.ZeroRhsKeepsConstant`
  shows that a constant `x` stays constant under the pressure solve's
  coefficients.

The buffer swaps in `dens_step` and `vel_step` only rebind local names.
`Solver.DensStep` and `Solver.VelStep` model them as exchanges of local
references. Their postconditions say what each of the caller's arrays holds
at the end.

Where the source passes different buffers, the methods require the arrays
to be distinct:

- `lin_solve` takes x ≠ x0;
- `advect` takes d distinct from d0, u and v, while d0 may be u or v, as in `vel_step`;
- `project` takes four distinct arrays;
- `dens_step` and `vel_step` take distinct buffers;
- `add_source` allows x and s to be the same array.

## Model

| member | source | states |
|---|---|---|
| Boundary.EdgeValue | src/solver.py:12-20 | no contract of its own; defines the post-`set_bnd` value of a non-corner cell: an interior cell is kept, an edge ghost copies its inward neighbour, negated for b = 1 on the walls i = 0, N+1 and for b = 2 on the walls j = 0, N+1 (proved in `Boundary.SetBndWalls`) |
| Boundary.SetBndCell | src/solver.py:12-25 | no contract of its own; defines the post-`set_bnd` value of any cell: a corner is 0.5 × the sum of the `EdgeValue`s of its two edge neighbours, any other cell its `EdgeValue` |
| Boundary.SetBnd | src/solver.py:5-25 | `set_bnd` keeps every interior cell of x |
| Boundary.SetBndWalls | src/solver.py:12-25 | after `set_bnd`, for k in 1..N: x[0,k] = ∓x[1,k] and x[N+1,k] = ∓x[N,k] (negated only for b = 1); x[k,0] = ∓x[k,1] and x[k,N+1] = ∓x[k,N] (negated only for b = 2); tag 0 only copies; each corner is 0.5 × the sum of its two neighbouring edge ghosts |
| Boundary.SetBndUnique | src/solver.py:12-25 | the interior together with the wall and corner rules determines the result of `set_bnd` completely |
| Boundary.SetBndInteriorOnly | src/solver.py:12-25 | `set_bnd` reads only interior cells: grids with equal interiors get equal results |
| Boundary.SetBndIdempotent | src/solver.py:12-25 | calling `set_bnd` a second time changes nothing |
| Boundary.SetBndZero | src/solver.py:12-25 | a grid with a zero interior becomes zero everywhere, corners included |
| Solver.SetWalls | src/solver.py:13-20 | one iteration of the wall loop writes exactly the four ghosts at index i, from the adjacent interior cells, with the sign of `b`; nothing else changes |
| Solver.SetCorners | src/solver.py:22-25 | the four corner writes set each corner to the mean of its two edge neighbours and change nothing else |
| Solver.SetBnd | src/solver.py:5-25 | the array after the loop and the corner writes equals `Boundary.SetBnd` of its old contents |
| Solver.WallsThenCorners | src/solver.py:12-25 | the wall loop followed by the corner writes gives `Boundary.SetBnd` of the grid before the loop |
| Relax.SweepCell | src/solver.py:29 | no contract of its own; defines the value a sweep gives an interior cell: (x0[i,j] + a·(sum of the four neighbours))/c |
| Relax.Sweep | src/solver.py:29 | one sweep sets every interior cell to (x0 + a·(sum of the four old neighbours))/c from the grid before the sweep, and leaves the ghosts unchanged |
| Relax.Relax | src/solver.py:28-30 | shape only (the result is an (N+2)×(N+2) grid); the body is k × (`Relax.Sweep` then `Boundary.SetBnd` with tag b), starting from x |
| Relax.LinSolve | src/solver.py:27-30 | shape only; the body is `Relax.Relax` with k = 20 |
| Relax.LinSolveWalls | src/solver.py:28-30 | after `lin_solve` the ghosts of x obey the wall rules for b |
| Relax.LinSolveCopy | src/solver.py:28-30 | with a = 0 and c = 1, `lin_solve` leaves x equal to `set_bnd` of x0, so the interior of x equals the interior of x0 |
| Relax.RelaxCopy | src/solver.py:28-30 | any positive number of sweeps with a = 0, c = 1 gives `set_bnd` of x0 |
| Relax.SweepZero | src/solver.py:29 | a sweep of an all-zero x with an all-zero x0 gives a zero interior |
| Relax.SweepCellZero | src/solver.py:29 | an interior cell whose four neighbours and right-hand side are zero sweeps to zero |
| Relax.RelaxZero | src/solver.py:28-30 | with x and x0 all zero, every number of sweeps keeps x all zero |
| Relax.LinSolveZero | src/solver.py:27-30 | `lin_solve` on all-zero x and x0 gives the all-zero grid |
| Relax.SweepCellSolved | src/solver.py:29 | a cell whose row of the linear system holds exactly is a fixed point of the sweep formula |
| Relax.SweepSolved | src/solver.py:29 | a sweep keeps the interior of an exact solution of the system |
| Relax.RelaxFixedPoint | src/solver.py:28-30 | an exact solution whose ghosts obey the wall rules is unchanged by any number of sweeps |
| Relax.ZeroRhsKeepsConstant | src/solver.py:27-30 | with an all-zero x0, c = 4a and tag 0, a constant grid is a fixed point of `lin_solve`; a zero x0 alone does not force a zero result |
| Solver.SweepRow | src/solver.py:29 | row i of the scratch array receives the sweep value of each interior cell, computed from the old x and x0; other rows are unchanged |
| Solver.SweepValues | src/solver.py:29 | a fresh array holds the sweep value of every interior cell: the right-hand side the array library evaluates before assigning |
| Solver.CopyInterior | src/solver.py:29 | copying the scratch interior into x changes exactly the interior cells |
| Solver.SweepIs | src/solver.py:29 | a grid with x's ghosts and the sweep values inside is `Relax.Sweep` |
| Solver.Sweep | src/solver.py:29 | the whole-slice assignment changes x into `Relax.Sweep` of its old contents (Jacobi) |
| Solver.LinSolve | src/solver.py:27-30 | after the 20 sweeps, each followed by `set_bnd`, x equals `Relax.LinSolve` of its old contents; only x is written |
| Relax.AddSource | src/solver.py:33-35 | every cell of the full (N+2)×(N+2) grid, ghosts included, becomes x[i,j] + dt·s[i,j] |
| Relax.AddSourceTwice | src/solver.py:33-35 | adding a source over dt1 and then dt2 is adding it over dt1 + dt2 |
| Relax.AddSourceNothing | src/solver.py:33-35 | a zero source or a zero dt leaves x unchanged |
| Solver.AddSource | src/solver.py:33-35 | x becomes `Relax.AddSource` of old x and old s, also when s is x itself; only x is written |
| Relax.DiffusionRate | src/solver.py:43 | no contract of its own; defines a = dt·diff·N·N |
| Relax.Diffuse | src/solver.py:38-44 | shape only; the body is `Relax.LinSolve` with a = `DiffusionRate` and c = 1 + 4a, starting from x |
| Relax.DiffuseWalls | src/solver.py:38-44 | after `diffuse` the ghosts of x obey the wall rules for b |
| Relax.DiffuseStill | src/solver.py:38-44 | with diff = 0 the system is solvable and `diffuse` gives `set_bnd` of x0 |
| Relax.DiffuseZero | src/solver.py:38-44 | diffusing all zeros from all zeros gives all zeros |
| Solver.Diffuse | src/solver.py:38-44 | x becomes `lin_solve` with a = dt·diff·N·N and c = 1 + 4a |
| Advection.Int | src/solver.py:58 | `int()` truncates toward zero: for x ≥ 0 the result is the floor of x, for x < 0 the ceiling |
| Advection.Clamp | src/solver.py:56-60 | after the clamps the coordinate lies in [0.5, N+0.5]; it is unchanged when already inside, and otherwise the nearer bound |
| Advection.Split | src/solver.py:58-62 | for a clamped coordinate, 0 ≤ i0 ≤ N and i1 = i0 + 1 ≤ N+1; s0 and s1 lie in [0,1] with s0 + s1 = 1, and i0 + s1 is the coordinate |
| Advection.Trace | src/solver.py:52-60 | both back-traced and clamped coordinates lie in [0.5, N+0.5] |
| Advection.Bilinear | src/solver.py:62-63 | no contract of its own; defines s0·(t0·d0[i0,j0] + t1·d0[i0,j1]) + s1·(t0·d0[i1,j0] + t1·d0[i1,j1]) for the lines and weights of two `Split`s (bounds proved in `Advection.BilinearBetween`) |
| Advection.AdvectCell | src/solver.py:55-63 | no contract of its own; defines the new value of interior cell (i, j) as `Bilinear` at the `Split`s of its clamped back-traced `Trace` (bounds in `Advection.AdvectCellBetween`, zero velocity in `Advection.AdvectCellStill`) |
| Advection.AdvectCellIs | src/solver.py:55-63 | the interpolation formula, applied to the lines and weights from the clamped trace, is `Advection.AdvectCell` of the cell |
| Advection.Advect | src/solver.py:47-64 | every interior cell of d gets the bilinear sample of d0 at its clamped back-traced position |
| Advection.AdvectInterior | src/solver.py:53-63 | the double loop writes every interior cell of d with its sample and leaves the ghosts as they were |
| Advection.AdvectWalls | src/solver.py:64 | after `advect` the ghosts of d obey the wall rules for b |
| Advection.BilinearBetween | src/solver.py:62-63 | a bilinear sample with convex weights lies between the minimum and the maximum of its four sampled values |
| Advection.AdvectCellBetween | src/solver.py:55-63 | each new interior value lies between the minimum and the maximum of the four d0 values it is read from |
| Advection.AdvectBounded | src/solver.py:47-64 | if every value of d0 lies in [lo, hi], so does every new interior value of d |
| Advection.AdvectCellStill | src/solver.py:55-63 | with zero velocity at (i, j) the new value is d0[i][j] |
| Advection.AdvectStill | src/solver.py:47-64 | with u and v zero on the interior, d becomes `set_bnd` of d0, so its interior equals the interior of d0 |
| Advection.AdvectIgnoresTarget | src/solver.py:47-64 | the old contents of d do not affect the result |
| Advection.AdvectZero | src/solver.py:47-64 | an all-zero d0 gives an all-zero d, whatever the velocity |
| Solver.ClampSplit | src/solver.py:56-62 | the clamps, `int()` and the weights of one coordinate give `Advection.Split` of the clamped coordinate |
| Solver.AdvectAt | src/solver.py:55-63 | the loop body computes `Advection.AdvectCell` at interior cell (i, j); all four reads of d0 are in range |
| Solver.AdvectRow | src/solver.py:54-63 | the inner loop writes row i of the interior of d with the new values and changes nothing else |
| Solver.AdvectInteriorIs | src/solver.py:53-63 | a grid with d's ghosts and the new values inside is `Advection.AdvectInterior` |
| Solver.Advect | src/solver.py:47-64 | d becomes `Advection.Advect` of the old d and the current d0, u and v; only d is written |
| Projection.Spacing | src/solver.py:67 | h = 1/N is positive |
| Projection.DivCell | src/solver.py:68 | no contract of its own; defines the divergence of an interior cell as -0.5·h·(u[i+1,j] − u[i−1,j] + v[i,j+1] − v[i,j−1]) |
| Projection.DivInterior | src/solver.py:68 | the slice assignment gives every interior cell of div its value -0.5·h·(central differences of u and v) and keeps the ghosts |
| Projection.Divergence | src/solver.py:68-70 | after `set_bnd(N, 0, div)` the interior of div still holds -0.5·h·(central differences) |
| Projection.PressureCleared | src/solver.py:69 | `p[1:N+1,1:N+1] = 0` zeroes the interior of p |
| Projection.GradCellU | src/solver.py:73 | no contract of its own; defines the corrected u of an interior cell as u[i,j] − 0.5·(p[i+1,j] − p[i−1,j])/h |
| Projection.GradCellV | src/solver.py:74 | no contract of its own; defines the corrected v of an interior cell as v[i,j] − 0.5·(p[i,j+1] − p[i,j−1])/h |
| Projection.SubtractGradU | src/solver.py:73 | the slice update gives every interior cell of u its value u − 0.5·(p[i+1,j] − p[i−1,j])/h |
| Projection.SubtractGradV | src/solver.py:74 | the slice update gives every interior cell of v its value v − 0.5·(p[i,j+1] − p[i,j−1])/h |
| Projection.Project | src/solver.py:66-76 | shape only; the body computes div as `Divergence`, p as `LinSolve(N, 0, ·, div, 1, 4)` from `set_bnd` of the cleared p, and u and v as `set_bnd` (tags 1 and 2) of their gradient subtraction with that p. Its properties are the `Project*` lemmas below |
| Projection.ProjectWalls | src/solver.py:66-76 | after `project`, u obeys the tag 1 wall rules, v the tag 2 rules, and p and div the tag 0 rules |
| Projection.PressureStartsAtZero | src/solver.py:69-71 | zeroing the interior of p and applying `set_bnd(N, 0, p)` gives the all-zero grid, whatever p held |
| Projection.ProjectDivergence | src/solver.py:67-70 | div ends with -0.5·h·(u[i+1,j] − u[i−1,j] + v[i,j+1] − v[i,j−1]) in every interior cell, taken from the incoming u and v |
| Projection.ProjectPressure | src/solver.py:69-72 | p ends as `lin_solve(N, 0, ·, div, 1, 4)` started from the all-zero grid |
| Projection.GradientStepU | src/solver.py:73-75 | the gradient update of u followed by `set_bnd(N, 1, u)` subtracts 0.5·(central difference of p along i)/h from every interior cell |
| Projection.GradientStepV | src/solver.py:74-76 | the gradient update of v followed by `set_bnd(N, 2, v)` subtracts 0.5·(central difference of p along j)/h from every interior cell |
| Projection.ProjectGradientU | src/solver.py:72-75 | the final u is the incoming u minus 0.5·(central difference along i of the final p)/h on the interior |
| Projection.ProjectGradientV | src/solver.py:72-76 | the final v is the incoming v minus 0.5·(central difference along j of the final p)/h on the interior |
| Projection.GradientScale | src/solver.py:73-74 | dividing by h = 1/N multiplies by N |
| Projection.ScaledStep | src/solver.py:73-74 | a new value x0 − 0.5·dp/h equals x0 − 0.5·N·dp |
| Projection.ScaledGradientU | src/solver.py:73-75 | the gradient update of u followed by `set_bnd(N, 1, u)` subtracts 0.5·N·(central difference of p along i) from every interior cell |
| Projection.ScaledGradientV | src/solver.py:74-76 | the gradient update of v followed by `set_bnd(N, 2, v)` subtracts 0.5·N·(central difference of p along j) from every interior cell |
| Projection.ProjectScaledGradientU | src/solver.py:72-75 | the final u is the incoming u minus 0.5·N·(p[i+1,j] − p[i−1,j]) of the final p on the interior |
| Projection.ProjectScaledGradientV | src/solver.py:72-76 | the final v is the incoming v minus 0.5·N·(p[i,j+1] − p[i,j−1]) of the final p on the interior |
| Projection.ProjectIgnoresScratch | src/solver.py:66-76 | the old contents of p and div do not affect any output of `project` |
| Projection.GradCellZero | src/solver.py:73-74 | with zero velocity at a cell and zero pressure around it, the cell's velocity stays zero |
| Projection.ProjectZero | src/solver.py:66-76 | if u and v start all zero, then u, v, p and div all end all zero |
| Solver.DivAt | src/solver.py:68 | the right-hand side of the div assignment at (i, j) is `Projection.DivCell` |
| Solver.DivRow | src/solver.py:68 | row i of div's interior receives its divergence values, and nothing else changes |
| Solver.DivInteriorIs | src/solver.py:68 | a grid with div's ghosts and the divergence values inside is `Projection.DivInterior` |
| Solver.DivergenceInterior | src/solver.py:68 | div becomes `Projection.DivInterior` of u, v and the old div |
| Solver.ClearedIs | src/solver.py:69 | a grid with p's ghosts and a zero interior is `Projection.PressureCleared` |
| Solver.ClearInterior | src/solver.py:69 | p becomes `Projection.PressureCleared` of its old contents |
| Solver.GradAtU | src/solver.py:73 | the update of u at (i, j) is `Projection.GradCellU`, from the value u had before the update |
| Solver.GradAtV | src/solver.py:74 | the update of v at (i, j) is `Projection.GradCellV`, from the value v had before the update |
| Solver.GradRowU | src/solver.py:73 | row i of u's interior receives its gradient-corrected values, and nothing else changes |
| Solver.GradRowV | src/solver.py:74 | row i of v's interior receives its gradient-corrected values, and nothing else changes |
| Solver.SubtractGradUIs | src/solver.py:73 | a grid with u's ghosts and the corrected values inside is `Projection.SubtractGradU` |
| Solver.SubtractGradVIs | src/solver.py:74 | a grid with v's ghosts and the corrected values inside is `Projection.SubtractGradV` |
| Solver.SubtractGradientU | src/solver.py:73 | u becomes `Projection.SubtractGradU` of old u and the current p |
| Solver.SubtractGradientV | src/solver.py:74 | v becomes `Projection.SubtractGradV` of old v and the current p |
| Solver.Project | src/solver.py:66-76 | u, v, p and div become the four fields of `Projection.Project` of their old contents |
| Steps.DensStep | src/solver.py:79-84 | shape only; the body gives x0 the `Diffuse` (tag 0) of x + dt·x0 and x the `Advect` (tag 0) of that diffused grid by (u, v). Its properties are the `DensStep*` lemmas below |
| Steps.DensStepWalls | src/solver.py:79-84 | both density buffers end with the tag 0 wall rules |
| Steps.DensStepAdvectsScratch | src/solver.py:79-84 | the caller's x ends as the advection by (u, v) of what the caller's x0 ends holding: the diffused intermediate |
| Steps.DensStepStill | src/solver.py:79-84 | with diff = 0 and zero interior velocity, every interior cell of x becomes old x + dt·old x0 |
| Steps.DensStepSpike | src/solver.py:79-84 | N = 4, a single source of 100 at (2, 2), dt = 0.1, no diffusion and no velocity: x[2][2] ends as 10 and every other interior cell as 0 |
| Steps.DensStepZero | src/solver.py:79-84 | all-zero density and source stay all zero, whatever the velocity |
| Steps.VelMoved | src/solver.py:87-98 | shape only; the body adds the forces, diffuses into u0 (tag 1) and v0 (tag 2), projects there with u and v as scratch, and advects the projected field by itself into u (tag 1) and v (tag 2) |
| Steps.Settle | src/solver.py:99 | shape only; the body is `Projection.Project` of (u, v, u0, v0), with the pressure landing in u0 and the divergence in v0 |
| Steps.VelStep | src/solver.py:87-99 | shape only; the body is `Settle` of `VelMoved`. Its properties are the `VelStep*` lemmas below |
| Steps.SettleGradientU | src/solver.py:99 | the final projection subtracts 0.5·(central difference along i of the pressure left in u0)/h from u |
| Steps.SettleGradientV | src/solver.py:99 | the final projection subtracts 0.5·(central difference along j of the pressure left in u0)/h from v |
| Steps.VelStepWalls | src/solver.py:87-99 | after `vel_step`, u and v obey the tag 1 and tag 2 wall rules, and u0 and v0 the tag 0 rules |
| Steps.VelStepPressure | src/solver.py:87-99 | the caller's u0 ends with the pressure: the 20-sweep Poisson solve from zero whose right-hand side is the caller's final v0 |
| Steps.VelStepDivergence | src/solver.py:87-99 | the caller's v0 ends with the divergence of the advected field held in u and v before the final projection |
| Steps.VelStepGradientU | src/solver.py:87-99 | the caller's final u is the advected u minus the pressure gradient along i taken from the final u0 |
| Steps.VelStepGradientV | src/solver.py:87-99 | the caller's final v is the advected v minus the pressure gradient along j taken from the final u0 |
| Steps.VelStepZero | src/solver.py:87-99 | an all-zero velocity and force field stays all zero in all four buffers |
| Solver.DensStep | src/solver.py:79-84 | through the local swaps, the caller's x ends with the advected density and the caller's x0 with the diffused intermediate, as `Steps.DensStep` states |
| Solver.VelStep | src/solver.py:87-99 | through the local swaps, the caller's u and v end with the new velocity and the caller's u0 and v0 with the final pressure and divergence, as `Steps.VelStep` states |

## Left out

- `src/demo.py` is not part of this model: GLUT and OpenGL set-up, drawing, input callbacks and globals. Its `clear_data` only zero-fills grids.
- Floating point: all values are `real`. Nothing is claimed about IEEE rounding, overflow, inf or NaN.
- Convergence: nothing is claimed about how well 20 sweeps solve the system, or about how much `project` reduces the divergence. The code does not promise either.
- Physical interpretation: incompressibility and conservation are not modelled.
- Relax.LinSolve: requires c ≠ 0, because `real` division by zero is undefined in Dafny. With c = 0, the array library would produce inf or NaN.
- Solver.LinSolve: requires c ≠ 0, for the same reason.
- Relax.Diffuse: requires 1 + 4a ≠ 0 (`Relax.CanDiffuse`), for the same reason.
- Solver.Diffuse: requires 1 + 4a ≠ 0, for the same reason.
- Steps.DensStep: requires 1 + 4a ≠ 0 for the diffusion rate of `diff`, for the same reason.
- Steps.VelMoved: requires 1 + 4a ≠ 0 for the diffusion rate of `visc`, for the same reason.
- Steps.VelStep: requires 1 + 4a ≠ 0 for the diffusion rate of `visc`, for the same reason.
- Solver.DensStep: requires 1 + 4a ≠ 0, for the same reason.
- Solver.VelStep: requires 1 + 4a ≠ 0, for the same reason.
- Solver.Advect: requires d to be distinct from d0, u and v. The source's callers always pass such buffers. Writes through aliased arrays are not modelled.
- Solver.Project: requires four distinct arrays, as `vel_step` passes them.
- Solver.AdvectAt: computes the back-traced coordinate with `Advection.Back` and the bilinear sum with nested `Advection.Lerp` calls. These are the source's formulas, written as two small functions.
- Solver.Sweep: evaluates the right-hand side into a fresh scratch array before updating the interior. This is how the array library evaluates the slice assignment; the temporary's allocation is otherwise not modelled.
- Array shape: every array is (N+2)×(N+2) with N ≥ 1, as the demo allocates them. Other shapes are outside the model.
