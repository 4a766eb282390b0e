/** The routines of the solver working in place on (N+2)x(N+2) arrays, each
    proved to leave its arrays holding what the matching function on grid
    values computes. */
module Solver {
  import opened Grids
  import Boundary
  import Relax
  import Advection
  import Projection
  import Steps

  /** Wall cell (r, s) has been written by the first i - 1 iterations of the
      `set_bnd` loop. */
  ghost predicate WallDone(n: int, i: int, r: int, s: int)
  {
    ((r == 0 || r == n + 1) && 1 <= s < i) || ((s == 0 || s == n + 1) && 1 <= r < i)
  }

  /** (r, s) is one of the four wall ghosts of line i. */
  predicate IsWallOf(n: int, i: int, r: int, s: int)
  {
    ((r == 0 || r == n + 1) && s == i) || ((s == 0 || s == n + 1) && r == i)
  }

  /** One iteration of the `set_bnd` loop: the wall ghosts of line i copy,
      or for the normal component negate, the adjacent interior cells. */
  method SetWalls(n: int, b: int, x: array2<real>, i: int)
    requires Fits(n, x) && 1 <= i <= n
    modifies x
    ensures x[0, i] == Boundary.Wall(b == 1, old(x[1, i])) && x[n + 1, i] == Boundary.Wall(b == 1, old(x[n, i]))
    ensures x[i, 0] == Boundary.Wall(b == 2, old(x[i, 1])) && x[i, n + 1] == Boundary.Wall(b == 2, old(x[i, n]))
    ensures forall r, s :: 0 <= r < n + 2 && 0 <= s < n + 2 && !IsWallOf(n, i, r, s) ==> x[r, s] == old(x[r, s])
  {
    x[0, i] := Boundary.Wall(b == 1, x[1, i]);
    x[n + 1, i] := Boundary.Wall(b == 1, x[n, i]);
    x[i, 0] := Boundary.Wall(b == 2, x[i, 1]);
    x[i, n + 1] := Boundary.Wall(b == 2, x[i, n]);
  }

  /** The corner statements of `set_bnd`: each corner becomes the mean of
      its two neighbouring edge ghosts. */
  method SetCorners(n: int, x: array2<real>)
    requires n >= 1 && Fits(n, x)
    modifies x
    ensures x[0, 0] == 0.5 * (old(x[1, 0]) + old(x[0, 1]))
    ensures x[0, n + 1] == 0.5 * (old(x[1, n + 1]) + old(x[0, n]))
    ensures x[n + 1, 0] == 0.5 * (old(x[n, 0]) + old(x[n + 1, 1]))
    ensures x[n + 1, n + 1] == 0.5 * (old(x[n, n + 1]) + old(x[n + 1, n]))
    ensures forall r, s :: 0 <= r < n + 2 && 0 <= s < n + 2 && !Boundary.IsCorner(n, r, s) ==> x[r, s] == old(x[r, s])
  {
    x[0, 0] := 0.5 * (x[1, 0] + x[0, 1]);
    x[0, n + 1] := 0.5 * (x[1, n + 1] + x[0, n]);
    x[n + 1, 0] := 0.5 * (x[n, 0] + x[n + 1, 1]);
    x[n + 1, n + 1] := 0.5 * (x[n, n + 1] + x[n + 1, n]);
  }

  /** `set_bnd(N, b, x)`: the loop writes the four wall ghosts of each line,
      then the corners are averaged. */
  method SetBnd(n: int, b: int, x: array2<real>)
    requires n >= 1 && Fits(n, x)
    modifies x
    ensures Snap(x) == Boundary.SetBnd(n, b, old(Snap(x)))
  {
    ghost var g := Snap(x);
    for i := 1 to n + 1
      invariant forall r, s :: 0 <= r < n + 2 && 0 <= s < n + 2 && !WallDone(n, i, r, s) ==> x[r, s] == g[r][s]
      invariant forall k :: 1 <= k < i ==>
                  x[0, k] == Boundary.Wall(b == 1, g[1][k]) && x[n + 1, k] == Boundary.Wall(b == 1, g[n][k]) &&
                  x[k, 0] == Boundary.Wall(b == 2, g[k][1]) && x[k, n + 1] == Boundary.Wall(b == 2, g[k][n])
    {
      SetWalls(n, b, x, i);
    }
    ghost var w := Snap(x);
    SetCorners(n, x);
    WallsThenCorners(n, b, g, w, Snap(x));
  }

  /** Writing the wall ghosts of g from its interior and then averaging the
      corners, as `set_bnd` does in place, gives SetBnd(n, b, g). */
  lemma WallsThenCorners(n: int, b: int, g: Grid, w: Grid, h: Grid)
    requires IsGrid(n, g) && IsGrid(n, w) && IsGrid(n, h)
    requires forall r, s :: 0 <= r < n + 2 && 0 <= s < n + 2 && !Boundary.IsEdge(n, r, s) ==> w[r][s] == g[r][s]
    requires forall k :: 1 <= k <= n ==>
               w[0][k] == Boundary.Wall(b == 1, g[1][k]) && w[n + 1][k] == Boundary.Wall(b == 1, g[n][k]) &&
               w[k][0] == Boundary.Wall(b == 2, g[k][1]) && w[k][n + 1] == Boundary.Wall(b == 2, g[k][n])
    requires forall r, s :: 0 <= r < n + 2 && 0 <= s < n + 2 && !Boundary.IsCorner(n, r, s) ==> h[r][s] == w[r][s]
    requires h[0][0] == 0.5 * (w[1][0] + w[0][1]) && h[0][n + 1] == 0.5 * (w[1][n + 1] + w[0][n])
    requires h[n + 1][0] == 0.5 * (w[n][0] + w[n + 1][1]) && h[n + 1][n + 1] == 0.5 * (w[n][n + 1] + w[n + 1][n])
    ensures h == Boundary.SetBnd(n, b, g)
  {
    forall k | 1 <= k <= n
      ensures h[0][k] == Boundary.Wall(b == 1, h[1][k]) && h[n + 1][k] == Boundary.Wall(b == 1, h[n][k])
      ensures h[k][0] == Boundary.Wall(b == 2, h[k][1]) && h[k][n + 1] == Boundary.Wall(b == 2, h[k][n])
    {
    }
    Boundary.SetBndUnique(n, b, g, h);
  }

  /** A grid that keeps g's ghosts and holds the swept value in every
      interior cell is the sweep of g. */
  lemma SweepIs(n: int, g: Grid, g0: Grid, a: real, c: real, h: Grid)
    requires IsGrid(n, g) && IsGrid(n, g0) && IsGrid(n, h) && c != 0.0
    requires forall r, s :: IsInterior(n, r, s) ==> h[r][s] == Relax.SweepCell(n, g, g0, a, c, r, s)
    requires forall r, s :: 0 <= r < n + 2 && 0 <= s < n + 2 && !IsInterior(n, r, s) ==> h[r][s] == g[r][s]
    ensures h == Relax.Sweep(n, g, g0, a, c)
  {
    GridExt(n, h, Relax.Sweep(n, g, g0, a, c));
  }

  /** Row i of the right-hand side of the `lin_solve` slice assignment,
      computed from x and x0 into t. */
  method SweepRow(n: int, x: array2<real>, x0: array2<real>, a: real, c: real, t: array2<real>, i: int)
    requires n >= 1 && Fits(n, x) && Fits(n, x0) && Fits(n, t) && c != 0.0 && 1 <= i <= n
    requires t != x && t != x0
    modifies t
    ensures forall s :: 1 <= s <= n ==> t[i, s] == Relax.SweepCell(n, Snap(x), Snap(x0), a, c, i, s)
    ensures forall r, s :: 0 <= r < n + 2 && 0 <= s < n + 2 && r != i ==> t[r, s] == old(t[r, s])
  {
    ghost var g, g0 := Snap(x), Snap(x0);
    for j := 1 to n + 1
      invariant forall s :: 1 <= s < j ==> t[i, s] == Relax.SweepCell(n, g, g0, a, c, i, s)
      invariant forall r, s :: 0 <= r < n + 2 && 0 <= s < n + 2 && r != i ==> t[r, s] == old(t[r, s])
    {
      var nb := x[i - 1, j] + x[i + 1, j] + x[i, j - 1] + x[i, j + 1];
      assert nb == Relax.Neighbours(n, g, i, j);
      t[i, j] := (x0[i, j] + a * nb) / c;
    }
  }

  /** The right-hand side of the `lin_solve` slice assignment, computed
      from the current x into a scratch array. */
  method SweepValues(n: int, x: array2<real>, x0: array2<real>, a: real, c: real) returns (t: array2<real>)
    requires n >= 1 && Fits(n, x) && Fits(n, x0) && c != 0.0
    ensures fresh(t) && Fits(n, t)
    ensures forall r, s :: IsInterior(n, r, s) ==> t[r, s] == Relax.SweepCell(n, Snap(x), Snap(x0), a, c, r, s)
  {
    ghost var g, g0 := Snap(x), Snap(x0);
    t := new real[n + 2, n + 2];
    for i := 1 to n + 1
      modifies t
      invariant forall r, s :: 1 <= r < i && 1 <= s <= n ==> t[r, s] == Relax.SweepCell(n, g, g0, a, c, r, s)
    {
      SweepRow(n, x, x0, a, c, t, i);
    }
  }

  /** Stores the interior of t into x; the ghosts of x are not written. */
  method CopyInterior(n: int, x: array2<real>, t: array2<real>)
    requires n >= 1 && Fits(n, x) && Fits(n, t) && x != t
    modifies x
    ensures forall r, s :: 0 <= r < n + 2 && 0 <= s < n + 2 ==>
              x[r, s] == (if IsInterior(n, r, s) then t[r, s] else old(x[r, s]))
  {
    for i := 1 to n + 1
      modifies x
      invariant forall r, s :: 0 <= r < n + 2 && 0 <= s < n + 2 ==>
                  x[r, s] == (if 1 <= r < i && 1 <= s <= n then t[r, s] else old(x[r, s]))
    {
      for j := 1 to n + 1
        modifies x
        invariant forall r, s :: 0 <= r < n + 2 && 0 <= s < n + 2 ==>
                    x[r, s] == (if (1 <= r < i && 1 <= s <= n) || (r == i && 1 <= s < j) then t[r, s] else old(x[r, s]))
      {
        x[i, j] := t[i, j];
      }
    }
  }

  /** One sweep of `lin_solve`: the whole right-hand side is computed from
      x as it was before the sweep and then stored into the interior of x. */
  method Sweep(n: int, x: array2<real>, x0: array2<real>, a: real, c: real)
    requires n >= 1 && Fits(n, x) && Fits(n, x0) && x != x0 && c != 0.0
    modifies x
    ensures Snap(x) == Relax.Sweep(n, old(Snap(x)), Snap(x0), a, c)
  {
    ghost var g := Snap(x);
    var t := SweepValues(n, x, x0, a, c);
    CopyInterior(n, x, t);
    SweepIs(n, g, Snap(x0), a, c, Snap(x));
  }

  /** `lin_solve(N, b, x, x0, a, c)`: 20 sweeps, each followed by
      `set_bnd(N, b, x)`; x0 is only read. */
  method LinSolve(n: int, b: int, x: array2<real>, x0: array2<real>, a: real, c: real)
    requires n >= 1 && Fits(n, x) && Fits(n, x0) && x != x0 && c != 0.0
    modifies x
    ensures Snap(x) == Relax.LinSolve(n, b, old(Snap(x)), Snap(x0), a, c)
  {
    ghost var g := Snap(x);
    for k := 0 to Relax.Sweeps
      invariant Snap(x) == Relax.Relax(n, b, g, Snap(x0), a, c, k)
    {
      Sweep(n, x, x0, a, c);
      SetBnd(n, b, x);
    }
  }

  /** `add_source(N, x, s, dt)`: every cell of x, ghosts included, gains
      dt * s. x and s may be the same array; otherwise s is only read. */
  method AddSource(n: int, x: array2<real>, s: array2<real>, dt: real)
    requires n >= 1 && Fits(n, x) && Fits(n, s)
    modifies x
    ensures Snap(x) == Relax.AddSource(n, old(Snap(x)), old(Snap(s)), dt)
  {
    ghost var g, h := Snap(x), Snap(s);
    for i := 0 to n + 2
      modifies x
      invariant forall r, q :: 0 <= r < n + 2 && 0 <= q < n + 2 ==>
                  x[r, q] == (if r < i then g[r][q] + dt * h[r][q] else g[r][q])
      invariant forall r, q :: i <= r < n + 2 && 0 <= q < n + 2 ==> s[r, q] == h[r][q]
    {
      for j := 0 to n + 2
        modifies x
        invariant forall r, q :: 0 <= r < n + 2 && 0 <= q < n + 2 ==>
                    x[r, q] == (if r < i || (r == i && q < j) then g[r][q] + dt * h[r][q] else g[r][q])
        invariant forall r, q :: 0 <= r < n + 2 && 0 <= q < n + 2 && (r > i || (r == i && q >= j)) ==> s[r, q] == h[r][q]
      {
        x[i, j] := x[i, j] + dt * s[i, j];
      }
    }
    SnapIs(n, x, Relax.AddSource(n, g, h, dt));
  }

  /** `diffuse(N, b, x, x0, diff, dt)`: `lin_solve` with a = dt*diff*N*N and
      c = 1 + 4a. */
  method Diffuse(n: int, b: int, x: array2<real>, x0: array2<real>, diff: real, dt: real)
    requires n >= 1 && Fits(n, x) && Fits(n, x0) && x != x0 && Relax.CanDiffuse(n, diff, dt)
    modifies x
    ensures Snap(x) == Relax.Diffuse(n, b, old(Snap(x)), Snap(x0), diff, dt)
  {
    var a := dt * diff * (n as real) * (n as real);
    LinSolve(n, b, x, x0, a, 1.0 + 4.0 * a);
  }

  /** One coordinate of `advect`: clamp it into [0.5, N + 0.5], take the
      grid line below it and the one above, and the two weights. */
  method ClampSplit(n: int, x: real) returns (lo: int, hi: int, wlo: real, whi: real)
    requires n >= 1
    ensures Advection.Axis(lo, hi, wlo, whi) == Advection.Split(n, Advection.Clamp(n, x))
  {
    var c := x;
    if c < 0.5 { c := 0.5; }
    if c > n as real + 0.5 { c := n as real + 0.5; }
    lo := Advection.Int(c);
    hi := lo + 1;
    whi := c - lo as real;
    wlo := 1.0 - whi;
  }

  /** The new value of interior cell (i, j) in `advect`: trace back, clamp
      each coordinate and interpolate d0 bilinearly. All four reads of d0
      are in range. */
  method AdvectAt(n: int, d0: array2<real>, u: array2<real>, v: array2<real>, dt: real, i: int, j: int) returns (val: real)
    requires n >= 1 && Fits(n, d0) && Fits(n, u) && Fits(n, v) && IsInterior(n, i, j)
    ensures val == Advection.AdvectCell(n, Snap(d0), Snap(u), Snap(v), dt, i, j)
  {
    ghost var D0, U, V := Snap(d0), Snap(u), Snap(v);
    var dt0 := dt * n as real;
    var x := Advection.Back(i, dt0, u[i, j]);
    var y := Advection.Back(j, dt0, v[i, j]);
    assert u[i, j] == U[i][j] && v[i, j] == V[i][j];
    var i0, i1, s0, s1 := ClampSplit(n, x);
    var j0, j1, t0, t1 := ClampSplit(n, y);
    assert d0[i0, j0] == D0[i0][j0] && d0[i0, j1] == D0[i0][j1];
    assert d0[i1, j0] == D0[i1][j0] && d0[i1, j1] == D0[i1][j1];
    val := Advection.Lerp(s0, s1, Advection.Lerp(t0, t1, d0[i0, j0], d0[i0, j1]), Advection.Lerp(t0, t1, d0[i1, j0], d0[i1, j1]));
    Advection.AdvectCellIs(n, D0, U, V, dt, i, j, i0, i1, s0, s1, j0, j1, t0, t1,
      d0[i0, j0], d0[i0, j1], d0[i1, j0], d0[i1, j1]);
  }

  /** Row i of the `advect` loop. */
  method AdvectRow(n: int, d: array2<real>, d0: array2<real>, u: array2<real>, v: array2<real>, dt: real, i: int)
    requires n >= 1 && Fits(n, d) && Fits(n, d0) && Fits(n, u) && Fits(n, v) && 1 <= i <= n
    requires d != d0 && d != u && d != v
    modifies d
    ensures forall s :: 1 <= s <= n ==> d[i, s] == Advection.AdvectCell(n, Snap(d0), Snap(u), Snap(v), dt, i, s)
    ensures forall r, s :: 0 <= r < n + 2 && 0 <= s < n + 2 && !(r == i && 1 <= s <= n) ==> d[r, s] == old(d[r, s])
  {
    for j := 1 to n + 1
      invariant forall s :: 1 <= s < j ==> d[i, s] == Advection.AdvectCell(n, Snap(d0), Snap(u), Snap(v), dt, i, s)
      invariant forall r, s :: 0 <= r < n + 2 && 0 <= s < n + 2 && !(r == i && 1 <= s < j) ==> d[r, s] == old(d[r, s])
    {
      var val := AdvectAt(n, d0, u, v, dt, i, j);
      d[i, j] := val;
    }
  }

  /** A grid that keeps d's ghosts and holds the advected value in every
      interior cell is d after the `advect` loop. */
  lemma AdvectInteriorIs(n: int, d: Grid, d0: Grid, u: Grid, v: Grid, dt: real, h: Grid)
    requires IsGrid(n, d) && IsGrid(n, d0) && IsGrid(n, u) && IsGrid(n, v) && IsGrid(n, h)
    requires forall r, s :: IsInterior(n, r, s) ==> h[r][s] == Advection.AdvectCell(n, d0, u, v, dt, r, s)
    requires forall r, s :: 0 <= r < n + 2 && 0 <= s < n + 2 && !IsInterior(n, r, s) ==> h[r][s] == d[r][s]
    ensures h == Advection.AdvectInterior(n, d, d0, u, v, dt)
  {
    GridExt(n, h, Advection.AdvectInterior(n, d, d0, u, v, dt));
  }

  /** `advect(N, b, d, d0, u, v, dt)`: every interior cell of d is
      recomputed from d0, u and v, then `set_bnd(N, b, d)`. Only d is
      written; d0 may be the same array as u or v. */
  method Advect(n: int, b: int, d: array2<real>, d0: array2<real>, u: array2<real>, v: array2<real>, dt: real)
    requires n >= 1 && Fits(n, d) && Fits(n, d0) && Fits(n, u) && Fits(n, v)
    requires d != d0 && d != u && d != v
    modifies d
    ensures Snap(d) == Advection.Advect(n, b, old(Snap(d)), Snap(d0), Snap(u), Snap(v), dt)
  {
    ghost var g := Snap(d);
    for i := 1 to n + 1
      modifies d
      invariant forall r, s :: 1 <= r < i && 1 <= s <= n ==>
                  d[r, s] == Advection.AdvectCell(n, Snap(d0), Snap(u), Snap(v), dt, r, s)
      invariant forall r, s :: 0 <= r < n + 2 && 0 <= s < n + 2 && !(1 <= r < i && 1 <= s <= n) ==> d[r, s] == g[r][s]
    {
      AdvectRow(n, d, d0, u, v, dt, i);
    }
    AdvectInteriorIs(n, g, Snap(d0), Snap(u), Snap(v), dt, Snap(d));
    SetBnd(n, b, d);
  }

  /** Interior cell (i, j) of div in `project`: -0.5 * h * (u[i+1, j] -
      u[i-1, j] + v[i, j+1] - v[i, j-1]). */
  method DivAt(n: int, u: array2<real>, v: array2<real>, h: real, i: int, j: int) returns (val: real)
    requires n >= 1 && Fits(n, u) && Fits(n, v) && IsInterior(n, i, j) && h == Projection.Spacing(n)
    ensures val == Projection.DivCell(n, Snap(u), Snap(v), i, j)
  {
    ghost var U, V := Snap(u), Snap(v);
    assert u[i + 1, j] == U[i + 1][j] && u[i - 1, j] == U[i - 1][j];
    assert v[i, j + 1] == V[i][j + 1] && v[i, j - 1] == V[i][j - 1];
    val := -0.5 * h * (u[i + 1, j] - u[i - 1, j] + v[i, j + 1] - v[i, j - 1]);
  }

  /** Row i of the slice assignment to div in `project`. */
  method DivRow(n: int, u: array2<real>, v: array2<real>, div: array2<real>, h: real, i: int)
    requires n >= 1 && Fits(n, u) && Fits(n, v) && Fits(n, div) && 1 <= i <= n
    requires div != u && div != v && h == Projection.Spacing(n)
    modifies div
    ensures forall s :: 1 <= s <= n ==> div[i, s] == Projection.DivCell(n, Snap(u), Snap(v), i, s)
    ensures forall r, s :: 0 <= r < n + 2 && 0 <= s < n + 2 && !(r == i && 1 <= s <= n) ==> div[r, s] == old(div[r, s])
  {
    for j := 1 to n + 1
      invariant forall s :: 1 <= s < j ==> div[i, s] == Projection.DivCell(n, Snap(u), Snap(v), i, s)
      invariant forall r, s :: 0 <= r < n + 2 && 0 <= s < n + 2 && !(r == i && 1 <= s < j) ==> div[r, s] == old(div[r, s])
    {
      var val := DivAt(n, u, v, h, i, j);
      div[i, j] := val;
    }
  }

  /** A grid that keeps div's ghosts and holds DivCell in every interior cell
      is div after its slice assignment. */
  lemma DivInteriorIs(n: int, u: Grid, v: Grid, div: Grid, h: Grid)
    requires IsGrid(n, u) && IsGrid(n, v) && IsGrid(n, div) && IsGrid(n, h)
    requires forall r, s :: IsInterior(n, r, s) ==> h[r][s] == Projection.DivCell(n, u, v, r, s)
    requires forall r, s :: 0 <= r < n + 2 && 0 <= s < n + 2 && !IsInterior(n, r, s) ==> h[r][s] == div[r][s]
    ensures h == Projection.DivInterior(n, u, v, div)
  {
    GridExt(n, h, Projection.DivInterior(n, u, v, div));
  }

  /** `div[1:N+1, 1:N+1] = -0.5*h*(...)`: the interior of div from the
      central differences of u and v. */
  method DivergenceInterior(n: int, u: array2<real>, v: array2<real>, div: array2<real>, h: real)
    requires n >= 1 && Fits(n, u) && Fits(n, v) && Fits(n, div)
    requires div != u && div != v && h == Projection.Spacing(n)
    modifies div
    ensures Snap(div) == Projection.DivInterior(n, Snap(u), Snap(v), old(Snap(div)))
  {
    ghost var g := Snap(div);
    for i := 1 to n + 1
      modifies div
      invariant forall r, s :: 1 <= r < i && 1 <= s <= n ==> div[r, s] == Projection.DivCell(n, Snap(u), Snap(v), r, s)
      invariant forall r, s :: 0 <= r < n + 2 && 0 <= s < n + 2 && !(1 <= r < i && 1 <= s <= n) ==> div[r, s] == g[r][s]
    {
      DivRow(n, u, v, div, h, i);
    }
    DivInteriorIs(n, Snap(u), Snap(v), g, Snap(div));
  }

  /** A grid that keeps p's ghosts and is zero inside is p after
      `p[1:N+1, 1:N+1] = 0`. */
  lemma ClearedIs(n: int, p: Grid, h: Grid)
    requires IsGrid(n, p) && IsGrid(n, h)
    requires forall r, s :: IsInterior(n, r, s) ==> h[r][s] == 0.0
    requires forall r, s :: 0 <= r < n + 2 && 0 <= s < n + 2 && !IsInterior(n, r, s) ==> h[r][s] == p[r][s]
    ensures h == Projection.PressureCleared(n, p)
  {
    GridExt(n, h, Projection.PressureCleared(n, p));
  }

  /** `p[1:N+1, 1:N+1] = 0`. */
  method ClearInterior(n: int, p: array2<real>)
    requires n >= 1 && Fits(n, p)
    modifies p
    ensures Snap(p) == Projection.PressureCleared(n, old(Snap(p)))
  {
    ghost var g := Snap(p);
    for i := 1 to n + 1
      invariant forall r, s :: 1 <= r < i && 1 <= s <= n ==> p[r, s] == 0.0
      invariant forall r, s :: 0 <= r < n + 2 && 0 <= s < n + 2 && !(1 <= r < i && 1 <= s <= n) ==> p[r, s] == g[r][s]
    {
      for j := 1 to n + 1
        invariant forall r, s :: 1 <= r < i && 1 <= s <= n ==> p[r, s] == 0.0
        invariant forall s :: 1 <= s < j ==> p[i, s] == 0.0
        invariant forall r, s :: 0 <= r < n + 2 && 0 <= s < n + 2 && !(1 <= r < i && 1 <= s <= n) && !(r == i && 1 <= s < j) ==> p[r, s] == g[r][s]
      {
        p[i, j] := 0.0;
      }
    }
    ClearedIs(n, g, Snap(p));
  }

  /** Interior cell (i, j) of u after `u[1:N+1, 1:N+1] -= 0.5*(...)/h`;
      g holds the value of u before the update. */
  method GradAtU(n: int, ghost g: Grid, u: array2<real>, p: array2<real>, h: real, i: int, j: int) returns (val: real)
    requires n >= 1 && IsGrid(n, g) && Fits(n, u) && Fits(n, p) && IsInterior(n, i, j)
    requires g[i][j] == u[i, j] && h == Projection.Spacing(n)
    ensures val == Projection.GradCellU(n, g, Snap(p), i, j)
  {
    ghost var P := Snap(p);
    assert p[i + 1, j] == P[i + 1][j] && p[i - 1, j] == P[i - 1][j];
    val := u[i, j] - 0.5 * (p[i + 1, j] - p[i - 1, j]) / h;
  }

  /** Interior cell (i, j) of v after `v[1:N+1, 1:N+1] -= 0.5*(...)/h`;
      g holds the value of v before the update. */
  method GradAtV(n: int, ghost g: Grid, v: array2<real>, p: array2<real>, h: real, i: int, j: int) returns (val: real)
    requires n >= 1 && IsGrid(n, g) && Fits(n, v) && Fits(n, p) && IsInterior(n, i, j)
    requires g[i][j] == v[i, j] && h == Projection.Spacing(n)
    ensures val == Projection.GradCellV(n, g, Snap(p), i, j)
  {
    ghost var P := Snap(p);
    assert p[i, j + 1] == P[i][j + 1] && p[i, j - 1] == P[i][j - 1];
    val := v[i, j] - 0.5 * (p[i, j + 1] - p[i, j - 1]) / h;
  }

  /** Row i of the gradient update of u. */
  method GradRowU(n: int, ghost g: Grid, u: array2<real>, p: array2<real>, h: real, i: int)
    requires n >= 1 && IsGrid(n, g) && Fits(n, u) && Fits(n, p) && 1 <= i <= n
    requires u != p && h == Projection.Spacing(n)
    requires forall s :: 1 <= s <= n ==> u[i, s] == g[i][s]
    modifies u
    ensures forall s :: 1 <= s <= n ==> u[i, s] == Projection.GradCellU(n, g, Snap(p), i, s)
    ensures forall r, s :: 0 <= r < n + 2 && 0 <= s < n + 2 && !(r == i && 1 <= s <= n) ==> u[r, s] == old(u[r, s])
  {
    for j := 1 to n + 1
      invariant forall s :: 1 <= s < j ==> u[i, s] == Projection.GradCellU(n, g, Snap(p), i, s)
      invariant forall s :: j <= s <= n ==> u[i, s] == g[i][s]
      invariant forall r, s :: 0 <= r < n + 2 && 0 <= s < n + 2 && !(r == i && 1 <= s < j) ==> u[r, s] == old(u[r, s])
    {
      var val := GradAtU(n, g, u, p, h, i, j);
      u[i, j] := val;
    }
  }

  /** Row i of the gradient update of v. */
  method GradRowV(n: int, ghost g: Grid, v: array2<real>, p: array2<real>, h: real, i: int)
    requires n >= 1 && IsGrid(n, g) && Fits(n, v) && Fits(n, p) && 1 <= i <= n
    requires v != p && h == Projection.Spacing(n)
    requires forall s :: 1 <= s <= n ==> v[i, s] == g[i][s]
    modifies v
    ensures forall s :: 1 <= s <= n ==> v[i, s] == Projection.GradCellV(n, g, Snap(p), i, s)
    ensures forall r, s :: 0 <= r < n + 2 && 0 <= s < n + 2 && !(r == i && 1 <= s <= n) ==> v[r, s] == old(v[r, s])
  {
    for j := 1 to n + 1
      invariant forall s :: 1 <= s < j ==> v[i, s] == Projection.GradCellV(n, g, Snap(p), i, s)
      invariant forall s :: j <= s <= n ==> v[i, s] == g[i][s]
      invariant forall r, s :: 0 <= r < n + 2 && 0 <= s < n + 2 && !(r == i && 1 <= s < j) ==> v[r, s] == old(v[r, s])
    {
      var val := GradAtV(n, g, v, p, h, i, j);
      v[i, j] := val;
    }
  }

  /** A grid that keeps u's ghosts and holds GradCellU inside is u after the
      gradient update. */
  lemma SubtractGradUIs(n: int, u: Grid, p: Grid, h: Grid)
    requires IsGrid(n, u) && IsGrid(n, p) && IsGrid(n, h)
    requires forall r, s :: IsInterior(n, r, s) ==> h[r][s] == Projection.GradCellU(n, u, p, r, s)
    requires forall r, s :: 0 <= r < n + 2 && 0 <= s < n + 2 && !IsInterior(n, r, s) ==> h[r][s] == u[r][s]
    ensures h == Projection.SubtractGradU(n, u, p)
  {
    GridExt(n, h, Projection.SubtractGradU(n, u, p));
  }

  /** A grid that keeps v's ghosts and holds GradCellV inside is v after the
      gradient update. */
  lemma SubtractGradVIs(n: int, v: Grid, p: Grid, h: Grid)
    requires IsGrid(n, v) && IsGrid(n, p) && IsGrid(n, h)
    requires forall r, s :: IsInterior(n, r, s) ==> h[r][s] == Projection.GradCellV(n, v, p, r, s)
    requires forall r, s :: 0 <= r < n + 2 && 0 <= s < n + 2 && !IsInterior(n, r, s) ==> h[r][s] == v[r][s]
    ensures h == Projection.SubtractGradV(n, v, p)
  {
    GridExt(n, h, Projection.SubtractGradV(n, v, p));
  }

  /** `u[1:N+1, 1:N+1] -= 0.5*(p[2:N+2, 1:N+1] - p[0:N, 1:N+1])/h`. */
  method SubtractGradientU(n: int, u: array2<real>, p: array2<real>, h: real)
    requires n >= 1 && Fits(n, u) && Fits(n, p) && u != p && h == Projection.Spacing(n)
    modifies u
    ensures Snap(u) == Projection.SubtractGradU(n, old(Snap(u)), Snap(p))
  {
    ghost var g := Snap(u);
    for i := 1 to n + 1
      modifies u
      invariant forall r, s :: 1 <= r < i && 1 <= s <= n ==> u[r, s] == Projection.GradCellU(n, g, Snap(p), r, s)
      invariant forall r, s :: 0 <= r < n + 2 && 0 <= s < n + 2 && !(1 <= r < i && 1 <= s <= n) ==> u[r, s] == g[r][s]
    {
      GradRowU(n, g, u, p, h, i);
    }
    SubtractGradUIs(n, g, Snap(p), Snap(u));
  }

  /** `v[1:N+1, 1:N+1] -= 0.5*(p[1:N+1, 2:N+2] - p[1:N+1, 0:N])/h`. */
  method SubtractGradientV(n: int, v: array2<real>, p: array2<real>, h: real)
    requires n >= 1 && Fits(n, v) && Fits(n, p) && v != p && h == Projection.Spacing(n)
    modifies v
    ensures Snap(v) == Projection.SubtractGradV(n, old(Snap(v)), Snap(p))
  {
    ghost var g := Snap(v);
    for i := 1 to n + 1
      modifies v
      invariant forall r, s :: 1 <= r < i && 1 <= s <= n ==> v[r, s] == Projection.GradCellV(n, g, Snap(p), r, s)
      invariant forall r, s :: 0 <= r < n + 2 && 0 <= s < n + 2 && !(1 <= r < i && 1 <= s <= n) ==> v[r, s] == g[r][s]
    {
      GradRowV(n, g, v, p, h, i);
    }
    SubtractGradVIs(n, g, Snap(p), Snap(v));
  }

  /** `project(N, u, v, p, div)`: div from the divergence of (u, v), p from
      the pressure solve started at zero, then the pressure gradient taken
      out of u and v. The four arrays are distinct. */
  method Project(n: int, u: array2<real>, v: array2<real>, p: array2<real>, div: array2<real>)
    requires n >= 1 && Fits(n, u) && Fits(n, v) && Fits(n, p) && Fits(n, div)
    requires u != v && p != div && p != u && p != v && div != u && div != v
    modifies u, v, p, div
    ensures var r := Projection.Project(n, old(Snap(u)), old(Snap(v)), old(Snap(p)), old(Snap(div)));
            Snap(u) == r.u && Snap(v) == r.v && Snap(p) == r.p && Snap(div) == r.div
  {
    ghost var U, V, P, D := Snap(u), Snap(v), Snap(p), Snap(div);
    var h := 1.0 / n as real;
    DivergenceInterior(n, u, v, div, h);
    ClearInterior(n, p);
    SetBnd(n, 0, div);
    SetBnd(n, 0, p);
    assert Snap(div) == Projection.Divergence(n, U, V, D);
    LinSolve(n, 0, p, div, 1.0, 4.0);
    ghost var pr := Snap(p);
    SubtractGradientU(n, u, p, h);
    SubtractGradientV(n, v, p, h);
    SetBnd(n, 1, u);
    SetBnd(n, 2, v);
    assert Snap(u) == Boundary.SetBnd(n, 1, Projection.SubtractGradU(n, U, pr));
  }

  /** `dens_step(N, x, x0, u, v, diff, dt)`. The two swaps only exchange
      the local names: diffusion writes the caller's x0 from x, and advection
      writes the caller's x from x0. */
  method DensStep(n: int, x: array2<real>, x0: array2<real>, u: array2<real>, v: array2<real>, diff: real, dt: real)
    requires n >= 1 && Fits(n, x) && Fits(n, x0) && Fits(n, u) && Fits(n, v)
    requires x != x0 && x != u && x != v && x0 != u && x0 != v
    requires Relax.CanDiffuse(n, diff, dt)
    modifies x, x0
    ensures var r := Steps.DensStep(n, old(Snap(x)), old(Snap(x0)), Snap(u), Snap(v), diff, dt);
            Snap(x) == r.x && Snap(x0) == r.x0
  {
    var cx, cx0 := x, x0;
    AddSource(n, cx, cx0, dt);
    cx0, cx := cx, cx0;
    Diffuse(n, 0, cx, cx0, diff, dt);
    cx0, cx := cx, cx0;
    Advect(n, 0, cx, cx0, u, v, dt);
  }

  /** `vel_step(N, u, v, u0, v0, visc, dt)`. After the swaps the caller's
      u0 and v0 hold the diffused and projected field (with u and v as
      scratch), u and v receive its self-advection, and the final projection
      leaves the pressure in u0 and the divergence in v0. */
  method VelStep(n: int, u: array2<real>, v: array2<real>, u0: array2<real>, v0: array2<real>, visc: real, dt: real)
    requires n >= 1 && Fits(n, u) && Fits(n, v) && Fits(n, u0) && Fits(n, v0)
    requires u != v && u != u0 && u != v0 && v != u0 && v != v0 && u0 != v0
    requires Relax.CanDiffuse(n, visc, dt)
    modifies u, v, u0, v0
    ensures var r := Steps.VelStep(n, old(Snap(u)), old(Snap(v)), old(Snap(u0)), old(Snap(v0)), visc, dt);
            Snap(u) == r.u && Snap(v) == r.v && Snap(u0) == r.u0 && Snap(v0) == r.v0
  {
    ghost var U, V, U0, V0 := Snap(u), Snap(v), Snap(u0), Snap(v0);
    var cu, cv, cu0, cv0 := u, v, u0, v0;
    AddSource(n, cu, cu0, dt);
    AddSource(n, cv, cv0, dt);
    cu0, cu := cu, cu0;
    Diffuse(n, 1, cu, cu0, visc, dt);
    cv0, cv := cv, cv0;
    Diffuse(n, 2, cv, cv0, visc, dt);
    Project(n, cu, cv, cu0, cv0);
    cu0, cu := cu, cu0;
    cv0, cv := cv, cv0;
    Advect(n, 1, cu, cu0, cu0, cv0, dt);
    Advect(n, 2, cv, cv0, cu0, cv0, dt);
    assert Steps.Velocity(Snap(u), Snap(v), Snap(u0), Snap(v0)) == Steps.VelMoved(n, U, V, U0, V0, visc, dt);
    Project(n, cu, cv, cu0, cv0);
  }
}
