/** `advect` on grid values: semi-Lagrangian transport. Each interior cell is
    traced back along the velocity, the position is clamped into
    [0.5, N + 0.5] on both axes, and d0 is sampled there by bilinear
    interpolation; `set_bnd` then rewrites the ghosts. */
module Advection {
  import opened Grids
  import opened Boundary

  /** Python's int() on a float: truncation toward zero. */
  function Int(x: real): (k: int)
    ensures x >= 0.0 ==> k as real <= x < k as real + 1.0
    ensures x < 0.0 ==> k as real - 1.0 < x <= k as real
  {
    if x >= 0.0 then x.Floor else -((-x).Floor)
  }

  /** The two clamping statements of `advect` for one coordinate. */
  function Clamp(n: int, x: real): (r: real)
    requires n >= 1
    ensures 0.5 <= r <= n as real + 0.5
    ensures 0.5 <= x <= n as real + 0.5 ==> r == x
    ensures x < 0.5 ==> r == 0.5
    ensures x > n as real + 0.5 ==> r == n as real + 0.5
  {
    var lo := if x < 0.5 then 0.5 else x;
    if lo > n as real + 0.5 then n as real + 0.5 else lo
  }

  /** The two grid lines around a sample coordinate and their weights:
      `i0`, `i1` and `s0`, `s1` of `advect` (or `j0`, `j1`, `t0`, `t1`). */
  datatype Axis = Axis(lo: int, hi: int, wlo: real, whi: real)

  /** Splits a clamped coordinate into its grid lines and weights. Both lines
      are valid grid indices, the weights are a convex pair, and they
      reproduce the coordinate. */
  function Split(n: int, x: real): (w: Axis)
    requires n >= 1 && 0.5 <= x <= n as real + 0.5
    ensures 0 <= w.lo <= n && w.hi == w.lo + 1 && 1 <= w.hi <= n + 1
    ensures 0.0 <= w.wlo <= 1.0 && 0.0 <= w.whi <= 1.0 && w.wlo + w.whi == 1.0
    ensures w.lo as real + w.whi == x
  {
    var i0 := Int(x);
    var s1 := x - i0 as real;
    Axis(i0, i0 + 1, 1.0 - s1, s1)
  }

  /** Coordinate k moved back by dt0 times the velocity w. */
  function Back(k: int, dt0: real, w: real): real
  {
    k as real - dt0 * w
  }

  /** The back-traced position of interior cell (i, j), after clamping;
      dt0 is dt * N. */
  function Trace(n: int, u: Grid, v: Grid, dt: real, i: int, j: int): (p: (real, real))
    requires IsGrid(n, u) && IsGrid(n, v) && IsInterior(n, i, j)
    ensures 0.5 <= p.0 <= n as real + 0.5 && 0.5 <= p.1 <= n as real + 0.5
  {
    var dt0 := dt * n as real;
    (Clamp(n, Back(i, dt0, u[i][j])), Clamp(n, Back(j, dt0, v[i][j])))
  }

  /** The four sampled lines are inside the grid. */
  ghost predicate InRange(n: int, wx: Axis, wy: Axis)
  {
    0 <= wx.lo && wx.hi < n + 2 && 0 <= wy.lo && wy.hi < n + 2
  }

  /** Linear interpolation with weights w0 (for p) and w1 (for q). */
  function Lerp(w0: real, w1: real, p: real, q: real): real
  {
    w0 * p + w1 * q
  }

  /** Bilinear interpolation of d0 at the sample described by wx and wy:
      s0*(t0*d0[i0,j0] + t1*d0[i0,j1]) + s1*(t0*d0[i1,j0] + t1*d0[i1,j1]). */
  function Bilinear(n: int, wx: Axis, wy: Axis, d0: Grid): real
    requires IsGrid(n, d0) && InRange(n, wx, wy) && wx.lo <= wx.hi && wy.lo <= wy.hi
  {
    Lerp(wx.wlo, wx.whi,
         Lerp(wy.wlo, wy.whi, d0[wx.lo][wy.lo], d0[wx.lo][wy.hi]),
         Lerp(wy.wlo, wy.whi, d0[wx.hi][wy.lo], d0[wx.hi][wy.hi]))
  }

  /** The new value of interior cell (i, j). */
  function AdvectCell(n: int, d0: Grid, u: Grid, v: Grid, dt: real, i: int, j: int): real
    requires IsGrid(n, d0) && IsGrid(n, u) && IsGrid(n, v) && IsInterior(n, i, j)
  {
    var p := Trace(n, u, v, dt, i, j);
    Bilinear(n, Split(n, p.0), Split(n, p.1), d0)
  }

  /** AdvectCell from the grid lines and weights of the two clamped
      coordinates and the four sampled values, with the interpolation written
      out as `advect` computes it. */
  lemma AdvectCellIs(n: int, d0: Grid, u: Grid, v: Grid, dt: real, i: int, j: int,
                     i0: int, i1: int, s0: real, s1: real, j0: int, j1: int, t0: real, t1: real,
                     a00: real, a01: real, a10: real, a11: real)
    requires IsGrid(n, d0) && IsGrid(n, u) && IsGrid(n, v) && IsInterior(n, i, j)
    requires Axis(i0, i1, s0, s1) == Split(n, Trace(n, u, v, dt, i, j).0)
    requires Axis(j0, j1, t0, t1) == Split(n, Trace(n, u, v, dt, i, j).1)
    requires a00 == d0[i0][j0] && a01 == d0[i0][j1] && a10 == d0[i1][j0] && a11 == d0[i1][j1]
    ensures Lerp(s0, s1, Lerp(t0, t1, a00, a01), Lerp(t0, t1, a10, a11)) == AdvectCell(n, d0, u, v, dt, i, j)
  {
    assert AdvectCell(n, d0, u, v, dt, i, j) == Bilinear(n, Axis(i0, i1, s0, s1), Axis(j0, j1, t0, t1), d0);
  }

  /** `advect(N, b, d, d0, u, v, dt)`: the value of d afterwards. The interior
      holds the interpolated samples and the ghosts obey the rules for `b`. */
  function Advect(n: int, b: int, d: Grid, d0: Grid, u: Grid, v: Grid, dt: real): (r: Grid)
    requires IsGrid(n, d) && IsGrid(n, d0) && IsGrid(n, u) && IsGrid(n, v)
    ensures IsGrid(n, r)
    ensures forall i, j :: IsInterior(n, i, j) ==> r[i][j] == AdvectCell(n, d0, u, v, dt, i, j)
  {
    SetBnd(n, b, AdvectInterior(n, d, d0, u, v, dt))
  }

  /** After `advect` the ghosts of d obey the wall rules for `b`. */
  lemma AdvectWalls(n: int, b: int, d: Grid, d0: Grid, u: Grid, v: Grid, dt: real)
    requires IsGrid(n, d) && IsGrid(n, d0) && IsGrid(n, u) && IsGrid(n, v)
    ensures WallsHold(n, b, Advect(n, b, d, d0, u, v, dt))
  {
    SetBndWalls(n, b, AdvectInterior(n, d, d0, u, v, dt));
  }

  /** d after the loop of `advect` and before its `set_bnd` call. */
  function AdvectInterior(n: int, d: Grid, d0: Grid, u: Grid, v: Grid, dt: real): (r: Grid)
    requires IsGrid(n, d) && IsGrid(n, d0) && IsGrid(n, u) && IsGrid(n, v)
    ensures IsGrid(n, r)
    ensures forall i, j :: IsInterior(n, i, j) ==> r[i][j] == AdvectCell(n, d0, u, v, dt, i, j)
  {
    seq(n + 2, i requires 0 <= i < n + 2 =>
      seq(n + 2, j requires 0 <= j < n + 2 =>
        if IsInterior(n, i, j) then AdvectCell(n, d0, u, v, dt, i, j) else d[i][j]))
  }

  function Min(x: real, y: real): real { if x <= y then x else y }
  function Max(x: real, y: real): real { if x <= y then y else x }

  /** The product of two non-negative reals is non-negative. */
  lemma MulNonNegative(x: real, y: real)
    requires 0.0 <= x && 0.0 <= y
    ensures 0.0 <= x * y
  {
  }

  /** A convex combination of two values lies between them. */
  lemma Between(w0: real, w1: real, p: real, q: real, lo: real, hi: real)
    requires 0.0 <= w0 && 0.0 <= w1 && w0 + w1 == 1.0
    requires lo <= p <= hi && lo <= q <= hi
    ensures lo <= Lerp(w0, w1, p, q) <= hi
  {
    MulNonNegative(w0, p - lo);
    MulNonNegative(w1, q - lo);
    MulNonNegative(w0, hi - p);
    MulNonNegative(w1, hi - q);
    assert w0 * (p - lo) + w1 * (q - lo) == w0 * p + w1 * q - (w0 + w1) * lo;
    assert w0 * (hi - p) + w1 * (hi - q) == (w0 + w1) * hi - (w0 * p + w1 * q);
  }

  /** The interpolated value lies between the smallest and the largest of the
      four sampled values of d0. */
  lemma {:induction false} BilinearBetween(n: int, wx: Axis, wy: Axis, d0: Grid)
    requires IsGrid(n, d0) && InRange(n, wx, wy) && wx.lo <= wx.hi && wy.lo <= wy.hi
    requires 0.0 <= wx.wlo && 0.0 <= wx.whi && wx.wlo + wx.whi == 1.0
    requires 0.0 <= wy.wlo && 0.0 <= wy.whi && wy.wlo + wy.whi == 1.0
    ensures Min(Min(d0[wx.lo][wy.lo], d0[wx.lo][wy.hi]), Min(d0[wx.hi][wy.lo], d0[wx.hi][wy.hi]))
            <= Bilinear(n, wx, wy, d0) <=
            Max(Max(d0[wx.lo][wy.lo], d0[wx.lo][wy.hi]), Max(d0[wx.hi][wy.lo], d0[wx.hi][wy.hi]))
  {
    var a, b, c, e := d0[wx.lo][wy.lo], d0[wx.lo][wy.hi], d0[wx.hi][wy.lo], d0[wx.hi][wy.hi];
    var lo, hi := Min(Min(a, b), Min(c, e)), Max(Max(a, b), Max(c, e));
    assert lo <= a <= hi && lo <= b <= hi && lo <= c <= hi && lo <= e <= hi;
    Between(wy.wlo, wy.whi, a, b, lo, hi);
    Between(wy.wlo, wy.whi, c, e, lo, hi);
    Between(wx.wlo, wx.whi, Lerp(wy.wlo, wy.whi, a, b), Lerp(wy.wlo, wy.whi, c, e), lo, hi);
  }

  /** Each new interior value lies between the minimum and the maximum of the
      four values of d0 it is interpolated from. */
  lemma AdvectCellBetween(n: int, d0: Grid, u: Grid, v: Grid, dt: real, i: int, j: int)
    requires IsGrid(n, d0) && IsGrid(n, u) && IsGrid(n, v) && IsInterior(n, i, j)
    ensures var p := Trace(n, u, v, dt, i, j);
            var wx, wy := Split(n, p.0), Split(n, p.1);
            Min(Min(d0[wx.lo][wy.lo], d0[wx.lo][wy.hi]), Min(d0[wx.hi][wy.lo], d0[wx.hi][wy.hi]))
            <= AdvectCell(n, d0, u, v, dt, i, j) <=
            Max(Max(d0[wx.lo][wy.lo], d0[wx.lo][wy.hi]), Max(d0[wx.hi][wy.lo], d0[wx.hi][wy.hi]))
  {
    var p := Trace(n, u, v, dt, i, j);
    BilinearBetween(n, Split(n, p.0), Split(n, p.1), d0);
  }

  /** If every value of d0 lies in [lo, hi], so does every new interior value
      of d. */
  lemma AdvectBounded(n: int, b: int, d: Grid, d0: Grid, u: Grid, v: Grid, dt: real, lo: real, hi: real)
    requires IsGrid(n, d) && IsGrid(n, d0) && IsGrid(n, u) && IsGrid(n, v)
    requires forall i, j :: 0 <= i < n + 2 && 0 <= j < n + 2 ==> lo <= d0[i][j] <= hi
    ensures forall i, j :: IsInterior(n, i, j) ==> lo <= Advect(n, b, d, d0, u, v, dt)[i][j] <= hi
  {
    forall i, j | IsInterior(n, i, j)
      ensures lo <= AdvectCell(n, d0, u, v, dt, i, j) <= hi
    {
      AdvectCellBetween(n, d0, u, v, dt, i, j);
    }
  }

  /** With zero velocity at (i, j) the trace stays at the cell centre and the
      sample is d0[i][j] itself. */
  lemma AdvectCellStill(n: int, d0: Grid, u: Grid, v: Grid, dt: real, i: int, j: int)
    requires IsGrid(n, d0) && IsGrid(n, u) && IsGrid(n, v) && IsInterior(n, i, j)
    requires u[i][j] == 0.0 && v[i][j] == 0.0
    ensures AdvectCell(n, d0, u, v, dt, i, j) == d0[i][j]
  {
    var p := Trace(n, u, v, dt, i, j);
    assert p == (i as real, j as real);
    var wx, wy := Split(n, p.0), Split(n, p.1);
    assert wx == Axis(i, i + 1, 1.0, 0.0);
    assert wy == Axis(j, j + 1, 1.0, 0.0);
  }

  /** With u and v zero on the interior, `advect` gives `set_bnd` of d0: the
      interior of d becomes exactly the interior of d0. */
  lemma AdvectStill(n: int, b: int, d: Grid, d0: Grid, u: Grid, v: Grid, dt: real)
    requires IsGrid(n, d) && IsGrid(n, d0) && IsGrid(n, u) && IsGrid(n, v)
    requires IsZeroInside(n, u) && IsZeroInside(n, v)
    ensures Advect(n, b, d, d0, u, v, dt) == SetBnd(n, b, d0)
    ensures SameInterior(n, Advect(n, b, d, d0, u, v, dt), d0)
  {
    var m := AdvectInterior(n, d, d0, u, v, dt);
    forall i, j | IsInterior(n, i, j)
      ensures m[i][j] == d0[i][j]
    {
      AdvectCellStill(n, d0, u, v, dt, i, j);
    }
    SetBndInteriorOnly(n, b, m, d0);
  }

  /** The old contents of d do not matter: only d0, u and v are read. */
  lemma AdvectIgnoresTarget(n: int, b: int, d1: Grid, d2: Grid, d0: Grid, u: Grid, v: Grid, dt: real)
    requires IsGrid(n, d1) && IsGrid(n, d2) && IsGrid(n, d0) && IsGrid(n, u) && IsGrid(n, v)
    ensures Advect(n, b, d1, d0, u, v, dt) == Advect(n, b, d2, d0, u, v, dt)
  {
    SetBndInteriorOnly(n, b, AdvectInterior(n, d1, d0, u, v, dt), AdvectInterior(n, d2, d0, u, v, dt));
  }

  /** Advecting an all-zero field gives an all-zero field, whatever the
      velocity. */
  lemma AdvectZero(n: int, b: int, d: Grid, d0: Grid, u: Grid, v: Grid, dt: real)
    requires IsGrid(n, d) && IsGrid(n, d0) && IsGrid(n, u) && IsGrid(n, v) && IsZero(n, d0)
    ensures Advect(n, b, d, d0, u, v, dt) == Zero(n)
  {
    var m := AdvectInterior(n, d, d0, u, v, dt);
    forall i, j | IsInterior(n, i, j)
      ensures m[i][j] == 0.0
    {
      AdvectCellBetween(n, d0, u, v, dt, i, j);
    }
    SetBndZero(n, b, m);
  }
}
