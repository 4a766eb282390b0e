/** `project` on grid values: the divergence of (u, v), a pressure solve
    started from zero, and the subtraction of the pressure gradient. The
    gradient term is divided by the grid spacing h, as the source does. */
module Projection {
  import opened Grids
  import opened Boundary
  import opened Relax

  /** The grid spacing h = 1/N. */
  function Spacing(n: int): (h: real)
    requires n >= 1
    ensures h > 0.0
  {
    1.0 / n as real
  }

  /** Interior divergence: -0.5 * h * (central differences of u and v). */
  function DivCell(n: int, u: Grid, v: Grid, i: int, j: int): real
    requires IsGrid(n, u) && IsGrid(n, v) && IsInterior(n, i, j)
  {
    -0.5 * Spacing(n) * (u[i + 1][j] - u[i - 1][j] + v[i][j + 1] - v[i][j - 1])
  }

  /** div after its slice assignment: interior from u and v, ghosts as before. */
  function DivInterior(n: int, u: Grid, v: Grid, div: Grid): (r: Grid)
    requires IsGrid(n, u) && IsGrid(n, v) && IsGrid(n, div)
    ensures IsGrid(n, r)
    ensures forall i, j :: IsInterior(n, i, j) ==> r[i][j] == DivCell(n, u, v, i, j)
  {
    seq(n + 2, i requires 0 <= i < n + 2 =>
      seq(n + 2, j requires 0 <= j < n + 2 =>
        if IsInterior(n, i, j) then DivCell(n, u, v, i, j) else div[i][j]))
  }

  /** div after `set_bnd(N, 0, div)`. */
  function Divergence(n: int, u: Grid, v: Grid, div: Grid): (r: Grid)
    requires IsGrid(n, u) && IsGrid(n, v) && IsGrid(n, div)
    ensures IsGrid(n, r)
    ensures forall i, j :: IsInterior(n, i, j) ==> r[i][j] == DivCell(n, u, v, i, j)
  {
    SetBnd(n, 0, DivInterior(n, u, v, div))
  }

  /** p with its interior zeroed, its ghosts as before. */
  function PressureCleared(n: int, p: Grid): (r: Grid)
    requires IsGrid(n, p)
    ensures IsGrid(n, r) && IsZeroInside(n, r)
  {
    seq(n + 2, i requires 0 <= i < n + 2 =>
      seq(n + 2, j requires 0 <= j < n + 2 => if IsInterior(n, i, j) then 0.0 else p[i][j]))
  }

  /** The value of u at an interior cell after the gradient subtraction. */
  function GradCellU(n: int, u: Grid, p: Grid, i: int, j: int): real
    requires IsGrid(n, u) && IsGrid(n, p) && IsInterior(n, i, j)
  {
    u[i][j] - 0.5 * (p[i + 1][j] - p[i - 1][j]) / Spacing(n)
  }

  /** The value of v at an interior cell after the gradient subtraction. */
  function GradCellV(n: int, v: Grid, p: Grid, i: int, j: int): real
    requires IsGrid(n, v) && IsGrid(n, p) && IsInterior(n, i, j)
  {
    v[i][j] - 0.5 * (p[i][j + 1] - p[i][j - 1]) / Spacing(n)
  }

  /** u after its slice update, before `set_bnd(N, 1, u)`. */
  function SubtractGradU(n: int, u: Grid, p: Grid): (r: Grid)
    requires IsGrid(n, u) && IsGrid(n, p)
    ensures IsGrid(n, r)
    ensures forall i, j :: IsInterior(n, i, j) ==> r[i][j] == GradCellU(n, u, p, i, j)
  {
    seq(n + 2, i requires 0 <= i < n + 2 =>
      seq(n + 2, j requires 0 <= j < n + 2 =>
        if IsInterior(n, i, j) then GradCellU(n, u, p, i, j) else u[i][j]))
  }

  /** v after its slice update, before `set_bnd(N, 2, v)`. */
  function SubtractGradV(n: int, v: Grid, p: Grid): (r: Grid)
    requires IsGrid(n, v) && IsGrid(n, p)
    ensures IsGrid(n, r)
    ensures forall i, j :: IsInterior(n, i, j) ==> r[i][j] == GradCellV(n, v, p, i, j)
  {
    seq(n + 2, i requires 0 <= i < n + 2 =>
      seq(n + 2, j requires 0 <= j < n + 2 =>
        if IsInterior(n, i, j) then GradCellV(n, v, p, i, j) else v[i][j]))
  }

  /** The four grids `project` leaves behind. */
  datatype Projected = Projected(u: Grid, v: Grid, p: Grid, div: Grid)

  /** `project(N, u, v, p, div)`: the values of u, v, p and div afterwards. */
  function Project(n: int, u: Grid, v: Grid, p: Grid, div: Grid): (r: Projected)
    requires IsGrid(n, u) && IsGrid(n, v) && IsGrid(n, p) && IsGrid(n, div)
    ensures IsGrid(n, r.u) && IsGrid(n, r.v) && IsGrid(n, r.p) && IsGrid(n, r.div)
  {
    var dv := Divergence(n, u, v, div);
    var p0 := SetBnd(n, 0, PressureCleared(n, p));
    var pr := LinSolve(n, 0, p0, dv, 1.0, 4.0);
    Projected(SetBnd(n, 1, SubtractGradU(n, u, pr)), SetBnd(n, 2, SubtractGradV(n, v, pr)), pr, dv)
  }

  /** Every grid `project` leaves ends with the wall rules of its tag: 1 for
      u, 2 for v, 0 for p and div. */
  lemma ProjectWalls(n: int, u: Grid, v: Grid, p: Grid, div: Grid, r: Projected)
    requires IsGrid(n, u) && IsGrid(n, v) && IsGrid(n, p) && IsGrid(n, div)
    requires r == Project(n, u, v, p, div)
    ensures WallsHold(n, 1, r.u) && WallsHold(n, 2, r.v)
    ensures WallsHold(n, 0, r.p) && WallsHold(n, 0, r.div)
  {
    SetBndWalls(n, 0, DivInterior(n, u, v, div));
    LinSolveWalls(n, 0, SetBnd(n, 0, PressureCleared(n, p)), r.div, 1.0, 4.0);
    SetBndWalls(n, 1, SubtractGradU(n, u, r.p));
    SetBndWalls(n, 2, SubtractGradV(n, v, r.p));
  }

  /** The pressure solve always starts from the all-zero grid, whatever p held:
      zeroing the interior and then applying `set_bnd` zeroes every cell. */
  lemma PressureStartsAtZero(n: int, p: Grid)
    requires IsGrid(n, p)
    ensures SetBnd(n, 0, PressureCleared(n, p)) == Zero(n)
  {
    SetBndZero(n, 0, PressureCleared(n, p));
  }

  /** div ends holding -0.5 * h * (central differences of u and v) on the
      interior, computed from the incoming u and v. */
  lemma ProjectDivergence(n: int, u: Grid, v: Grid, p: Grid, div: Grid)
    requires IsGrid(n, u) && IsGrid(n, v) && IsGrid(n, p) && IsGrid(n, div)
    ensures forall i, j :: IsInterior(n, i, j) ==>
              Project(n, u, v, p, div).div[i][j] ==
              -0.5 * Spacing(n) * (u[i + 1][j] - u[i - 1][j] + v[i][j + 1] - v[i][j - 1])
  {
    var r := Project(n, u, v, p, div);
    assert r.div == Divergence(n, u, v, div);
  }

  /** p ends holding the 20-sweep solve of the Poisson system
      4 p = div + (neighbours of p), tag 0, started from the all-zero grid. */
  lemma ProjectPressure(n: int, u: Grid, v: Grid, p: Grid, div: Grid)
    requires IsGrid(n, u) && IsGrid(n, v) && IsGrid(n, p) && IsGrid(n, div)
    ensures Project(n, u, v, p, div).p == LinSolve(n, 0, Zero(n), Project(n, u, v, p, div).div, 1.0, 4.0)
  {
    PressureStartsAtZero(n, p);
  }

  /** Gradient subtraction along i followed by `set_bnd(N, 1, u)`, for any
      pressure grid q: w is the result. */
  lemma GradientStepU(n: int, u: Grid, q: Grid, w: Grid)
    requires IsGrid(n, u) && IsGrid(n, q)
    requires w == SetBnd(n, 1, SubtractGradU(n, u, q))
    ensures forall i, j :: IsInterior(n, i, j) ==>
              w[i][j] == u[i][j] - 0.5 * (q[i + 1][j] - q[i - 1][j]) / Spacing(n)
  {
    var su := SubtractGradU(n, u, q);
    forall i, j | IsInterior(n, i, j)
      ensures w[i][j] == GradCellU(n, u, q, i, j)
    {
      assert w[i][j] == su[i][j];
    }
  }

  /** Gradient subtraction along j followed by `set_bnd(N, 2, v)`, for any
      pressure grid q. */
  lemma GradientStepV(n: int, v: Grid, q: Grid, w: Grid)
    requires IsGrid(n, v) && IsGrid(n, q)
    requires w == SetBnd(n, 2, SubtractGradV(n, v, q))
    ensures forall i, j :: IsInterior(n, i, j) ==>
              w[i][j] == v[i][j] - 0.5 * (q[i][j + 1] - q[i][j - 1]) / Spacing(n)
  {
    var sv := SubtractGradV(n, v, q);
    forall i, j | IsInterior(n, i, j)
      ensures w[i][j] == GradCellV(n, v, q, i, j)
    {
      assert w[i][j] == sv[i][j];
    }
  }

  /** The interior of u loses the central difference of the final pressure
      along i, divided by h. */
  lemma ProjectGradientU(n: int, u: Grid, v: Grid, p: Grid, div: Grid, r: Projected)
    requires IsGrid(n, u) && IsGrid(n, v) && IsGrid(n, p) && IsGrid(n, div)
    requires r == Project(n, u, v, p, div)
    ensures forall i, j :: IsInterior(n, i, j) ==>
              r.u[i][j] == u[i][j] - 0.5 * (r.p[i + 1][j] - r.p[i - 1][j]) / Spacing(n)
  {
    GradientStepU(n, u, r.p, r.u);
  }

  /** The interior of v loses the central difference of the final pressure
      along j, divided by h. */
  lemma ProjectGradientV(n: int, u: Grid, v: Grid, p: Grid, div: Grid, r: Projected)
    requires IsGrid(n, u) && IsGrid(n, v) && IsGrid(n, p) && IsGrid(n, div)
    requires r == Project(n, u, v, p, div)
    ensures forall i, j :: IsInterior(n, i, j) ==>
              r.v[i][j] == v[i][j] - 0.5 * (r.p[i][j + 1] - r.p[i][j - 1]) / Spacing(n)
  {
    GradientStepV(n, v, r.p, r.v);
  }

  /** Dividing by h = 1/N multiplies by N: the gradient term of `project` is
      0.5 * N * (central difference of p). */
  lemma GradientScale(n: int, dp: real)
    requires n >= 1
    ensures 0.5 * dp / Spacing(n) == 0.5 * (n as real) * dp
  {
    var h := Spacing(n);
    assert h * (n as real) == 1.0 by {
      DivideBack(1.0, n as real);
    }
    assert (0.5 * (n as real) * dp) * h == 0.5 * dp * (h * (n as real));
  }

  /** A new value x0 - 0.5 * dp / h is x0 - 0.5 * N * dp. */
  lemma ScaledStep(n: int, x: real, x0: real, dp: real)
    requires n >= 1 && x == x0 - 0.5 * dp / Spacing(n)
    ensures x == x0 - 0.5 * (n as real) * dp
  {
    GradientScale(n, dp);
  }

  /** Gradient subtraction along i followed by `set_bnd(N, 1, u)`, with the
      division by h written as a multiplication by N. */
  lemma ScaledGradientU(n: int, u: Grid, q: Grid, w: Grid)
    requires IsGrid(n, u) && IsGrid(n, q)
    requires w == SetBnd(n, 1, SubtractGradU(n, u, q))
    ensures forall i, j :: IsInterior(n, i, j) ==>
              w[i][j] == u[i][j] - 0.5 * (n as real) * (q[i + 1][j] - q[i - 1][j])
  {
    GradientStepU(n, u, q, w);
    forall i, j | IsInterior(n, i, j)
      ensures w[i][j] == u[i][j] - 0.5 * (n as real) * (q[i + 1][j] - q[i - 1][j])
    {
      ScaledStep(n, w[i][j], u[i][j], q[i + 1][j] - q[i - 1][j]);
    }
  }

  /** The same along j, followed by `set_bnd(N, 2, v)`. */
  lemma ScaledGradientV(n: int, v: Grid, q: Grid, w: Grid)
    requires IsGrid(n, v) && IsGrid(n, q)
    requires w == SetBnd(n, 2, SubtractGradV(n, v, q))
    ensures forall i, j :: IsInterior(n, i, j) ==>
              w[i][j] == v[i][j] - 0.5 * (n as real) * (q[i][j + 1] - q[i][j - 1])
  {
    GradientStepV(n, v, q, w);
    forall i, j | IsInterior(n, i, j)
      ensures w[i][j] == v[i][j] - 0.5 * (n as real) * (q[i][j + 1] - q[i][j - 1])
    {
      ScaledStep(n, w[i][j], v[i][j], q[i][j + 1] - q[i][j - 1]);
    }
  }

  /** The interior of u loses 0.5 * N times the central difference of the
      final pressure along i: dividing by h = 1/N is multiplying by N. */
  lemma ProjectScaledGradientU(n: int, u: Grid, v: Grid, p: Grid, div: Grid, r: Projected)
    requires IsGrid(n, u) && IsGrid(n, v) && IsGrid(n, p) && IsGrid(n, div)
    requires r == Project(n, u, v, p, div)
    ensures forall i, j :: IsInterior(n, i, j) ==>
              r.u[i][j] == u[i][j] - 0.5 * (n as real) * (r.p[i + 1][j] - r.p[i - 1][j])
  {
    ScaledGradientU(n, u, r.p, r.u);
  }

  /** The interior of v loses 0.5 * N times the central difference of the
      final pressure along j. */
  lemma ProjectScaledGradientV(n: int, u: Grid, v: Grid, p: Grid, div: Grid, r: Projected)
    requires IsGrid(n, u) && IsGrid(n, v) && IsGrid(n, p) && IsGrid(n, div)
    requires r == Project(n, u, v, p, div)
    ensures forall i, j :: IsInterior(n, i, j) ==>
              r.v[i][j] == v[i][j] - 0.5 * (n as real) * (r.p[i][j + 1] - r.p[i][j - 1])
  {
    ScaledGradientV(n, v, r.p, r.v);
  }

  /** The old contents of the scratch grids p and div do not affect any
      output of `project`. */
  lemma ProjectIgnoresScratch(n: int, u: Grid, v: Grid, p1: Grid, div1: Grid, p2: Grid, div2: Grid)
    requires IsGrid(n, u) && IsGrid(n, v)
    requires IsGrid(n, p1) && IsGrid(n, div1) && IsGrid(n, p2) && IsGrid(n, div2)
    ensures Project(n, u, v, p1, div1) == Project(n, u, v, p2, div2)
  {
    SetBndInteriorOnly(n, 0, DivInterior(n, u, v, div1), DivInterior(n, u, v, div2));
    PressureStartsAtZero(n, p1);
    PressureStartsAtZero(n, p2);
  }

  /** With zero velocity and zero pressure around it, a cell's velocity
      stays zero after the gradient subtraction. */
  lemma GradCellZero(n: int, u: Grid, v: Grid, p: Grid, i: int, j: int)
    requires IsGrid(n, u) && IsGrid(n, v) && IsGrid(n, p) && IsInterior(n, i, j)
    requires u[i][j] == 0.0 && v[i][j] == 0.0
    requires p[i + 1][j] == 0.0 && p[i - 1][j] == 0.0 && p[i][j + 1] == 0.0 && p[i][j - 1] == 0.0
    ensures GradCellU(n, u, p, i, j) == 0.0 && GradCellV(n, v, p, i, j) == 0.0
  {
    var h := Spacing(n);
    assert 0.5 * (p[i + 1][j] - p[i - 1][j]) == 0.0;
    assert 0.5 * (p[i][j + 1] - p[i][j - 1]) == 0.0;
    assert 0.0 / h == 0.0;
  }

  /** A zero velocity field projects to zero velocity, zero pressure and
      zero divergence, whatever p and div held. */
  lemma ProjectZero(n: int, u: Grid, v: Grid, p: Grid, div: Grid)
    requires IsGrid(n, u) && IsGrid(n, v) && IsGrid(n, p) && IsGrid(n, div)
    requires IsZero(n, u) && IsZero(n, v)
    ensures Project(n, u, v, p, div) == Projected(Zero(n), Zero(n), Zero(n), Zero(n))
  {
    var di := DivInterior(n, u, v, div);
    forall i, j | IsInterior(n, i, j)
      ensures di[i][j] == 0.0
    {
      assert DivCell(n, u, v, i, j) == 0.0;
    }
    SetBndZero(n, 0, di);
    PressureStartsAtZero(n, p);
    LinSolveZero(n, 0, Zero(n), Zero(n), 1.0, 4.0);
    var pr := Zero(n);
    var su, sv := SubtractGradU(n, u, pr), SubtractGradV(n, v, pr);
    forall i, j | IsInterior(n, i, j)
      ensures su[i][j] == 0.0 && sv[i][j] == 0.0
    {
      GradCellZero(n, u, v, pr, i, j);
    }
    SetBndZero(n, 1, su);
    SetBndZero(n, 2, sv);
  }
}
