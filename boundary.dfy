/** The ghost-cell rule of `set_bnd`: edge ghosts copy (or, for the velocity
    component normal to that wall, negate) the adjacent interior cell, and each
    corner is the average of its two neighbouring edge ghosts. */
module Boundary {
  import opened Grids

  /** The value a wall ghost takes from its interior neighbour `v`. */
  function Wall(negate: bool, v: real): real
  {
    if negate then -v else v
  }

  /** For a ghost index 0 or n + 1, the index of the adjacent interior line. */
  function Inward(n: int, k: int): int
  {
    if k == 0 then 1 else n
  }

  /** The cell is a ghost cell but not a corner. */
  predicate IsEdge(n: int, i: int, j: int)
  {
    ((i == 0 || i == n + 1) && 1 <= j <= n) || ((j == 0 || j == n + 1) && 1 <= i <= n)
  }

  /** The cell is one of the four corners. */
  predicate IsCorner(n: int, i: int, j: int)
  {
    (i == 0 || i == n + 1) && (j == 0 || j == n + 1)
  }

  /** The value of a non-corner cell after `set_bnd`: interior cells are kept,
      edge ghosts come from the adjacent interior cell. Tag 1 negates on the
      walls i = 0 and i = n + 1, tag 2 on the walls j = 0 and j = n + 1. */
  function EdgeValue(n: int, b: int, g: Grid, i: int, j: int): real
    requires IsGrid(n, g) && 0 <= i < n + 2 && 0 <= j < n + 2 && !IsCorner(n, i, j)
  {
    if IsInterior(n, i, j) then g[i][j]
    else if i == 0 || i == n + 1 then Wall(b == 1, g[Inward(n, i)][j])
    else Wall(b == 2, g[i][Inward(n, j)])
  }

  /** The value of cell (i, j) after `set_bnd`. */
  function SetBndCell(n: int, b: int, g: Grid, i: int, j: int): real
    requires IsGrid(n, g) && 0 <= i < n + 2 && 0 <= j < n + 2
  {
    if IsCorner(n, i, j) then
      0.5 * (EdgeValue(n, b, g, Inward(n, i), j) + EdgeValue(n, b, g, i, Inward(n, j)))
    else EdgeValue(n, b, g, i, j)
  }

  /** The wall and corner rules that `set_bnd` establishes for tag `b`. */
  ghost predicate WallsHold(n: int, b: int, g: Grid)
    requires IsGrid(n, g)
  {
    (forall k :: 1 <= k <= n ==>
       g[0][k] == Wall(b == 1, g[1][k]) && g[n + 1][k] == Wall(b == 1, g[n][k]) &&
       g[k][0] == Wall(b == 2, g[k][1]) && g[k][n + 1] == Wall(b == 2, g[k][n])) &&
    g[0][0] == 0.5 * (g[1][0] + g[0][1]) &&
    g[0][n + 1] == 0.5 * (g[1][n + 1] + g[0][n]) &&
    g[n + 1][0] == 0.5 * (g[n][0] + g[n + 1][1]) &&
    g[n + 1][n + 1] == 0.5 * (g[n][n + 1] + g[n + 1][n])
  }

  /** `set_bnd(N, b, x)` on the value of x: the interior is kept and the
      ghosts satisfy the wall and corner rules for `b`. */
  function SetBnd(n: int, b: int, g: Grid): (r: Grid)
    requires IsGrid(n, g)
    ensures IsGrid(n, r)
    ensures SameInterior(n, r, g)
  {
    seq(n + 2, i requires 0 <= i < n + 2 =>
      seq(n + 2, j requires 0 <= j < n + 2 => SetBndCell(n, b, g, i, j)))
  }

  /** The wall sign rule and the corner rule hold after `set_bnd`: tag 1
      negates across the walls i = 0 and i = n + 1, tag 2 across j = 0 and
      j = n + 1, every other wall copies, and each corner is the mean of its
      two neighbouring edge ghosts. */
  lemma SetBndWalls(n: int, b: int, g: Grid)
    requires IsGrid(n, g)
    ensures WallsHold(n, b, SetBnd(n, b, g))
  {
  }

  /** The result of `set_bnd` is pinned down by the two facts its contract
      states: any grid with g's interior whose ghosts obey the rules for `b`
      is SetBnd(n, b, g). */
  lemma {:induction false} SetBndUnique(n: int, b: int, g: Grid, h: Grid)
    requires IsGrid(n, g) && IsGrid(n, h)
    requires SameInterior(n, h, g) && WallsHold(n, b, h)
    ensures h == SetBnd(n, b, g)
  {
    var r := SetBnd(n, b, g);
    forall i, j | 0 <= i < n + 2 && 0 <= j < n + 2
      ensures h[i][j] == r[i][j]
    {
      if IsInterior(n, i, j) {
      } else if IsEdge(n, i, j) {
        if i == 0 || i == n + 1 {
          assert h[i][j] == Wall(b == 1, h[Inward(n, i)][j]);
        } else {
          assert h[i][j] == Wall(b == 2, h[i][Inward(n, j)]);
        }
      } else {
        var ii, jj := Inward(n, i), Inward(n, j);
        assert h[ii][j] == Wall(b == 2, h[ii][Inward(n, j)]);
        assert h[i][jj] == Wall(b == 1, h[Inward(n, i)][jj]);
      }
    }
    GridExt(n, h, r);
  }

  /** `set_bnd` reads only interior cells: grids that agree on the interior
      get the same ghosts. */
  lemma {:induction false} SetBndInteriorOnly(n: int, b: int, g: Grid, h: Grid)
    requires IsGrid(n, g) && IsGrid(n, h) && SameInterior(n, g, h)
    ensures SetBnd(n, b, g) == SetBnd(n, b, h)
  {
    SetBndWalls(n, b, g);
    SetBndUnique(n, b, h, SetBnd(n, b, g));
  }

  /** Calling `set_bnd` twice changes nothing the first call did not. */
  lemma {:induction false} SetBndIdempotent(n: int, b: int, g: Grid)
    requires IsGrid(n, g)
    ensures SetBnd(n, b, SetBnd(n, b, g)) == SetBnd(n, b, g)
  {
    SetBndInteriorOnly(n, b, SetBnd(n, b, g), g);
  }

  /** A grid whose interior is zero becomes zero everywhere. */
  lemma {:induction false} SetBndZero(n: int, b: int, g: Grid)
    requires IsGrid(n, g) && IsZeroInside(n, g)
    ensures IsZero(n, SetBnd(n, b, g))
    ensures SetBnd(n, b, g) == Zero(n)
  {
    SetBndUnique(n, b, g, Zero(n));
  }
}
