/**
 * The 2D level set (`LevelSet2D`): the signed distance field `gridPhi` on the
 * padded grid, advanced by a first-order semi-Lagrangian step into `gridTmp`,
 * reinitialized by the fast-march object `gridFM`, and corrected by the
 * escaped marker particles through the two scratch grids `gridPos` and
 * `gridNeg`.
 *
 * The cell loops of the class run over `NX` x `NY` (`FOR_LS2D`), the
 * compile-time sizes, so a level set is only meaningful when it is built
 * with `nx == NX` and `ny == NY`; the model requires this.
 */
module LevelSet2 {
  import opened Numerics
  import opened Vec2
  import opened Grid2
  import opened MarchHeap
  import opened FastMarch2
  import opened Particle2

  // ------------------------------------------------------------ sampling

  /**
   * The points `LinearSample` can interpolate at: the 2x2 stencil starting
   * at (int(x), int(y)) must lie on the padded grid.
   */
  predicate InSampleRange(Nx: nat, Ny: nat, p: Vec2D)
  {
    0.0 <= p.x < (Nx + 1) as real && 0.0 <= p.y < (Ny + 1) as real
  }

  /** `LinearSample(p)`: bilinear interpolation in the cell containing p. */
  function LinearSample(Nx: nat, Ny: nat, g: seq<real>, p: Vec2D): real
    requires |g| == Size(Nx, Ny) && InSampleRange(Nx, Ny, p)
  {
    var i := Trunc(p.x);
    var j := Trunc(p.y);
    var xlerp := p.x - i as real;
    var ylerp := p.y - j as real;
    Lerp(ylerp, Lerp(xlerp, Cell(Nx, Ny, g, i, j), Cell(Nx, Ny, g, i + 1, j)),
                Lerp(xlerp, Cell(Nx, Ny, g, i, j + 1), Cell(Nx, Ny, g, i + 1, j + 1)))
  }

  /** At a grid node the bilinear sample is the stored cell value. */
  lemma LinearSampleAtNode(Nx: nat, Ny: nat, g: seq<real>, i: nat, j: nat)
    requires |g| == Size(Nx, Ny) && i <= Nx && j <= Ny
    ensures LinearSample(Nx, Ny, g, Vec2D(i as real, j as real)) == Cell(Nx, Ny, g, i, j)
  {
    assert Trunc(i as real) == i && Trunc(j as real) == j;
  }

  /** A sample of a field bounded by [lo, hi] lies in [lo, hi]. */
  lemma LinearSampleBounded(Nx: nat, Ny: nat, g: seq<real>, p: Vec2D, lo: real, hi: real)
    requires |g| == Size(Nx, Ny) && InSampleRange(Nx, Ny, p)
    requires forall a, b {:trigger Cell(Nx, Ny, g, a, b)} :: InGrid(Nx, Ny, a, b) ==> lo <= Cell(Nx, Ny, g, a, b) <= hi
    ensures lo <= LinearSample(Nx, Ny, g, p) <= hi
  {
    var i := Trunc(p.x);
    var j := Trunc(p.y);
    assert lo <= Cell(Nx, Ny, g, i, j) <= hi && lo <= Cell(Nx, Ny, g, i + 1, j) <= hi;
    assert lo <= Cell(Nx, Ny, g, i, j + 1) <= hi && lo <= Cell(Nx, Ny, g, i + 1, j + 1) <= hi;
  }

  /**
   * The four column (or row) indices of `CubicSample`'s 4x4 stencil along
   * one axis: int(x) - 1 .. int(x) + 2, with the outer two clamped to the
   * padded grid.
   */
  function CubicIndices(n: nat, x: real): (idx: (int, int, int, int))
    requires 0.0 <= x < (n + 1) as real
    ensures 0 <= idx.0 <= idx.1 < idx.2 <= idx.3 <= n + 1
    ensures idx.1 as real <= x < idx.2 as real && idx.2 == idx.1 + 1
    ensures idx.0 == idx.1 - 1 || idx.0 == idx.1 == 0
    ensures idx.3 == idx.2 + 1 || idx.3 == idx.2 == n + 1
  {
    var i1 := Trunc(x);
    var i0 := if i1 - 1 < 0 then 0 else i1 - 1;
    var i3 := if i1 + 2 > n + 1 then n + 1 else i1 + 2;
    (i0, i1, i1 + 1, i3)
  }

  /** `CubicSample(pos)`: monotone cubic interpolation over the clamped 4x4 stencil. */
  function CubicSample(Nx: nat, Ny: nat, g: seq<real>, p: Vec2D): real
    requires |g| == Size(Nx, Ny) && InSampleRange(Nx, Ny, p)
  {
    var (i0, i1, i2, i3) := CubicIndices(Nx, p.x);
    var (j0, j1, j2, j3) := CubicIndices(Ny, p.y);
    var s := p.x - i1 as real;
    var t := p.y - j1 as real;
    MCerp(s, CubicColumn(Nx, Ny, g, i0, j0, j1, j2, j3, t), CubicColumn(Nx, Ny, g, i1, j0, j1, j2, j3, t),
             CubicColumn(Nx, Ny, g, i2, j0, j1, j2, j3, t), CubicColumn(Nx, Ny, g, i3, j0, j1, j2, j3, t))
  }

  /** One column of the cubic stencil, interpolated along y. */
  function CubicColumn(Nx: nat, Ny: nat, g: seq<real>, i: int, j0: int, j1: int, j2: int, j3: int, t: real): real
    requires |g| == Size(Nx, Ny) && 0 <= i <= Nx + 1
    requires 0 <= j0 <= Ny + 1 && 0 <= j1 <= Ny + 1 && 0 <= j2 <= Ny + 1 && 0 <= j3 <= Ny + 1
  {
    MCerp(t, Cell(Nx, Ny, g, i, j0), Cell(Nx, Ny, g, i, j1), Cell(Nx, Ny, g, i, j2), Cell(Nx, Ny, g, i, j3))
  }

  /** At a grid node the cubic sample is the stored cell value, as the bilinear one is. */
  lemma CubicSampleAtNode(Nx: nat, Ny: nat, g: seq<real>, i: nat, j: nat)
    requires |g| == Size(Nx, Ny) && i <= Nx && j <= Ny
    ensures CubicSample(Nx, Ny, g, Vec2D(i as real, j as real)) == Cell(Nx, Ny, g, i, j)
    ensures CubicSample(Nx, Ny, g, Vec2D(i as real, j as real)) == LinearSample(Nx, Ny, g, Vec2D(i as real, j as real))
  {
    assert Trunc(i as real) == i && Trunc(j as real) == j;
    LinearSampleAtNode(Nx, Ny, g, i, j);
  }

  // ------------------------------------------------ semi-Lagrangian step

  /**
   * The departure index along one axis: the cell `ceil(d)` cells upstream of
   * x, with d the displacement in cells, clamped to [0, n] so that the
   * stencil (r, r + 1) never leaves the padded grid.
   */
  function Departure(x: int, d: real, n: nat): (r: int)
    ensures 0 <= r <= n
    ensures d == 0.0 && 0 <= x <= n ==> r == x
  {
    ClampInt(x - Ceil(d), 0, n)
  }

  /**
   * `SemiLagrangianStep(x, y)`: the new value of an interior cell, given the
   * velocity u sampled at the cell. A cell whose value exceeds
   * SEMILAGRA_LIMIT keeps it (the test is one-sided: cells on the negative
   * side are always advected); otherwise the departure point is
   * interpolated bilinearly between the four cells around it.
   */
  function StepValue(Nx: nat, Ny: nat, phi: seq<real>, x: int, y: int, u: Vec2D, dt: real, h: real, hInv: real): (v: real)
    requires |phi| == Size(Nx, Ny) && IsInterior(Nx, Ny, x, y)
    ensures Cell(Nx, Ny, phi, x, y) > SEMILAGRA_LIMIT ==> v == Cell(Nx, Ny, phi, x, y)
  {
    if Cell(Nx, Ny, phi, x, y) > SEMILAGRA_LIMIT then Cell(Nx, Ny, phi, x, y)
    else
      var r := Departure(x, u.x * dt * hInv, Nx);
      var s := Departure(y, u.y * dt * hInv, Ny);
      var a := Weight(x, r, h, u.x * dt, hInv);
      var b := Weight(y, s, h, u.y * dt, hInv);
      Bilinear(a, b, Cell(Nx, Ny, phi, r + 1, s + 1), Cell(Nx, Ny, phi, r, s + 1),
                     Cell(Nx, Ny, phi, r + 1, s), Cell(Nx, Ny, phi, r, s))
  }

  /**
   * The interpolation weight along one axis: how far the departure point
   * x*h - d lies beyond node r, in cells.
   */
  function Weight(x: int, r: int, h: real, d: real, hInv: real): real
  {
    ((x - r) as real * h - d) * hInv
  }

  /** The bilinear combination with weights a (along x) and b (along y). */
  function Bilinear(a: real, b: real, f11: real, f01: real, f10: real, f00: real): real
  {
    a * b * f11 + (1.0 - a) * b * f01 + a * (1.0 - b) * f10 + (1.0 - a) * (1.0 - b) * f00
  }

  /** With no velocity the departure point is the cell itself. */
  lemma StepStill(Nx: nat, Ny: nat, phi: seq<real>, x: int, y: int, dt: real, h: real, hInv: real)
    requires |phi| == Size(Nx, Ny) && IsInterior(Nx, Ny, x, y)
    ensures StepValue(Nx, Ny, phi, x, y, Zero, dt, h, hInv) == Cell(Nx, Ny, phi, x, y)
  {
    assert 0.0 * dt * hInv == 0.0;
  }

  /** The four bilinear weights sum to one, so a constant field is kept whatever the velocity. */
  lemma StepConstant(Nx: nat, Ny: nat, phi: seq<real>, x: int, y: int, u: Vec2D, dt: real, h: real, hInv: real, c: real)
    requires |phi| == Size(Nx, Ny) && IsInterior(Nx, Ny, x, y)
    requires forall a, b {:trigger Cell(Nx, Ny, phi, a, b)} :: InGrid(Nx, Ny, a, b) ==> Cell(Nx, Ny, phi, a, b) == c
    ensures StepValue(Nx, Ny, phi, x, y, u, dt, h, hInv) == c
  {
    if Cell(Nx, Ny, phi, x, y) <= SEMILAGRA_LIMIT {
      var r := Departure(x, u.x * dt * hInv, Nx);
      var s := Departure(y, u.y * dt * hInv, Ny);
      var a := Weight(x, r, h, u.x * dt, hInv);
      var b := Weight(y, s, h, u.y * dt, hInv);
      assert Cell(Nx, Ny, phi, r + 1, s + 1) == Cell(Nx, Ny, phi, r, s + 1) == Cell(Nx, Ny, phi, r + 1, s) == Cell(Nx, Ny, phi, r, s) == c;
      BilinearOfConstant(a, b, c);
    }
  }

  /** The bilinear combination of four equal values is that value. */
  lemma BilinearOfConstant(a: real, b: real, c: real)
    ensures a * b * c + (1.0 - a) * b * c + a * (1.0 - b) * c + (1.0 - a) * (1.0 - b) * c == c
  {
    assert a * b + (1.0 - a) * b + a * (1.0 - b) + (1.0 - a) * (1.0 - b) == 1.0;
  }

  /**
   * The `FOR_LS2D` loop of `Update`: every interior cell of `gridTmp` gets
   * its step value, sampled with the velocity at the cell; the ghost cells
   * keep what `gridTmp` held.
   */
  function Advect(Nx: nat, Ny: nat, phi: seq<real>, tmp: seq<real>, vel: Vec2D -> Vec2D, dt: real, h: real, hInv: real): (r: seq<real>)
    requires |phi| == Size(Nx, Ny) && |tmp| == Size(Nx, Ny)
    ensures |r| == |tmp|
  {
    seq(|tmp|, k requires 0 <= k < |tmp| =>
      if IsInterior(Nx, Ny, Col(Nx, k), Row(Nx, k))
      then StepValue(Nx, Ny, phi, Col(Nx, k), Row(Nx, k), vel(Vec2D(Col(Nx, k) as real, Row(Nx, k) as real)), dt, h, hInv)
      else tmp[k])
  }

  /** `Advect`, cell by cell. */
  lemma AdvectCells(Nx: nat, Ny: nat, phi: seq<real>, tmp: seq<real>, vel: Vec2D -> Vec2D, dt: real, h: real, hInv: real)
    requires |phi| == Size(Nx, Ny) && |tmp| == Size(Nx, Ny)
    ensures forall i, j {:trigger Cell(Nx, Ny, Advect(Nx, Ny, phi, tmp, vel, dt, h, hInv), i, j)} :: InGrid(Nx, Ny, i, j) ==>
      Cell(Nx, Ny, Advect(Nx, Ny, phi, tmp, vel, dt, h, hInv), i, j) ==
        if IsInterior(Nx, Ny, i, j) then StepValue(Nx, Ny, phi, i, j, vel(Vec2D(i as real, j as real)), dt, h, hInv)
        else Cell(Nx, Ny, tmp, i, j)
  {
    forall i, j {:trigger Cell(Nx, Ny, Advect(Nx, Ny, phi, tmp, vel, dt, h, hInv), i, j)} | InGrid(Nx, Ny, i, j)
      ensures Cell(Nx, Ny, Advect(Nx, Ny, phi, tmp, vel, dt, h, hInv), i, j) ==
        if IsInterior(Nx, Ny, i, j) then StepValue(Nx, Ny, phi, i, j, vel(Vec2D(i as real, j as real)), dt, h, hInv)
        else Cell(Nx, Ny, tmp, i, j)
    {
      GIRange(Nx, Ny, i, j);
    }
  }

  /**
   * What `Update` leaves in `gridPhi`: ghost cells hold the signed-distance
   * sentinel 3*HH, and with no velocity every interior cell keeps its value.
   */
  lemma UpdateResult(Nx: nat, Ny: nat, phi: seq<real>, tmp: seq<real>, vel: Vec2D -> Vec2D, dt: real, h: real, hInv: real)
    requires 1 <= Nx && 1 <= Ny && |phi| == Size(Nx, Ny) && |tmp| == Size(Nx, Ny)
    ensures var r := WithCorners(Nx, Ny, Advect(Nx, Ny, phi, tmp, vel, dt, h, hInv), SignedDistRule);
      forall i, j {:trigger Cell(Nx, Ny, r, i, j)} :: IsGhost(Nx, Ny, i, j) ==> Cell(Nx, Ny, r, i, j) == 3.0 * HH as real
    ensures var r := WithCorners(Nx, Ny, Advect(Nx, Ny, phi, tmp, vel, dt, h, hInv), SignedDistRule);
      (forall p {:trigger vel(p)} :: vel(p) == Zero) ==>
      forall i, j {:trigger Cell(Nx, Ny, r, i, j)} :: IsInterior(Nx, Ny, i, j) ==> Cell(Nx, Ny, r, i, j) == Cell(Nx, Ny, phi, i, j)
  {
    var ad := Advect(Nx, Ny, phi, tmp, vel, dt, h, hInv);
    var r := WithCorners(Nx, Ny, ad, SignedDistRule);
    SignedDistGhosts(Nx, Ny, ad);
    SignedDistKeepsInterior(Nx, Ny, ad);
    AdvectCells(Nx, Ny, phi, tmp, vel, dt, h, hInv);
    if forall p {:trigger vel(p)} :: vel(p) == Zero {
      forall i, j {:trigger Cell(Nx, Ny, r, i, j)} | IsInterior(Nx, Ny, i, j)
        ensures Cell(Nx, Ny, r, i, j) == Cell(Nx, Ny, phi, i, j)
      {
        assert vel(Vec2D(i as real, j as real)) == Zero;
        StepStill(Nx, Ny, phi, i, j, dt, h, hInv);
      }
    }
  }

  // ---------------------------------------------------- particle correction

  /** The grid node (a, b) as a point. */
  function Node(a: int, b: int): Vec2D
  {
    Vec2D(a as real, b as real)
  }

  /** Whether cell (a, b) is the block cell written in step t = 2*dx + dy of the 2x2 loops at (i, j). */
  predicate InBlock(i: int, j: int, a: int, b: int, t: int)
  {
    i <= a <= i + 1 && j <= b <= j + 1 && 2 * (a - i) + (b - j) < t
  }

  /**
   * The 2x2 block at (i, j) after the first n steps of the `dx`/`dy` loops of
   * `FixNeg` (lower: each cell becomes the min of itself and the particle's
   * value at the node) or `FixPos` (the max).
   */
  function BlockUpTo(Nx: nat, Ny: nat, g: seq<real>, p: Particle2D, sqrt: real -> real, h: real,
                     i: int, j: int, lower: bool, n: int): (r: seq<real>)
    reads p
    requires |g| == Size(Nx, Ny)
    ensures |r| == |g|
  {
    seq(|g|, k requires 0 <= k < |g| reads p =>
      if InBlock(i, j, Col(Nx, k), Row(Nx, k), n)
      then Correct(lower, p.Phi(sqrt, Node(Col(Nx, k), Row(Nx, k)), h), g[k])
      else g[k])
  }

  /** The correction of one cell: min for `FixNeg`, max for `FixPos`. */
  function Correct(lower: bool, particlePhi: real, v: real): (r: real)
    ensures lower ==> r <= v
    ensures !lower ==> r >= v
    ensures r == v || r == particlePhi
  {
    if lower then Min(particlePhi, v) else Max(particlePhi, v)
  }

  /** The whole block. */
  function FixBlock(Nx: nat, Ny: nat, g: seq<real>, p: Particle2D, sqrt: real -> real, h: real,
                    i: int, j: int, lower: bool): (r: seq<real>)
    reads p
    requires |g| == Size(Nx, Ny)
    ensures |r| == |g|
  {
    BlockUpTo(Nx, Ny, g, p, sqrt, h, i, j, lower, 4)
  }

  /** `BlockUpTo`, cell by cell. */
  lemma BlockCells(Nx: nat, Ny: nat, g: seq<real>, p: Particle2D, sqrt: real -> real, h: real,
                   i: int, j: int, lower: bool, n: int)
    requires |g| == Size(Nx, Ny)
    ensures forall a, b {:trigger Cell(Nx, Ny, BlockUpTo(Nx, Ny, g, p, sqrt, h, i, j, lower, n), a, b)} :: InGrid(Nx, Ny, a, b) ==>
      Cell(Nx, Ny, BlockUpTo(Nx, Ny, g, p, sqrt, h, i, j, lower, n), a, b) ==
        if InBlock(i, j, a, b, n) then Correct(lower, p.Phi(sqrt, Node(a, b), h), Cell(Nx, Ny, g, a, b))
        else Cell(Nx, Ny, g, a, b)
  {
    forall a, b {:trigger Cell(Nx, Ny, BlockUpTo(Nx, Ny, g, p, sqrt, h, i, j, lower, n), a, b)} | InGrid(Nx, Ny, a, b)
      ensures Cell(Nx, Ny, BlockUpTo(Nx, Ny, g, p, sqrt, h, i, j, lower, n), a, b) ==
        if InBlock(i, j, a, b, n) then Correct(lower, p.Phi(sqrt, Node(a, b), h), Cell(Nx, Ny, g, a, b))
        else Cell(Nx, Ny, g, a, b)
    {
      GIRange(Nx, Ny, a, b);
    }
  }

  /** One more step of the 2x2 loops writes exactly the next block cell. */
  lemma BlockStep(Nx: nat, Ny: nat, g: seq<real>, p: Particle2D, sqrt: real -> real, h: real,
                  i: int, j: int, lower: bool, dx: int, dy: int)
    requires |g| == Size(Nx, Ny) && 0 <= dx < 2 && 0 <= dy < 2 && InGrid(Nx, Ny, i + dx, j + dy)
    ensures var s := BlockUpTo(Nx, Ny, g, p, sqrt, h, i, j, lower, 2 * dx + dy);
      BlockUpTo(Nx, Ny, g, p, sqrt, h, i, j, lower, 2 * dx + dy + 1) ==
        SetCell(Nx, Ny, s, i + dx, j + dy, Correct(lower, p.Phi(sqrt, Node(i + dx, j + dy), h), Cell(Nx, Ny, s, i + dx, j + dy)))
  {
    var s := BlockUpTo(Nx, Ny, g, p, sqrt, h, i, j, lower, 2 * dx + dy);
    var v := Correct(lower, p.Phi(sqrt, Node(i + dx, j + dy), h), Cell(Nx, Ny, s, i + dx, j + dy));
    BlockCells(Nx, Ny, g, p, sqrt, h, i, j, lower, 2 * dx + dy);
    BlockCells(Nx, Ny, g, p, sqrt, h, i, j, lower, 2 * dx + dy + 1);
    CellsEqual(Nx, Ny, BlockUpTo(Nx, Ny, g, p, sqrt, h, i, j, lower, 2 * dx + dy + 1), SetCell(Nx, Ny, s, i + dx, j + dy, v));
  }

  /** Every cell of r is at most the same cell of g. */
  predicate Below(r: seq<real>, g: seq<real>)
  {
    |r| == |g| && forall k {:trigger r[k]} :: 0 <= k < |r| ==> r[k] <= g[k]
  }

  /**
   * `FixNeg` only lowers, `FixPos` only raises, and both touch only the 2x2
   * block at (i, j).
   */
  lemma FixBlockTouches(Nx: nat, Ny: nat, g: seq<real>, p: Particle2D, sqrt: real -> real, h: real,
                        i: int, j: int, lower: bool)
    requires |g| == Size(Nx, Ny)
    ensures var r := FixBlock(Nx, Ny, g, p, sqrt, h, i, j, lower);
      (lower ==> Below(r, g)) && (!lower ==> Below(g, r))
    ensures var r := FixBlock(Nx, Ny, g, p, sqrt, h, i, j, lower);
      forall a, b {:trigger Cell(Nx, Ny, r, a, b)} :: InGrid(Nx, Ny, a, b) && !(i <= a <= i + 1 && j <= b <= j + 1) ==>
        Cell(Nx, Ny, r, a, b) == Cell(Nx, Ny, g, a, b)
  {
    BlockCells(Nx, Ny, g, p, sqrt, h, i, j, lower, 4);
  }

  /** The particles `Fix` can handle: each at a position `LinearSample` can read. */
  predicate Sampleable(Nx: nat, Ny: nat, ps: seq<Particle2D>)
    reads ps
  {
    forall k {:trigger ps[k]} :: 0 <= k < |ps| ==> InSampleRange(Nx, Ny, ps[k].position)
  }

  /** A particle has escaped when the level set at its position has the opposite sign. */
  predicate Escaped(Nx: nat, Ny: nat, phi: seq<real>, p: Particle2D)
    reads p
    requires |phi| == Size(Nx, Ny) && InSampleRange(Nx, Ny, p.position)
  {
    LinearSample(Nx, Ny, phi, p.position) * p.sign as real < 0.0
  }

  /**
   * `gridNeg` (lower) or `gridPos` after the first n particles of `Fix`:
   * every escaped negative particle corrects `gridNeg` on the block at its
   * truncated position, every escaped positive one corrects `gridPos`.
   */
  function Corrected(Nx: nat, Ny: nat, phi: seq<real>, ps: seq<Particle2D>, sqrt: real -> real, h: real,
                     lower: bool, n: nat): (r: seq<real>)
    reads ps
    requires |phi| == Size(Nx, Ny) && n <= |ps| && Sampleable(Nx, Ny, ps)
    ensures |r| == |phi|
  {
    if n == 0 then phi
    else CorrectOnce(Nx, Ny, phi, Corrected(Nx, Ny, phi, ps, sqrt, h, lower, n - 1), ps[n - 1], sqrt, h, lower)
  }

  /**
   * One particle of the loop: an escaped particle of the grid's side
   * corrects the block at its truncated position.
   */
  function CorrectOnce(Nx: nat, Ny: nat, phi: seq<real>, g: seq<real>, p: Particle2D, sqrt: real -> real, h: real,
                       lower: bool): (r: seq<real>)
    reads p
    requires |phi| == Size(Nx, Ny) && |g| == Size(Nx, Ny) && InSampleRange(Nx, Ny, p.position)
    ensures |r| == |g|
  {
    if Escaped(Nx, Ny, phi, p) && (p.sign < 0 <==> lower)
    then FixBlock(Nx, Ny, g, p, sqrt, h, Trunc(p.position.x), Trunc(p.position.y), lower)
    else g
  }

  /** The corrections only ever lower `gridNeg` and raise `gridPos`. */
  lemma {:induction false} CorrectedMonotone(Nx: nat, Ny: nat, phi: seq<real>, ps: seq<Particle2D>, sqrt: real -> real, h: real,
                                             lower: bool, n: nat)
    requires |phi| == Size(Nx, Ny) && n <= |ps| && Sampleable(Nx, Ny, ps)
    ensures lower ==> Below(Corrected(Nx, Ny, phi, ps, sqrt, h, lower, n), phi)
    ensures !lower ==> Below(phi, Corrected(Nx, Ny, phi, ps, sqrt, h, lower, n))
  {
    if n > 0 {
      CorrectedMonotone(Nx, Ny, phi, ps, sqrt, h, lower, n - 1);
      var g := Corrected(Nx, Ny, phi, ps, sqrt, h, lower, n - 1);
      var p := ps[n - 1];
      assert InSampleRange(Nx, Ny, p.position);
      if Escaped(Nx, Ny, phi, p) && (p.sign < 0 <==> lower) {
        FixBlockTouches(Nx, Ny, g, p, sqrt, h, Trunc(p.position.x), Trunc(p.position.y), lower);
      }
    }
  }

  /** Without an escaped particle neither scratch grid changes. */
  lemma {:induction false} CorrectedNoEscape(Nx: nat, Ny: nat, phi: seq<real>, ps: seq<Particle2D>, sqrt: real -> real, h: real,
                                             lower: bool, n: nat)
    requires |phi| == Size(Nx, Ny) && n <= |ps| && Sampleable(Nx, Ny, ps)
    requires forall k {:trigger ps[k]} :: 0 <= k < n ==> !Escaped(Nx, Ny, phi, ps[k])
    ensures Corrected(Nx, Ny, phi, ps, sqrt, h, lower, n) == phi
  {
    if n > 0 {
      CorrectedNoEscape(Nx, Ny, phi, ps, sqrt, h, lower, n - 1);
      assert !Escaped(Nx, Ny, phi, ps[n - 1]);
    }
  }

  /** The merge rule: the value of smaller magnitude, `gridNeg`'s on a tie. */
  function Pick(pos: real, neg: real): (r: real)
    ensures Abs(r) <= Abs(pos) && Abs(r) <= Abs(neg)
    ensures r == pos || r == neg
    ensures Abs(pos) == Abs(neg) ==> r == neg
  {
    if Abs(pos) < Abs(neg) then pos else neg
  }

  /**
   * The merge loop of `Fix` (`FOR_ALL_LS2D`, i in 1..Nx+1 and j in 1..Ny+1):
   * those cells get the merged value; row 0 and column 0 keep phi.
   */
  function Merge(Nx: nat, Ny: nat, phi: seq<real>, pos: seq<real>, neg: seq<real>): (r: seq<real>)
    requires |phi| == Size(Nx, Ny) && |pos| == |phi| && |neg| == |phi|
    ensures |r| == |phi|
  {
    seq(|phi|, k requires 0 <= k < |phi| =>
      if 1 <= Col(Nx, k) && 1 <= Row(Nx, k) then Pick(pos[k], neg[k]) else phi[k])
  }

  /** `Merge`, cell by cell. */
  lemma MergeCells(Nx: nat, Ny: nat, phi: seq<real>, pos: seq<real>, neg: seq<real>)
    requires |phi| == Size(Nx, Ny) && |pos| == |phi| && |neg| == |phi|
    ensures forall a, b {:trigger Cell(Nx, Ny, Merge(Nx, Ny, phi, pos, neg), a, b)} :: InGrid(Nx, Ny, a, b) ==>
      Cell(Nx, Ny, Merge(Nx, Ny, phi, pos, neg), a, b) ==
        if 1 <= a && 1 <= b then Pick(Cell(Nx, Ny, pos, a, b), Cell(Nx, Ny, neg, a, b)) else Cell(Nx, Ny, phi, a, b)
  {
    forall a, b {:trigger Cell(Nx, Ny, Merge(Nx, Ny, phi, pos, neg), a, b)} | InGrid(Nx, Ny, a, b)
      ensures Cell(Nx, Ny, Merge(Nx, Ny, phi, pos, neg), a, b) ==
        if 1 <= a && 1 <= b then Pick(Cell(Nx, Ny, pos, a, b), Cell(Nx, Ny, neg, a, b)) else Cell(Nx, Ny, phi, a, b)
    {
      GIRange(Nx, Ny, a, b);
    }
  }

  /** The level set `Fix` leaves: the merge of the two corrected scratch grids. */
  function Fixed(Nx: nat, Ny: nat, phi: seq<real>, ps: seq<Particle2D>, sqrt: real -> real, h: real): (r: seq<real>)
    reads ps
    requires |phi| == Size(Nx, Ny) && Sampleable(Nx, Ny, ps)
    ensures |r| == |phi|
  {
    Merge(Nx, Ny, phi, Corrected(Nx, Ny, phi, ps, sqrt, h, false, |ps|), Corrected(Nx, Ny, phi, ps, sqrt, h, true, |ps|))
  }

  /** With no escaped particle `Fix` leaves the level set as it was. */
  lemma FixedNoEscape(Nx: nat, Ny: nat, phi: seq<real>, ps: seq<Particle2D>, sqrt: real -> real, h: real)
    requires |phi| == Size(Nx, Ny) && Sampleable(Nx, Ny, ps)
    requires forall k {:trigger ps[k]} :: 0 <= k < |ps| ==> !Escaped(Nx, Ny, phi, ps[k])
    ensures Fixed(Nx, Ny, phi, ps, sqrt, h) == phi
  {
    CorrectedNoEscape(Nx, Ny, phi, ps, sqrt, h, false, |ps|);
    CorrectedNoEscape(Nx, Ny, phi, ps, sqrt, h, true, |ps|);
    forall k | 0 <= k < |phi| ensures Merge(Nx, Ny, phi, phi, phi)[k] == phi[k] {
    }
  }

  /**
   * Every merged cell lies between the lowered and the raised correction,
   * and, where the merge loop runs, has the magnitude of the smaller one.
   */
  lemma FixedBetween(Nx: nat, Ny: nat, phi: seq<real>, ps: seq<Particle2D>, sqrt: real -> real, h: real)
    requires |phi| == Size(Nx, Ny) && Sampleable(Nx, Ny, ps)
    ensures var pos := Corrected(Nx, Ny, phi, ps, sqrt, h, false, |ps|);
      var neg := Corrected(Nx, Ny, phi, ps, sqrt, h, true, |ps|);
      var r := Fixed(Nx, Ny, phi, ps, sqrt, h);
      Below(neg, r) && Below(r, pos) &&
      forall k {:trigger r[k]} :: 0 <= k < |r| && 1 <= Col(Nx, k) && 1 <= Row(Nx, k) ==>
        Abs(r[k]) <= Abs(pos[k]) && Abs(r[k]) <= Abs(neg[k])
  {
    CorrectedMonotone(Nx, Ny, phi, ps, sqrt, h, false, |ps|);
    CorrectedMonotone(Nx, Ny, phi, ps, sqrt, h, true, |ps|);
  }

  // ------------------------------------------------- loop bookkeeping

  /** The cells `Update`'s loop has reached at (i, j): rows below j, and row j left of i. */
  predicate Reached(i: int, j: int, a: int, b: int)
  {
    b < j || (b == j && a < i)
  }

  /** The state of `gridTmp` inside `Update`'s loop at (i, j). */
  ghost predicate AdvectedUpTo(Nx: nat, Ny: nat, phi: seq<real>, tmp: seq<real>, cur: seq<real>,
                               vel: Vec2D -> Vec2D, dt: real, h: real, hInv: real, i: int, j: int)
    requires |phi| == Size(Nx, Ny) && |tmp| == Size(Nx, Ny) && |cur| == Size(Nx, Ny)
  {
    forall a, b {:trigger Cell(Nx, Ny, cur, a, b)} :: InGrid(Nx, Ny, a, b) ==>
      Cell(Nx, Ny, cur, a, b) ==
        if IsInterior(Nx, Ny, a, b) && Reached(i, j, a, b)
        then StepValue(Nx, Ny, phi, a, b, vel(Node(a, b)), dt, h, hInv)
        else Cell(Nx, Ny, tmp, a, b)
  }

  lemma AdvectStep(Nx: nat, Ny: nat, phi: seq<real>, tmp: seq<real>, cur: seq<real>,
                   vel: Vec2D -> Vec2D, dt: real, h: real, hInv: real, i: int, j: int)
    requires |phi| == Size(Nx, Ny) && |tmp| == Size(Nx, Ny) && |cur| == Size(Nx, Ny) && IsInterior(Nx, Ny, i, j)
    requires AdvectedUpTo(Nx, Ny, phi, tmp, cur, vel, dt, h, hInv, i, j)
    ensures AdvectedUpTo(Nx, Ny, phi, tmp,
      SetCell(Nx, Ny, cur, i, j, StepValue(Nx, Ny, phi, i, j, vel(Node(i, j)), dt, h, hInv)), vel, dt, h, hInv, i + 1, j)
  {
  }

  lemma AdvectRow(Nx: nat, Ny: nat, phi: seq<real>, tmp: seq<real>, cur: seq<real>,
                  vel: Vec2D -> Vec2D, dt: real, h: real, hInv: real, j: int)
    requires |phi| == Size(Nx, Ny) && |tmp| == Size(Nx, Ny) && |cur| == Size(Nx, Ny)
    requires AdvectedUpTo(Nx, Ny, phi, tmp, cur, vel, dt, h, hInv, Nx + 1, j)
    ensures AdvectedUpTo(Nx, Ny, phi, tmp, cur, vel, dt, h, hInv, 1, j + 1)
  {
  }

  lemma AdvectDone(Nx: nat, Ny: nat, phi: seq<real>, tmp: seq<real>, cur: seq<real>,
                   vel: Vec2D -> Vec2D, dt: real, h: real, hInv: real)
    requires |phi| == Size(Nx, Ny) && |tmp| == Size(Nx, Ny) && |cur| == Size(Nx, Ny)
    requires AdvectedUpTo(Nx, Ny, phi, tmp, cur, vel, dt, h, hInv, 1, Ny + 1)
    ensures cur == Advect(Nx, Ny, phi, tmp, vel, dt, h, hInv)
  {
    AdvectCells(Nx, Ny, phi, tmp, vel, dt, h, hInv);
    CellsEqual(Nx, Ny, cur, Advect(Nx, Ny, phi, tmp, vel, dt, h, hInv));
  }

  /** The state of `gridPhi` inside the merge loop of `Fix` at (i, j). */
  ghost predicate MergedUpTo(Nx: nat, Ny: nat, phi: seq<real>, pos: seq<real>, neg: seq<real>, cur: seq<real>, i: int, j: int)
    requires |phi| == Size(Nx, Ny) && |pos| == |phi| && |neg| == |phi| && |cur| == |phi|
  {
    forall a, b {:trigger Cell(Nx, Ny, cur, a, b)} :: InGrid(Nx, Ny, a, b) ==>
      Cell(Nx, Ny, cur, a, b) ==
        if 1 <= a && 1 <= b && Reached(i, j, a, b)
        then Pick(Cell(Nx, Ny, pos, a, b), Cell(Nx, Ny, neg, a, b))
        else Cell(Nx, Ny, phi, a, b)
  }

  lemma MergeStep(Nx: nat, Ny: nat, phi: seq<real>, pos: seq<real>, neg: seq<real>, cur: seq<real>, i: int, j: int)
    requires |phi| == Size(Nx, Ny) && |pos| == |phi| && |neg| == |phi| && |cur| == |phi|
    requires 1 <= i <= Nx + 1 && 1 <= j <= Ny + 1
    requires MergedUpTo(Nx, Ny, phi, pos, neg, cur, i, j)
    ensures MergedUpTo(Nx, Ny, phi, pos, neg,
      SetCell(Nx, Ny, cur, i, j, Pick(Cell(Nx, Ny, pos, i, j), Cell(Nx, Ny, neg, i, j))), i + 1, j)
  {
  }

  lemma MergeRow(Nx: nat, Ny: nat, phi: seq<real>, pos: seq<real>, neg: seq<real>, cur: seq<real>, j: int)
    requires |phi| == Size(Nx, Ny) && |pos| == |phi| && |neg| == |phi| && |cur| == |phi|
    requires MergedUpTo(Nx, Ny, phi, pos, neg, cur, Nx + 2, j)
    ensures MergedUpTo(Nx, Ny, phi, pos, neg, cur, 1, j + 1)
  {
  }

  lemma MergeDone(Nx: nat, Ny: nat, phi: seq<real>, pos: seq<real>, neg: seq<real>, cur: seq<real>)
    requires |phi| == Size(Nx, Ny) && |pos| == |phi| && |neg| == |phi| && |cur| == |phi|
    requires MergedUpTo(Nx, Ny, phi, pos, neg, cur, 1, Ny + 2)
    ensures cur == Merge(Nx, Ny, phi, pos, neg)
  {
    MergeCells(Nx, Ny, phi, pos, neg);
    CellsEqual(Nx, Ny, cur, Merge(Nx, Ny, phi, pos, neg));
  }

  /** The scratch grids pos and neg after the first k particles of `Fix`. */
  ghost predicate CorrectedUpTo(Nx: nat, Ny: nat, phi: seq<real>, pos: seq<real>, neg: seq<real>,
                                ps: seq<Particle2D>, sqrt: real -> real, h: real, k: nat)
    reads ps
  {
    && |phi| == Size(Nx, Ny) && k <= |ps| && Sampleable(Nx, Ny, ps)
    && pos == Corrected(Nx, Ny, phi, ps, sqrt, h, false, k)
    && neg == Corrected(Nx, Ny, phi, ps, sqrt, h, true, k)
  }

  // ------------------------------------------------------------ the class

  class LevelSet2D {
    const Nx: nat
    const Ny: nat
    const size: nat
    const h: real
    const hInv: real
    /** The square root behind the particles' distances and the fast march. */
    const sqrt: real -> real
    var gridPhi: Grid2D
    var gridTmp: Grid2D
    const gridPos: Grid2D
    const gridNeg: Grid2D
    const gridFM: FastMarch2D

    /** The level set and its advection target have the level set's shape and separate storage. */
    ghost predicate TwoGrids()
      reads this, gridPhi, gridTmp
    {
      && Nx == NX && Ny == NY && size == Size(Nx, Ny)
      && gridPhi.Valid() && gridPhi.Nx == Nx && gridPhi.Ny == Ny
      && gridTmp.Valid() && gridTmp.Nx == Nx && gridTmp.Ny == Ny
      && gridPhi.grid != gridTmp.grid
    }

    /** The level set and the two scratch grids of `Fix` have the level set's shape and separate storage. */
    ghost predicate ScratchGrids()
      reads this, gridPhi, gridPos, gridNeg
    {
      && Nx == NX && Ny == NY && size == Size(Nx, Ny)
      && gridPhi.Valid() && gridPhi.Nx == Nx && gridPhi.Ny == Ny
      && gridPos.Valid() && gridPos.Nx == Nx && gridPos.Ny == Ny
      && gridNeg.Valid() && gridNeg.Nx == Nx && gridNeg.Ny == Ny
      && gridPhi.grid != gridPos.grid && gridPhi.grid != gridNeg.grid && gridPos.grid != gridNeg.grid
    }

    /** The grids have the level set's shape, and no two share storage. */
    ghost predicate Valid()
      reads this, gridPhi, gridTmp, gridPos, gridNeg, gridFM
    {
      && TwoGrids() && ScratchGrids() && h > 0.0 && hInv == 1.0 / h && IsSqrt(sqrt)
      && gridFM.Valid() && gridFM.Nx == Nx && gridFM.Ny == Ny && gridFM.h == h
      && gridTmp.grid != gridPos.grid && gridTmp.grid != gridNeg.grid
    }

    /** `LevelSet2D(nx, ny, h)`: four zero grids and a fast-march object of the same shape. */
    constructor(nx: nat, ny: nat, hi: real, sqrt: real -> real)
      requires nx == NX && ny == NY && hi > 0.0 && IsSqrt(sqrt)
      ensures Valid() && Nx == nx && Ny == ny && h == hi
      ensures forall k :: 0 <= k < size ==> gridPhi.grid[k] == 0.0
    {
      Nx, Ny, h, hInv, size := nx, ny, hi, 1.0 / hi, Size(nx, ny);
      this.sqrt := sqrt;
      gridPhi := new Grid2D(nx, ny);
      gridTmp := new Grid2D(nx, ny);
      gridPos := new Grid2D(nx, ny);
      gridNeg := new Grid2D(nx, ny);
      gridFM := new FastMarch2D(nx, ny, hi, sqrt);
    }

    /** `Initialize(init)`: the level set becomes a copy of `init`. */
    method Initialize(init: Grid2D)
      requires Valid() && init.Valid() && init.Nx == Nx && init.Ny == Ny
      modifies gridPhi.grid
      ensures gridPhi.grid[..] == old(init.grid[..])
    {
      gridPhi.Assign(init);
      assert init.grid[..size] == init.grid[..];
    }

    /**
     * `SemiLagrangianStep(x, y)`: write the advected value of interior cell
     * (x, y) into `gridTmp`. The source's straight-line interpolation is the
     * function `StepValue`.
     */
    method SemiLagrangianStep(x: int, y: int, vel: Vec2D -> Vec2D, dt: real)
      requires TwoGrids() && IsInterior(Nx, Ny, x, y)
      modifies gridTmp.grid
      ensures gridTmp.grid[..] == SetCell(Nx, Ny, old(gridTmp.grid[..]), x, y,
                                          StepValue(Nx, Ny, gridPhi.grid[..], x, y, vel(Node(x, y)), dt, h, hInv))
    {
      GIRange(Nx, Ny, x, y);
      var v := StepValue(Nx, Ny, gridPhi.grid[..], x, y, vel(Node(x, y)), dt, h, hInv);
      gridTmp.grid[GI(Nx, x, y)] := v;
    }

    /**
     * `Update(vel, dt)`: advect every interior cell into `gridTmp`, swap the
     * two grids, and put the signed-distance sentinel on the new border.
     */
    method Update(vel: Vec2D -> Vec2D, dt: real)
      requires Valid()
      modifies this, gridPhi.grid, gridTmp.grid
      ensures Valid() && gridPhi == old(gridTmp) && gridTmp == old(gridPhi)
      ensures gridPhi.grid[..] ==
        WithCorners(Nx, Ny, Advect(Nx, Ny, old(gridPhi.grid[..]), old(gridTmp.grid[..]), vel, dt, h, hInv), SignedDistRule)
      ensures gridTmp.grid[..] == old(gridPhi.grid[..])
    {
      ghost var phi := gridPhi.grid[..];
      ghost var tmp := gridTmp.grid[..];
      var j := 1;
      while j <= Ny
        modifies gridTmp.grid
        invariant 1 <= j <= Ny + 1 && gridPhi.grid[..] == phi
        invariant AdvectedUpTo(Nx, Ny, phi, tmp, gridTmp.grid[..], vel, dt, h, hInv, 1, j)
      {
        var i := 1;
        while i <= Nx
          modifies gridTmp.grid
          invariant 1 <= i <= Nx + 1 && gridPhi.grid[..] == phi
          invariant AdvectedUpTo(Nx, Ny, phi, tmp, gridTmp.grid[..], vel, dt, h, hInv, i, j)
        {
          AdvectStep(Nx, Ny, phi, tmp, gridTmp.grid[..], vel, dt, h, hInv, i, j);
          SemiLagrangianStep(i, j, vel, dt);
          i := i + 1;
        }
        AdvectRow(Nx, Ny, phi, tmp, gridTmp.grid[..], vel, dt, h, hInv, j);
        j := j + 1;
      }
      AdvectDone(Nx, Ny, phi, tmp, gridTmp.grid[..], vel, dt, h, hInv);
      gridPhi, gridTmp := gridTmp, gridPhi;
      gridPhi.SetBoundarySignedDist();
    }

    /**
     * `ReInitialize`: load the level set into the fast-march object, rebuild
     * it as a distance, copy it back and put the sentinel on the border.
     * Interior cells keep their side of the interface: a positive cell ends
     * non-negative, and a non-positive one ends at minus its distance from
     * the first half (`mid`) when that distance is positive.
     */
    method ReInitialize() returns (ghost mid: seq<real>)
      requires Valid()
      modifies gridPhi.grid, gridFM, gridFM.grid, gridFM.FMHeap
      ensures Valid() && |mid| == size
      ensures forall i, j {:trigger Cell(Nx, Ny, gridPhi.grid[..], i, j)} :: IsGhost(Nx, Ny, i, j) ==>
        Cell(Nx, Ny, gridPhi.grid[..], i, j) == 3.0 * HH as real
      ensures forall c {:trigger gridPhi.grid[c]} :: 0 <= c < size && IsInterior(Nx, Ny, Col(Nx, c), Row(Nx, c)) ==>
        (old(gridPhi.grid[c]) > 0.0 ==> gridPhi.grid[c] >= 0.0) &&
        (old(gridPhi.grid[c]) <= 0.0 ==> mid[c] >= 0.0 && (mid[c] > 0.0 ==> gridPhi.grid[c] == -mid[c]))
    {
      ghost var phi := gridPhi.grid[..];
      for i := 0 to size
        modifies gridFM.grid
        invariant forall c {:trigger gridFM.grid[c]} :: 0 <= c < i ==> gridFM.grid[c] == Loaded(phi[c])
      {
        gridFM.Set(i, gridPhi.grid[i]);
      }
      mid := gridFM.Reinitialize();
      for i := 0 to size
        modifies gridPhi.grid
        invariant forall c {:trigger gridPhi.grid[c]} :: 0 <= c < i ==> gridPhi.grid[c] == gridFM.grid[c].value
      {
        gridPhi.grid[i] := gridFM.grid[i].value;
      }
      ghost var g2 := gridPhi.grid[..];
      gridPhi.SetBoundarySignedDist();
      SignedDistGhosts(Nx, Ny, g2);
      SignedDistKeepsInterior(Nx, Ny, g2);
      forall c {:trigger gridPhi.grid[c]} | 0 <= c < size && IsInterior(Nx, Ny, Col(Nx, c), Row(Nx, c))
        ensures gridPhi.grid[c] == g2[c]
      {
        ColRowRange(Nx, Ny, c);
        assert Cell(Nx, Ny, gridPhi.grid[..], Col(Nx, c), Row(Nx, c)) == Cell(Nx, Ny, g2, Col(Nx, c), Row(Nx, c));
      }
    }

    /** `FixNeg(particle, i, j)`: lower `gridNeg` on the 2x2 block at (i, j) to the particle's value. */
    method FixNeg(p: Particle2D, i: int, j: int)
      requires ScratchGrids() && 0 <= i <= Nx && 0 <= j <= Ny
      modifies gridNeg.grid
      ensures gridNeg.grid[..] == FixBlock(Nx, Ny, old(gridNeg.grid[..]), p, sqrt, h, i, j, true)
    {
      ghost var g := gridNeg.grid[..];
      for dx := 0 to 2
        invariant gridNeg.grid[..] == BlockUpTo(Nx, Ny, g, p, sqrt, h, i, j, true, 2 * dx)
      {
        for dy := 0 to 2
          invariant gridNeg.grid[..] == BlockUpTo(Nx, Ny, g, p, sqrt, h, i, j, true, 2 * dx + dy)
        {
          BlockStep(Nx, Ny, g, p, sqrt, h, i, j, true, dx, dy);
          GIRange(Nx, Ny, i + dx, j + dy);
          var particlePhi := p.Phi(sqrt, Node(i + dx, j + dy), h);
          gridNeg.grid[GI(Nx, i + dx, j + dy)] := Min(particlePhi, gridNeg.grid[GI(Nx, i + dx, j + dy)]);
        }
      }
    }

    /** `FixPos(particle, i, j)`: raise `gridPos` on the 2x2 block at (i, j) to the particle's value. */
    method FixPos(p: Particle2D, i: int, j: int)
      requires ScratchGrids() && 0 <= i <= Nx && 0 <= j <= Ny
      modifies gridPos.grid
      ensures gridPos.grid[..] == FixBlock(Nx, Ny, old(gridPos.grid[..]), p, sqrt, h, i, j, false)
    {
      ghost var g := gridPos.grid[..];
      for dx := 0 to 2
        invariant gridPos.grid[..] == BlockUpTo(Nx, Ny, g, p, sqrt, h, i, j, false, 2 * dx)
      {
        for dy := 0 to 2
          invariant gridPos.grid[..] == BlockUpTo(Nx, Ny, g, p, sqrt, h, i, j, false, 2 * dx + dy)
        {
          BlockStep(Nx, Ny, g, p, sqrt, h, i, j, false, dx, dy);
          GIRange(Nx, Ny, i + dx, j + dy);
          var particlePhi := p.Phi(sqrt, Node(i + dx, j + dy), h);
          gridPos.grid[GI(Nx, i + dx, j + dy)] := Max(particlePhi, gridPos.grid[GI(Nx, i + dx, j + dy)]);
        }
      }
    }

    /**
     * `Fix(particles)`: correct the level set with the escaped particles.
     * Both scratch grids start as copies of the level set; each escaped
     * negative particle lowers `gridNeg`, each escaped positive one raises
     * `gridPos`; then every cell with i, j >= 1 takes the value of smaller
     * magnitude.
     */
    method Fix(ps: seq<Particle2D>)
      requires Valid() && Sampleable(Nx, Ny, ps)
      modifies gridPhi.grid, gridPos.grid, gridNeg.grid
      ensures gridPos.grid[..] == Corrected(Nx, Ny, old(gridPhi.grid[..]), ps, sqrt, h, false, |ps|)
      ensures gridNeg.grid[..] == Corrected(Nx, Ny, old(gridPhi.grid[..]), ps, sqrt, h, true, |ps|)
      ensures gridPhi.grid[..] == Fixed(Nx, Ny, old(gridPhi.grid[..]), ps, sqrt, h)
    {
      ghost var phi := gridPhi.grid[..];
      gridPos.Assign(gridPhi);
      gridNeg.Assign(gridPhi);
      assert phi[..size] == phi;
      CorrectScratch(ps);
      MergeScratch();
    }

    /** The particle loop of `Fix`: the escaped particles correct the two scratch grids. */
    method CorrectScratch(ps: seq<Particle2D>)
      requires ScratchGrids()
      requires CorrectedUpTo(Nx, Ny, gridPhi.grid[..], gridPos.grid[..], gridNeg.grid[..], ps, sqrt, h, 0)
      modifies gridPos.grid, gridNeg.grid
      ensures CorrectedUpTo(Nx, Ny, gridPhi.grid[..], gridPos.grid[..], gridNeg.grid[..], ps, sqrt, h, |ps|)
    {
      var k := 0;
      while k < |ps|
        modifies gridPos.grid, gridNeg.grid
        invariant 0 <= k <= |ps|
        invariant CorrectedUpTo(Nx, Ny, gridPhi.grid[..], gridPos.grid[..], gridNeg.grid[..], ps, sqrt, h, k)
      {
        CorrectNext(ps, k);
        k := k + 1;
      }
    }

    /** One turn of the particle loop of `Fix`: particle k corrects the two scratch grids. */
    method CorrectNext(ps: seq<Particle2D>, k: nat)
      requires ScratchGrids() && k < |ps|
      requires CorrectedUpTo(Nx, Ny, gridPhi.grid[..], gridPos.grid[..], gridNeg.grid[..], ps, sqrt, h, k)
      modifies gridPos.grid, gridNeg.grid
      ensures CorrectedUpTo(Nx, Ny, gridPhi.grid[..], gridPos.grid[..], gridNeg.grid[..], ps, sqrt, h, k + 1)
    {
      assert InSampleRange(Nx, Ny, ps[k].position);
      CorrectWith(ps[k]);
    }

    /** The body of the particle loop of `Fix` for one particle. */
    method CorrectWith(p: Particle2D)
      requires ScratchGrids() && InSampleRange(Nx, Ny, p.position)
      modifies gridPos.grid, gridNeg.grid
      ensures gridNeg.grid[..] == CorrectOnce(Nx, Ny, gridPhi.grid[..], old(gridNeg.grid[..]), p, sqrt, h, true)
      ensures gridPos.grid[..] == CorrectOnce(Nx, Ny, gridPhi.grid[..], old(gridPos.grid[..]), p, sqrt, h, false)
    {
      var pos := p.GetPosition();
      var phiAt := LinearSample(Nx, Ny, gridPhi.grid[..], pos);
      var sign := p.Sign();
      if phiAt * sign as real < 0.0 {
        if sign < 0 {
          FixNeg(p, Trunc(pos.x), Trunc(pos.y));
        } else {
          FixPos(p, Trunc(pos.x), Trunc(pos.y));
        }
      }
    }

    /** The merge loop of `Fix` over i in 1..Nx+1 and j in 1..Ny+1. */
    method MergeScratch()
      requires ScratchGrids()
      modifies gridPhi.grid
      ensures gridPhi.grid[..] == Merge(Nx, Ny, old(gridPhi.grid[..]), gridPos.grid[..], gridNeg.grid[..])
    {
      ghost var phi := gridPhi.grid[..];
      var j := 1;
      while j < Ny + 2
        invariant 1 <= j <= Ny + 2
        invariant MergedUpTo(Nx, Ny, phi, gridPos.grid[..], gridNeg.grid[..], gridPhi.grid[..], 1, j)
      {
        var i := 1;
        while i < Nx + 2
          invariant 1 <= i <= Nx + 2
          invariant MergedUpTo(Nx, Ny, phi, gridPos.grid[..], gridNeg.grid[..], gridPhi.grid[..], i, j)
        {
          MergeStep(Nx, Ny, phi, gridPos.grid[..], gridNeg.grid[..], gridPhi.grid[..], i, j);
          GIRange(Nx, Ny, i, j);
          var phiPos := gridPos.grid[GI(Nx, i, j)];
          var phiNeg := gridNeg.grid[GI(Nx, i, j)];
          gridPhi.grid[GI(Nx, i, j)] := if Abs(phiPos) < Abs(phiNeg) then phiPos else phiNeg;
          i := i + 1;
        }
        MergeRow(Nx, Ny, phi, gridPos.grid[..], gridNeg.grid[..], gridPhi.grid[..], j);
        j := j + 1;
      }
      MergeDone(Nx, Ny, phi, gridPos.grid[..], gridNeg.grid[..], gridPhi.grid[..]);
    }
  }
}
