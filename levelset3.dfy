/**
 * The 3D level set (`LevelSet`): the signed distance field `gridPhi` on the
 * padded (Nx+2) x (Ny+2) x (Nz+2) grid, advanced by a first-order
 * semi-Lagrangian step into `gridTmp`, reinitialized by a fast-march object
 * handed in by the caller, and corrected by the escaped marker particles
 * through the two scratch grids `gridPos` and `gridNeg`.
 *
 * The cell loops run over the interior 1..N of each axis (`FOR_LS`) and the
 * merge loop over 1..N+1 (`FOR_ALL_LS`), with N the level set's own sizes.
 * The sampler `SAMPLEPHI` is either `LinearSample` or `CubicSample`; the
 * field `cubic` says which.
 *
 * The dimension-independent rules (departure index, interpolation weight,
 * the min/max correction, the merge rule and the clamped cubic stencil) are
 * the ones of the 2D level set, module `LevelSet2`.
 */
module LevelSet3 {
  import opened Numerics
  import opened Vector3
  import opened Grid3
  import opened FastMarch3
  import opened Particle3
  import LS2 = LevelSet2

  // ------------------------------------------------------------ sampling

  /**
   * The points the samplers can interpolate at: the 2x2x2 stencil starting
   * at (int(x), int(y), int(z)) must lie on the padded grid.
   */
  predicate InSampleRange(Nx: nat, Ny: nat, Nz: nat, p: Vector)
  {
    0.0 <= p.x < (Nx + 1) as real && 0.0 <= p.y < (Ny + 1) as real && 0.0 <= p.z < (Nz + 1) as real
  }

  /** `LinearSample(pos)`: trilinear interpolation in the cell containing pos. */
  function LinearSample(Nx: nat, Ny: nat, Nz: nat, g: seq<real>, p: Vector): real
    requires |g| == Size3(Nx, Ny, Nz) && InSampleRange(Nx, Ny, Nz, p)
  {
    var i0 := Trunc(p.x);
    var j0 := Trunc(p.y);
    var k0 := Trunc(p.z);
    var xlerp := p.x - i0 as real;
    var ylerp := p.y - j0 as real;
    var zlerp := p.z - k0 as real;
    Lerp(zlerp,
         Lerp(ylerp, Lerp(xlerp, Cell3(Nx, Ny, Nz, g, i0, j0, k0), Cell3(Nx, Ny, Nz, g, i0 + 1, j0, k0)),
                     Lerp(xlerp, Cell3(Nx, Ny, Nz, g, i0, j0 + 1, k0), Cell3(Nx, Ny, Nz, g, i0 + 1, j0 + 1, k0))),
         Lerp(ylerp, Lerp(xlerp, Cell3(Nx, Ny, Nz, g, i0, j0, k0 + 1), Cell3(Nx, Ny, Nz, g, i0 + 1, j0, k0 + 1)),
                     Lerp(xlerp, Cell3(Nx, Ny, Nz, g, i0, j0 + 1, k0 + 1), Cell3(Nx, Ny, Nz, g, i0 + 1, j0 + 1, k0 + 1))))
  }

  /** At a grid node the trilinear sample is the stored cell value. */
  lemma LinearSampleAtNode(Nx: nat, Ny: nat, Nz: nat, g: seq<real>, i: nat, j: nat, k: nat)
    requires |g| == Size3(Nx, Ny, Nz) && i <= Nx && j <= Ny && k <= Nz
    ensures LinearSample(Nx, Ny, Nz, g, Node(i, j, k)) == Cell3(Nx, Ny, Nz, g, i, j, k)
  {
    assert Trunc(i as real) == i && Trunc(j as real) == j && Trunc(k as real) == k;
  }

  /** A sample of a field bounded by [lo, hi] lies in [lo, hi]. */
  lemma LinearSampleBounded(Nx: nat, Ny: nat, Nz: nat, g: seq<real>, p: Vector, lo: real, hi: real)
    requires |g| == Size3(Nx, Ny, Nz) && InSampleRange(Nx, Ny, Nz, p)
    requires forall a, b, c {:trigger Cell3(Nx, Ny, Nz, g, a, b, c)} :: InGrid3(Nx, Ny, Nz, a, b, c) ==>
      lo <= Cell3(Nx, Ny, Nz, g, a, b, c) <= hi
    ensures lo <= LinearSample(Nx, Ny, Nz, g, p) <= hi
  {
    var i := Trunc(p.x);
    var j := Trunc(p.y);
    var k := Trunc(p.z);
    assert lo <= Cell3(Nx, Ny, Nz, g, i, j, k) <= hi && lo <= Cell3(Nx, Ny, Nz, g, i + 1, j, k) <= hi;
    assert lo <= Cell3(Nx, Ny, Nz, g, i, j + 1, k) <= hi && lo <= Cell3(Nx, Ny, Nz, g, i + 1, j + 1, k) <= hi;
    assert lo <= Cell3(Nx, Ny, Nz, g, i, j, k + 1) <= hi && lo <= Cell3(Nx, Ny, Nz, g, i + 1, j, k + 1) <= hi;
    assert lo <= Cell3(Nx, Ny, Nz, g, i, j + 1, k + 1) <= hi && lo <= Cell3(Nx, Ny, Nz, g, i + 1, j + 1, k + 1) <= hi;
  }

  /**
   * `CubicSample(pos)`: monotone cubic interpolation over the clamped 4x4x4
   * stencil, first along y, then along x, then along z.
   */
  function CubicSample(Nx: nat, Ny: nat, Nz: nat, g: seq<real>, p: Vector): real
    requires |g| == Size3(Nx, Ny, Nz) && InSampleRange(Nx, Ny, Nz, p)
  {
    var xi := LS2.CubicIndices(Nx, p.x);
    var yj := LS2.CubicIndices(Ny, p.y);
    var (k0, k1, k2, k3) := LS2.CubicIndices(Nz, p.z);
    var t := p.z - k1 as real;
    MCerp(t, CubicPlane(Nx, Ny, Nz, g, p, xi, yj, k0), CubicPlane(Nx, Ny, Nz, g, p, xi, yj, k1),
             CubicPlane(Nx, Ny, Nz, g, p, xi, yj, k2), CubicPlane(Nx, Ny, Nz, g, p, xi, yj, k3))
  }

  /** The stencil indices one axis can take: inside [0, n + 1]. */
  predicate IndicesIn(n: nat, idx: (int, int, int, int))
  {
    0 <= idx.0 <= n + 1 && 0 <= idx.1 <= n + 1 && 0 <= idx.2 <= n + 1 && 0 <= idx.3 <= n + 1
  }

  /** One plane k of the cubic stencil, interpolated along y and then x; r = x - i1. */
  function CubicPlane(Nx: nat, Ny: nat, Nz: nat, g: seq<real>, p: Vector,
                      xi: (int, int, int, int), yj: (int, int, int, int), k: int): real
    requires |g| == Size3(Nx, Ny, Nz) && IndicesIn(Nx, xi) && IndicesIn(Ny, yj) && 0 <= k <= Nz + 1
  {
    var r := p.x - xi.1 as real;
    var s := p.y - yj.1 as real;
    MCerp(r, CubicColumn(Nx, Ny, Nz, g, s, xi.0, yj, k), CubicColumn(Nx, Ny, Nz, g, s, xi.1, yj, k),
             CubicColumn(Nx, Ny, Nz, g, s, xi.2, yj, k), CubicColumn(Nx, Ny, Nz, g, s, xi.3, yj, k))
  }

  /** One column (i, k) of the cubic stencil, interpolated along y. */
  function CubicColumn(Nx: nat, Ny: nat, Nz: nat, g: seq<real>, s: real, i: int, yj: (int, int, int, int), k: int): real
    requires |g| == Size3(Nx, Ny, Nz) && 0 <= i <= Nx + 1 && IndicesIn(Ny, yj) && 0 <= k <= Nz + 1
  {
    MCerp(s, Cell3(Nx, Ny, Nz, g, i, yj.0, k), Cell3(Nx, Ny, Nz, g, i, yj.1, k),
             Cell3(Nx, Ny, Nz, g, i, yj.2, k), Cell3(Nx, Ny, Nz, g, i, yj.3, k))
  }

  /** At a grid node the cubic sample is the stored cell value, as the trilinear one xi. */
  lemma CubicSampleAtNode(Nx: nat, Ny: nat, Nz: nat, g: seq<real>, i: nat, j: nat, k: nat)
    requires |g| == Size3(Nx, Ny, Nz) && i <= Nx && j <= Ny && k <= Nz
    ensures CubicSample(Nx, Ny, Nz, g, Node(i, j, k)) == Cell3(Nx, Ny, Nz, g, i, j, k)
    ensures CubicSample(Nx, Ny, Nz, g, Node(i, j, k)) == LinearSample(Nx, Ny, Nz, g, Node(i, j, k))
  {
    assert Trunc(i as real) == i && Trunc(j as real) == j && Trunc(k as real) == k;
    var xi := LS2.CubicIndices(Nx, i as real);
    var yj := LS2.CubicIndices(Ny, j as real);
    assert CubicPlane(Nx, Ny, Nz, g, Node(i, j, k), xi, yj, k) == Cell3(Nx, Ny, Nz, g, i, j, k);
    LinearSampleAtNode(Nx, Ny, Nz, g, i, j, k);
  }

  /** `SAMPLEPHI(pos)`: the sampler the level set is built with. */
  function SamplePhi(cubic: bool, Nx: nat, Ny: nat, Nz: nat, g: seq<real>, p: Vector): real
    requires |g| == Size3(Nx, Ny, Nz) && InSampleRange(Nx, Ny, Nz, p)
  {
    if cubic then CubicSample(Nx, Ny, Nz, g, p) else LinearSample(Nx, Ny, Nz, g, p)
  }

  /** Whichever sampler is chosen, at a grid node it reads the stored cell value. */
  lemma SamplePhiAtNode(cubic: bool, Nx: nat, Ny: nat, Nz: nat, g: seq<real>, i: nat, j: nat, k: nat)
    requires |g| == Size3(Nx, Ny, Nz) && i <= Nx && j <= Ny && k <= Nz
    ensures SamplePhi(cubic, Nx, Ny, Nz, g, Node(i, j, k)) == Cell3(Nx, Ny, Nz, g, i, j, k)
  {
    CubicSampleAtNode(Nx, Ny, Nz, g, i, j, k);
  }

  // ------------------------------------------------ semi-Lagrangian step

  /**
   * `SemiLagrangianStep(x, y, z)`: the new value of an interior cell, given
   * the velocity u sampled at the cell. A cell whose value exceeds
   * SEMILAGRA_LIMIT keeps it (the test is one-sided: cells on the negative
   * side are always advected); otherwise the departure point, clamped so that its
   * stencil stays on the grid, is interpolated trilinearly between the eight
   * cells around it.
   */
  function StepValue(Nx: nat, Ny: nat, Nz: nat, phi: seq<real>, x: int, y: int, z: int, u: Vector,
                     dt: real, h: real, hInv: real): (v: real)
    requires |phi| == Size3(Nx, Ny, Nz) && IsInterior3(Nx, Ny, Nz, x, y, z)
    ensures Cell3(Nx, Ny, Nz, phi, x, y, z) > SEMILAGRA_LIMIT ==> v == Cell3(Nx, Ny, Nz, phi, x, y, z)
  {
    if Cell3(Nx, Ny, Nz, phi, x, y, z) > SEMILAGRA_LIMIT then Cell3(Nx, Ny, Nz, phi, x, y, z)
    else
      var r := LS2.Departure(x, u.x * dt * hInv, Nx);
      var s := LS2.Departure(y, u.y * dt * hInv, Ny);
      var t := LS2.Departure(z, u.z * dt * hInv, Nz);
      var a := LS2.Weight(x, r, h, u.x * dt, hInv);
      var b := LS2.Weight(y, s, h, u.y * dt, hInv);
      var c := LS2.Weight(z, t, h, u.z * dt, hInv);
      Interpolated(Nx, Ny, Nz, phi, r, s, t, a, b, c)
  }

  /** The trilinear combination of the eight cells of the stencil at (r, s, t) with weights a, b, c. */
  function Interpolated(Nx: nat, Ny: nat, Nz: nat, phi: seq<real>, r: int, s: int, t: int, a: real, b: real, c: real): real
    requires |phi| == Size3(Nx, Ny, Nz) && 0 <= r <= Nx && 0 <= s <= Ny && 0 <= t <= Nz
  {
    Trilinear(a, b, c,
              Cell3(Nx, Ny, Nz, phi, r + 1, s + 1, t + 1), Cell3(Nx, Ny, Nz, phi, r, s + 1, t + 1),
              Cell3(Nx, Ny, Nz, phi, r + 1, s, t + 1), Cell3(Nx, Ny, Nz, phi, r + 1, s + 1, t),
              Cell3(Nx, Ny, Nz, phi, r, s, t + 1), Cell3(Nx, Ny, Nz, phi, r, s + 1, t),
              Cell3(Nx, Ny, Nz, phi, r + 1, s, t), Cell3(Nx, Ny, Nz, phi, r, s, t))
  }

  /**
   * The trilinear combination with weights a, b, c along x, y, z; fXYZ is
   * the corner value, 1 meaning the upper node of that axis.
   */
  function Trilinear(a: real, b: real, c: real, f111: real, f011: real, f101: real, f110: real,
                     f001: real, f010: real, f100: real, f000: real): real
  {
    a * b * c * f111 + (1.0 - a) * b * c * f011 + a * (1.0 - b) * c * f101 + a * b * (1.0 - c) * f110 +
    (1.0 - a) * (1.0 - b) * c * f001 + (1.0 - a) * b * (1.0 - c) * f010 + a * (1.0 - b) * (1.0 - c) * f100 +
    (1.0 - a) * (1.0 - b) * (1.0 - c) * f000
  }

  /** The eight trilinear weights sum to one, so eight equal values combine to that value. */
  lemma TrilinearOfConstant(a: real, b: real, c: real, v: real)
    ensures Trilinear(a, b, c, v, v, v, v, v, v, v, v) == v
  {
    var ab := a * b;
    assert ab * c + (1.0 - a) * b * c + a * (1.0 - b) * c + (1.0 - a) * (1.0 - b) * c == c;
    assert ab * (1.0 - c) + (1.0 - a) * b * (1.0 - c) + a * (1.0 - b) * (1.0 - c) + (1.0 - a) * (1.0 - b) * (1.0 - c) == 1.0 - c;
  }

  /** With no velocity the departure point is the cell itself. */
  lemma StepStill(Nx: nat, Ny: nat, Nz: nat, phi: seq<real>, x: int, y: int, z: int, dt: real, h: real, hInv: real)
    requires |phi| == Size3(Nx, Ny, Nz) && IsInterior3(Nx, Ny, Nz, x, y, z)
    ensures StepValue(Nx, Ny, Nz, phi, x, y, z, Zero, dt, h, hInv) == Cell3(Nx, Ny, Nz, phi, x, y, z)
  {
    assert 0.0 * dt * hInv == 0.0 && 0.0 * dt == 0.0;
    if Cell3(Nx, Ny, Nz, phi, x, y, z) <= SEMILAGRA_LIMIT {
      assert LS2.Weight(x, x, h, 0.0, hInv) == 0.0;
      assert LS2.Weight(y, y, h, 0.0, hInv) == 0.0;
      assert LS2.Weight(z, z, h, 0.0, hInv) == 0.0;
      assert Interpolated(Nx, Ny, Nz, phi, x, y, z, 0.0, 0.0, 0.0) == Cell3(Nx, Ny, Nz, phi, x, y, z);
    }
  }

  /** The interpolation of a constant field is that constant. */
  lemma InterpolatedConstant(Nx: nat, Ny: nat, Nz: nat, phi: seq<real>, r: int, s: int, t: int, a: real, b: real, c: real, v: real)
    requires |phi| == Size3(Nx, Ny, Nz) && 0 <= r <= Nx && 0 <= s <= Ny && 0 <= t <= Nz
    requires forall i, j, k {:trigger Cell3(Nx, Ny, Nz, phi, i, j, k)} :: InGrid3(Nx, Ny, Nz, i, j, k) ==>
      Cell3(Nx, Ny, Nz, phi, i, j, k) == v
    ensures Interpolated(Nx, Ny, Nz, phi, r, s, t, a, b, c) == v
  {
    assert Cell3(Nx, Ny, Nz, phi, r + 1, s + 1, t + 1) == Cell3(Nx, Ny, Nz, phi, r, s + 1, t + 1) == v;
    assert Cell3(Nx, Ny, Nz, phi, r + 1, s, t + 1) == Cell3(Nx, Ny, Nz, phi, r + 1, s + 1, t) == v;
    assert Cell3(Nx, Ny, Nz, phi, r, s, t + 1) == Cell3(Nx, Ny, Nz, phi, r, s + 1, t) == v;
    assert Cell3(Nx, Ny, Nz, phi, r + 1, s, t) == Cell3(Nx, Ny, Nz, phi, r, s, t) == v;
    TrilinearOfConstant(a, b, c, v);
  }

  /** A constant field is kept whatever the velocity. */
  lemma StepConstant(Nx: nat, Ny: nat, Nz: nat, phi: seq<real>, x: int, y: int, z: int, u: Vector,
                     dt: real, h: real, hInv: real, v: real)
    requires |phi| == Size3(Nx, Ny, Nz) && IsInterior3(Nx, Ny, Nz, x, y, z)
    requires forall a, b, c {:trigger Cell3(Nx, Ny, Nz, phi, a, b, c)} :: InGrid3(Nx, Ny, Nz, a, b, c) ==>
      Cell3(Nx, Ny, Nz, phi, a, b, c) == v
    ensures StepValue(Nx, Ny, Nz, phi, x, y, z, u, dt, h, hInv) == v
  {
    if Cell3(Nx, Ny, Nz, phi, x, y, z) <= SEMILAGRA_LIMIT {
      var r := LS2.Departure(x, u.x * dt * hInv, Nx);
      var s := LS2.Departure(y, u.y * dt * hInv, Ny);
      var t := LS2.Departure(z, u.z * dt * hInv, Nz);
      InterpolatedConstant(Nx, Ny, Nz, phi, r, s, t, LS2.Weight(x, r, h, u.x * dt, hInv),
                           LS2.Weight(y, s, h, u.y * dt, hInv), LS2.Weight(z, t, h, u.z * dt, hInv), v);
    }
  }

  /** The grid node (a, b, c) as a point. */
  function Node(a: int, b: int, c: int): Vector
  {
    Vector(a as real, b as real, c as real)
  }

  /**
   * The `FOR_LS` loop of `Update`: every interior cell of `gridTmp` gets its
   * step value, sampled with the velocity at the cell; the ghost cells keep
   * what `gridTmp` held.
   */
  function Advect(Nx: nat, Ny: nat, Nz: nat, phi: seq<real>, tmp: seq<real>, vel: Vector -> Vector,
                  dt: real, h: real, hInv: real): (r: seq<real>)
    requires |phi| == Size3(Nx, Ny, Nz) && |tmp| == Size3(Nx, Ny, Nz)
    ensures |r| == |tmp|
  {
    seq(|tmp|, e requires 0 <= e < |tmp| =>
      if IsInterior3(Nx, Ny, Nz, I3(Nx, e), J3(Nx, Ny, e), K3(Nx, Ny, e))
      then StepValue(Nx, Ny, Nz, phi, I3(Nx, e), J3(Nx, Ny, e), K3(Nx, Ny, e),
                     vel(Node(I3(Nx, e), J3(Nx, Ny, e), K3(Nx, Ny, e))), dt, h, hInv)
      else tmp[e])
  }

  /** `Advect`, cell by cell. */
  lemma AdvectCells(Nx: nat, Ny: nat, Nz: nat, phi: seq<real>, tmp: seq<real>, vel: Vector -> Vector,
                    dt: real, h: real, hInv: real)
    requires |phi| == Size3(Nx, Ny, Nz) && |tmp| == Size3(Nx, Ny, Nz)
    ensures forall i, j, k {:trigger Cell3(Nx, Ny, Nz, Advect(Nx, Ny, Nz, phi, tmp, vel, dt, h, hInv), i, j, k)} ::
      InGrid3(Nx, Ny, Nz, i, j, k) ==>
      Cell3(Nx, Ny, Nz, Advect(Nx, Ny, Nz, phi, tmp, vel, dt, h, hInv), i, j, k) ==
        if IsInterior3(Nx, Ny, Nz, i, j, k) then StepValue(Nx, Ny, Nz, phi, i, j, k, vel(Node(i, j, k)), dt, h, hInv)
        else Cell3(Nx, Ny, Nz, tmp, i, j, k)
  {
    forall i, j, k {:trigger Cell3(Nx, Ny, Nz, Advect(Nx, Ny, Nz, phi, tmp, vel, dt, h, hInv), i, j, k)} |
      InGrid3(Nx, Ny, Nz, i, j, k)
      ensures Cell3(Nx, Ny, Nz, Advect(Nx, Ny, Nz, phi, tmp, vel, dt, h, hInv), i, j, k) ==
        if IsInterior3(Nx, Ny, Nz, i, j, k) then StepValue(Nx, Ny, Nz, phi, i, j, k, vel(Node(i, j, k)), dt, h, hInv)
        else Cell3(Nx, Ny, Nz, tmp, i, j, k)
    {
      GI3Range(Nx, Ny, Nz, i, j, k);
    }
  }

  /**
   * What `Update` leaves in `gridPhi`: ghost cells hold the signed-distance
   * sentinel 3*HH, and with no velocity every interior cell keeps its value.
   */
  lemma UpdateResult(Nx: nat, Ny: nat, Nz: nat, phi: seq<real>, tmp: seq<real>, vel: Vector -> Vector,
                     dt: real, h: real, hInv: real)
    requires |phi| == Size3(Nx, Ny, Nz) && |tmp| == Size3(Nx, Ny, Nz)
    ensures var r := SignedDist3(Nx, Ny, Nz, Advect(Nx, Ny, Nz, phi, tmp, vel, dt, h, hInv));
      forall i, j, k {:trigger Cell3(Nx, Ny, Nz, r, i, j, k)} :: IsGhost3(Nx, Ny, Nz, i, j, k) ==>
        Cell3(Nx, Ny, Nz, r, i, j, k) == 3.0 * HH as real
    ensures var r := SignedDist3(Nx, Ny, Nz, Advect(Nx, Ny, Nz, phi, tmp, vel, dt, h, hInv));
      (forall p {:trigger vel(p)} :: vel(p) == Zero) ==>
      forall i, j, k {:trigger Cell3(Nx, Ny, Nz, r, i, j, k)} :: IsInterior3(Nx, Ny, Nz, i, j, k) ==>
        Cell3(Nx, Ny, Nz, r, i, j, k) == Cell3(Nx, Ny, Nz, phi, i, j, k)
  {
    var ad := Advect(Nx, Ny, Nz, phi, tmp, vel, dt, h, hInv);
    var r := SignedDist3(Nx, Ny, Nz, ad);
    SignedDist3Cells(Nx, Ny, Nz, ad);
    AdvectCells(Nx, Ny, Nz, phi, tmp, vel, dt, h, hInv);
    if forall p {:trigger vel(p)} :: vel(p) == Zero {
      forall i, j, k {:trigger Cell3(Nx, Ny, Nz, r, i, j, k)} | IsInterior3(Nx, Ny, Nz, i, j, k)
        ensures Cell3(Nx, Ny, Nz, r, i, j, k) == Cell3(Nx, Ny, Nz, phi, i, j, k)
      {
        assert vel(Node(i, j, k)) == Zero;
        StepStill(Nx, Ny, Nz, phi, i, j, k, dt, h, hInv);
      }
    }
  }

  // ---------------------------------------------------- particle correction

  /**
   * Whether cell (a, b, c) is a block cell written in the first t steps
   * (step 4*dx + 2*dy + dz) of the 2x2x2 loops at (i, j, k).
   */
  predicate InBlock(i: int, j: int, k: int, a: int, b: int, c: int, t: int)
  {
    i <= a <= i + 1 && j <= b <= j + 1 && k <= c <= k + 1 && 4 * (a - i) + 2 * (b - j) + (c - k) < t
  }

  /**
   * The 2x2x2 block at (i, j, k) after the first n steps of the `dx`/`dy`/`dz`
   * loops of `FixNeg` (lower: each cell becomes the min of itself and the
   * particle's value at the node) or `FixPos` (the max).
   */
  function BlockUpTo(Nx: nat, Ny: nat, Nz: nat, g: seq<real>, p: Particle, sqrt: real -> real, h: real,
                     i: int, j: int, k: int, lower: bool, n: int): (r: seq<real>)
    reads p
    requires |g| == Size3(Nx, Ny, Nz)
    ensures |r| == |g|
  {
    seq(|g|, e requires 0 <= e < |g| reads p =>
      if InBlock(i, j, k, I3(Nx, e), J3(Nx, Ny, e), K3(Nx, Ny, e), n)
      then LS2.Correct(lower, p.Phi(sqrt, Node(I3(Nx, e), J3(Nx, Ny, e), K3(Nx, Ny, e)), h), g[e])
      else g[e])
  }

  /** The whole block. */
  function FixBlock(Nx: nat, Ny: nat, Nz: nat, g: seq<real>, p: Particle, sqrt: real -> real, h: real,
                    i: int, j: int, k: int, lower: bool): (r: seq<real>)
    reads p
    requires |g| == Size3(Nx, Ny, Nz)
    ensures |r| == |g|
  {
    BlockUpTo(Nx, Ny, Nz, g, p, sqrt, h, i, j, k, lower, 8)
  }

  /** `BlockUpTo`, cell by cell. */
  lemma BlockCells(Nx: nat, Ny: nat, Nz: nat, g: seq<real>, p: Particle, sqrt: real -> real, h: real,
                   i: int, j: int, k: int, lower: bool, n: int)
    requires |g| == Size3(Nx, Ny, Nz)
    ensures forall a, b, c {:trigger Cell3(Nx, Ny, Nz, BlockUpTo(Nx, Ny, Nz, g, p, sqrt, h, i, j, k, lower, n), a, b, c)} ::
      InGrid3(Nx, Ny, Nz, a, b, c) ==>
      Cell3(Nx, Ny, Nz, BlockUpTo(Nx, Ny, Nz, g, p, sqrt, h, i, j, k, lower, n), a, b, c) ==
        if InBlock(i, j, k, a, b, c, n) then LS2.Correct(lower, p.Phi(sqrt, Node(a, b, c), h), Cell3(Nx, Ny, Nz, g, a, b, c))
        else Cell3(Nx, Ny, Nz, g, a, b, c)
  {
    forall a, b, c {:trigger Cell3(Nx, Ny, Nz, BlockUpTo(Nx, Ny, Nz, g, p, sqrt, h, i, j, k, lower, n), a, b, c)} |
      InGrid3(Nx, Ny, Nz, a, b, c)
      ensures Cell3(Nx, Ny, Nz, BlockUpTo(Nx, Ny, Nz, g, p, sqrt, h, i, j, k, lower, n), a, b, c) ==
        if InBlock(i, j, k, a, b, c, n) then LS2.Correct(lower, p.Phi(sqrt, Node(a, b, c), h), Cell3(Nx, Ny, Nz, g, a, b, c))
        else Cell3(Nx, Ny, Nz, g, a, b, c)
    {
      GI3Range(Nx, Ny, Nz, a, b, c);
    }
  }

  /** One more step of the 2x2x2 loops writes exactly the next block cell. */
  lemma BlockStep(Nx: nat, Ny: nat, Nz: nat, g: seq<real>, p: Particle, sqrt: real -> real, h: real,
                  i: int, j: int, k: int, lower: bool, dx: int, dy: int, dz: int)
    requires |g| == Size3(Nx, Ny, Nz) && 0 <= dx < 2 && 0 <= dy < 2 && 0 <= dz < 2
    requires InGrid3(Nx, Ny, Nz, i + dx, j + dy, k + dz)
    ensures var s := BlockUpTo(Nx, Ny, Nz, g, p, sqrt, h, i, j, k, lower, 4 * dx + 2 * dy + dz);
      BlockUpTo(Nx, Ny, Nz, g, p, sqrt, h, i, j, k, lower, 4 * dx + 2 * dy + dz + 1) ==
        SetCell3(Nx, Ny, Nz, s, i + dx, j + dy, k + dz,
                 LS2.Correct(lower, p.Phi(sqrt, Node(i + dx, j + dy, k + dz), h), Cell3(Nx, Ny, Nz, s, i + dx, j + dy, k + dz)))
  {
    var t := 4 * dx + 2 * dy + dz;
    var s := BlockUpTo(Nx, Ny, Nz, g, p, sqrt, h, i, j, k, lower, t);
    var v := LS2.Correct(lower, p.Phi(sqrt, Node(i + dx, j + dy, k + dz), h), Cell3(Nx, Ny, Nz, s, i + dx, j + dy, k + dz));
    BlockCells(Nx, Ny, Nz, g, p, sqrt, h, i, j, k, lower, t);
    BlockCells(Nx, Ny, Nz, g, p, sqrt, h, i, j, k, lower, t + 1);
    Cells3Equal(Nx, Ny, Nz, BlockUpTo(Nx, Ny, Nz, g, p, sqrt, h, i, j, k, lower, t + 1),
                SetCell3(Nx, Ny, Nz, s, i + dx, j + dy, k + dz, v));
  }

  /**
   * `FixNeg` only lowers, `FixPos` only raises, and both touch only the
   * 2x2x2 block at (i, j, k).
   */
  lemma FixBlockTouches(Nx: nat, Ny: nat, Nz: nat, g: seq<real>, p: Particle, sqrt: real -> real, h: real,
                        i: int, j: int, k: int, lower: bool)
    requires |g| == Size3(Nx, Ny, Nz)
    ensures var r := FixBlock(Nx, Ny, Nz, g, p, sqrt, h, i, j, k, lower);
      (lower ==> LS2.Below(r, g)) && (!lower ==> LS2.Below(g, r))
    ensures var r := FixBlock(Nx, Ny, Nz, g, p, sqrt, h, i, j, k, lower);
      forall a, b, c {:trigger Cell3(Nx, Ny, Nz, r, a, b, c)} ::
        InGrid3(Nx, Ny, Nz, a, b, c) && !(i <= a <= i + 1 && j <= b <= j + 1 && k <= c <= k + 1) ==>
        Cell3(Nx, Ny, Nz, r, a, b, c) == Cell3(Nx, Ny, Nz, g, a, b, c)
  {
    BlockCells(Nx, Ny, Nz, g, p, sqrt, h, i, j, k, lower, 8);
  }

  /** The particles `Fix` can handle: each at a position the samplers can read. */
  predicate Sampleable(Nx: nat, Ny: nat, Nz: nat, ps: seq<Particle>)
    reads ps
  {
    forall n {:trigger ps[n]} :: 0 <= n < |ps| ==> InSampleRange(Nx, Ny, Nz, ps[n].position)
  }

  /** A particle has escaped when the level set at its position has the opposite sign. */
  predicate Escaped(cubic: bool, Nx: nat, Ny: nat, Nz: nat, phi: seq<real>, p: Particle)
    reads p
    requires |phi| == Size3(Nx, Ny, Nz) && InSampleRange(Nx, Ny, Nz, p.position)
  {
    SamplePhi(cubic, Nx, Ny, Nz, phi, p.position) * p.sign as real < 0.0
  }

  /**
   * `gridNeg` (lower) or `gridPos` after the first n particles of `Fix`:
   * every escaped negative particle corrects `gridNeg` on the block at its
   * truncated position, every escaped positive one corrects `gridPos`.
   */
  function Corrected(cubic: bool, Nx: nat, Ny: nat, Nz: nat, phi: seq<real>, ps: seq<Particle>,
                     sqrt: real -> real, h: real, lower: bool, n: nat): (r: seq<real>)
    reads ps
    requires |phi| == Size3(Nx, Ny, Nz) && n <= |ps| && Sampleable(Nx, Ny, Nz, ps)
    ensures |r| == |phi|
  {
    if n == 0 then phi
    else CorrectOnce(cubic, Nx, Ny, Nz, phi, Corrected(cubic, Nx, Ny, Nz, phi, ps, sqrt, h, lower, n - 1),
                     ps[n - 1], sqrt, h, lower)
  }

  /**
   * One particle of the loop: an escaped particle of the grid's side
   * corrects the block at its truncated position.
   */
  function CorrectOnce(cubic: bool, Nx: nat, Ny: nat, Nz: nat, phi: seq<real>, g: seq<real>, p: Particle,
                       sqrt: real -> real, h: real, lower: bool): (r: seq<real>)
    reads p
    requires |phi| == Size3(Nx, Ny, Nz) && |g| == Size3(Nx, Ny, Nz) && InSampleRange(Nx, Ny, Nz, p.position)
    ensures |r| == |g|
  {
    if Escaped(cubic, Nx, Ny, Nz, phi, p) && (p.sign < 0 <==> lower)
    then FixBlock(Nx, Ny, Nz, g, p, sqrt, h, Trunc(p.position.x), Trunc(p.position.y), Trunc(p.position.z), lower)
    else g
  }

  /** The corrections only ever lower `gridNeg` and raise `gridPos`. */
  lemma {:induction false} CorrectedMonotone(cubic: bool, Nx: nat, Ny: nat, Nz: nat, phi: seq<real>, ps: seq<Particle>,
                                             sqrt: real -> real, h: real, lower: bool, n: nat)
    requires |phi| == Size3(Nx, Ny, Nz) && n <= |ps| && Sampleable(Nx, Ny, Nz, ps)
    ensures lower ==> LS2.Below(Corrected(cubic, Nx, Ny, Nz, phi, ps, sqrt, h, lower, n), phi)
    ensures !lower ==> LS2.Below(phi, Corrected(cubic, Nx, Ny, Nz, phi, ps, sqrt, h, lower, n))
  {
    if n > 0 {
      CorrectedMonotone(cubic, Nx, Ny, Nz, phi, ps, sqrt, h, lower, n - 1);
      var g := Corrected(cubic, Nx, Ny, Nz, phi, ps, sqrt, h, lower, n - 1);
      var p := ps[n - 1];
      assert InSampleRange(Nx, Ny, Nz, p.position);
      if Escaped(cubic, Nx, Ny, Nz, phi, p) && (p.sign < 0 <==> lower) {
        FixBlockTouches(Nx, Ny, Nz, g, p, sqrt, h, Trunc(p.position.x), Trunc(p.position.y), Trunc(p.position.z), lower);
      }
    }
  }

  /** Without an escaped particle neither scratch grid changes. */
  lemma {:induction false} CorrectedNoEscape(cubic: bool, Nx: nat, Ny: nat, Nz: nat, phi: seq<real>, ps: seq<Particle>,
                                             sqrt: real -> real, h: real, lower: bool, n: nat)
    requires |phi| == Size3(Nx, Ny, Nz) && n <= |ps| && Sampleable(Nx, Ny, Nz, ps)
    requires forall m {:trigger ps[m]} :: 0 <= m < n ==> !Escaped(cubic, Nx, Ny, Nz, phi, ps[m])
    ensures Corrected(cubic, Nx, Ny, Nz, phi, ps, sqrt, h, lower, n) == phi
  {
    if n > 0 {
      CorrectedNoEscape(cubic, Nx, Ny, Nz, phi, ps, sqrt, h, lower, n - 1);
      assert !Escaped(cubic, Nx, Ny, Nz, phi, ps[n - 1]);
    }
  }

  /**
   * The merge loop of `Fix` (`FOR_ALL_LS`, each of i, j, k from 1 to N+1):
   * those cells get the merged value; the planes i = 0, j = 0 and k = 0
   * keep phi.
   */
  function Merge(Nx: nat, Ny: nat, Nz: nat, phi: seq<real>, pos: seq<real>, neg: seq<real>): (r: seq<real>)
    requires |phi| == Size3(Nx, Ny, Nz) && |pos| == |phi| && |neg| == |phi|
    ensures |r| == |phi|
  {
    seq(|phi|, e requires 0 <= e < |phi| =>
      if 1 <= I3(Nx, e) && 1 <= J3(Nx, Ny, e) && 1 <= K3(Nx, Ny, e) then LS2.Pick(pos[e], neg[e]) else phi[e])
  }

  /** Whether the merge loop reaches cell (a, b, c). */
  predicate Merged(a: int, b: int, c: int)
  {
    1 <= a && 1 <= b && 1 <= c
  }

  /** `Merge`, cell by cell. */
  lemma MergeCells(Nx: nat, Ny: nat, Nz: nat, phi: seq<real>, pos: seq<real>, neg: seq<real>)
    requires |phi| == Size3(Nx, Ny, Nz) && |pos| == |phi| && |neg| == |phi|
    ensures forall a, b, c {:trigger Cell3(Nx, Ny, Nz, Merge(Nx, Ny, Nz, phi, pos, neg), a, b, c)} ::
      InGrid3(Nx, Ny, Nz, a, b, c) ==>
      Cell3(Nx, Ny, Nz, Merge(Nx, Ny, Nz, phi, pos, neg), a, b, c) ==
        if Merged(a, b, c) then LS2.Pick(Cell3(Nx, Ny, Nz, pos, a, b, c), Cell3(Nx, Ny, Nz, neg, a, b, c))
        else Cell3(Nx, Ny, Nz, phi, a, b, c)
  {
    forall a, b, c {:trigger Cell3(Nx, Ny, Nz, Merge(Nx, Ny, Nz, phi, pos, neg), a, b, c)} | InGrid3(Nx, Ny, Nz, a, b, c)
      ensures Cell3(Nx, Ny, Nz, Merge(Nx, Ny, Nz, phi, pos, neg), a, b, c) ==
        if Merged(a, b, c) then LS2.Pick(Cell3(Nx, Ny, Nz, pos, a, b, c), Cell3(Nx, Ny, Nz, neg, a, b, c))
        else Cell3(Nx, Ny, Nz, phi, a, b, c)
    {
      GI3Range(Nx, Ny, Nz, a, b, c);
    }
  }

  /** The level set `Fix` leaves: the merge of the two corrected scratch grids. */
  function Fixed(cubic: bool, Nx: nat, Ny: nat, Nz: nat, phi: seq<real>, ps: seq<Particle>,
                 sqrt: real -> real, h: real): (r: seq<real>)
    reads ps
    requires |phi| == Size3(Nx, Ny, Nz) && Sampleable(Nx, Ny, Nz, ps)
    ensures |r| == |phi|
  {
    Merge(Nx, Ny, Nz, phi, Corrected(cubic, Nx, Ny, Nz, phi, ps, sqrt, h, false, |ps|),
          Corrected(cubic, Nx, Ny, Nz, phi, ps, sqrt, h, true, |ps|))
  }

  /** With no escaped particle `Fix` leaves the level set as it was. */
  lemma FixedNoEscape(cubic: bool, Nx: nat, Ny: nat, Nz: nat, phi: seq<real>, ps: seq<Particle>,
                      sqrt: real -> real, h: real)
    requires |phi| == Size3(Nx, Ny, Nz) && Sampleable(Nx, Ny, Nz, ps)
    requires forall m {:trigger ps[m]} :: 0 <= m < |ps| ==> !Escaped(cubic, Nx, Ny, Nz, phi, ps[m])
    ensures Fixed(cubic, Nx, Ny, Nz, phi, ps, sqrt, h) == phi
  {
    CorrectedNoEscape(cubic, Nx, Ny, Nz, phi, ps, sqrt, h, false, |ps|);
    CorrectedNoEscape(cubic, Nx, Ny, Nz, phi, ps, sqrt, h, true, |ps|);
    forall e | 0 <= e < |phi| ensures Merge(Nx, Ny, Nz, phi, phi, phi)[e] == phi[e] {
    }
  }

  /**
   * Every merged cell lies between the lowered and the raised correction,
   * and, where the merge loop runs, has the magnitude of the smaller one.
   */
  lemma FixedBetween(cubic: bool, Nx: nat, Ny: nat, Nz: nat, phi: seq<real>, ps: seq<Particle>,
                     sqrt: real -> real, h: real)
    requires |phi| == Size3(Nx, Ny, Nz) && Sampleable(Nx, Ny, Nz, ps)
    ensures var pos := Corrected(cubic, Nx, Ny, Nz, phi, ps, sqrt, h, false, |ps|);
      var neg := Corrected(cubic, Nx, Ny, Nz, phi, ps, sqrt, h, true, |ps|);
      var r := Fixed(cubic, Nx, Ny, Nz, phi, ps, sqrt, h);
      LS2.Below(neg, r) && LS2.Below(r, pos) &&
      forall e {:trigger r[e]} :: 0 <= e < |r| && Merged(I3(Nx, e), J3(Nx, Ny, e), K3(Nx, Ny, e)) ==>
        Abs(r[e]) <= Abs(pos[e]) && Abs(r[e]) <= Abs(neg[e])
  {
    CorrectedMonotone(cubic, Nx, Ny, Nz, phi, ps, sqrt, h, false, |ps|);
    CorrectedMonotone(cubic, Nx, Ny, Nz, phi, ps, sqrt, h, true, |ps|);
  }

  // ------------------------------------------------- loop bookkeeping

  /**
   * The cells a k-j-i loop nest has passed at (i, j, k): planes below k, rows
   * of plane k below j, and row j of plane k left of i.
   */
  predicate Reached(i: int, j: int, k: int, a: int, b: int, c: int)
  {
    c < k || (c == k && (b < j || (b == j && a < i)))
  }

  /** The state of `gridTmp` inside `Update`'s loop at (i, j, k). */
  ghost predicate AdvectedUpTo(Nx: nat, Ny: nat, Nz: nat, phi: seq<real>, tmp: seq<real>, cur: seq<real>,
                               vel: Vector -> Vector, dt: real, h: real, hInv: real, i: int, j: int, k: int)
    requires |phi| == Size3(Nx, Ny, Nz) && |tmp| == Size3(Nx, Ny, Nz) && |cur| == Size3(Nx, Ny, Nz)
  {
    forall a, b, c {:trigger Cell3(Nx, Ny, Nz, cur, a, b, c)} :: InGrid3(Nx, Ny, Nz, a, b, c) ==>
      Cell3(Nx, Ny, Nz, cur, a, b, c) ==
        if IsInterior3(Nx, Ny, Nz, a, b, c) && Reached(i, j, k, a, b, c)
        then StepValue(Nx, Ny, Nz, phi, a, b, c, vel(Node(a, b, c)), dt, h, hInv)
        else Cell3(Nx, Ny, Nz, tmp, a, b, c)
  }

  lemma AdvectStep(Nx: nat, Ny: nat, Nz: nat, phi: seq<real>, tmp: seq<real>, cur: seq<real>,
                   vel: Vector -> Vector, dt: real, h: real, hInv: real, i: int, j: int, k: int)
    requires |phi| == Size3(Nx, Ny, Nz) && |tmp| == Size3(Nx, Ny, Nz) && |cur| == Size3(Nx, Ny, Nz)
    requires IsInterior3(Nx, Ny, Nz, i, j, k)
    requires AdvectedUpTo(Nx, Ny, Nz, phi, tmp, cur, vel, dt, h, hInv, i, j, k)
    ensures AdvectedUpTo(Nx, Ny, Nz, phi, tmp,
      SetCell3(Nx, Ny, Nz, cur, i, j, k, StepValue(Nx, Ny, Nz, phi, i, j, k, vel(Node(i, j, k)), dt, h, hInv)),
      vel, dt, h, hInv, i + 1, j, k)
  {
  }

  lemma AdvectRow(Nx: nat, Ny: nat, Nz: nat, phi: seq<real>, tmp: seq<real>, cur: seq<real>,
                  vel: Vector -> Vector, dt: real, h: real, hInv: real, j: int, k: int)
    requires |phi| == Size3(Nx, Ny, Nz) && |tmp| == Size3(Nx, Ny, Nz) && |cur| == Size3(Nx, Ny, Nz)
    requires AdvectedUpTo(Nx, Ny, Nz, phi, tmp, cur, vel, dt, h, hInv, Nx + 1, j, k)
    ensures AdvectedUpTo(Nx, Ny, Nz, phi, tmp, cur, vel, dt, h, hInv, 1, j + 1, k)
  {
  }

  lemma AdvectPlane(Nx: nat, Ny: nat, Nz: nat, phi: seq<real>, tmp: seq<real>, cur: seq<real>,
                    vel: Vector -> Vector, dt: real, h: real, hInv: real, k: int)
    requires |phi| == Size3(Nx, Ny, Nz) && |tmp| == Size3(Nx, Ny, Nz) && |cur| == Size3(Nx, Ny, Nz)
    requires AdvectedUpTo(Nx, Ny, Nz, phi, tmp, cur, vel, dt, h, hInv, 1, Ny + 1, k)
    ensures AdvectedUpTo(Nx, Ny, Nz, phi, tmp, cur, vel, dt, h, hInv, 1, 1, k + 1)
  {
  }

  lemma AdvectDone(Nx: nat, Ny: nat, Nz: nat, phi: seq<real>, tmp: seq<real>, cur: seq<real>,
                   vel: Vector -> Vector, dt: real, h: real, hInv: real)
    requires |phi| == Size3(Nx, Ny, Nz) && |tmp| == Size3(Nx, Ny, Nz) && |cur| == Size3(Nx, Ny, Nz)
    requires AdvectedUpTo(Nx, Ny, Nz, phi, tmp, cur, vel, dt, h, hInv, 1, 1, Nz + 1)
    ensures cur == Advect(Nx, Ny, Nz, phi, tmp, vel, dt, h, hInv)
  {
    AdvectCells(Nx, Ny, Nz, phi, tmp, vel, dt, h, hInv);
    Cells3Equal(Nx, Ny, Nz, cur, Advect(Nx, Ny, Nz, phi, tmp, vel, dt, h, hInv));
  }

  /** The state of `gridPhi` inside the merge loop of `Fix` at (i, j, k). */
  ghost predicate MergedUpTo(Nx: nat, Ny: nat, Nz: nat, phi: seq<real>, pos: seq<real>, neg: seq<real>, cur: seq<real>,
                             i: int, j: int, k: int)
    requires |phi| == Size3(Nx, Ny, Nz) && |pos| == |phi| && |neg| == |phi| && |cur| == |phi|
  {
    forall a, b, c {:trigger Cell3(Nx, Ny, Nz, cur, a, b, c)} :: InGrid3(Nx, Ny, Nz, a, b, c) ==>
      Cell3(Nx, Ny, Nz, cur, a, b, c) ==
        if Merged(a, b, c) && Reached(i, j, k, a, b, c)
        then LS2.Pick(Cell3(Nx, Ny, Nz, pos, a, b, c), Cell3(Nx, Ny, Nz, neg, a, b, c))
        else Cell3(Nx, Ny, Nz, phi, a, b, c)
  }

  lemma MergeStep(Nx: nat, Ny: nat, Nz: nat, phi: seq<real>, pos: seq<real>, neg: seq<real>, cur: seq<real>,
                  i: int, j: int, k: int)
    requires |phi| == Size3(Nx, Ny, Nz) && |pos| == |phi| && |neg| == |phi| && |cur| == |phi|
    requires 1 <= i <= Nx + 1 && 1 <= j <= Ny + 1 && 1 <= k <= Nz + 1
    requires MergedUpTo(Nx, Ny, Nz, phi, pos, neg, cur, i, j, k)
    ensures MergedUpTo(Nx, Ny, Nz, phi, pos, neg,
      SetCell3(Nx, Ny, Nz, cur, i, j, k, LS2.Pick(Cell3(Nx, Ny, Nz, pos, i, j, k), Cell3(Nx, Ny, Nz, neg, i, j, k))),
      i + 1, j, k)
  {
  }

  lemma MergeRow(Nx: nat, Ny: nat, Nz: nat, phi: seq<real>, pos: seq<real>, neg: seq<real>, cur: seq<real>, j: int, k: int)
    requires |phi| == Size3(Nx, Ny, Nz) && |pos| == |phi| && |neg| == |phi| && |cur| == |phi|
    requires MergedUpTo(Nx, Ny, Nz, phi, pos, neg, cur, Nx + 2, j, k)
    ensures MergedUpTo(Nx, Ny, Nz, phi, pos, neg, cur, 1, j + 1, k)
  {
  }

  lemma MergePlane(Nx: nat, Ny: nat, Nz: nat, phi: seq<real>, pos: seq<real>, neg: seq<real>, cur: seq<real>, k: int)
    requires |phi| == Size3(Nx, Ny, Nz) && |pos| == |phi| && |neg| == |phi| && |cur| == |phi|
    requires MergedUpTo(Nx, Ny, Nz, phi, pos, neg, cur, 1, Ny + 2, k)
    ensures MergedUpTo(Nx, Ny, Nz, phi, pos, neg, cur, 1, 1, k + 1)
  {
  }

  lemma MergeDone(Nx: nat, Ny: nat, Nz: nat, phi: seq<real>, pos: seq<real>, neg: seq<real>, cur: seq<real>)
    requires |phi| == Size3(Nx, Ny, Nz) && |pos| == |phi| && |neg| == |phi| && |cur| == |phi|
    requires MergedUpTo(Nx, Ny, Nz, phi, pos, neg, cur, 1, 1, Nz + 2)
    ensures cur == Merge(Nx, Ny, Nz, phi, pos, neg)
  {
    MergeCells(Nx, Ny, Nz, phi, pos, neg);
    Cells3Equal(Nx, Ny, Nz, cur, Merge(Nx, Ny, Nz, phi, pos, neg));
  }

  /** The scratch grids pos and neg after the first n particles of `Fix`. */
  ghost predicate CorrectedUpTo(cubic: bool, Nx: nat, Ny: nat, Nz: nat, phi: seq<real>, pos: seq<real>, neg: seq<real>,
                                ps: seq<Particle>, sqrt: real -> real, h: real, n: nat)
    reads ps
  {
    && |phi| == Size3(Nx, Ny, Nz) && n <= |ps| && Sampleable(Nx, Ny, Nz, ps)
    && pos == Corrected(cubic, Nx, Ny, Nz, phi, ps, sqrt, h, false, n)
    && neg == Corrected(cubic, Nx, Ny, Nz, phi, ps, sqrt, h, true, n)
  }

  // ------------------------------------------------------------ the class

  class LevelSet3D {
    const Nx: nat
    const Ny: nat
    const Nz: nat
    const size: nat
    const h: real
    const hInv: real
    /** The square root behind the particles' distances. */
    const sqrt: real -> real
    /** Whether `SAMPLEPHI` is `CubicSample` (otherwise `LinearSample`). */
    const cubic: bool
    var gridPhi: Grid3D
    var gridTmp: Grid3D
    const gridPos: Grid3D
    const gridNeg: Grid3D

    /** The level set and its advection target have the level set's shape and separate storage. */
    ghost predicate TwoGrids()
      reads this, gridPhi, gridTmp
    {
      && size == Size3(Nx, Ny, Nz)
      && gridPhi.Valid() && gridPhi.Nx == Nx && gridPhi.Ny == Ny && gridPhi.Nz == Nz
      && gridTmp.Valid() && gridTmp.Nx == Nx && gridTmp.Ny == Ny && gridTmp.Nz == Nz
      && gridPhi.grid != gridTmp.grid
    }

    /** The level set and the two scratch grids of `Fix` have the level set's shape and separate storage. */
    ghost predicate ScratchGrids()
      reads this, gridPhi, gridPos, gridNeg
    {
      && size == Size3(Nx, Ny, Nz)
      && gridPhi.Valid() && gridPhi.Nx == Nx && gridPhi.Ny == Ny && gridPhi.Nz == Nz
      && gridPos.Valid() && gridPos.Nx == Nx && gridPos.Ny == Ny && gridPos.Nz == Nz
      && gridNeg.Valid() && gridNeg.Nx == Nx && gridNeg.Ny == Ny && gridNeg.Nz == Nz
      && gridPhi.grid != gridPos.grid && gridPhi.grid != gridNeg.grid && gridPos.grid != gridNeg.grid
    }

    /** The grids have the level set's shape, and no two share storage. */
    ghost predicate Valid()
      reads this, gridPhi, gridTmp, gridPos, gridNeg
    {
      && TwoGrids() && ScratchGrids() && h > 0.0 && hInv == 1.0 / h && IsSqrt(sqrt)
      && gridTmp.grid != gridPos.grid && gridTmp.grid != gridNeg.grid
    }

    /** `LevelSet(nx, ny, nz, h)`: four zero grids of (nx+2)*(ny+2)*(nz+2) cells. */
    constructor(nx: nat, ny: nat, nz: nat, hi: real, sqrt: real -> real, cubic: bool)
      requires hi > 0.0 && IsSqrt(sqrt)
      ensures Valid() && Nx == nx && Ny == ny && Nz == nz && h == hi && hInv == 1.0 / hi && this.cubic == cubic
      ensures size == (nx + 2) * (ny + 2) * (nz + 2)
      ensures forall e :: 0 <= e < size ==> gridPhi.grid[e] == 0.0
    {
      Nx, Ny, Nz, h, hInv := nx, ny, nz, hi, 1.0 / hi;
      Size3IsProduct(nx, ny, nz);
      size := (nx + 2) * (ny + 2) * (nz + 2);
      this.sqrt, this.cubic := sqrt, cubic;
      gridPhi := new Grid3D(nx, ny, nz);
      gridTmp := new Grid3D(nx, ny, nz);
      gridPos := new Grid3D(nx, ny, nz);
      gridNeg := new Grid3D(nx, ny, nz);
    }

    /** `Initialize(init)`: the level set becomes a copy of `init`. */
    method Initialize(init: Grid3D)
      requires Valid() && init.Valid() && init.Nx == Nx && init.Ny == Ny && init.Nz == Nz
      modifies gridPhi.grid
      ensures gridPhi.grid[..] == old(init.grid[..])
    {
      gridPhi.Assign(init);
    }

    /**
     * `SemiLagrangianStep(x, y, z)`: write the advected value of interior
     * cell (x, y, z) into `gridTmp`. The source's straight-line interpolation
     * is the function `StepValue`.
     */
    method SemiLagrangianStep(x: int, y: int, z: int, vel: Vector -> Vector, dt: real)
      requires TwoGrids() && IsInterior3(Nx, Ny, Nz, x, y, z)
      modifies gridTmp.grid
      ensures gridTmp.grid[..] == SetCell3(Nx, Ny, Nz, old(gridTmp.grid[..]), x, y, z,
                                           StepValue(Nx, Ny, Nz, gridPhi.grid[..], x, y, z, vel(Node(x, y, z)), dt, h, hInv))
    {
      GI3Range(Nx, Ny, Nz, x, y, z);
      var v := StepValue(Nx, Ny, Nz, gridPhi.grid[..], x, y, z, vel(Node(x, y, z)), dt, h, hInv);
      gridTmp.grid[GI3(Nx, Ny, x, y, z)] := v;
    }

    /**
     * `Update(vel, dt)`: advect every interior cell into `gridTmp`, swap the
     * two grids, and put the signed-distance sentinel on the new border.
     */
    method Update(vel: Vector -> Vector, dt: real)
      requires Valid()
      modifies this, gridPhi.grid, gridTmp.grid
      ensures Valid() && gridPhi == old(gridTmp) && gridTmp == old(gridPhi)
      ensures gridPhi.grid[..] ==
        SignedDist3(Nx, Ny, Nz, Advect(Nx, Ny, Nz, old(gridPhi.grid[..]), old(gridTmp.grid[..]), vel, dt, h, hInv))
      ensures gridTmp.grid[..] == old(gridPhi.grid[..])
    {
      AdvectInterior(vel, dt);
      gridPhi, gridTmp := gridTmp, gridPhi;
      gridPhi.SetBoundarySignedDist();
    }

    /** The `FOR_LS` loop of `Update`: every interior cell of `gridTmp` gets its step value. */
    method AdvectInterior(vel: Vector -> Vector, dt: real)
      requires TwoGrids()
      modifies gridTmp.grid
      ensures gridTmp.grid[..] == Advect(Nx, Ny, Nz, gridPhi.grid[..], old(gridTmp.grid[..]), vel, dt, h, hInv)
    {
      ghost var phi := gridPhi.grid[..];
      ghost var tmp := gridTmp.grid[..];
      var k := 1;
      while k <= Nz
        invariant 1 <= k <= Nz + 1 && gridPhi.grid[..] == phi
        invariant AdvectedUpTo(Nx, Ny, Nz, phi, tmp, gridTmp.grid[..], vel, dt, h, hInv, 1, 1, k)
      {
        AdvectLayer(k, vel, dt, phi, tmp);
        k := k + 1;
      }
      AdvectDone(Nx, Ny, Nz, phi, tmp, gridTmp.grid[..], vel, dt, h, hInv);
    }

    /** Plane k of the `FOR_LS` loop of `Update`. */
    method AdvectLayer(k: int, vel: Vector -> Vector, dt: real, ghost phi: seq<real>, ghost tmp: seq<real>)
      requires TwoGrids() && 1 <= k <= Nz && gridPhi.grid[..] == phi && |tmp| == size
      requires AdvectedUpTo(Nx, Ny, Nz, phi, tmp, gridTmp.grid[..], vel, dt, h, hInv, 1, 1, k)
      modifies gridTmp.grid
      ensures AdvectedUpTo(Nx, Ny, Nz, phi, tmp, gridTmp.grid[..], vel, dt, h, hInv, 1, 1, k + 1)
    {
      var j := 1;
      while j <= Ny
        invariant 1 <= j <= Ny + 1
        invariant AdvectedUpTo(Nx, Ny, Nz, phi, tmp, gridTmp.grid[..], vel, dt, h, hInv, 1, j, k)
      {
        var i := 1;
        while i <= Nx
          invariant 1 <= i <= Nx + 1
          invariant AdvectedUpTo(Nx, Ny, Nz, phi, tmp, gridTmp.grid[..], vel, dt, h, hInv, i, j, k)
        {
          AdvectStep(Nx, Ny, Nz, phi, tmp, gridTmp.grid[..], vel, dt, h, hInv, i, j, k);
          SemiLagrangianStep(i, j, k, vel, dt);
          i := i + 1;
        }
        AdvectRow(Nx, Ny, Nz, phi, tmp, gridTmp.grid[..], vel, dt, h, hInv, j, k);
        j := j + 1;
      }
      AdvectPlane(Nx, Ny, Nz, phi, tmp, gridTmp.grid[..], vel, dt, h, hInv, k);
    }

    /**
     * `ReInitialize(gridFM)`: rebuild the level set as a distance with the
     * fast-march object, then put the sentinel on the border. Interior cells
     * keep their side of the interface: a positive cell ends non-negative,
     * and a non-positive one ends at minus its distance from the first half
     * of the march (`mid`) when that distance is positive.
     */
    method ReInitialize(gridFM: FastMarch3D) returns (ghost mid: seq<real>)
      requires Valid() && gridFM.Valid() && gridFM.Nx == Nx && gridFM.Ny == Ny && gridFM.Nz == Nz
      modifies gridPhi.grid, gridFM, gridFM.grid, gridFM.FMHeap
      ensures |mid| == size
      ensures forall e {:trigger gridPhi.grid[e]} :: 0 <= e < size ==>
        (GhostIndex(Nx, Ny, Nz, e) ==> gridPhi.grid[e] == 3.0 * HH as real) &&
        (!GhostIndex(Nx, Ny, Nz, e) ==>
          (old(gridPhi.grid[e]) > 0.0 ==> gridPhi.grid[e] >= 0.0) &&
          (old(gridPhi.grid[e]) <= 0.0 ==> mid[e] >= 0.0 && (mid[e] > 0.0 ==> gridPhi.grid[e] == -mid[e])))
    {
      mid := gridFM.Reinitialize(gridPhi);
      ghost var g2 := gridPhi.grid[..];
      gridPhi.SetBoundarySignedDist();
      assert gridPhi.grid[..] == SignedDist3(Nx, Ny, Nz, g2);
    }

    /** `FixNeg(particle, i, j, k)`: lower `gridNeg` on the 2x2x2 block at (i, j, k) to the particle's value. */
    method FixNeg(p: Particle, i: int, j: int, k: int)
      requires ScratchGrids() && 0 <= i <= Nx && 0 <= j <= Ny && 0 <= k <= Nz
      modifies gridNeg.grid
      ensures gridNeg.grid[..] == FixBlock(Nx, Ny, Nz, old(gridNeg.grid[..]), p, sqrt, h, i, j, k, true)
    {
      ghost var g := gridNeg.grid[..];
      for dx := 0 to 2
        invariant gridNeg.grid[..] == BlockUpTo(Nx, Ny, Nz, g, p, sqrt, h, i, j, k, true, 4 * dx)
      {
        for dy := 0 to 2
          invariant gridNeg.grid[..] == BlockUpTo(Nx, Ny, Nz, g, p, sqrt, h, i, j, k, true, 4 * dx + 2 * dy)
        {
          for dz := 0 to 2
            invariant gridNeg.grid[..] == BlockUpTo(Nx, Ny, Nz, g, p, sqrt, h, i, j, k, true, 4 * dx + 2 * dy + dz)
          {
            BlockStep(Nx, Ny, Nz, g, p, sqrt, h, i, j, k, true, dx, dy, dz);
            GI3Range(Nx, Ny, Nz, i + dx, j + dy, k + dz);
            var particlePhi := p.Phi(sqrt, Node(i + dx, j + dy, k + dz), h);
            var e := GI3(Nx, Ny, i + dx, j + dy, k + dz);
            gridNeg.grid[e] := Min(particlePhi, gridNeg.grid[e]);
          }
        }
      }
    }

    /** `FixPos(particle, i, j, k)`: raise `gridPos` on the 2x2x2 block at (i, j, k) to the particle's value. */
    method FixPos(p: Particle, i: int, j: int, k: int)
      requires ScratchGrids() && 0 <= i <= Nx && 0 <= j <= Ny && 0 <= k <= Nz
      modifies gridPos.grid
      ensures gridPos.grid[..] == FixBlock(Nx, Ny, Nz, old(gridPos.grid[..]), p, sqrt, h, i, j, k, false)
    {
      ghost var g := gridPos.grid[..];
      for dx := 0 to 2
        invariant gridPos.grid[..] == BlockUpTo(Nx, Ny, Nz, g, p, sqrt, h, i, j, k, false, 4 * dx)
      {
        for dy := 0 to 2
          invariant gridPos.grid[..] == BlockUpTo(Nx, Ny, Nz, g, p, sqrt, h, i, j, k, false, 4 * dx + 2 * dy)
        {
          for dz := 0 to 2
            invariant gridPos.grid[..] == BlockUpTo(Nx, Ny, Nz, g, p, sqrt, h, i, j, k, false, 4 * dx + 2 * dy + dz)
          {
            BlockStep(Nx, Ny, Nz, g, p, sqrt, h, i, j, k, false, dx, dy, dz);
            GI3Range(Nx, Ny, Nz, i + dx, j + dy, k + dz);
            var particlePhi := p.Phi(sqrt, Node(i + dx, j + dy, k + dz), h);
            var e := GI3(Nx, Ny, i + dx, j + dy, k + dz);
            gridPos.grid[e] := Max(particlePhi, gridPos.grid[e]);
          }
        }
      }
    }

    /**
     * `Fix(particleSet)`: correct the level set with the escaped particles.
     * Both scratch grids start as copies of the level set; each escaped
     * negative particle lowers `gridNeg`, each escaped positive one raises
     * `gridPos`; then every cell with i, j, k >= 1 takes the value of smaller
     * magnitude.
     */
    method Fix(ps: seq<Particle>)
      requires Valid() && Sampleable(Nx, Ny, Nz, ps)
      modifies gridPhi.grid, gridPos.grid, gridNeg.grid
      ensures gridPos.grid[..] == Corrected(cubic, Nx, Ny, Nz, old(gridPhi.grid[..]), ps, sqrt, h, false, |ps|)
      ensures gridNeg.grid[..] == Corrected(cubic, Nx, Ny, Nz, old(gridPhi.grid[..]), ps, sqrt, h, true, |ps|)
      ensures gridPhi.grid[..] == Fixed(cubic, Nx, Ny, Nz, old(gridPhi.grid[..]), ps, sqrt, h)
    {
      gridPos.Assign(gridPhi);
      gridNeg.Assign(gridPhi);
      CorrectScratch(ps);
      MergeScratch();
    }

    /** The particle loop of `Fix`: the escaped particles correct the two scratch grids. */
    method CorrectScratch(ps: seq<Particle>)
      requires ScratchGrids()
      requires CorrectedUpTo(cubic, Nx, Ny, Nz, gridPhi.grid[..], gridPos.grid[..], gridNeg.grid[..], ps, sqrt, h, 0)
      modifies gridPos.grid, gridNeg.grid
      ensures CorrectedUpTo(cubic, Nx, Ny, Nz, gridPhi.grid[..], gridPos.grid[..], gridNeg.grid[..], ps, sqrt, h, |ps|)
    {
      var n := 0;
      while n < |ps|
        modifies gridPos.grid, gridNeg.grid
        invariant 0 <= n <= |ps|
        invariant CorrectedUpTo(cubic, Nx, Ny, Nz, gridPhi.grid[..], gridPos.grid[..], gridNeg.grid[..], ps, sqrt, h, n)
      {
        CorrectNext(ps, n);
        n := n + 1;
      }
    }

    /** One turn of the particle loop of `Fix`: particle n corrects the two scratch grids. */
    method CorrectNext(ps: seq<Particle>, n: nat)
      requires ScratchGrids() && n < |ps|
      requires CorrectedUpTo(cubic, Nx, Ny, Nz, gridPhi.grid[..], gridPos.grid[..], gridNeg.grid[..], ps, sqrt, h, n)
      modifies gridPos.grid, gridNeg.grid
      ensures CorrectedUpTo(cubic, Nx, Ny, Nz, gridPhi.grid[..], gridPos.grid[..], gridNeg.grid[..], ps, sqrt, h, n + 1)
    {
      assert InSampleRange(Nx, Ny, Nz, ps[n].position);
      CorrectWith(ps[n]);
    }

    /** The body of the particle loop of `Fix` for one particle. */
    method CorrectWith(p: Particle)
      requires ScratchGrids() && InSampleRange(Nx, Ny, Nz, p.position)
      modifies gridPos.grid, gridNeg.grid
      ensures gridNeg.grid[..] == CorrectOnce(cubic, Nx, Ny, Nz, gridPhi.grid[..], old(gridNeg.grid[..]), p, sqrt, h, true)
      ensures gridPos.grid[..] == CorrectOnce(cubic, Nx, Ny, Nz, gridPhi.grid[..], old(gridPos.grid[..]), p, sqrt, h, false)
    {
      var pos := p.GetPosition();
      var phiAt := SamplePhi(cubic, Nx, Ny, Nz, gridPhi.grid[..], pos);
      var sign := p.Sign();
      if phiAt * sign as real < 0.0 {
        if sign < 0 {
          FixNeg(p, Trunc(pos.x), Trunc(pos.y), Trunc(pos.z));
        } else {
          FixPos(p, Trunc(pos.x), Trunc(pos.y), Trunc(pos.z));
        }
      }
    }

    /** The merge loop of `Fix` over i, j, k from 1 to N+1. */
    method MergeScratch()
      requires ScratchGrids()
      modifies gridPhi.grid
      ensures gridPhi.grid[..] == Merge(Nx, Ny, Nz, old(gridPhi.grid[..]), gridPos.grid[..], gridNeg.grid[..])
    {
      ghost var phi := gridPhi.grid[..];
      var k := 1;
      while k < Nz + 2
        invariant 1 <= k <= Nz + 2
        invariant MergedUpTo(Nx, Ny, Nz, phi, gridPos.grid[..], gridNeg.grid[..], gridPhi.grid[..], 1, 1, k)
      {
        MergeLayer(k, phi);
        k := k + 1;
      }
      MergeDone(Nx, Ny, Nz, phi, gridPos.grid[..], gridNeg.grid[..], gridPhi.grid[..]);
    }

    /** Plane k of the merge loop of `Fix`. */
    method MergeLayer(k: int, ghost phi: seq<real>)
      requires ScratchGrids() && 1 <= k <= Nz + 1 && |phi| == size
      requires MergedUpTo(Nx, Ny, Nz, phi, gridPos.grid[..], gridNeg.grid[..], gridPhi.grid[..], 1, 1, k)
      modifies gridPhi.grid
      ensures MergedUpTo(Nx, Ny, Nz, phi, gridPos.grid[..], gridNeg.grid[..], gridPhi.grid[..], 1, 1, k + 1)
    {
      var j := 1;
      while j < Ny + 2
        invariant 1 <= j <= Ny + 2
        invariant MergedUpTo(Nx, Ny, Nz, phi, gridPos.grid[..], gridNeg.grid[..], gridPhi.grid[..], 1, j, k)
      {
        var i := 1;
        while i < Nx + 2
          invariant 1 <= i <= Nx + 2
          invariant MergedUpTo(Nx, Ny, Nz, phi, gridPos.grid[..], gridNeg.grid[..], gridPhi.grid[..], i, j, k)
        {
          MergeStep(Nx, Ny, Nz, phi, gridPos.grid[..], gridNeg.grid[..], gridPhi.grid[..], i, j, k);
          GI3Range(Nx, Ny, Nz, i, j, k);
          var e := GI3(Nx, Ny, i, j, k);
          var phiPos := gridPos.grid[e];
          var phiNeg := gridNeg.grid[e];
          gridPhi.grid[e] := if Abs(phiPos) < Abs(phiNeg) then phiPos else phiNeg;
          i := i + 1;
        }
        MergeRow(Nx, Ny, Nz, phi, gridPos.grid[..], gridNeg.grid[..], gridPhi.grid[..], j, k);
        j := j + 1;
      }
      MergePlane(Nx, Ny, Nz, phi, gridPos.grid[..], gridNeg.grid[..], gridPhi.grid[..], k);
    }
  }
}
