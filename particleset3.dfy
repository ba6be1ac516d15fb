/**
 * The 3D particle set (`ParticleSet`): the list of every marker particle of
 * the level set, for the whole grid. `Update` moves each particle and drops
 * the ones that left the grid, `Resample` resets the radii from the level
 * set's sampler and drops the particles it rejects, `Reseed` throws every
 * particle away and seeds new ones in each cell whose corners are near the
 * interface: `PARTICLES_PER_INTERFACE_NODE` of them when a corner is within
 * one cell width of it, `PARTICLES_PER_NODE` otherwise.
 *
 * The list is the sequence `particles`; erasing an element while iterating
 * becomes building the sequence of the elements kept, in their order. The
 * level set is read through its grid `gridPhi` and its sampler `SamplePhi`.
 */
module ParticleSet3 {
  import opened Numerics
  import opened Vector3
  import opened Grid3
  import opened Particle3
  import opened LevelSet3
  import opened ParticleLists

  // ------------------------------------------------------------- culling

  /**
   * The cull test of `Update` as the source writes it: a particle is dropped
   * when a coordinate is below 0 or above N + 1.
   */
  predicate OutsideAsWritten(Nx: nat, Ny: nat, Nz: nat, pos: Vector)
  {
    || pos.x < 0.0 || pos.x > (Nx + 1) as real
    || pos.y < 0.0 || pos.y > (Ny + 1) as real
    || pos.z < 0.0 || pos.z > (Nz + 1) as real
  }

  /**
   * The culling keeps a particle at x = N + 1, where both samplers read the
   * layer N + 2, one past the padded grid.
   */
  lemma AsWrittenKeepsUnsampleable(Nx: nat, Ny: nat, Nz: nat)
    ensures var pos := Vector((Nx + 1) as real, 0.0, 0.0);
            !OutsideAsWritten(Nx, Ny, Nz, pos) && !InSampleRange(Nx, Ny, Nz, pos)
  {
  }

  /** The cull test the rest of the source relies on: the upper bound is excluded. */
  predicate Outside(Nx: nat, Ny: nat, Nz: nat, pos: Vector)
  {
    || pos.x < 0.0 || pos.x >= (Nx + 1) as real
    || pos.y < 0.0 || pos.y >= (Ny + 1) as real
    || pos.z < 0.0 || pos.z >= (Nz + 1) as real
  }

  /** The corrected test keeps exactly the particles the samplers can read. */
  lemma KeptIsSampleable(Nx: nat, Ny: nat, Nz: nat, pos: Vector)
    ensures !Outside(Nx, Ny, Nz, pos) <==> InSampleRange(Nx, Ny, Nz, pos)
  {
  }

  /** The corrected test differs from the written one only on the upper faces. */
  lemma OutsideDiffers(Nx: nat, Ny: nat, Nz: nat, pos: Vector)
    ensures OutsideAsWritten(Nx, Ny, Nz, pos) ==> Outside(Nx, Ny, Nz, pos)
    ensures Outside(Nx, Ny, Nz, pos) && !OutsideAsWritten(Nx, Ny, Nz, pos) ==>
              pos.x == (Nx + 1) as real || pos.y == (Ny + 1) as real || pos.z == (Nz + 1) as real
  {
  }

  // ---------------------------------------------------------- the list

  /**
   * A particle list as the set keeps it: each particle once, every particle
   * well formed and where the samplers can read.
   */
  ghost predicate WellFormed(Nx: nat, Ny: nat, Nz: nat, ps: seq<Particle>)
    reads ps
  {
    Distinct(ps) && forall k {:trigger ps[k]} :: 0 <= k < |ps| ==> ps[k].Valid() && InSampleRange(Nx, Ny, Nz, ps[k].position)
  }

  /** Keeping only well-formed particles inside the sampling range gives a well-formed list. */
  lemma FilterValid(Nx: nat, Ny: nat, Nz: nat, ps: seq<Particle>, keep: seq<bool>)
    requires |keep| == |ps| && Distinct(ps)
    requires forall m {:trigger ps[m]} :: 0 <= m < |ps| && keep[m] ==> ps[m].Valid() && InSampleRange(Nx, Ny, Nz, ps[m].position)
    ensures WellFormed(Nx, Ny, Nz, Filter(ps, keep))
  {
    var r := Filter(ps, keep);
    var idx := FilterSound(ps, keep);
    FilterDistinct(ps, keep);
    forall k | 0 <= k < |r|
      ensures r[k].Valid() && InSampleRange(Nx, Ny, Nz, r[k].position)
    {
      assert r[k] == ps[idx[k]] && keep[idx[k]];
    }
  }

  /** For each particle, whether it is still in the grid after one RK2 step. */
  ghost function Stays(Nx: nat, Ny: nat, Nz: nat, vel: Vector -> Vector, dt: real, hInv: real, ps: seq<Particle>): (r: seq<bool>)
    reads ps
    ensures |r| == |ps|
  {
    seq(|ps|, m requires 0 <= m < |ps| reads ps => !Outside(Nx, Ny, Nz, Advected(vel, ps[m].position, dt, hInv)))
  }

  /** For each particle, whether `SetRadius` accepts the level set sampled at its position. */
  ghost function Accepts(cubic: bool, Nx: nat, Ny: nat, Nz: nat, phi: seq<real>, ps: seq<Particle>): (r: seq<bool>)
    requires |phi| == Size3(Nx, Ny, Nz) && Sampleable(Nx, Ny, Nz, ps)
    reads ps
    ensures |r| == |ps|
  {
    seq(|ps|, m requires 0 <= m < |ps| && InSampleRange(Nx, Ny, Nz, ps[m].position) reads ps =>
                !Rejects(SamplePhi(cubic, Nx, Ny, Nz, phi, ps[m].position), ps[m].sign))
  }

  // ------------------------------------------------------------- seeding

  /**
   * |phi| at the eight corners of cell (i, j, k), in the order of the corner
   * loop of `Reseed` (dx outermost, dz innermost): value t is corner
   * (i + t/4, j + t/2 % 2, k + t % 2). A corner outside the grid is never
   * read; it is given the value 0.
   */
  function CornerValues(Nx: nat, Ny: nat, Nz: nat, phi: seq<real>, i: int, j: int, k: int): (r: seq<real>)
    ensures |r| == 8
  {
    seq(8, t requires 0 <= t < 8 =>
      var a, b, c := i + t / 4, j + t / 2 % 2, k + t % 2;
      if |phi| == Size3(Nx, Ny, Nz) && InGrid3(Nx, Ny, Nz, a, b, c) then Abs(Cell3(Nx, Ny, Nz, phi, a, b, c)) else 0.0)
  }

  /** The value of corner (i + dx, j + dy, k + dz) is its cell's |phi|. */
  lemma CornerValuesAt(Nx: nat, Ny: nat, Nz: nat, phi: seq<real>, i: int, j: int, k: int, dx: int, dy: int, dz: int)
    requires |phi| == Size3(Nx, Ny, Nz) && 0 <= i <= Nx && 0 <= j <= Ny && 0 <= k <= Nz
    requires 0 <= dx < 2 && 0 <= dy < 2 && 0 <= dz < 2
    ensures CornerValues(Nx, Ny, Nz, phi, i, j, k)[4 * dx + 2 * dy + dz] == Abs(Cell3(Nx, Ny, Nz, phi, i + dx, j + dy, k + dz))
  {
    var t := 4 * dx + 2 * dy + dz;
    assert t / 4 == dx && t / 2 % 2 == dy && t % 2 == dz;
  }

  /** A flag of the corner loop of `Reseed` after its first t corners. */
  predicate FlagUpTo(vals: seq<real>, bound: real, t: nat)
    requires t <= |vals|
  {
    t > 0 && (FlagUpTo(vals, bound, t - 1) || vals[t - 1] < bound)
  }

  /** The flag is set exactly when one of the corners read so far is below the bound. */
  lemma {:induction false} FlagUpToSome(vals: seq<real>, bound: real, t: nat)
    requires t <= |vals|
    ensures FlagUpTo(vals, bound, t) <==> exists m {:trigger vals[m]} :: 0 <= m < t && vals[m] < bound
  {
    if t > 0 {
      FlagUpToSome(vals, bound, t - 1);
      if vals[t - 1] < bound {
        assert 0 <= t - 1 < t && vals[t - 1] < bound;
      }
    }
  }

  /** Cell (i, j, k) is reseeded: a corner has |phi| below RESEED_THRESHOLD. */
  predicate Reseeded(Nx: nat, Ny: nat, Nz: nat, phi: seq<real>, i: int, j: int, k: int)
  {
    FlagUpTo(CornerValues(Nx, Ny, Nz, phi, i, j, k), RESEED_THRESHOLD, 8)
  }

  /** Cell (i, j, k) is at the interface: a corner has |phi| below h. */
  predicate AtInterface(Nx: nat, Ny: nat, Nz: nat, phi: seq<real>, h: real, i: int, j: int, k: int)
  {
    FlagUpTo(CornerValues(Nx, Ny, Nz, phi, i, j, k), h, 8)
  }

  /**
   * The number of particles `Reseed` makes in cell (i, j, k): none unless it
   * is reseeded; `ppn` otherwise, which is the interface count when the cell
   * is at the interface and PARTICLES_PER_NODE when not.
   */
  function CellCount(Nx: nat, Ny: nat, Nz: nat, phi: seq<real>, h: real, perInterface: nat, i: int, j: int, k: int): nat
  {
    if !Reseeded(Nx, Ny, Nz, phi, i, j, k) then 0
    else if AtInterface(Nx, Ny, Nz, phi, h, i, j, k) then perInterface
    else PARTICLES_PER_NODE
  }

  /** The count of every cell, as a function of the cell. */
  function Counts(Nx: nat, Ny: nat, Nz: nat, phi: seq<real>, h: real, perInterface: nat): (int, int, int) -> nat
  {
    (a, b, c) => CellCount(Nx, Ny, Nz, phi, h, perInterface, a, b, c)
  }

  /**
   * A cell with no corner below RESEED_THRESHOLD gets no particle; one with a
   * corner below it gets the interface count when a corner is below h and
   * PARTICLES_PER_NODE otherwise.
   */
  lemma CellCountByCorners(Nx: nat, Ny: nat, Nz: nat, phi: seq<real>, h: real, perInterface: nat, i: int, j: int, k: int)
    ensures var vals := CornerValues(Nx, Ny, Nz, phi, i, j, k);
            CellCount(Nx, Ny, Nz, phi, h, perInterface, i, j, k) ==
              if !exists m {:trigger vals[m]} :: 0 <= m < 8 && vals[m] < RESEED_THRESHOLD then 0
              else if exists m {:trigger vals[m]} :: 0 <= m < 8 && vals[m] < h then perInterface
              else PARTICLES_PER_NODE
  {
    var vals := CornerValues(Nx, Ny, Nz, phi, i, j, k);
    FlagUpToSome(vals, RESEED_THRESHOLD, 8);
    FlagUpToSome(vals, h, 8);
  }

  /**
   * The positions `Reseed` gives the `count` particles of a reseeded cell
   * (i, j, k): the m-th takes the random numbers n + 3m, n + 3m + 1 and
   * n + 3m + 2 as its x, y and z offsets.
   */
  function NodeSeeds(rand: nat -> real, n: nat, i: int, j: int, k: int, count: nat): (r: seq<Vector>)
    ensures |r| == count
  {
    seq(count, m requires 0 <= m < count =>
      Vector(i as real + rand(n + 3 * m), j as real + rand(n + 3 * m + 1), k as real + rand(n + 3 * m + 2)))
  }

  /**
   * The positions of the particles `Reseed` has made before cell (i, j, k),
   * when cell (a, b, c) gets count(a, b, c) of them: the cells taken layer by
   * layer, each layer row by row, each row left to right. Each particle takes
   * three random numbers, from where the previous ones stopped.
   */
  function SeedsBefore(Nx: nat, Ny: nat, Nz: nat, count: (int, int, int) -> nat, rand: nat -> real,
                       i: int, j: int, k: int): (r: seq<Vector>)
    requires 1 <= i <= Nx + 1 && 1 <= j <= Ny + 1 && 1 <= k <= Nz + 1
    decreases k, j, i
  {
    if i == 1 then
      if j == 1 then
        if k == 1 then [] else SeedsBefore(Nx, Ny, Nz, count, rand, 1, Ny + 1, k - 1)
      else SeedsBefore(Nx, Ny, Nz, count, rand, Nx + 1, j - 1, k)
    else
      var s := SeedsBefore(Nx, Ny, Nz, count, rand, i - 1, j, k);
      if j <= Ny && k <= Nz then s + NodeSeeds(rand, 3 * |s|, i - 1, j, k, count(i - 1, j, k)) else s
  }

  /** The positions of all the particles `Reseed` makes: the seeds before the first cell past the last layer. */
  function Seeds(Nx: nat, Ny: nat, Nz: nat, phi: seq<real>, rand: nat -> real, h: real, perInterface: nat): seq<Vector>
  {
    SeedsBefore(Nx, Ny, Nz, Counts(Nx, Ny, Nz, phi, h, perInterface), rand, 1, 1, Nz + 1)
  }

  /** Every seed lies in the cell it was made for. */
  lemma NodeSeedsInCell(rand: nat -> real, n: nat, i: int, j: int, k: int, count: nat)
    requires UnitRandom(rand)
    ensures forall m {:trigger NodeSeeds(rand, n, i, j, k, count)[m]} :: 0 <= m < count ==>
              var p := NodeSeeds(rand, n, i, j, k, count)[m];
              i as real <= p.x < (i + 1) as real && j as real <= p.y < (j + 1) as real && k as real <= p.z < (k + 1) as real
  {
    forall m | 0 <= m < count
      ensures var p := NodeSeeds(rand, n, i, j, k, count)[m];
              i as real <= p.x < (i + 1) as real && j as real <= p.y < (j + 1) as real && k as real <= p.z < (k + 1) as real
    {
      assert 0.0 <= rand(n + 3 * m) < 1.0 && 0.0 <= rand(n + 3 * m + 1) < 1.0 && 0.0 <= rand(n + 3 * m + 2) < 1.0;
    }
  }

  /** Every position lies in an interior cell of the grid. */
  predicate Interior(Nx: nat, Ny: nat, Nz: nat, s: seq<Vector>)
  {
    forall m {:trigger s[m]} :: 0 <= m < |s| ==>
      1.0 <= s[m].x < (Nx + 1) as real && 1.0 <= s[m].y < (Ny + 1) as real && 1.0 <= s[m].z < (Nz + 1) as real
  }

  /** Every seed lies in an interior cell of the grid, so the samplers can read it. */
  lemma {:induction false} SeedsSampleable(Nx: nat, Ny: nat, Nz: nat, count: (int, int, int) -> nat, rand: nat -> real,
                                           i: int, j: int, k: int)
    requires 1 <= i <= Nx + 1 && 1 <= j <= Ny + 1 && 1 <= k <= Nz + 1 && UnitRandom(rand)
    ensures Interior(Nx, Ny, Nz, SeedsBefore(Nx, Ny, Nz, count, rand, i, j, k))
    decreases k, j, i
  {
    if i == 1 {
      if j == 1 {
        if k > 1 {
          SeedsSampleable(Nx, Ny, Nz, count, rand, 1, Ny + 1, k - 1);
        }
      } else {
        SeedsSampleable(Nx, Ny, Nz, count, rand, Nx + 1, j - 1, k);
      }
    } else {
      var s := SeedsBefore(Nx, Ny, Nz, count, rand, i - 1, j, k);
      SeedsSampleable(Nx, Ny, Nz, count, rand, i - 1, j, k);
      if j <= Ny && k <= Nz {
        var t := NodeSeeds(rand, 3 * |s|, i - 1, j, k, count(i - 1, j, k));
        NodeSeedsInCell(rand, 3 * |s|, i - 1, j, k, |t|);
        assert Interior(Nx, Ny, Nz, t);
        InteriorAppend(Nx, Ny, Nz, s, t);
      }
    }
  }

  /** Two lists of interior positions make one. */
  lemma InteriorAppend(Nx: nat, Ny: nat, Nz: nat, s: seq<Vector>, t: seq<Vector>)
    requires Interior(Nx, Ny, Nz, s) && Interior(Nx, Ny, Nz, t)
    ensures Interior(Nx, Ny, Nz, s + t)
  {
    assert forall m {:trigger (s + t)[m]} :: 0 <= m < |s| ==> (s + t)[m] == s[m];
    assert forall m {:trigger (s + t)[m]} :: |s| <= m < |s| + |t| ==> (s + t)[m] == t[m - |s|];
  }

  /** Every seed `Reseed` makes lies in an interior cell of the grid. */
  lemma AllSeedsSampleable(Nx: nat, Ny: nat, Nz: nat, phi: seq<real>, rand: nat -> real, h: real, perInterface: nat)
    requires UnitRandom(rand)
    ensures Interior(Nx, Ny, Nz, Seeds(Nx, Ny, Nz, phi, rand, h, perInterface))
  {
    SeedsSampleable(Nx, Ny, Nz, Counts(Nx, Ny, Nz, phi, h, perInterface), rand, 1, 1, Nz + 1);
  }

  /** Each interior cell adds its count of seeds, in the cell, after the seeds of the cells before it. */
  lemma SeedsNextCell(Nx: nat, Ny: nat, Nz: nat, count: (int, int, int) -> nat, rand: nat -> real, i: int, j: int, k: int)
    requires 1 <= i <= Nx && 1 <= j <= Ny && 1 <= k <= Nz
    ensures var s := SeedsBefore(Nx, Ny, Nz, count, rand, i, j, k);
            SeedsBefore(Nx, Ny, Nz, count, rand, i + 1, j, k) == s + NodeSeeds(rand, 3 * |s|, i, j, k, count(i, j, k))
  {
  }

  /** A cell of count 0 adds no seed. */
  lemma ZeroCountAddsNothing(Nx: nat, Ny: nat, Nz: nat, count: (int, int, int) -> nat, rand: nat -> real, i: int, j: int, k: int)
    requires 1 <= i <= Nx && 1 <= j <= Ny && 1 <= k <= Nz && count(i, j, k) == 0
    ensures SeedsBefore(Nx, Ny, Nz, count, rand, i + 1, j, k) == SeedsBefore(Nx, Ny, Nz, count, rand, i, j, k)
  {
    var s := SeedsBefore(Nx, Ny, Nz, count, rand, i, j, k);
    assert s + NodeSeeds(rand, 3 * |s|, i, j, k, 0) == s;
  }

  /**
   * The particles ps are the seeds at the given positions: distinct, and
   * each where its seed is, with the sign and radius the constructor gives
   * it from the sampled level set there.
   */
  ghost predicate SeededAt(cubic: bool, Nx: nat, Ny: nat, Nz: nat, phi: seq<real>, hInv: real, ps: seq<Particle>, seeds: seq<Vector>)
    requires |phi| == Size3(Nx, Ny, Nz)
    reads ps
  {
    |ps| == |seeds| && Distinct(ps) &&
    forall m {:trigger ps[m]} :: 0 <= m < |ps| ==>
      ps[m].Valid() && ps[m].position == seeds[m] && InSampleRange(Nx, Ny, Nz, seeds[m]) &&
      ps[m].sign == SignOf(SamplePhi(cubic, Nx, Ny, Nz, phi, seeds[m])) &&
      ps[m].radius == InitialRadius(SamplePhi(cubic, Nx, Ny, Nz, phi, seeds[m]), hInv)
  }

  /** A new particle made at the next seed extends `SeededAt`. */
  lemma SeededPush(cubic: bool, Nx: nat, Ny: nat, Nz: nat, phi: seq<real>, hInv: real, ps: seq<Particle>, seeds: seq<Vector>,
                   p: Particle, pos: Vector)
    requires |phi| == Size3(Nx, Ny, Nz) && SeededAt(cubic, Nx, Ny, Nz, phi, hInv, ps, seeds) && p !in ps
    requires p.Valid() && p.position == pos && InSampleRange(Nx, Ny, Nz, pos)
    requires p.sign == SignOf(SamplePhi(cubic, Nx, Ny, Nz, phi, pos))
    requires p.radius == InitialRadius(SamplePhi(cubic, Nx, Ny, Nz, phi, pos), hInv)
    ensures SeededAt(cubic, Nx, Ny, Nz, phi, hInv, ps + [p], seeds + [pos])
  {
    var ps', seeds' := ps + [p], seeds + [pos];
    assert forall m {:trigger ps'[m]} :: 0 <= m < |ps| ==> ps'[m] == ps[m] && seeds'[m] == seeds[m];
  }

  // ------------------------------------------------------------ the class

  class ParticleSet {
    const Nx: nat
    const Ny: nat
    const Nz: nat
    const h: real
    const hInv: real
    var particles: seq<Particle>

    /**
     * The list holds each particle once, every particle is well formed and
     * sits where the samplers can read.
     */
    ghost predicate Valid()
      reads this, particles
    {
      WellFormed(Nx, Ny, Nz, particles)
    }

    /** The level set has a grid of this set's dimensions. */
    ghost predicate Matches(levelSet: LevelSet3D)
      reads this, levelSet, levelSet.gridPhi
    {
      levelSet.gridPhi.Valid() && levelSet.gridPhi.Nx == Nx && levelSet.gridPhi.Ny == Ny && levelSet.gridPhi.Nz == Nz
    }

    /** `ParticleSet(nx, ny, nz, hi)`: no particles; h is hi and hInv is 1/hi. */
    constructor(nx: nat, ny: nat, nz: nat, hi: real)
      requires hi != 0.0
      ensures Valid() && Nx == nx && Ny == ny && Nz == nz && h == hi && hInv == 1.0 / hi && particles == []
    {
      Nx, Ny, Nz, h, hInv := nx, ny, nz, hi, 1.0 / hi;
      particles := [];
    }

    /**
     * `Update(grid, dt)`: every particle takes one RK2 step; the ones that
     * left the grid are erased, the others keep their order.
     */
    method Update(vel: Vector -> Vector, dt: real)
      requires Valid()
      modifies this, particles
      ensures Valid()
      ensures particles == Filter(old(particles), old(Stays(Nx, Ny, Nz, vel, dt, hInv, particles)))
      ensures forall m {:trigger old(particles)[m]} :: 0 <= m < |old(particles)| ==>
                old(particles)[m].position == Advected(vel, old(particles[m].position), dt, hInv) &&
                old(particles)[m].radius == old(particles[m].radius)
    {
      particles := Advance(vel, dt, particles);
    }

    /** The loop of `Update` over the list `ps`, returning the survivors. */
    method Advance(vel: Vector -> Vector, dt: real, ps: seq<Particle>) returns (kept: seq<Particle>)
      requires WellFormed(Nx, Ny, Nz, ps)
      modifies ps
      ensures WellFormed(Nx, Ny, Nz, kept)
      ensures kept == Filter(ps, old(Stays(Nx, Ny, Nz, vel, dt, hInv, ps)))
      ensures forall m {:trigger ps[m]} :: 0 <= m < |ps| ==>
                ps[m].position == Advected(vel, old(ps[m].position), dt, hInv) && ps[m].radius == old(ps[m].radius)
    {
      ghost var keep := Stays(Nx, Ny, Nz, vel, dt, hInv, ps);
      ghost var pos0 := seq(|ps|, m requires 0 <= m < |ps| reads ps => ps[m].position);
      ghost var r0 := seq(|ps|, m requires 0 <= m < |ps| reads ps => ps[m].radius);
      assert forall m {:trigger ps[m]} :: 0 <= m < |ps| ==> pos0[m] == ps[m].position && r0[m] == ps[m].radius;
      kept := AdvanceLoop(vel, dt, ps, keep, pos0, r0);
      FilterAll(ps, keep);
      KeptIsSampleableAll(vel, dt, ps, keep, pos0, r0, kept);
      FilterValid(Nx, Ny, Nz, ps, keep);
    }

    /** The while loop of `Update`, from its first particle to its last. */
    method AdvanceLoop(vel: Vector -> Vector, dt: real, ps: seq<Particle>, ghost keep: seq<bool>,
                       ghost pos0: seq<Vector>, ghost r0: seq<real>) returns (kept: seq<Particle>)
      requires Updating(vel, dt, ps, keep, pos0, r0, 0, [])
      modifies ps
      ensures Updating(vel, dt, ps, keep, pos0, r0, |ps|, kept)
    {
      kept := [];
      var k := 0;
      while k < |ps|
        invariant Updating(vel, dt, ps, keep, pos0, r0, k, kept)
      {
        kept := UpdateNext(vel, dt, ps, keep, pos0, r0, k, kept);
        k := k + 1;
      }
    }

    /** The state of `Update`'s loop after k particles: moved, the survivors among them collected. */
    ghost predicate Updating(vel: Vector -> Vector, dt: real, ps: seq<Particle>, keep: seq<bool>,
                             pos0: seq<Vector>, r0: seq<real>, k: int, kept: seq<Particle>)
      reads ps
    {
      && |keep| == |ps| && |pos0| == |ps| && |r0| == |ps| && 0 <= k <= |ps| && Distinct(ps)
      && kept == Filter(ps[..k], keep[..k])
      && (forall m {:trigger ps[m]} :: 0 <= m < |ps| ==>
            ps[m].radius == r0[m] && ps[m].Valid() &&
            keep[m] == !Outside(Nx, Ny, Nz, Advected(vel, pos0[m], dt, hInv)) &&
            ps[m].position == (if m < k then Advected(vel, pos0[m], dt, hInv) else pos0[m]))
    }

    /** After `Update`'s loop, every particle it keeps has its new position in the sampling range. */
    lemma KeptIsSampleableAll(vel: Vector -> Vector, dt: real, ps: seq<Particle>, keep: seq<bool>,
                              pos0: seq<Vector>, r0: seq<real>, kept: seq<Particle>)
      requires Updating(vel, dt, ps, keep, pos0, r0, |ps|, kept)
      ensures forall m {:trigger ps[m]} :: 0 <= m < |ps| && keep[m] ==> ps[m].Valid() && InSampleRange(Nx, Ny, Nz, ps[m].position)
    {
      forall m | 0 <= m < |ps| && keep[m]
        ensures InSampleRange(Nx, Ny, Nz, ps[m].position)
      {
        KeptIsSampleable(Nx, Ny, Nz, ps[m].position);
      }
    }

    /** One particle of `Update`'s loop: move it, and collect it if it stays in the grid. */
    method UpdateNext(vel: Vector -> Vector, dt: real, ps: seq<Particle>, ghost keep: seq<bool>,
                      ghost pos0: seq<Vector>, ghost r0: seq<real>, k: int, kept: seq<Particle>)
      returns (kept': seq<Particle>)
      requires Updating(vel, dt, ps, keep, pos0, r0, k, kept) && k < |ps|
      modifies ps[k]
      ensures Updating(vel, dt, ps, keep, pos0, r0, k + 1, kept')
    {
      var p := ps[k];
      p.Update(vel, dt, hInv);
      var pos := p.GetPosition();
      FilterSnoc(ps, keep, k);
      kept' := kept;
      if !(|| pos.x < 0.0 || pos.x >= (Nx + 1) as real
           || pos.y < 0.0 || pos.y >= (Ny + 1) as real
           || pos.z < 0.0 || pos.z >= (Nz + 1) as real) {
        kept' := kept + [p];
      }
    }

    /**
     * `Resample(levelSet)`: every particle's radius is reset from the level
     * set's sampler at its position; the ones `SetRadius` rejects are erased.
     */
    method Resample(levelSet: LevelSet3D)
      requires Valid() && Matches(levelSet)
      modifies this, particles
      ensures Valid()
      ensures particles == Filter(old(particles), old(Accepts(levelSet.cubic, Nx, Ny, Nz, levelSet.gridPhi.grid[..], particles)))
      ensures forall m {:trigger old(particles)[m]} :: 0 <= m < |old(particles)| ==>
                var p := old(particles)[m];
                p.position == old(particles[m].position) &&
                (old(Accepts(levelSet.cubic, Nx, Ny, Nz, levelSet.gridPhi.grid[..], particles))[m] ==>
                   p.radius == ResetRadius(SamplePhi(levelSet.cubic, Nx, Ny, Nz, levelSet.gridPhi.grid[..], p.position), hInv))
    {
      particles := ResampleAll(levelSet.gridPhi, levelSet.cubic, particles);
    }

    /** The loop of `Resample` over the list `ps`, returning the accepted particles. */
    method ResampleAll(phiGrid: Grid3D, cubic: bool, ps: seq<Particle>) returns (kept: seq<Particle>)
      requires WellFormed(Nx, Ny, Nz, ps) && phiGrid.Valid() && phiGrid.Nx == Nx && phiGrid.Ny == Ny && phiGrid.Nz == Nz
      modifies ps
      ensures WellFormed(Nx, Ny, Nz, kept)
      ensures kept == Filter(ps, old(Accepts(cubic, Nx, Ny, Nz, phiGrid.grid[..], ps)))
      ensures forall m {:trigger ps[m]} :: 0 <= m < |ps| ==>
                ps[m].position == old(ps[m].position) &&
                (old(Accepts(cubic, Nx, Ny, Nz, phiGrid.grid[..], ps))[m] ==>
                   ps[m].radius == ResetRadius(SamplePhi(cubic, Nx, Ny, Nz, phiGrid.grid[..], ps[m].position), hInv))
    {
      ghost var phi := phiGrid.grid[..];
      ghost var keep, samples, pos0 := ResampleStart(cubic, phi, ps);
      kept := ResampleLoop(phiGrid, cubic, phi, ps, keep, samples, pos0);
      ResampledAll(cubic, phi, ps, keep, samples, pos0, kept);
    }

    /** Before `Resample`'s loop: the flags, the samples and the positions of the particles. */
    lemma ResampleStart(cubic: bool, phi: seq<real>, ps: seq<Particle>)
      returns (keep: seq<bool>, samples: seq<real>, pos0: seq<Vector>)
      requires WellFormed(Nx, Ny, Nz, ps) && |phi| == Size3(Nx, Ny, Nz)
      ensures Resampling(cubic, phi, ps, keep, samples, pos0, 0, [])
      ensures keep == Accepts(cubic, Nx, Ny, Nz, phi, ps)
      ensures forall m {:trigger ps[m]} :: 0 <= m < |ps| ==> pos0[m] == ps[m].position
    {
      keep := Accepts(cubic, Nx, Ny, Nz, phi, ps);
      pos0 := seq(|ps|, m requires 0 <= m < |ps| reads ps => ps[m].position);
      assert forall m {:trigger ps[m]} :: 0 <= m < |ps| ==> pos0[m] == ps[m].position && InSampleRange(Nx, Ny, Nz, pos0[m]);
      samples := seq(|ps|, m requires 0 <= m < |ps| => SamplePhi(cubic, Nx, Ny, Nz, phi, pos0[m]));
    }

    /** After `Resample`'s loop: the accepted particles, in order, each with its radius reset from its sample. */
    lemma ResampledAll(cubic: bool, phi: seq<real>, ps: seq<Particle>, keep: seq<bool>, samples: seq<real>,
                       pos0: seq<Vector>, kept: seq<Particle>)
      requires Resampling(cubic, phi, ps, keep, samples, pos0, |ps|, kept)
      ensures WellFormed(Nx, Ny, Nz, kept) && kept == Filter(ps, keep)
      ensures forall m {:trigger ps[m]} :: 0 <= m < |ps| ==>
                ps[m].position == pos0[m] &&
                (keep[m] ==> ps[m].radius == ResetRadius(SamplePhi(cubic, Nx, Ny, Nz, phi, ps[m].position), hInv))
    {
      FilterAll(ps, keep);
      FilterValid(Nx, Ny, Nz, ps, keep);
    }

    /** The while loop of `Resample`, from its first particle to its last. */
    method ResampleLoop(phiGrid: Grid3D, cubic: bool, ghost phi: seq<real>, ps: seq<Particle>, ghost keep: seq<bool>,
                        ghost samples: seq<real>, ghost pos0: seq<Vector>) returns (kept: seq<Particle>)
      requires phiGrid.Valid() && phiGrid.Nx == Nx && phiGrid.Ny == Ny && phiGrid.Nz == Nz && phi == phiGrid.grid[..]
      requires Resampling(cubic, phi, ps, keep, samples, pos0, 0, [])
      modifies ps
      ensures Resampling(cubic, phi, ps, keep, samples, pos0, |ps|, kept)
    {
      kept := [];
      var k := 0;
      while k < |ps|
        invariant Resampling(cubic, phi, ps, keep, samples, pos0, k, kept) && phiGrid.grid[..] == phi
      {
        kept := ResampleNext(phiGrid, cubic, phi, ps, keep, samples, pos0, k, kept);
        k := k + 1;
      }
    }

    /** The state of `Resample`'s loop after k particles: resized from their samples, the accepted ones collected. */
    ghost predicate Resampling(cubic: bool, phi: seq<real>, ps: seq<Particle>, keep: seq<bool>, samples: seq<real>,
                               pos0: seq<Vector>, k: int, kept: seq<Particle>)
      reads ps
    {
      && |phi| == Size3(Nx, Ny, Nz) && |keep| == |ps| && |samples| == |ps| && |pos0| == |ps| && 0 <= k <= |ps| && Distinct(ps)
      && kept == Filter(ps[..k], keep[..k])
      && (forall m {:trigger ps[m]} :: 0 <= m < |ps| ==>
            ps[m].Valid() && ps[m].position == pos0[m] && InSampleRange(Nx, Ny, Nz, pos0[m]) &&
            samples[m] == SamplePhi(cubic, Nx, Ny, Nz, phi, pos0[m]) && keep[m] == !Rejects(samples[m], ps[m].sign) &&
            (m < k && keep[m] ==> ps[m].radius == ResetRadius(samples[m], hInv)))
    }

    /** One particle of `Resample`'s loop: reset its radius, and collect it if accepted. */
    method ResampleNext(phiGrid: Grid3D, cubic: bool, ghost phi: seq<real>, ps: seq<Particle>, ghost keep: seq<bool>,
                        ghost samples: seq<real>, ghost pos0: seq<Vector>, k: int, kept: seq<Particle>)
      returns (kept': seq<Particle>)
      requires phiGrid.Valid() && phiGrid.Nx == Nx && phiGrid.Ny == Ny && phiGrid.Nz == Nz && phi == phiGrid.grid[..]
      requires Resampling(cubic, phi, ps, keep, samples, pos0, k, kept) && k < |ps|
      modifies ps[k]
      ensures Resampling(cubic, phi, ps, keep, samples, pos0, k + 1, kept')
    {
      var p := ps[k];
      var pos := p.GetPosition();
      var v := SamplePhi(cubic, Nx, Ny, Nz, phiGrid.grid[..], pos);
      assert v == samples[k];
      var accepted := p.SetRadius(v, hInv);
      assert accepted == keep[k];
      FilterSnoc(ps, keep, k);
      kept' := kept;
      if accepted {
        kept' := kept + [p];
      }
      forall m | 0 <= m < |ps|
        ensures ps[m].Valid() && ps[m].position == pos0[m] && keep[m] == !Rejects(samples[m], ps[m].sign)
        ensures m < k + 1 && keep[m] ==> ps[m].radius == ResetRadius(samples[m], hInv)
      {
        if m != k {
          assert ps[m] != p;
        }
      }
    }

    /**
     * `Reseed(levelSet)`: the old particles are dropped; every interior cell
     * with a corner near the interface gets `CellCount` new particles, at
     * random points of the cell, made by the particle constructor with the
     * level set's sampler there. `perInterface` is PARTICLES_PER_INTERFACE_NODE.
     */
    method Reseed(levelSet: LevelSet3D, rand: nat -> real, perInterface: nat)
      requires Valid() && Matches(levelSet) && UnitRandom(rand)
      modifies this
      ensures Valid()
      ensures SeededAt(levelSet.cubic, Nx, Ny, Nz, levelSet.gridPhi.grid[..], hInv, particles,
                       Seeds(Nx, Ny, Nz, levelSet.gridPhi.grid[..], rand, h, perInterface))
      ensures forall m {:trigger particles[m]} :: 0 <= m < |particles| ==> fresh(particles[m])
    {
      var phiGrid, cubic := levelSet.gridPhi, levelSet.cubic;
      particles := [];
      for k := 1 to Nz + 1
        invariant Seeding(phiGrid, cubic, rand, perInterface, 1, 1, k)
        invariant forall m {:trigger particles[m]} :: 0 <= m < |particles| ==> fresh(particles[m])
      {
        SeedLayer(phiGrid, cubic, rand, perInterface, k);
        SeedingNextLayer(phiGrid, cubic, rand, perInterface, k);
      }
    }

    /** The middle loop of `Reseed`: the rows of layer k. */
    method SeedLayer(phiGrid: Grid3D, cubic: bool, rand: nat -> real, perInterface: nat, k: int)
      requires UnitRandom(rand) && k <= Nz && Seeding(phiGrid, cubic, rand, perInterface, 1, 1, k)
      modifies this
      ensures Seeding(phiGrid, cubic, rand, perInterface, 1, Ny + 1, k)
      ensures |particles| >= |old(particles)|
      ensures forall m {:trigger particles[m]} :: 0 <= m < |particles| ==>
                if m < |old(particles)| then particles[m] == old(particles)[m] else fresh(particles[m])
    {
      for j := 1 to Ny + 1
        invariant Seeding(phiGrid, cubic, rand, perInterface, 1, j, k)
        invariant |particles| >= |old(particles)|
        invariant forall m {:trigger particles[m]} :: 0 <= m < |particles| ==>
                    if m < |old(particles)| then particles[m] == old(particles)[m] else fresh(particles[m])
      {
        SeedRow(phiGrid, cubic, rand, perInterface, j, k);
        SeedingNextRow(phiGrid, cubic, rand, perInterface, j, k);
      }
    }

    /** The inner loop of `Reseed`: the cells of row j of layer k, left to right. */
    method SeedRow(phiGrid: Grid3D, cubic: bool, rand: nat -> real, perInterface: nat, j: int, k: int)
      requires UnitRandom(rand) && j <= Ny && k <= Nz && Seeding(phiGrid, cubic, rand, perInterface, 1, j, k)
      modifies this
      ensures Seeding(phiGrid, cubic, rand, perInterface, Nx + 1, j, k)
      ensures |particles| >= |old(particles)|
      ensures forall m {:trigger particles[m]} :: 0 <= m < |particles| ==>
                if m < |old(particles)| then particles[m] == old(particles)[m] else fresh(particles[m])
    {
      for i := 1 to Nx + 1
        invariant Seeding(phiGrid, cubic, rand, perInterface, i, j, k)
        invariant |particles| >= |old(particles)|
        invariant forall m {:trigger particles[m]} :: 0 <= m < |particles| ==>
                    if m < |old(particles)| then particles[m] == old(particles)[m] else fresh(particles[m])
      {
        SeedAt(phiGrid, cubic, rand, perInterface, i, j, k);
      }
    }

    /** The body of `Reseed`'s loops for cell (i, j, k): the corner loop, then the particles if it is reseeded. */
    method SeedAt(phiGrid: Grid3D, cubic: bool, rand: nat -> real, perInterface: nat, i: int, j: int, k: int)
      requires UnitRandom(rand) && 1 <= i <= Nx && 1 <= j <= Ny && 1 <= k <= Nz
      requires Seeding(phiGrid, cubic, rand, perInterface, i, j, k)
      modifies this
      ensures Seeding(phiGrid, cubic, rand, perInterface, i + 1, j, k)
      ensures |particles| >= |old(particles)|
      ensures forall m {:trigger particles[m]} :: 0 <= m < |particles| ==>
                if m < |old(particles)| then particles[m] == old(particles)[m] else fresh(particles[m])
    {
      ghost var count := Counts(Nx, Ny, Nz, phiGrid.grid[..], h, perInterface);
      ghost var s := SeedsBefore(Nx, Ny, Nz, count, rand, i, j, k);
      SeedsNextCell(Nx, Ny, Nz, count, rand, i, j, k);
      var reseed, reseed2 := Reseeds(phiGrid, i, j, k);
      var ppn := if reseed2 then perInterface else PARTICLES_PER_NODE;
      if reseed {
        assert count(i, j, k) == ppn;
        SeedCell(phiGrid, cubic, rand, i, j, k, ppn, s);
      } else {
        assert count(i, j, k) == 0;
        ZeroCountAddsNothing(Nx, Ny, Nz, count, rand, i, j, k);
      }
    }

    /**
     * The particles after the cells before (i, j, k): the seeds so far, for
     * the level set grid `phiGrid` sampled by `SamplePhi(cubic, ...)`.
     */
    ghost predicate Seeding(phiGrid: Grid3D, cubic: bool, rand: nat -> real, perInterface: nat, i: int, j: int, k: int)
      reads this, particles, phiGrid, phiGrid.grid
    {
      && phiGrid.Valid() && phiGrid.Nx == Nx && phiGrid.Ny == Ny && phiGrid.Nz == Nz
      && 1 <= i <= Nx + 1 && 1 <= j <= Ny + 1 && 1 <= k <= Nz + 1
      && SeededAt(cubic, Nx, Ny, Nz, phiGrid.grid[..], hInv, particles,
                  SeedsBefore(Nx, Ny, Nz, Counts(Nx, Ny, Nz, phiGrid.grid[..], h, perInterface), rand, i, j, k))
    }

    /** The end of a row of cells is the start of the next. */
    lemma SeedingNextRow(phiGrid: Grid3D, cubic: bool, rand: nat -> real, perInterface: nat, j: int, k: int)
      requires Seeding(phiGrid, cubic, rand, perInterface, Nx + 1, j, k) && j <= Ny
      ensures Seeding(phiGrid, cubic, rand, perInterface, 1, j + 1, k)
    {
      ghost var count := Counts(Nx, Ny, Nz, phiGrid.grid[..], h, perInterface);
      assert SeedsBefore(Nx, Ny, Nz, count, rand, 1, j + 1, k) == SeedsBefore(Nx, Ny, Nz, count, rand, Nx + 1, j, k);
    }

    /** The end of a layer of cells is the start of the next. */
    lemma SeedingNextLayer(phiGrid: Grid3D, cubic: bool, rand: nat -> real, perInterface: nat, k: int)
      requires Seeding(phiGrid, cubic, rand, perInterface, 1, Ny + 1, k) && k <= Nz
      ensures Seeding(phiGrid, cubic, rand, perInterface, 1, 1, k + 1)
    {
      ghost var count := Counts(Nx, Ny, Nz, phiGrid.grid[..], h, perInterface);
      assert SeedsBefore(Nx, Ny, Nz, count, rand, 1, 1, k + 1) == SeedsBefore(Nx, Ny, Nz, count, rand, 1, Ny + 1, k);
    }

    /**
     * The corner loop of `Reseed`: whether cell (i, j, k) has a corner within
     * RESEED_THRESHOLD of the interface, and whether it has one closer than h.
     */
    method Reseeds(phiGrid: Grid3D, i: int, j: int, k: int) returns (reseed: bool, reseed2: bool)
      requires phiGrid.Valid() && phiGrid.Nx == Nx && phiGrid.Ny == Ny && phiGrid.Nz == Nz
      requires 1 <= i <= Nx && 1 <= j <= Ny && 1 <= k <= Nz
      ensures reseed == Reseeded(Nx, Ny, Nz, phiGrid.grid[..], i, j, k)
      ensures reseed2 == AtInterface(Nx, Ny, Nz, phiGrid.grid[..], h, i, j, k)
    {
      ghost var g := phiGrid.grid[..];
      reseed, reseed2 := false, false;
      for dx := 0 to 2
        invariant Flags(g, i, j, k, reseed, reseed2, 4 * dx)
      {
        for dy := 0 to 2
          invariant Flags(g, i, j, k, reseed, reseed2, 4 * dx + 2 * dy)
        {
          for dz := 0 to 2
            invariant Flags(g, i, j, k, reseed, reseed2, 4 * dx + 2 * dy + dz)
          {
            reseed, reseed2 := ReadCorner(phiGrid, i, j, k, dx, dy, dz, reseed, reseed2);
          }
        }
      }
    }

    /** The two flags of the corner loop after its first t corners. */
    ghost predicate Flags(g: seq<real>, i: int, j: int, k: int, reseed: bool, reseed2: bool, t: nat)
    {
      && t <= 8
      && reseed == FlagUpTo(CornerValues(Nx, Ny, Nz, g, i, j, k), RESEED_THRESHOLD, t)
      && reseed2 == FlagUpTo(CornerValues(Nx, Ny, Nz, g, i, j, k), h, t)
    }

    /** One corner (i + dx, j + dy, k + dz) of the corner loop: set the flags its |phi| is below. */
    method ReadCorner(phiGrid: Grid3D, i: int, j: int, k: int, dx: int, dy: int, dz: int, reseed: bool, reseed2: bool)
      returns (reseed': bool, reseed2': bool)
      requires phiGrid.Valid() && phiGrid.Nx == Nx && phiGrid.Ny == Ny && phiGrid.Nz == Nz
      requires 1 <= i <= Nx && 1 <= j <= Ny && 1 <= k <= Nz && 0 <= dx < 2 && 0 <= dy < 2 && 0 <= dz < 2
      requires Flags(phiGrid.grid[..], i, j, k, reseed, reseed2, 4 * dx + 2 * dy + dz)
      ensures Flags(phiGrid.grid[..], i, j, k, reseed', reseed2', 4 * dx + 2 * dy + dz + 1)
    {
      GI3Range(Nx, Ny, Nz, i + dx, j + dy, k + dz);
      var phi := Abs(phiGrid.grid[GI3(Nx, Ny, i + dx, j + dy, k + dz)]);
      CornerValuesAt(Nx, Ny, Nz, phiGrid.grid[..], i, j, k, dx, dy, dz);
      reseed', reseed2' := reseed, reseed2;
      if phi < RESEED_THRESHOLD {
        reseed' := true;
      }
      if phi < h {
        reseed2' := true;
      }
    }

    /** The particle loop of `Reseed` for a reseeded cell (i, j, k), making `ppn` particles after those at `s`. */
    method SeedCell(phiGrid: Grid3D, cubic: bool, rand: nat -> real, i: int, j: int, k: int, ppn: nat, ghost s: seq<Vector>)
      requires phiGrid.Valid() && phiGrid.Nx == Nx && phiGrid.Ny == Ny && phiGrid.Nz == Nz && UnitRandom(rand)
      requires 1 <= i <= Nx && 1 <= j <= Ny && 1 <= k <= Nz
      requires SeededAt(cubic, Nx, Ny, Nz, phiGrid.grid[..], hInv, particles, s)
      modifies this
      ensures SeededAt(cubic, Nx, Ny, Nz, phiGrid.grid[..], hInv, particles, s + NodeSeeds(rand, 3 * |s|, i, j, k, ppn))
      ensures |particles| >= |old(particles)|
      ensures forall m {:trigger particles[m]} :: 0 <= m < |particles| ==>
                if m < |old(particles)| then particles[m] == old(particles)[m] else fresh(particles[m])
    {
      ghost var phi := phiGrid.grid[..];
      ghost var t := NodeSeeds(rand, 3 * |s|, i, j, k, ppn);
      var n := 3 * |particles|;
      assert s + t[..0] == s;
      for x := 0 to ppn
        invariant phiGrid.grid[..] == phi && CellSeeding(cubic, phi, s, t, x, n)
        invariant |particles| >= |old(particles)|
        invariant forall m {:trigger particles[m]} :: 0 <= m < |particles| ==>
                    if m < |old(particles)| then particles[m] == old(particles)[m] else fresh(particles[m])
      {
        var p := SeedNext(phiGrid, cubic, rand, i, j, k, s, t, x, n);
        n := n + 3;
      }
      assert t[..ppn] == t;
    }

    /** The state of the particle loop of a cell after x particles: the seeds before the cell and the first x of it. */
    ghost predicate CellSeeding(cubic: bool, phi: seq<real>, s: seq<Vector>, t: seq<Vector>, x: int, n: int)
      reads this, particles
    {
      && |phi| == Size3(Nx, Ny, Nz) && 0 <= x <= |t| && n == 3 * |s| + 3 * x
      && SeededAt(cubic, Nx, Ny, Nz, phi, hInv, particles, s + t[..x])
    }

    /** One particle of `SeedCell`: made at the next seed of the cell and appended. */
    method SeedNext(phiGrid: Grid3D, cubic: bool, rand: nat -> real, i: int, j: int, k: int,
                    ghost s: seq<Vector>, ghost t: seq<Vector>, x: int, n: nat) returns (p: Particle)
      requires phiGrid.Valid() && phiGrid.Nx == Nx && phiGrid.Ny == Ny && phiGrid.Nz == Nz && UnitRandom(rand)
      requires 1 <= i <= Nx && 1 <= j <= Ny && 1 <= k <= Nz && x < |t| && t == NodeSeeds(rand, 3 * |s|, i, j, k, |t|)
      requires CellSeeding(cubic, phiGrid.grid[..], s, t, x, n)
      modifies this
      ensures CellSeeding(cubic, phiGrid.grid[..], s, t, x + 1, n + 3)
      ensures fresh(p) && particles == old(particles) + [p]
    {
      var pos := Vector(i as real + rand(n), j as real + rand(n + 1), k as real + rand(n + 2));
      assert pos == t[x];
      NodeSeedsInCell(rand, 3 * |s|, i, j, k, |t|);
      p := new Particle(pos, SamplePhi(cubic, Nx, Ny, Nz, phiGrid.grid[..], pos), hInv);
      SeededPush(cubic, Nx, Ny, Nz, phiGrid.grid[..], hInv, particles, s + t[..x], p, pos);
      particles := particles + [p];
      assert s + t[..x + 1] == (s + t[..x]) + [t[x]];
    }
  }
}
