/**
 * The 2D particle set (`ParticleSet2D`): the list of every marker particle of
 * the level set, for the whole grid. `Update` moves each particle and drops
 * the ones that left the grid, `Resample` resets the radii and drops the
 * particles the level set rejects, `Reseed` throws every particle away and
 * seeds `PARTICLES_PER_NODE` new ones in each cell whose corners are near
 * the interface.
 *
 * The list is the sequence `particles`; erasing an element while iterating
 * becomes building the sequence of the elements kept, in their order.
 */
module ParticleSet2 {
  import opened Numerics
  import opened Vec2
  import opened Grid2
  import opened Particle2
  import opened LevelSet2
  import opened ParticleLists

  // ------------------------------------------------------------- culling

  /**
   * The cull test of `Update` as the source writes it: a particle is dropped
   * when a coordinate is below 0 or above N + 1.
   */
  predicate OutsideAsWritten(Nx: nat, Ny: nat, pos: Vec2D)
  {
    pos.x < 0.0 || pos.x > (Nx + 1) as real || pos.y < 0.0 || pos.y > (Ny + 1) as real
  }

  /**
   * The culling keeps a particle at x = N + 1, where `LinearSample` reads the
   * column N + 2, one past the padded grid.
   */
  lemma AsWrittenKeepsUnsampleable(Nx: nat, Ny: nat)
    ensures var pos := Vec2D((Nx + 1) as real, 0.0);
            !OutsideAsWritten(Nx, Ny, pos) && !InSampleRange(Nx, Ny, pos)
  {
  }

  /** The cull test the rest of the source relies on: the upper bound is excluded. */
  predicate Outside(Nx: nat, Ny: nat, pos: Vec2D)
  {
    pos.x < 0.0 || pos.x >= (Nx + 1) as real || pos.y < 0.0 || pos.y >= (Ny + 1) as real
  }

  /** The corrected test keeps exactly the particles `LinearSample` can read. */
  lemma KeptIsSampleable(Nx: nat, Ny: nat, pos: Vec2D)
    ensures !Outside(Nx, Ny, pos) <==> InSampleRange(Nx, Ny, pos)
  {
  }

  /** The corrected test differs from the written one only on the upper edges. */
  lemma OutsideDiffers(Nx: nat, Ny: nat, pos: Vec2D)
    ensures OutsideAsWritten(Nx, Ny, pos) ==> Outside(Nx, Ny, pos)
    ensures Outside(Nx, Ny, pos) && !OutsideAsWritten(Nx, Ny, pos) ==>
              pos.x == (Nx + 1) as real || pos.y == (Ny + 1) as real
  {
  }

  /**
   * A particle list as the set keeps it: each particle once, every particle
   * well formed and where `LinearSample` can read.
   */
  ghost predicate WellFormed(Nx: nat, Ny: nat, ps: seq<Particle2D>)
    reads ps
  {
    Distinct(ps) && forall k {:trigger ps[k]} :: 0 <= k < |ps| ==> ps[k].Valid() && InSampleRange(Nx, Ny, ps[k].position)
  }

  /** Keeping only well-formed particles inside the sampling range gives a well-formed list. */
  lemma FilterValid(Nx: nat, Ny: nat, ps: seq<Particle2D>, keep: seq<bool>)
    requires |keep| == |ps| && Distinct(ps)
    requires forall m {:trigger ps[m]} :: 0 <= m < |ps| && keep[m] ==> ps[m].Valid() && InSampleRange(Nx, Ny, ps[m].position)
    ensures WellFormed(Nx, Ny, Filter(ps, keep))
  {
    var r := Filter(ps, keep);
    var idx := FilterSound(ps, keep);
    FilterDistinct(ps, keep);
    forall k | 0 <= k < |r|
      ensures r[k].Valid() && InSampleRange(Nx, Ny, r[k].position)
    {
      assert r[k] == ps[idx[k]] && keep[idx[k]];
    }
  }

  /** For each particle, whether it is still in the grid after one RK2 step. */
  ghost function Stays(Nx: nat, Ny: nat, vel: Vec2D -> Vec2D, dt: real, hInv: real, ps: seq<Particle2D>): (r: seq<bool>)
    reads ps
    ensures |r| == |ps|
  {
    seq(|ps|, m requires 0 <= m < |ps| reads ps => !Outside(Nx, Ny, Advected(vel, ps[m].position, dt, hInv)))
  }

  /** For each particle, whether `SetRadius` accepts the level set sampled at its position. */
  ghost function Accepts(Nx: nat, Ny: nat, phi: seq<real>, ps: seq<Particle2D>): (r: seq<bool>)
    requires |phi| == Size(Nx, Ny) && Sampleable(Nx, Ny, ps)
    reads ps
    ensures |r| == |ps|
  {
    seq(|ps|, m requires 0 <= m < |ps| && InSampleRange(Nx, Ny, ps[m].position) reads ps => !Rejects(LinearSample(Nx, Ny, phi, ps[m].position), ps[m].sign))
  }

  // ------------------------------------------------------------- seeding

  /** A corner of a reseed cell is near the interface. */
  predicate Near(Nx: nat, Ny: nat, phi: seq<real>, a: int, b: int)
    requires |phi| == Size(Nx, Ny) && InGrid(Nx, Ny, a, b)
  {
    Abs(Cell(Nx, Ny, phi, a, b)) < RESEED_THRESHOLD
  }

  /**
   * The flag of the corner loop of `Reseed` after its first t corners, in
   * loop order (dx outer, dy inner): (i, j), (i, j+1), (i+1, j), (i+1, j+1).
   */
  predicate NearUpTo(Nx: nat, Ny: nat, phi: seq<real>, i: int, j: int, t: nat)
    requires |phi| == Size(Nx, Ny) && 0 <= i <= Nx && 0 <= j <= Ny && t <= 4
  {
    t > 0 && (NearUpTo(Nx, Ny, phi, i, j, t - 1) || Near(Nx, Ny, phi, i + (t - 1) / 2, j + (t - 1) % 2))
  }

  /** Cell (i, j) is reseeded exactly when one of its four corners is near the interface. */
  lemma NearUpToCorners(Nx: nat, Ny: nat, phi: seq<real>, i: int, j: int)
    requires |phi| == Size(Nx, Ny) && 0 <= i <= Nx && 0 <= j <= Ny
    ensures NearUpTo(Nx, Ny, phi, i, j, 4) <==>
              Near(Nx, Ny, phi, i, j) || Near(Nx, Ny, phi, i, j + 1) ||
              Near(Nx, Ny, phi, i + 1, j) || Near(Nx, Ny, phi, i + 1, j + 1)
  {
    assert NearUpTo(Nx, Ny, phi, i, j, 1) == Near(Nx, Ny, phi, i, j);
    assert NearUpTo(Nx, Ny, phi, i, j, 2) == (NearUpTo(Nx, Ny, phi, i, j, 1) || Near(Nx, Ny, phi, i, j + 1));
    assert NearUpTo(Nx, Ny, phi, i, j, 3) == (NearUpTo(Nx, Ny, phi, i, j, 2) || Near(Nx, Ny, phi, i + 1, j));
    assert NearUpTo(Nx, Ny, phi, i, j, 4) == (NearUpTo(Nx, Ny, phi, i, j, 3) || Near(Nx, Ny, phi, i + 1, j + 1));
  }

  /**
   * The positions `Reseed` gives the particles of a reseeded cell (i, j): the
   * m-th takes the random numbers n + 2m and n + 2m + 1 as its offsets.
   */
  function NodeSeeds(rand: nat -> real, n: nat, i: int, j: int): (r: seq<Vec2D>)
    ensures |r| == PARTICLES_PER_NODE
  {
    seq(PARTICLES_PER_NODE, m requires 0 <= m < PARTICLES_PER_NODE => Vec2D(i as real + rand(n + 2 * m), j as real + rand(n + 2 * m + 1)))
  }

  /**
   * The positions of the particles `Reseed` has made before cell (i, j), the
   * cells taken row by row, each row left to right. A reseeded cell takes
   * two random numbers per particle, from where the previous cells stopped.
   */
  function SeedsBefore(Nx: nat, Ny: nat, phi: seq<real>, rand: nat -> real, i: int, j: int): (r: seq<Vec2D>)
    requires |phi| == Size(Nx, Ny) && 1 <= i <= Nx + 1 && 1 <= j <= Ny + 1
    decreases j, i
  {
    if i == 1 then
      if j == 1 then [] else SeedsBefore(Nx, Ny, phi, rand, Nx + 1, j - 1)
    else
      var s := SeedsBefore(Nx, Ny, phi, rand, i - 1, j);
      if j <= Ny && NearUpTo(Nx, Ny, phi, i - 1, j, 4) then s + NodeSeeds(rand, 2 * |s|, i - 1, j) else s
  }

  /** The positions of all the particles `Reseed` makes: the seeds before the first cell past the last row. */
  function Seeds(Nx: nat, Ny: nat, phi: seq<real>, rand: nat -> real): seq<Vec2D>
    requires |phi| == Size(Nx, Ny)
  {
    SeedsBefore(Nx, Ny, phi, rand, 1, Ny + 1)
  }

  /** Every seed lies in the cell it was made for. */
  lemma NodeSeedsInCell(rand: nat -> real, n: nat, i: int, j: int)
    requires UnitRandom(rand)
    ensures forall k {:trigger NodeSeeds(rand, n, i, j)[k]} :: 0 <= k < PARTICLES_PER_NODE ==>
              var p := NodeSeeds(rand, n, i, j)[k];
              i as real <= p.x < (i + 1) as real && j as real <= p.y < (j + 1) as real
  {
    forall k | 0 <= k < PARTICLES_PER_NODE
      ensures var p := NodeSeeds(rand, n, i, j)[k];
              i as real <= p.x < (i + 1) as real && j as real <= p.y < (j + 1) as real
    {
      assert 0.0 <= rand(n + 2 * k) < 1.0 && 0.0 <= rand(n + 2 * k + 1) < 1.0;
    }
  }

  /** Every seed lies in an interior cell of the grid, so `LinearSample` can read it. */
  lemma {:induction false} SeedsSampleable(Nx: nat, Ny: nat, phi: seq<real>, rand: nat -> real, i: int, j: int)
    requires |phi| == Size(Nx, Ny) && 1 <= i <= Nx + 1 && 1 <= j <= Ny + 1 && UnitRandom(rand)
    ensures forall k {:trigger SeedsBefore(Nx, Ny, phi, rand, i, j)[k]} :: 0 <= k < |SeedsBefore(Nx, Ny, phi, rand, i, j)| ==>
              var p := SeedsBefore(Nx, Ny, phi, rand, i, j)[k];
              1.0 <= p.x < (Nx + 1) as real && 1.0 <= p.y < (Ny + 1) as real
    decreases j, i
  {
    if i == 1 {
      if j > 1 {
        SeedsSampleable(Nx, Ny, phi, rand, Nx + 1, j - 1);
      }
    } else {
      var s := SeedsBefore(Nx, Ny, phi, rand, i - 1, j);
      SeedsSampleable(Nx, Ny, phi, rand, i - 1, j);
      if j <= Ny && NearUpTo(Nx, Ny, phi, i - 1, j, 4) {
        var t := NodeSeeds(rand, 2 * |s|, i - 1, j);
        NodeSeedsInCell(rand, 2 * |s|, i - 1, j);
        assert forall k {:trigger (s + t)[k]} :: |s| <= k < |s| + |t| ==> (s + t)[k] == t[k - |s|];
      }
    }
  }

  /** `Reseed` makes `PARTICLES_PER_NODE` particles per reseeded cell. */
  lemma {:induction false} SeedsCount(Nx: nat, Ny: nat, phi: seq<real>, rand: nat -> real, i: int, j: int)
    requires |phi| == Size(Nx, Ny) && 1 <= i <= Nx + 1 && 1 <= j <= Ny + 1
    ensures |SeedsBefore(Nx, Ny, phi, rand, i, j)| % PARTICLES_PER_NODE == 0
    decreases j, i
  {
    if i == 1 {
      if j > 1 {
        SeedsCount(Nx, Ny, phi, rand, Nx + 1, j - 1);
      }
    } else {
      SeedsCount(Nx, Ny, phi, rand, i - 1, j);
    }
  }

  /** A cell none of whose corners is near the interface adds no particle. */
  lemma FarCellAddsNothing(Nx: nat, Ny: nat, phi: seq<real>, rand: nat -> real, i: int, j: int)
    requires |phi| == Size(Nx, Ny) && 1 <= i <= Nx && 1 <= j <= Ny
    requires !Near(Nx, Ny, phi, i, j) && !Near(Nx, Ny, phi, i, j + 1)
    requires !Near(Nx, Ny, phi, i + 1, j) && !Near(Nx, Ny, phi, i + 1, j + 1)
    ensures SeedsBefore(Nx, Ny, phi, rand, i + 1, j) == SeedsBefore(Nx, Ny, phi, rand, i, j)
  {
    NearUpToCorners(Nx, Ny, phi, i, j);
  }

  /**
   * The particles ps are the seeds at the given positions: distinct, and
   * each where its seed is, with the sign and radius the constructor gives
   * it there.
   */
  ghost predicate SeededAt(Nx: nat, Ny: nat, phi: seq<real>, hInv: real, ps: seq<Particle2D>, seeds: seq<Vec2D>)
    requires |phi| == Size(Nx, Ny)
    reads ps
  {
    |ps| == |seeds| && Distinct(ps) &&
    forall k {:trigger ps[k]} :: 0 <= k < |ps| ==>
      ps[k].Valid() && ps[k].position == seeds[k] && InSampleRange(Nx, Ny, seeds[k]) &&
      ps[k].sign == SignOf(LinearSample(Nx, Ny, phi, seeds[k])) &&
      ps[k].radius == InitialRadius(LinearSample(Nx, Ny, phi, seeds[k]), hInv)
  }

  /** A new particle made at the next seed extends `SeededAt`. */
  lemma SeededPush(Nx: nat, Ny: nat, phi: seq<real>, hInv: real, ps: seq<Particle2D>, seeds: seq<Vec2D>,
                   p: Particle2D, pos: Vec2D)
    requires |phi| == Size(Nx, Ny) && SeededAt(Nx, Ny, phi, hInv, ps, seeds) && p !in ps
    requires p.Valid() && p.position == pos && InSampleRange(Nx, Ny, pos)
    requires p.sign == SignOf(LinearSample(Nx, Ny, phi, pos)) && p.radius == InitialRadius(LinearSample(Nx, Ny, phi, pos), hInv)
    ensures SeededAt(Nx, Ny, phi, hInv, ps + [p], seeds + [pos])
  {
    var ps', seeds' := ps + [p], seeds + [pos];
    assert forall k {:trigger ps'[k]} :: 0 <= k < |ps| ==> ps'[k] == ps[k] && seeds'[k] == seeds[k];
  }

  // ------------------------------------------------------------ the class

  class ParticleSet2D {
    const Nx: nat
    const Ny: nat
    const hInv: real
    var particles: seq<Particle2D>

    /**
     * The list holds each particle once, every particle is well formed and
     * sits where `LinearSample` can read.
     */
    ghost predicate Valid()
      reads this, particles
    {
      Nx == NX && Ny == NY && WellFormed(Nx, Ny, particles)
    }

    /** `ParticleSet2D(nx, ny, hi)`: no particles; hInv is 1/hi. */
    constructor(nx: nat, ny: nat, hi: real)
      requires nx == NX && ny == NY && hi != 0.0
      ensures Valid() && Nx == nx && Ny == ny && hInv == 1.0 / hi && particles == []
    {
      Nx, Ny, hInv := nx, ny, 1.0 / hi;
      particles := [];
    }

    /**
     * `Update(grid, dt)`: every particle takes one RK2 step; the ones that
     * left the grid are erased, the others keep their order.
     */
    method Update(vel: Vec2D -> Vec2D, dt: real)
      requires Valid()
      modifies this, particles
      ensures Valid()
      ensures particles == Filter(old(particles), old(Stays(Nx, Ny, vel, dt, hInv, particles)))
      ensures forall m {:trigger old(particles)[m]} :: 0 <= m < |old(particles)| ==>
                old(particles)[m].position == Advected(vel, old(particles[m].position), dt, hInv) &&
                old(particles)[m].radius == old(particles[m].radius)
    {
      particles := Advance(vel, dt, particles);
    }

    /** The loop of `Update` over the list `ps`, returning the survivors. */
    method Advance(vel: Vec2D -> Vec2D, dt: real, ps: seq<Particle2D>) returns (kept: seq<Particle2D>)
      requires WellFormed(Nx, Ny, ps)
      modifies ps
      ensures WellFormed(Nx, Ny, kept)
      ensures kept == Filter(ps, old(Stays(Nx, Ny, vel, dt, hInv, ps)))
      ensures forall m {:trigger ps[m]} :: 0 <= m < |ps| ==>
                ps[m].position == Advected(vel, old(ps[m].position), dt, hInv) && ps[m].radius == old(ps[m].radius)
    {
      ghost var keep := Stays(Nx, Ny, vel, dt, hInv, ps);
      ghost var pos0 := seq(|ps|, m requires 0 <= m < |ps| reads ps => ps[m].position);
      ghost var r0 := seq(|ps|, m requires 0 <= m < |ps| reads ps => ps[m].radius);
      assert forall m {:trigger ps[m]} :: 0 <= m < |ps| ==> pos0[m] == ps[m].position && r0[m] == ps[m].radius;
      kept := AdvanceLoop(vel, dt, ps, keep, pos0, r0);
      FilterAll(ps, keep);
      KeptIsSampleableAll(vel, dt, ps, keep, pos0, r0, kept);
      FilterValid(Nx, Ny, ps, keep);
    }

    /** The while loop of `Update`, from its first particle to its last. */
    method AdvanceLoop(vel: Vec2D -> Vec2D, dt: real, ps: seq<Particle2D>, ghost keep: seq<bool>,
                       ghost pos0: seq<Vec2D>, ghost r0: seq<real>) returns (kept: seq<Particle2D>)
      requires Updating(vel, dt, ps, keep, pos0, r0, 0, [])
      modifies ps
      ensures Updating(vel, dt, ps, keep, pos0, r0, |ps|, kept)
    {
      kept := [];
      var k := 0;
      while k < |ps|
        invariant Updating(vel, dt, ps, keep, pos0, r0, k, kept)
      {
        kept := UpdateNext(vel, dt, ps, keep, pos0, r0, k, kept);
        k := k + 1;
      }
    }

    /** The state of `Update`'s loop after k particles: moved, the survivors among them collected. */
    ghost predicate Updating(vel: Vec2D -> Vec2D, dt: real, ps: seq<Particle2D>, keep: seq<bool>,
                             pos0: seq<Vec2D>, r0: seq<real>, k: int, kept: seq<Particle2D>)
      reads ps
    {
      && |keep| == |ps| && |pos0| == |ps| && |r0| == |ps| && 0 <= k <= |ps| && Distinct(ps)
      && kept == Filter(ps[..k], keep[..k])
      && (forall m {:trigger ps[m]} :: 0 <= m < |ps| ==>
            ps[m].radius == r0[m] && ps[m].Valid() &&
            keep[m] == !Outside(Nx, Ny, Advected(vel, pos0[m], dt, hInv)) &&
            ps[m].position == (if m < k then Advected(vel, pos0[m], dt, hInv) else pos0[m]))
    }

    /** After `Update`'s loop, every particle it keeps has its new position in the sampling range. */
    lemma KeptIsSampleableAll(vel: Vec2D -> Vec2D, dt: real, ps: seq<Particle2D>, keep: seq<bool>,
                              pos0: seq<Vec2D>, r0: seq<real>, kept: seq<Particle2D>)
      requires Updating(vel, dt, ps, keep, pos0, r0, |ps|, kept)
      ensures forall m {:trigger ps[m]} :: 0 <= m < |ps| && keep[m] ==> ps[m].Valid() && InSampleRange(Nx, Ny, ps[m].position)
    {
      forall m | 0 <= m < |ps| && keep[m]
        ensures InSampleRange(Nx, Ny, ps[m].position)
      {
        KeptIsSampleable(Nx, Ny, ps[m].position);
      }
    }

    /** One particle of `Update`'s loop: move it, and collect it if it stays in the grid. */
    method UpdateNext(vel: Vec2D -> Vec2D, dt: real, ps: seq<Particle2D>, ghost keep: seq<bool>,
                      ghost pos0: seq<Vec2D>, ghost r0: seq<real>, k: int, kept: seq<Particle2D>)
      returns (kept': seq<Particle2D>)
      requires Updating(vel, dt, ps, keep, pos0, r0, k, kept) && k < |ps|
      modifies ps[k]
      ensures Updating(vel, dt, ps, keep, pos0, r0, k + 1, kept')
    {
      var p := ps[k];
      p.Update(vel, dt, hInv);
      var pos := p.GetPosition();
      FilterSnoc(ps, keep, k);
      kept' := kept;
      if !(pos.x < 0.0 || pos.x >= (Nx + 1) as real || pos.y < 0.0 || pos.y >= (Ny + 1) as real) {
        kept' := kept + [p];
      }
    }

    /**
     * `Resample(levelSet)`: every particle's radius is reset from the level
     * set sampled at its position; the ones `SetRadius` rejects are erased.
     */
    method Resample(phiGrid: Grid2D)
      requires Valid() && phiGrid.Valid() && phiGrid.Nx == Nx && phiGrid.Ny == Ny
      modifies this, particles
      ensures Valid()
      ensures particles == Filter(old(particles), old(Accepts(Nx, Ny, phiGrid.grid[..], particles)))
      ensures forall m {:trigger old(particles)[m]} :: 0 <= m < |old(particles)| ==>
                var p := old(particles)[m];
                p.position == old(particles[m].position) &&
                (old(Accepts(Nx, Ny, phiGrid.grid[..], particles))[m] ==>
                   p.radius == ResetRadius(LinearSample(Nx, Ny, phiGrid.grid[..], p.position), hInv))
    {
      particles := ResampleAll(phiGrid, particles);
    }

    /** The loop of `Resample` over the list `ps`, returning the accepted particles. */
    method ResampleAll(phiGrid: Grid2D, ps: seq<Particle2D>) returns (kept: seq<Particle2D>)
      requires WellFormed(Nx, Ny, ps) && phiGrid.Valid() && phiGrid.Nx == Nx && phiGrid.Ny == Ny
      modifies ps
      ensures WellFormed(Nx, Ny, kept)
      ensures kept == Filter(ps, old(Accepts(Nx, Ny, phiGrid.grid[..], ps)))
      ensures forall m {:trigger ps[m]} :: 0 <= m < |ps| ==>
                ps[m].position == old(ps[m].position) &&
                (old(Accepts(Nx, Ny, phiGrid.grid[..], ps))[m] ==>
                   ps[m].radius == ResetRadius(LinearSample(Nx, Ny, phiGrid.grid[..], ps[m].position), hInv))
    {
      ghost var phi := phiGrid.grid[..];
      ghost var keep := Accepts(Nx, Ny, phi, ps);
      ghost var pos0 := seq(|ps|, m requires 0 <= m < |ps| reads ps => ps[m].position);
      assert forall m {:trigger ps[m]} :: 0 <= m < |ps| ==> pos0[m] == ps[m].position && InSampleRange(Nx, Ny, pos0[m]);
      ghost var samples := seq(|ps|, m requires 0 <= m < |ps| => LinearSample(Nx, Ny, phi, pos0[m]));
      kept := ResampleLoop(phiGrid, phi, ps, keep, samples, pos0);
      FilterAll(ps, keep);
      FilterValid(Nx, Ny, ps, keep);
    }

    /** The while loop of `Resample`, from its first particle to its last. */
    method ResampleLoop(phiGrid: Grid2D, ghost phi: seq<real>, ps: seq<Particle2D>, ghost keep: seq<bool>,
                        ghost samples: seq<real>, ghost pos0: seq<Vec2D>) returns (kept: seq<Particle2D>)
      requires phiGrid.Valid() && phiGrid.Nx == Nx && phiGrid.Ny == Ny && phi == phiGrid.grid[..]
      requires Resampling(phi, ps, keep, samples, pos0, 0, [])
      modifies ps
      ensures Resampling(phi, ps, keep, samples, pos0, |ps|, kept)
    {
      kept := [];
      var k := 0;
      while k < |ps|
        invariant Resampling(phi, ps, keep, samples, pos0, k, kept) && phiGrid.grid[..] == phi
      {
        kept := ResampleNext(phiGrid, phi, ps, keep, samples, pos0, k, kept);
        k := k + 1;
      }
    }

    /** The state of `Resample`'s loop after k particles: resized from their samples, the accepted ones collected. */
    ghost predicate Resampling(phi: seq<real>, ps: seq<Particle2D>, keep: seq<bool>, samples: seq<real>,
                               pos0: seq<Vec2D>, k: int, kept: seq<Particle2D>)
      reads ps
    {
      && |phi| == Size(Nx, Ny) && |keep| == |ps| && |samples| == |ps| && |pos0| == |ps| && 0 <= k <= |ps| && Distinct(ps)
      && kept == Filter(ps[..k], keep[..k])
      && (forall m {:trigger ps[m]} :: 0 <= m < |ps| ==>
            ps[m].Valid() && ps[m].position == pos0[m] && InSampleRange(Nx, Ny, pos0[m]) &&
            samples[m] == LinearSample(Nx, Ny, phi, pos0[m]) && keep[m] == !Rejects(samples[m], ps[m].sign) &&
            (m < k && keep[m] ==> ps[m].radius == ResetRadius(samples[m], hInv)))
    }

    /** One particle of `Resample`'s loop: reset its radius, and collect it if accepted. */
    method ResampleNext(phiGrid: Grid2D, ghost phi: seq<real>, ps: seq<Particle2D>, ghost keep: seq<bool>,
                        ghost samples: seq<real>, ghost pos0: seq<Vec2D>, k: int, kept: seq<Particle2D>)
      returns (kept': seq<Particle2D>)
      requires phiGrid.Valid() && phiGrid.Nx == Nx && phiGrid.Ny == Ny && phi == phiGrid.grid[..]
      requires Resampling(phi, ps, keep, samples, pos0, k, kept) && k < |ps|
      modifies ps[k]
      ensures Resampling(phi, ps, keep, samples, pos0, k + 1, kept')
    {
      var p := ps[k];
      var pos := p.GetPosition();
      var v := LinearSample(Nx, Ny, phiGrid.grid[..], pos);
      assert v == samples[k];
      var accepted := p.SetRadius(v, hInv);
      assert accepted == keep[k];
      FilterSnoc(ps, keep, k);
      kept' := kept;
      if accepted {
        kept' := kept + [p];
      }
      forall m | 0 <= m < |ps|
        ensures ps[m].Valid() && ps[m].position == pos0[m] && keep[m] == !Rejects(samples[m], ps[m].sign)
        ensures m < k + 1 && keep[m] ==> ps[m].radius == ResetRadius(samples[m], hInv)
      {
        if m != k {
          assert ps[m] != p;
        }
      }
    }

    /**
     * `Reseed(levelSet)`: the old particles are dropped; every interior cell
     * with a corner near the interface gets `PARTICLES_PER_NODE` new
     * particles, at random points of the cell, made by the particle
     * constructor with the level set sampled there.
     */
    method Reseed(phiGrid: Grid2D, rand: nat -> real)
      requires Valid() && phiGrid.Valid() && phiGrid.Nx == Nx && phiGrid.Ny == Ny && UnitRandom(rand)
      modifies this
      ensures Valid()
      ensures SeededAt(Nx, Ny, phiGrid.grid[..], hInv, particles, Seeds(Nx, Ny, phiGrid.grid[..], rand))
      ensures forall k {:trigger particles[k]} :: 0 <= k < |particles| ==> fresh(particles[k])
    {
      particles := [];
      for j := 1 to Ny + 1
        invariant Seeding(phiGrid.grid[..], rand, 1, j)
        invariant forall k {:trigger particles[k]} :: 0 <= k < |particles| ==> fresh(particles[k])
      {
        SeedRow(phiGrid, rand, j);
        SeedingNextRow(phiGrid.grid[..], rand, j);
      }
    }

    /** The inner loop of `Reseed`: the cells of row j, left to right. */
    method SeedRow(phiGrid: Grid2D, rand: nat -> real, j: int)
      requires phiGrid.Valid() && phiGrid.Nx == Nx && phiGrid.Ny == Ny && UnitRandom(rand) && j <= Ny
      requires Seeding(phiGrid.grid[..], rand, 1, j)
      modifies this
      ensures Seeding(phiGrid.grid[..], rand, Nx + 1, j)
      ensures |particles| >= |old(particles)|
      ensures forall k {:trigger particles[k]} :: 0 <= k < |particles| ==>
                if k < |old(particles)| then particles[k] == old(particles)[k] else fresh(particles[k])
    {
      for i := 1 to Nx + 1
        invariant Seeding(phiGrid.grid[..], rand, i, j)
        invariant |particles| >= |old(particles)|
        invariant forall k {:trigger particles[k]} :: 0 <= k < |particles| ==>
                    if k < |old(particles)| then particles[k] == old(particles)[k] else fresh(particles[k])
      {
        var reseed := Reseeds(phiGrid, i, j);
        if reseed {
          SeedCell(phiGrid, rand, i, j);
        }
      }
    }

    /** The particles after the cells before (i, j): the seeds so far. */
    ghost predicate Seeding(phi: seq<real>, rand: nat -> real, i: int, j: int)
      reads this, particles
    {
      && Nx == NX && Ny == NY && |phi| == Size(Nx, Ny) && 1 <= i <= Nx + 1 && 1 <= j <= Ny + 1
      && SeededAt(Nx, Ny, phi, hInv, particles, SeedsBefore(Nx, Ny, phi, rand, i, j))
    }

    /** The end of a row of cells is the start of the next. */
    lemma SeedingNextRow(phi: seq<real>, rand: nat -> real, j: int)
      requires Seeding(phi, rand, Nx + 1, j) && j <= Ny
      ensures Seeding(phi, rand, 1, j + 1)
    {
      assert SeedsBefore(Nx, Ny, phi, rand, 1, j + 1) == SeedsBefore(Nx, Ny, phi, rand, Nx + 1, j);
    }

    /** The corner loop of `Reseed`: whether cell (i, j) has a corner near the interface. */
    method Reseeds(phiGrid: Grid2D, i: int, j: int) returns (reseed: bool)
      requires phiGrid.Valid() && phiGrid.Nx == Nx && phiGrid.Ny == Ny && 1 <= i <= Nx && 1 <= j <= Ny
      ensures reseed == NearUpTo(Nx, Ny, phiGrid.grid[..], i, j, 4)
    {
      reseed := false;
      for dx := 0 to 2
        invariant reseed == NearUpTo(Nx, Ny, phiGrid.grid[..], i, j, 2 * dx)
      {
        for dy := 0 to 2
          invariant reseed == NearUpTo(Nx, Ny, phiGrid.grid[..], i, j, 2 * dx + dy)
        {
          GIRange(Nx, Ny, i + dx, j + dy);
          if Abs(phiGrid.grid[GI(Nx, i + dx, j + dy)]) < RESEED_THRESHOLD {
            reseed := true;
          }
          assert (2 * dx + dy) / 2 == dx && (2 * dx + dy) % 2 == dy;
        }
      }
    }

    /** The particle loop of `Reseed` for a reseeded cell (i, j). */
    method SeedCell(phiGrid: Grid2D, rand: nat -> real, i: int, j: int)
      requires phiGrid.Valid() && phiGrid.Nx == Nx && phiGrid.Ny == Ny && UnitRandom(rand)
      requires 1 <= i <= Nx && 1 <= j <= Ny && NearUpTo(Nx, Ny, phiGrid.grid[..], i, j, 4)
      requires Seeding(phiGrid.grid[..], rand, i, j)
      modifies this
      ensures Seeding(phiGrid.grid[..], rand, i + 1, j)
      ensures |particles| >= |old(particles)|
      ensures forall k {:trigger particles[k]} :: 0 <= k < |particles| ==>
                if k < |old(particles)| then particles[k] == old(particles)[k] else fresh(particles[k])
    {
      ghost var phi := phiGrid.grid[..];
      ghost var s := SeedsBefore(Nx, Ny, phi, rand, i, j);
      ghost var t := NodeSeeds(rand, 2 * |s|, i, j);
      NodeSeedsInCell(rand, 2 * |s|, i, j);
      var n := 2 * |particles|;
      for x := 0 to PARTICLES_PER_NODE
        invariant n == 2 * |s| + 2 * x && |phi| == Size(Nx, Ny) && SeededAt(Nx, Ny, phi, hInv, particles, s + t[..x])
        invariant |particles| >= |old(particles)|
        invariant forall k {:trigger particles[k]} :: 0 <= k < |particles| ==>
                    if k < |old(particles)| then particles[k] == old(particles)[k] else fresh(particles[k])
      {
        var p := SeedNext(phiGrid, rand, i, j, s, t, x, n);
        n := n + 2;
      }
      assert t[..PARTICLES_PER_NODE] == t;
    }

    /** One particle of `SeedCell`: made at the next seed of the cell and appended. */
    method SeedNext(phiGrid: Grid2D, rand: nat -> real, i: int, j: int, ghost s: seq<Vec2D>, ghost t: seq<Vec2D>,
                    x: int, n: nat) returns (p: Particle2D)
      requires phiGrid.Valid() && phiGrid.Nx == Nx && phiGrid.Ny == Ny && UnitRandom(rand)
      requires 1 <= i <= Nx && 1 <= j <= Ny && 0 <= x < PARTICLES_PER_NODE && n == 2 * |s| + 2 * x
      requires t == NodeSeeds(rand, 2 * |s|, i, j) && SeededAt(Nx, Ny, phiGrid.grid[..], hInv, particles, s + t[..x])
      modifies this
      ensures SeededAt(Nx, Ny, phiGrid.grid[..], hInv, particles, s + t[..x + 1])
      ensures fresh(p) && particles == old(particles) + [p]
    {
      var pos := Vec2D(i as real + rand(n), j as real + rand(n + 1));
      assert pos == t[x];
      NodeSeedsInCell(rand, 2 * |s|, i, j);
      p := new Particle2D(pos, LinearSample(Nx, Ny, phiGrid.grid[..], pos), hInv);
      SeededPush(Nx, Ny, phiGrid.grid[..], hInv, particles, s + t[..x], p, pos);
      particles := particles + [p];
      assert s + t[..x + 1] == (s + t[..x]) + [t[x]];
    }
  }
}
