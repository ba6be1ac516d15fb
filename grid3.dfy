/**
 * The 3D scalar grid with a one-cell ghost border. Cell (i, j, k), with
 * 0 <= i <= Nx+1, 0 <= j <= Ny+1 and 0 <= k <= Nz+1, is stored at
 * i + (Nx+2)*j + (Nx+2)*(Ny+2)*k of an array of (Nx+2)*(Ny+2)*(Nz+2) values
 * (the strides dj = Nx+2 and dk = (Nx+2)*(Ny+2) of the 3D marcher).
 *
 * The index is built from the 2D one: the planes are stacked into one tall
 * 2D grid (Nx+2) wide, whose row is the "layer" index j + (Ny+2)*k. So
 * GI3(i, j, k) = GI(i, Layer(j, k)), and decoding an index is decoding it in
 * 2D twice: its column is i, and its row, decoded with width Ny+2, gives j
 * and k.
 */
module Grid3 {
  import opened Numerics
  import opened Grid2

  // ------------------------------------------------------- index arithmetic

  /** The row of (j, k) in the stacked layout: j + (Ny+2)*k. */
  function Layer(Ny: nat, j: int, k: int): int
  {
    j + Stride(Ny, k)
  }

  /** The number of stacked rows less two, so that `Size(Nx, Rows(Ny, Nz))` counts every cell. */
  function Rows(Ny: nat, Nz: nat): nat
  {
    StrideMonotone(Ny, 1, Nz + 2);
    Stride(Ny, Nz + 2) - 2
  }

  /** The number of cells, ghost cells included. */
  function Size3(Nx: nat, Ny: nat, Nz: nat): nat
  {
    Size(Nx, Rows(Ny, Nz))
  }

  /** The linear index of cell (i, j, k). */
  function GI3(Nx: nat, Ny: nat, i: int, j: int, k: int): int
  {
    GI(Nx, i, Layer(Ny, j, k))
  }

  /** The i coordinate of a linear index. */
  function I3(Nx: nat, c: int): int
  {
    Col(Nx, c)
  }

  /** The j coordinate of a linear index. */
  function J3(Nx: nat, Ny: nat, c: int): int
  {
    Col(Ny, Row(Nx, c))
  }

  /** The k coordinate of a linear index. */
  function K3(Nx: nat, Ny: nat, c: int): int
  {
    Row(Ny, Row(Nx, c))
  }

  predicate InGrid3(Nx: nat, Ny: nat, Nz: nat, i: int, j: int, k: int)
  {
    0 <= i <= Nx + 1 && 0 <= j <= Ny + 1 && 0 <= k <= Nz + 1
  }

  predicate IsInterior3(Nx: nat, Ny: nat, Nz: nat, i: int, j: int, k: int)
  {
    1 <= i <= Nx && 1 <= j <= Ny && 1 <= k <= Nz
  }

  predicate IsGhost3(Nx: nat, Ny: nat, Nz: nat, i: int, j: int, k: int)
  {
    InGrid3(Nx, Ny, Nz, i, j, k) && !IsInterior3(Nx, Ny, Nz, i, j, k)
  }

  /** The index is the source's i + dj*j + dk*k with dj = Nx+2 and dk = (Nx+2)*(Ny+2). */
  lemma GI3IsProduct(Nx: nat, Ny: nat, i: int, j: int, k: int)
    ensures GI3(Nx, Ny, i, j, k) == i + (Nx + 2) * j + (Nx + 2) * (Ny + 2) * k
  {
    StrideIsProduct(Ny, k);
    StrideIsProduct(Nx, Layer(Ny, j, k));
    assert (Nx + 2) * (j + (Ny + 2) * k) == (Nx + 2) * j + (Nx + 2) * (Ny + 2) * k;
  }

  /** The grid holds (Nx+2)*(Ny+2)*(Nz+2) cells. */
  lemma Size3IsProduct(Nx: nat, Ny: nat, Nz: nat)
    ensures Size3(Nx, Ny, Nz) == (Nx + 2) * (Ny + 2) * (Nz + 2)
  {
    StrideIsProduct(Ny, Nz + 2);
    StrideIsProduct(Nx, Rows(Ny, Nz) + 2);
    assert (Nx + 2) * ((Ny + 2) * (Nz + 2)) == (Nx + 2) * (Ny + 2) * (Nz + 2);
  }

  /** `GI3` maps the padded grid into [0, size), and the decoders recover (i, j, k). */
  lemma GI3Range(Nx: nat, Ny: nat, Nz: nat, i: int, j: int, k: int)
    requires InGrid3(Nx, Ny, Nz, i, j, k)
    ensures 0 <= GI3(Nx, Ny, i, j, k) < Size3(Nx, Ny, Nz)
    ensures I3(Nx, GI3(Nx, Ny, i, j, k)) == i && J3(Nx, Ny, GI3(Nx, Ny, i, j, k)) == j &&
            K3(Nx, Ny, GI3(Nx, Ny, i, j, k)) == k
  {
    GIRange(Ny, Nz, j, k);
    GIRange(Nx, Rows(Ny, Nz), i, Layer(Ny, j, k));
  }

  /** Every index in [0, size) is `GI3` of its decoded coordinates: `GI3` is onto. */
  lemma Coords3(Nx: nat, Ny: nat, Nz: nat, c: int)
    requires 0 <= c < Size3(Nx, Ny, Nz)
    ensures InGrid3(Nx, Ny, Nz, I3(Nx, c), J3(Nx, Ny, c), K3(Nx, Ny, c))
    ensures GI3(Nx, Ny, I3(Nx, c), J3(Nx, Ny, c), K3(Nx, Ny, c)) == c
  {
    ColRowRange(Nx, Rows(Ny, Nz), c);
    ColRowRange(Ny, Nz, Row(Nx, c));
  }

  /** `GI3` is injective on the padded grid. */
  lemma GI3Injective(Nx: nat, Ny: nat, Nz: nat, i1: int, j1: int, k1: int, i2: int, j2: int, k2: int)
    requires InGrid3(Nx, Ny, Nz, i1, j1, k1) && InGrid3(Nx, Ny, Nz, i2, j2, k2)
    requires GI3(Nx, Ny, i1, j1, k1) == GI3(Nx, Ny, i2, j2, k2)
    ensures i1 == i2 && j1 == j2 && k1 == k2
  {
    GI3Range(Nx, Ny, Nz, i1, j1, k1);
    GI3Range(Nx, Ny, Nz, i2, j2, k2);
  }

  /** `GI3Range` for all cells at once. */
  lemma GI3Facts(Nx: nat, Ny: nat, Nz: nat)
    ensures forall i, j, k {:trigger GI3(Nx, Ny, i, j, k)} :: InGrid3(Nx, Ny, Nz, i, j, k) ==>
      0 <= GI3(Nx, Ny, i, j, k) < Size3(Nx, Ny, Nz) && I3(Nx, GI3(Nx, Ny, i, j, k)) == i &&
      J3(Nx, Ny, GI3(Nx, Ny, i, j, k)) == j && K3(Nx, Ny, GI3(Nx, Ny, i, j, k)) == k
  {
    forall i, j, k {:trigger GI3(Nx, Ny, i, j, k)} | InGrid3(Nx, Ny, Nz, i, j, k)
      ensures 0 <= GI3(Nx, Ny, i, j, k) < Size3(Nx, Ny, Nz) && I3(Nx, GI3(Nx, Ny, i, j, k)) == i &&
              J3(Nx, Ny, GI3(Nx, Ny, i, j, k)) == j && K3(Nx, Ny, GI3(Nx, Ny, i, j, k)) == k
    {
      GI3Range(Nx, Ny, Nz, i, j, k);
    }
  }

  /** Index c of the array is a ghost cell. */
  predicate GhostIndex(Nx: nat, Ny: nat, Nz: nat, c: int)
  {
    IsGhost3(Nx, Ny, Nz, I3(Nx, c), J3(Nx, Ny, c), K3(Nx, Ny, c))
  }

  // --------------------------------------------------- the cell sequence

  /** A cell of a cell sequence, by its grid coordinates. */
  function Cell3(Nx: nat, Ny: nat, Nz: nat, g: seq<real>, i: int, j: int, k: int): real
    requires |g| == Size3(Nx, Ny, Nz) && InGrid3(Nx, Ny, Nz, i, j, k)
  {
    GI3Range(Nx, Ny, Nz, i, j, k);
    g[GI3(Nx, Ny, i, j, k)]
  }

  /** The cell sequence with cell (i, j, k) replaced by v; no other cell changes. */
  function SetCell3(Nx: nat, Ny: nat, Nz: nat, g: seq<real>, i: int, j: int, k: int, v: real): (r: seq<real>)
    requires |g| == Size3(Nx, Ny, Nz) && InGrid3(Nx, Ny, Nz, i, j, k)
    ensures |r| == |g|
    ensures forall a, b, c {:trigger Cell3(Nx, Ny, Nz, r, a, b, c)} :: InGrid3(Nx, Ny, Nz, a, b, c) ==>
      Cell3(Nx, Ny, Nz, r, a, b, c) == if a == i && b == j && c == k then v else Cell3(Nx, Ny, Nz, g, a, b, c)
  {
    GI3Range(Nx, Ny, Nz, i, j, k);
    GI3Facts(Nx, Ny, Nz);
    g[GI3(Nx, Ny, i, j, k) := v]
  }

  /** Two cell sequences of the grid's size with the same cells are equal. */
  lemma Cells3Equal(Nx: nat, Ny: nat, Nz: nat, a: seq<real>, b: seq<real>)
    requires |a| == Size3(Nx, Ny, Nz) && |b| == Size3(Nx, Ny, Nz)
    requires forall i, j, k {:trigger Cell3(Nx, Ny, Nz, a, i, j, k)} :: InGrid3(Nx, Ny, Nz, i, j, k) ==>
      Cell3(Nx, Ny, Nz, a, i, j, k) == Cell3(Nx, Ny, Nz, b, i, j, k)
    ensures a == b
  {
    forall c | 0 <= c < |a|
      ensures a[c] == b[c]
    {
      Coords3(Nx, Ny, Nz, c);
      assert Cell3(Nx, Ny, Nz, a, I3(Nx, c), J3(Nx, Ny, c), K3(Nx, Ny, c)) ==
             Cell3(Nx, Ny, Nz, b, I3(Nx, c), J3(Nx, Ny, c), K3(Nx, Ny, c));
    }
  }

  // ------------------------------------------------- the signed-distance border

  /**
   * What `SetBoundarySignedDist` leaves: every ghost cell 3*HH, every
   * interior cell as it was. The 3D definition is not available; this is the
   * 2D rule (sides and tops 3*HH, then the corner averages, which are 3*HH too)
   * carried over to faces, edges and corners.
   */
  function SignedDist3(Nx: nat, Ny: nat, Nz: nat, g: seq<real>): (r: seq<real>)
    requires |g| == Size3(Nx, Ny, Nz)
    ensures |r| == |g|
  {
    seq(|g|, c requires 0 <= c < |g| => if GhostIndex(Nx, Ny, Nz, c) then 3.0 * HH as real else g[c])
  }

  /** `SignedDist3` cell by cell: ghost cells hold 3*HH and interior cells are unchanged. */
  lemma SignedDist3Cells(Nx: nat, Ny: nat, Nz: nat, g: seq<real>)
    requires |g| == Size3(Nx, Ny, Nz)
    ensures forall i, j, k {:trigger Cell3(Nx, Ny, Nz, SignedDist3(Nx, Ny, Nz, g), i, j, k)} :: InGrid3(Nx, Ny, Nz, i, j, k) ==>
      Cell3(Nx, Ny, Nz, SignedDist3(Nx, Ny, Nz, g), i, j, k) ==
        if IsGhost3(Nx, Ny, Nz, i, j, k) then 3.0 * HH as real else Cell3(Nx, Ny, Nz, g, i, j, k)
  {
    forall i, j, k | InGrid3(Nx, Ny, Nz, i, j, k)
      ensures Cell3(Nx, Ny, Nz, SignedDist3(Nx, Ny, Nz, g), i, j, k) ==
        if IsGhost3(Nx, Ny, Nz, i, j, k) then 3.0 * HH as real else Cell3(Nx, Ny, Nz, g, i, j, k)
    {
      GI3Range(Nx, Ny, Nz, i, j, k);
    }
  }

  /** Applying the signed-distance border twice is applying it once. */
  lemma SignedDist3Idempotent(Nx: nat, Ny: nat, Nz: nat, g: seq<real>)
    requires |g| == Size3(Nx, Ny, Nz)
    ensures SignedDist3(Nx, Ny, Nz, SignedDist3(Nx, Ny, Nz, g)) == SignedDist3(Nx, Ny, Nz, g)
  {
  }

  // ---------------------------------------------------------- the grid

  class Grid3D {
    const Nx: nat
    const Ny: nat
    const Nz: nat
    const size: nat
    const grid: array<real>

    ghost predicate Valid()
      reads this
    {
      size == Size3(Nx, Ny, Nz) && grid.Length == size
    }

    /** `Grid(nx, ny, nz)`: every cell, ghost cells included, is zero. */
    constructor (nx: nat, ny: nat, nz: nat)
      ensures Valid() && Nx == nx && Ny == ny && Nz == nz && fresh(grid)
      ensures forall c :: 0 <= c < size ==> grid[c] == 0.0
    {
      Nx, Ny, Nz, size := nx, ny, nz, Size3(nx, ny, nz);
      grid := new real[Size3(nx, ny, nz)](_ => 0.0);
    }

    /** `operator=`: copy every cell of a grid of the same dimensions. */
    method Assign(gi: Grid3D)
      requires Valid() && gi.Valid() && gi.size == size
      modifies grid
      ensures grid[..] == old(gi.grid[..])
    {
      for c := 0 to size
        invariant forall d :: 0 <= d < c ==> grid[d] == old(gi.grid[d])
        invariant forall d :: c <= d < size ==> gi.grid[d] == old(gi.grid[d])
      {
        grid[c] := gi.grid[c];
      }
    }

    /** `SetBoundarySignedDist`: every ghost cell becomes 3*HH; interior cells are untouched. */
    method SetBoundarySignedDist()
      requires Valid()
      modifies grid
      ensures grid[..] == SignedDist3(Nx, Ny, Nz, old(grid[..]))
    {
      ghost var g := grid[..];
      for c := 0 to size
        invariant forall d :: 0 <= d < size ==> grid[d] == if d < c && GhostIndex(Nx, Ny, Nz, d) then 3.0 * HH as real else g[d]
      {
        if IsGhost3(Nx, Ny, Nz, I3(Nx, c), J3(Nx, Ny, c), K3(Nx, Ny, c)) {
          grid[c] := 3.0 * HH as real;
        }
      }
    }
  }
}
