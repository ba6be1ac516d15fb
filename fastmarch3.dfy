/**
 * The 3D Fast Marching reinitializer (`FastMarch`). It keeps its own grid of
 * `FMContainer` cells over the padded (Nx+2) x (Ny+2) x (Nz+2) grid, indexed
 * like the level set (GI(i, j, k) = i + dj*j + dk*k with dj = Nx+2 and
 * dk = (Nx+2)*(Ny+2)), the heap array `FMHeap`, and the list `ClosePoints`
 * of the cells next to the interface that seed the heap.
 *
 * `Reinitialize(lset)` loads the level set negated, runs `ReinitHalf` (the
 * negative side first), reloads every cell with `Set`, runs `ReinitHalf`
 * for the other side and copies the values back into `lset`. Each half
 * fixes the ghost border (`SetBoundary`), marks the cells at the interface
 * Done (`Initialize`, one sweep along each axis), seeds the heap from
 * `ClosePoints` (`InitHeap`) and pops cells in value order, recomputing
 * their six neighbours (`March`).
 *
 * The heap routines and the rules for one cell are those of the 2D marcher
 * (module `MarchHeap`); the square root of `FindPhi` is the function `sqrt`
 * the object is built with.
 */
module FastMarch3 {
  import opened Numerics
  import opened Grid2
  import opened Grid3
  import opened MarchHeap
  import opened Eikonal

  // --------------------------------------------------------- cell access

  /** The cell (i, j, k) of a cell sequence. */
  function At(Nx: nat, Ny: nat, Nz: nat, g: seq<FMContainer>, i: int, j: int, k: int): FMContainer
    requires |g| == Size3(Nx, Ny, Nz) && InGrid3(Nx, Ny, Nz, i, j, k)
  {
    GI3Range(Nx, Ny, Nz, i, j, k);
    g[GI3(Nx, Ny, i, j, k)]
  }

  /** The cell sequence with cell (i, j, k) replaced by v; no other cell changes. */
  function SetAt(Nx: nat, Ny: nat, Nz: nat, g: seq<FMContainer>, i: int, j: int, k: int, v: FMContainer): (r: seq<FMContainer>)
    requires |g| == Size3(Nx, Ny, Nz) && InGrid3(Nx, Ny, Nz, i, j, k)
    ensures |r| == |g|
    ensures forall a, b, c {:trigger At(Nx, Ny, Nz, r, a, b, c)} :: InGrid3(Nx, Ny, Nz, a, b, c) ==>
      At(Nx, Ny, Nz, r, a, b, c) == if a == i && b == j && c == k then v else At(Nx, Ny, Nz, g, a, b, c)
  {
    GI3Range(Nx, Ny, Nz, i, j, k);
    GI3Facts(Nx, Ny, Nz);
    g[GI3(Nx, Ny, i, j, k) := v]
  }

  /** Two cell sequences of the grid's size with the same cells are equal. */
  lemma SameCells(Nx: nat, Ny: nat, Nz: nat, a: seq<FMContainer>, b: seq<FMContainer>)
    requires |a| == Size3(Nx, Ny, Nz) && |b| == Size3(Nx, Ny, Nz)
    requires forall i, j, k {:trigger At(Nx, Ny, Nz, a, i, j, k)} :: InGrid3(Nx, Ny, Nz, i, j, k) ==>
      At(Nx, Ny, Nz, a, i, j, k) == At(Nx, Ny, Nz, b, i, j, k)
    ensures a == b
  {
    forall c | 0 <= c < |a|
      ensures a[c] == b[c]
    {
      Coords3(Nx, Ny, Nz, c);
      assert At(Nx, Ny, Nz, a, I3(Nx, c), J3(Nx, Ny, c), K3(Nx, Ny, c)) ==
             At(Nx, Ny, Nz, b, I3(Nx, c), J3(Nx, Ny, c), K3(Nx, Ny, c));
    }
  }

  /** `GIJK`: the coordinates (x, y, z) of a linear index. */
  function GIJK(Nx: nat, Ny: nat, index: int): (int, int, int)
  {
    (I3(Nx, index), J3(Nx, Ny, index), K3(Nx, Ny, index))
  }

  /** `GIJK` inverts `GI` on the padded grid. */
  lemma GIJKInvertsGI(Nx: nat, Ny: nat, Nz: nat, i: int, j: int, k: int)
    requires InGrid3(Nx, Ny, Nz, i, j, k)
    ensures GIJK(Nx, Ny, GI3(Nx, Ny, i, j, k)) == (i, j, k)
  {
    GI3Range(Nx, Ny, Nz, i, j, k);
  }

  /** `GI` inverts `GIJK` on the array's indices. */
  lemma GIInvertsGIJK(Nx: nat, Ny: nat, Nz: nat, index: int)
    requires 0 <= index < Size3(Nx, Ny, Nz)
    ensures var (x, y, z) := GIJK(Nx, Ny, index);
            InGrid3(Nx, Ny, Nz, x, y, z) && GI3(Nx, Ny, x, y, z) == index
  {
    Coords3(Nx, Ny, Nz, index);
  }

  // ------------------------------------------------------- SetBoundary

  /** Coordinate v is on the rim of an axis with N interior cells: 0 or N+1. */
  predicate Rim(N: nat, v: int)
  {
    v == 0 || v == N + 1
  }

  /**
   * The six loops of `SetBoundary` before the corners: the faces normal to
   * x, y and z (loops over two interior coordinates), then the edges along
   * z, y and x (loops over one interior coordinate).
   */
  datatype Side = FacesX | FacesY | FacesZ | EdgesK | EdgesJ | EdgesI

  predicate IsFace(side: Side)
  {
    side == FacesX || side == FacesY || side == FacesZ
  }

  /** The position of the loops in `SetBoundary`. */
  function Rank(side: Side): nat
  {
    match side
    case FacesX => 0
    case FacesY => 1
    case FacesZ => 2
    case EdgesK => 3
    case EdgesJ => 4
    case EdgesI => 5
  }

  /** The ghost cells a loop covers. */
  predicate OnSide(Nx: nat, Ny: nat, Nz: nat, side: Side, a: int, b: int, c: int)
  {
    match side
    case FacesX => Rim(Nx, a) && 1 <= b <= Ny && 1 <= c <= Nz
    case FacesY => Rim(Ny, b) && 1 <= a <= Nx && 1 <= c <= Nz
    case FacesZ => Rim(Nz, c) && 1 <= a <= Nx && 1 <= b <= Ny
    case EdgesK => Rim(Nx, a) && Rim(Ny, b) && 1 <= c <= Nz
    case EdgesJ => Rim(Nx, a) && Rim(Nz, c) && 1 <= b <= Ny
    case EdgesI => Rim(Ny, b) && Rim(Nz, c) && 1 <= a <= Nx
  }

  /**
   * The iteration of its loop in which a cell is fixed: (outer, inner) for
   * the face loops (k then j, k then i, j then i), (coordinate, 1) for the
   * single loops of the edges.
   */
  function Key(side: Side, a: int, b: int, c: int): (int, int)
  {
    match side
    case FacesX => (c, b)
    case FacesY => (c, a)
    case FacesZ => (b, a)
    case EdgesK => (c, 1)
    case EdgesJ => (b, 1)
    case EdgesI => (a, 1)
  }

  /** The number of outer iterations of a loop. */
  function Outer(Nx: nat, Ny: nat, Nz: nat, side: Side): nat
  {
    match side
    case FacesX => Nz
    case FacesY => Nz
    case FacesZ => Ny
    case EdgesK => Nz
    case EdgesJ => Ny
    case EdgesI => Nx
  }

  /** The number of inner iterations of a loop (1 for the edges). */
  function Inner(Nx: nat, Ny: nat, Nz: nat, side: Side): nat
  {
    match side
    case FacesX => Ny
    case FacesY => Nx
    case FacesZ => Nx
    case EdgesK => 1
    case EdgesJ => 1
    case EdgesI => 1
  }

  /** The cell t (0 or 1) fixed by a face loop at iteration (o, n). */
  function FaceCell(Nx: nat, Ny: nat, Nz: nat, side: Side, o: int, n: int, t: int): (int, int, int)
  {
    match side
    case FacesX => (if t == 0 then 0 else Nx + 1, n, o)
    case FacesY => (n, if t == 0 then 0 else Ny + 1, o)
    case FacesZ => (n, o, if t == 0 then 0 else Nz + 1)
    case EdgesK => (0, 0, 0)
    case EdgesJ => (0, 0, 0)
    case EdgesI => (0, 0, 0)
  }

  /** The cell t (0 to 3) fixed by an edge loop at iteration o, in the source's order. */
  function EdgeCell(Nx: nat, Ny: nat, Nz: nat, side: Side, o: int, t: int): (int, int, int)
  {
    var lo, hi := t % 2 == 0, t < 2;
    match side
    case EdgesK => (if lo then 0 else Nx + 1, if hi then 0 else Ny + 1, o)
    case EdgesJ => (if lo then 0 else Nx + 1, o, if hi then 0 else Nz + 1)
    case EdgesI => (o, if lo then 0 else Ny + 1, if hi then 0 else Nz + 1)
    case FacesX => (0, 0, 0)
    case FacesY => (0, 0, 0)
    case FacesZ => (0, 0, 0)
  }

  /** Cell (a, b, c) of the loop for `side` is fixed before iteration (o, n). */
  predicate Visited(Nx: nat, Ny: nat, Nz: nat, side: Side, o: int, n: int, a: int, b: int, c: int)
  {
    OnSide(Nx, Ny, Nz, side, a, b, c) &&
    var (ko, ki) := Key(side, a, b, c);
    ko < o || (ko == o && ki < n)
  }

  /** Every cell the loop for `side` fixes before iteration (o, n) is fixed in s. */
  ghost predicate Covered(Nx: nat, Ny: nat, Nz: nat, s: seq<FMContainer>, side: Side, o: int, n: int)
    requires |s| == Size3(Nx, Ny, Nz)
  {
    forall a, b, c {:trigger At(Nx, Ny, Nz, s, a, b, c)} ::
      InGrid3(Nx, Ny, Nz, a, b, c) && Visited(Nx, Ny, Nz, side, o, n, a, b, c) ==> At(Nx, Ny, Nz, s, a, b, c).DoneFlag == -1
  }

  /** Every cell of the loop for `side` is fixed in s. */
  ghost predicate Complete(Nx: nat, Ny: nat, Nz: nat, s: seq<FMContainer>, side: Side)
    requires |s| == Size3(Nx, Ny, Nz)
  {
    Covered(Nx, Ny, Nz, s, side, Outer(Nx, Ny, Nz, side) + 1, 1)
  }

  /** The loops before `side` are complete in s. */
  ghost predicate Earlier(Nx: nat, Ny: nat, Nz: nat, s: seq<FMContainer>, side: Side)
    requires |s| == Size3(Nx, Ny, Nz)
  {
    (Rank(side) > 0 ==> Complete(Nx, Ny, Nz, s, FacesX)) && (Rank(side) > 1 ==> Complete(Nx, Ny, Nz, s, FacesY)) &&
    (Rank(side) > 2 ==> Complete(Nx, Ny, Nz, s, FacesZ)) && (Rank(side) > 3 ==> Complete(Nx, Ny, Nz, s, EdgesK)) &&
    (Rank(side) > 4 ==> Complete(Nx, Ny, Nz, s, EdgesJ))
  }

  /** All six loops are complete in s. */
  ghost predicate AllSides(Nx: nat, Ny: nat, Nz: nat, s: seq<FMContainer>)
    requires |s| == Size3(Nx, Ny, Nz)
  {
    Earlier(Nx, Ny, Nz, s, EdgesI) && Complete(Nx, Ny, Nz, s, EdgesI)
  }

  /**
   * s is g0 with some ghost cells fixed: a ghost cell fixed in s is g0's
   * cell pinned, and every other cell is g0's.
   */
  ghost predicate PinnedSome(Nx: nat, Ny: nat, Nz: nat, g0: seq<FMContainer>, s: seq<FMContainer>)
    requires |g0| == Size3(Nx, Ny, Nz)
  {
    |s| == |g0| &&
    forall a, b, c {:trigger At(Nx, Ny, Nz, s, a, b, c)} :: InGrid3(Nx, Ny, Nz, a, b, c) ==>
      At(Nx, Ny, Nz, s, a, b, c) ==
        if IsGhost3(Nx, Ny, Nz, a, b, c) && At(Nx, Ny, Nz, s, a, b, c).DoneFlag == -1 then Pinned(At(Nx, Ny, Nz, g0, a, b, c))
        else At(Nx, Ny, Nz, g0, a, b, c)
  }

  /** The state of `SetBoundary` at iteration (o, n) of the loop for `side`. */
  ghost predicate BoundaryState(Nx: nat, Ny: nat, Nz: nat, g0: seq<FMContainer>, s: seq<FMContainer>, side: Side, o: int, n: int)
  {
    |g0| == Size3(Nx, Ny, Nz) && PinnedSome(Nx, Ny, Nz, g0, s) &&
    Earlier(Nx, Ny, Nz, s, side) && Covered(Nx, Ny, Nz, s, side, o, n)
  }

  /** What is fixed stays fixed. */
  lemma CoveredStay(Nx: nat, Ny: nat, Nz: nat, s: seq<FMContainer>, s': seq<FMContainer>, side: Side, o: int, n: int)
    requires |s| == Size3(Nx, Ny, Nz) && FixedStay(s, s') && Covered(Nx, Ny, Nz, s, side, o, n)
    ensures Covered(Nx, Ny, Nz, s', side, o, n)
  {
    forall a, b, c {:trigger At(Nx, Ny, Nz, s', a, b, c)} |
      InGrid3(Nx, Ny, Nz, a, b, c) && Visited(Nx, Ny, Nz, side, o, n, a, b, c)
      ensures At(Nx, Ny, Nz, s', a, b, c).DoneFlag == -1
    {
      FixedAt(Nx, Ny, Nz, s, s', a, b, c);
    }
  }

  /** `FixedStay` for one cell. */
  lemma FixedAt(Nx: nat, Ny: nat, Nz: nat, s: seq<FMContainer>, s': seq<FMContainer>, a: int, b: int, c: int)
    requires |s| == Size3(Nx, Ny, Nz) && FixedStay(s, s') && InGrid3(Nx, Ny, Nz, a, b, c)
    requires At(Nx, Ny, Nz, s, a, b, c).DoneFlag == -1
    ensures At(Nx, Ny, Nz, s', a, b, c).DoneFlag == -1
  {
    GI3Range(Nx, Ny, Nz, a, b, c);
    var e := GI3(Nx, Ny, a, b, c);
    assert s[e].DoneFlag == -1;
    assert s'[e].DoneFlag == -1;
  }

  lemma EarlierStay(Nx: nat, Ny: nat, Nz: nat, s: seq<FMContainer>, s': seq<FMContainer>, side: Side)
    requires |s| == Size3(Nx, Ny, Nz) && FixedStay(s, s') && Earlier(Nx, Ny, Nz, s, side)
    ensures Earlier(Nx, Ny, Nz, s', side)
  {
    if Rank(side) > 0 { CoveredStay(Nx, Ny, Nz, s, s', FacesX, Outer(Nx, Ny, Nz, FacesX) + 1, 1); }
    if Rank(side) > 1 { CoveredStay(Nx, Ny, Nz, s, s', FacesY, Outer(Nx, Ny, Nz, FacesY) + 1, 1); }
    if Rank(side) > 2 { CoveredStay(Nx, Ny, Nz, s, s', FacesZ, Outer(Nx, Ny, Nz, FacesZ) + 1, 1); }
    if Rank(side) > 3 { CoveredStay(Nx, Ny, Nz, s, s', EdgesK, Outer(Nx, Ny, Nz, EdgesK) + 1, 1); }
    if Rank(side) > 4 { CoveredStay(Nx, Ny, Nz, s, s', EdgesJ, Outer(Nx, Ny, Nz, EdgesJ) + 1, 1); }
  }

  /** Nothing is fixed before the first iteration of a loop. */
  lemma SideStart(Nx: nat, Ny: nat, Nz: nat, g0: seq<FMContainer>, s: seq<FMContainer>, side: Side)
    requires |g0| == Size3(Nx, Ny, Nz) && PinnedSome(Nx, Ny, Nz, g0, s) && Earlier(Nx, Ny, Nz, s, side)
    ensures BoundaryState(Nx, Ny, Nz, g0, s, side, 1, 1)
  {
  }

  /** Finishing the inner loop at outer iteration o is starting outer iteration o + 1. */
  lemma RowDone(Nx: nat, Ny: nat, Nz: nat, g0: seq<FMContainer>, s: seq<FMContainer>, side: Side, o: int)
    requires BoundaryState(Nx, Ny, Nz, g0, s, side, o, Inner(Nx, Ny, Nz, side) + 1)
    ensures BoundaryState(Nx, Ny, Nz, g0, s, side, o + 1, 1)
  {
  }

  /** A completed loop belongs to the loops before the next one. */
  lemma SideDone(Nx: nat, Ny: nat, Nz: nat, g0: seq<FMContainer>, s: seq<FMContainer>, side: Side, next: Side)
    requires BoundaryState(Nx, Ny, Nz, g0, s, side, Outer(Nx, Ny, Nz, side) + 1, 1) && Rank(next) == Rank(side) + 1
    ensures BoundaryState(Nx, Ny, Nz, g0, s, next, 1, 1)
  {
  }

  /**
   * One iteration (o, n) of a face loop: with its two cells now fixed, and
   * nothing unfixed, the loop has covered iteration (o, n) too.
   */
  lemma FaceStep(Nx: nat, Ny: nat, Nz: nat, g0: seq<FMContainer>, s: seq<FMContainer>, s': seq<FMContainer>,
                 side: Side, o: int, n: int)
    requires IsFace(side) && BoundaryState(Nx, Ny, Nz, g0, s, side, o, n)
    requires PinnedSome(Nx, Ny, Nz, g0, s') && FixedStay(s, s')
    requires var (a0, b0, c0) := FaceCell(Nx, Ny, Nz, side, o, n, 0);
             var (a1, b1, c1) := FaceCell(Nx, Ny, Nz, side, o, n, 1);
             InGrid3(Nx, Ny, Nz, a0, b0, c0) && At(Nx, Ny, Nz, s', a0, b0, c0).DoneFlag == -1 &&
             InGrid3(Nx, Ny, Nz, a1, b1, c1) && At(Nx, Ny, Nz, s', a1, b1, c1).DoneFlag == -1
    ensures BoundaryState(Nx, Ny, Nz, g0, s', side, o, n + 1)
  {
    EarlierStay(Nx, Ny, Nz, s, s', side);
    CoveredStay(Nx, Ny, Nz, s, s', side, o, n);
    forall a, b, c {:trigger At(Nx, Ny, Nz, s', a, b, c)} |
      InGrid3(Nx, Ny, Nz, a, b, c) && Visited(Nx, Ny, Nz, side, o, n + 1, a, b, c)
      ensures At(Nx, Ny, Nz, s', a, b, c).DoneFlag == -1
    {
      if !Visited(Nx, Ny, Nz, side, o, n, a, b, c) {
        assert (a, b, c) == FaceCell(Nx, Ny, Nz, side, o, n, 0) || (a, b, c) == FaceCell(Nx, Ny, Nz, side, o, n, 1);
      }
    }
  }

  /** Cell t of iteration o of an edge loop is fixed in s. */
  ghost predicate EdgeFixed(Nx: nat, Ny: nat, Nz: nat, s: seq<FMContainer>, side: Side, o: int, t: int)
    requires |s| == Size3(Nx, Ny, Nz)
  {
    var (a, b, c) := EdgeCell(Nx, Ny, Nz, side, o, t);
    InGrid3(Nx, Ny, Nz, a, b, c) && At(Nx, Ny, Nz, s, a, b, c).DoneFlag == -1
  }

  /** A cell of an edge loop at iteration o is one of the four cells of that iteration. */
  lemma EdgeCellOf(Nx: nat, Ny: nat, Nz: nat, side: Side, o: int, a: int, b: int, c: int) returns (t: int)
    requires !IsFace(side) && OnSide(Nx, Ny, Nz, side, a, b, c) && Key(side, a, b, c).0 == o
    ensures 0 <= t < 4 && EdgeCell(Nx, Ny, Nz, side, o, t) == (a, b, c)
  {
    var first, second := if side == EdgesI then b else a, if side == EdgesK then b else c;
    t := (if first == 0 then 0 else 1) + (if second == 0 then 0 else 2);
  }

  /**
   * One iteration o of an edge loop: with its four cells now fixed, and
   * nothing unfixed, the loop has covered iteration o too.
   */
  lemma EdgeStep(Nx: nat, Ny: nat, Nz: nat, g0: seq<FMContainer>, s: seq<FMContainer>, s': seq<FMContainer>,
                 side: Side, o: int)
    requires !IsFace(side) && BoundaryState(Nx, Ny, Nz, g0, s, side, o, 1)
    requires PinnedSome(Nx, Ny, Nz, g0, s') && FixedStay(s, s')
    requires EdgeFixed(Nx, Ny, Nz, s', side, o, 0) && EdgeFixed(Nx, Ny, Nz, s', side, o, 1) &&
             EdgeFixed(Nx, Ny, Nz, s', side, o, 2) && EdgeFixed(Nx, Ny, Nz, s', side, o, 3)
    ensures BoundaryState(Nx, Ny, Nz, g0, s', side, o + 1, 1)
  {
    EarlierStay(Nx, Ny, Nz, s, s', side);
    CoveredStay(Nx, Ny, Nz, s, s', side, o, 1);
    forall a, b, c {:trigger At(Nx, Ny, Nz, s', a, b, c)} |
      InGrid3(Nx, Ny, Nz, a, b, c) && Visited(Nx, Ny, Nz, side, o + 1, 1, a, b, c)
      ensures At(Nx, Ny, Nz, s', a, b, c).DoneFlag == -1
    {
      if !Visited(Nx, Ny, Nz, side, o, 1, a, b, c) {
        var t := EdgeCellOf(Nx, Ny, Nz, side, o, a, b, c);
        assert t == 0 || t == 1 || t == 2 || t == 3;
        assert EdgeFixed(Nx, Ny, Nz, s', side, o, t);
      }
    }
  }

  /** The eight corners. */
  predicate IsCorner3(Nx: nat, Ny: nat, Nz: nat, a: int, b: int, c: int)
  {
    Rim(Nx, a) && Rim(Ny, b) && Rim(Nz, c)
  }

  /** Every ghost cell is on one of the six loops or is a corner. */
  lemma GhostKinds3(Nx: nat, Ny: nat, Nz: nat, a: int, b: int, c: int)
    requires IsGhost3(Nx, Ny, Nz, a, b, c)
    ensures IsCorner3(Nx, Ny, Nz, a, b, c) || OnSide(Nx, Ny, Nz, FacesX, a, b, c) || OnSide(Nx, Ny, Nz, FacesY, a, b, c) ||
            OnSide(Nx, Ny, Nz, FacesZ, a, b, c) || OnSide(Nx, Ny, Nz, EdgesK, a, b, c) ||
            OnSide(Nx, Ny, Nz, EdgesJ, a, b, c) || OnSide(Nx, Ny, Nz, EdgesI, a, b, c)
  {
  }

  /** The eight corners in the order `SetBoundary` fixes them. */
  function CornerList(Nx: nat, Ny: nat, Nz: nat): seq<(int, int, int)>
  {
    [(Nx + 1, 0, 0), (0, 0, 0), (0, 0, Nz + 1), (0, Ny + 1, 0),
     (Nx + 1, 0, Nz + 1), (Nx + 1, Ny + 1, 0), (Nx + 1, Ny + 1, Nz + 1), (0, Ny + 1, Nz + 1)]
  }

  /** Corner t of `CornerList` is fixed in s. */
  predicate CornerFixed(Nx: nat, Ny: nat, Nz: nat, s: seq<FMContainer>, t: int)
    requires |s| == Size3(Nx, Ny, Nz) && 0 <= t < 8
  {
    var (a, b, c) := CornerList(Nx, Ny, Nz)[t];
    At(Nx, Ny, Nz, s, a, b, c).DoneFlag == -1
  }

  /** The first n corners of `CornerList` are fixed in s. */
  ghost predicate CornersIn(Nx: nat, Ny: nat, Nz: nat, s: seq<FMContainer>, n: int)
    requires |s| == Size3(Nx, Ny, Nz)
  {
    forall t {:trigger CornerFixed(Nx, Ny, Nz, s, t)} :: 0 <= t < n && t < 8 ==> CornerFixed(Nx, Ny, Nz, s, t)
  }

  /** Every corner is in `CornerList`. */
  lemma CornerIndex(Nx: nat, Ny: nat, Nz: nat, a: int, b: int, c: int) returns (t: int)
    requires IsCorner3(Nx, Ny, Nz, a, b, c)
    ensures 0 <= t < 8 && CornerList(Nx, Ny, Nz)[t] == (a, b, c)
  {
    if c == 0 {
      t := if a != 0 && b == 0 then 0 else if a == 0 && b == 0 then 1 else if a == 0 then 3 else 5;
    } else {
      t := if a == 0 && b == 0 then 2 else if a != 0 && b == 0 then 4 else if a != 0 then 6 else 7;
    }
  }

  /** After the six loops and the eight corners, exactly the ghost cells are pinned. */
  lemma BoundaryDone(Nx: nat, Ny: nat, Nz: nat, g0: seq<FMContainer>, s: seq<FMContainer>)
    requires |g0| == Size3(Nx, Ny, Nz) && PinnedSome(Nx, Ny, Nz, g0, s) && AllSides(Nx, Ny, Nz, s)
    requires forall a, b, c {:trigger At(Nx, Ny, Nz, s, a, b, c)} ::
      InGrid3(Nx, Ny, Nz, a, b, c) && IsCorner3(Nx, Ny, Nz, a, b, c) ==> At(Nx, Ny, Nz, s, a, b, c).DoneFlag == -1
    ensures forall a, b, c {:trigger At(Nx, Ny, Nz, s, a, b, c)} :: InGrid3(Nx, Ny, Nz, a, b, c) ==>
      At(Nx, Ny, Nz, s, a, b, c) ==
        if IsGhost3(Nx, Ny, Nz, a, b, c) then Pinned(At(Nx, Ny, Nz, g0, a, b, c)) else At(Nx, Ny, Nz, g0, a, b, c)
  {
    forall a, b, c {:trigger At(Nx, Ny, Nz, s, a, b, c)} | InGrid3(Nx, Ny, Nz, a, b, c)
      ensures At(Nx, Ny, Nz, s, a, b, c) ==
        if IsGhost3(Nx, Ny, Nz, a, b, c) then Pinned(At(Nx, Ny, Nz, g0, a, b, c)) else At(Nx, Ny, Nz, g0, a, b, c)
    {
      if IsGhost3(Nx, Ny, Nz, a, b, c) {
        GhostKinds3(Nx, Ny, Nz, a, b, c);
        assert At(Nx, Ny, Nz, s, a, b, c).DoneFlag == -1;
      }
    }
  }

  /** Fixing ghost cell (i, j, k) keeps `PinnedSome`, fixes nothing less, and fixes (i, j, k). */
  lemma PinStep(Nx: nat, Ny: nat, Nz: nat, g0: seq<FMContainer>, s: seq<FMContainer>, i: int, j: int, k: int)
    requires |g0| == Size3(Nx, Ny, Nz) && PinnedSome(Nx, Ny, Nz, g0, s) && IsGhost3(Nx, Ny, Nz, i, j, k)
    ensures var s' := SetAt(Nx, Ny, Nz, s, i, j, k, Pinned(At(Nx, Ny, Nz, s, i, j, k)));
            PinnedSome(Nx, Ny, Nz, g0, s') && FixedStay(s, s') && At(Nx, Ny, Nz, s', i, j, k).DoneFlag == -1
  {
    var s' := SetAt(Nx, Ny, Nz, s, i, j, k, Pinned(At(Nx, Ny, Nz, s, i, j, k)));
    GI3Range(Nx, Ny, Nz, i, j, k);
    forall c | 0 <= c < |s| && s[c].DoneFlag == -1
      ensures s'[c].DoneFlag == -1
    {
      Coords3(Nx, Ny, Nz, c);
      var a, b, e := I3(Nx, c), J3(Nx, Ny, c), K3(Nx, Ny, c);
      assert At(Nx, Ny, Nz, s', a, b, e) == if a == i && b == j && e == k then Pinned(At(Nx, Ny, Nz, s, i, j, k)) else At(Nx, Ny, Nz, s, a, b, e);
    }
  }

  /** The corners are fixed one by one after the six loops; n of them are done. */
  ghost predicate CornerState(Nx: nat, Ny: nat, Nz: nat, g0: seq<FMContainer>, s: seq<FMContainer>, n: int)
  {
    |g0| == Size3(Nx, Ny, Nz) && PinnedSome(Nx, Ny, Nz, g0, s) && AllSides(Nx, Ny, Nz, s) && CornersIn(Nx, Ny, Nz, s, n)
  }

  /** Fixing corner n of `CornerList` makes n + 1 fixed corners. */
  lemma CornerStep(Nx: nat, Ny: nat, Nz: nat, g0: seq<FMContainer>, s: seq<FMContainer>, s': seq<FMContainer>, n: int)
    requires 0 <= n < 8 && CornerState(Nx, Ny, Nz, g0, s, n) && PinnedSome(Nx, Ny, Nz, g0, s') && FixedStay(s, s')
    requires CornerFixed(Nx, Ny, Nz, s', n)
    ensures CornerState(Nx, Ny, Nz, g0, s', n + 1)
  {
    EarlierStay(Nx, Ny, Nz, s, s', EdgesI);
    CoveredStay(Nx, Ny, Nz, s, s', EdgesI, Outer(Nx, Ny, Nz, EdgesI) + 1, 1);
    forall t {:trigger CornerFixed(Nx, Ny, Nz, s', t)} | 0 <= t < n + 1 && t < 8
      ensures CornerFixed(Nx, Ny, Nz, s', t)
    {
      if t < n {
        assert CornerFixed(Nx, Ny, Nz, s, t);
        var (a, b, c) := CornerList(Nx, Ny, Nz)[t];
        FixedAt(Nx, Ny, Nz, s, s', a, b, c);
      }
    }
  }

  /** With the eight corners fixed, exactly the ghost cells are pinned. */
  lemma CornersAll(Nx: nat, Ny: nat, Nz: nat, g0: seq<FMContainer>, s: seq<FMContainer>)
    requires CornerState(Nx, Ny, Nz, g0, s, 8)
    ensures forall a, b, c {:trigger At(Nx, Ny, Nz, s, a, b, c)} :: InGrid3(Nx, Ny, Nz, a, b, c) ==>
      At(Nx, Ny, Nz, s, a, b, c) ==
        if IsGhost3(Nx, Ny, Nz, a, b, c) then Pinned(At(Nx, Ny, Nz, g0, a, b, c)) else At(Nx, Ny, Nz, g0, a, b, c)
  {
    forall a, b, c {:trigger At(Nx, Ny, Nz, s, a, b, c)} | InGrid3(Nx, Ny, Nz, a, b, c) && IsCorner3(Nx, Ny, Nz, a, b, c)
      ensures At(Nx, Ny, Nz, s, a, b, c).DoneFlag == -1
    {
      var t := CornerIndex(Nx, Ny, Nz, a, b, c);
      assert CornerFixed(Nx, Ny, Nz, s, t);
    }
    BoundaryDone(Nx, Ny, Nz, g0, s);
  }

  // -------------------------------------------------------- Initialize

  /**
   * The three sweeps of `Initialize`: along z on the lines (i, j), along y on
   * the lines (i, k), then along x on the lines (j, k), each with its first
   * coordinate in the outer loop.
   */
  datatype Direction = ZLines | YLines | XLines

  /** The cell at position t of line (l1, l2). */
  function OnLine(d: Direction, l1: int, l2: int, t: int): (int, int, int)
  {
    match d
    case ZLines => (l1, l2, t)
    case YLines => (l1, t, l2)
    case XLines => (t, l1, l2)
  }

  /** The position of cell (a, b, c) along its sweep line. */
  function Along(d: Direction, a: int, b: int, c: int): int
  {
    match d
    case ZLines => c
    case YLines => b
    case XLines => a
  }

  /** The sweep line (outer, inner) of cell (a, b, c). */
  function Line(d: Direction, a: int, b: int, c: int): (int, int)
  {
    match d
    case ZLines => (a, b)
    case YLines => (a, c)
    case XLines => (b, c)
  }

  /** The number of interior cells on one sweep line. */
  function Length(Nx: nat, Ny: nat, Nz: nat, d: Direction): int
  {
    match d
    case ZLines => Nz
    case YLines => Ny
    case XLines => Nx
  }

  /** The number of outer iterations of a sweep. */
  function Lines1(Nx: nat, Ny: nat, Nz: nat, d: Direction): int
  {
    match d
    case ZLines => Nx
    case YLines => Nx
    case XLines => Ny
  }

  /** The number of inner iterations of a sweep. */
  function Lines2(Nx: nat, Ny: nat, Nz: nat, d: Direction): int
  {
    match d
    case ZLines => Ny
    case YLines => Nz
    case XLines => Nz
  }

  /** The cell t positions further along the sweep line of (a, b, c). */
  function Next(d: Direction, a: int, b: int, c: int, t: int): (int, int, int)
  {
    match d
    case ZLines => (a, b, c + t)
    case YLines => (a, b + t, c)
    case XLines => (a + t, b, c)
  }

  /**
   * Interior cell (a, b, c) once the sweep of its line has examined the
   * pairs of positions up to `lim`: the pair with the cell before it, then
   * the pair with the cell after it, each through `Crossed`.
   */
  function SweptCell(Nx: nat, Ny: nat, Nz: nat, g: seq<FMContainer>, h: real, d: Direction, a: int, b: int, c: int, lim: int): FMContainer
    requires |g| == Size3(Nx, Ny, Nz) && IsInterior3(Nx, Ny, Nz, a, b, c)
  {
    var (pa, pb, pc) := Next(d, a, b, c, -1);
    var (na, nb, nc) := Next(d, a, b, c, 1);
    var k := Along(d, a, b, c);
    CrossIf(k + 1 <= lim, CrossIf(2 <= k <= lim, At(Nx, Ny, Nz, g, a, b, c), At(Nx, Ny, Nz, g, pa, pb, pc), h),
            At(Nx, Ny, Nz, g, na, nb, nc), h)
  }

  /** How far the sweep has gone on the line of (a, b, c) when it is at position k of line (l1, l2). */
  function Lim(Nx: nat, Ny: nat, Nz: nat, d: Direction, a: int, b: int, c: int, l1: int, l2: int, k: int): int
  {
    var (m1, m2) := Line(d, a, b, c);
    if m1 < l1 || (m1 == l1 && m2 < l2) then Length(Nx, Ny, Nz, d) else if m1 == l1 && m2 == l2 then k else 1
  }

  /** The state of a sweep over g0 that is at position k of line (l1, l2). */
  ghost predicate SweptUpTo(Nx: nat, Ny: nat, Nz: nat, g0: seq<FMContainer>, s: seq<FMContainer>, h: real, d: Direction,
                            l1: int, l2: int, k: int)
    requires |g0| == Size3(Nx, Ny, Nz)
  {
    |s| == |g0| &&
    forall a, b, c {:trigger At(Nx, Ny, Nz, s, a, b, c)} :: InGrid3(Nx, Ny, Nz, a, b, c) ==>
      At(Nx, Ny, Nz, s, a, b, c) ==
        if IsInterior3(Nx, Ny, Nz, a, b, c) then SweptCell(Nx, Ny, Nz, g0, h, d, a, b, c, Lim(Nx, Ny, Nz, d, a, b, c, l1, l2, k))
        else At(Nx, Ny, Nz, g0, a, b, c)
  }

  /** A completed sweep in direction d over g; `SweptIs` says what it holds. */
  ghost function Swept(Nx: nat, Ny: nat, Nz: nat, g: seq<FMContainer>, h: real, d: Direction): (r: seq<FMContainer>)
    requires |g| == Size3(Nx, Ny, Nz)
    ensures |r| == |g|
  {
    seq(|g|, e requires 0 <= e < |g| =>
      Coords3(Nx, Ny, Nz, e);
      var (a, b, c) := GIJK(Nx, Ny, e);
      if IsInterior3(Nx, Ny, Nz, a, b, c) then SweptCell(Nx, Ny, Nz, g, h, d, a, b, c, Length(Nx, Ny, Nz, d)) else g[e])
  }

  /** After a sweep, an interior cell is swept over its whole line and a ghost cell is unchanged. */
  lemma SweptIs(Nx: nat, Ny: nat, Nz: nat, g: seq<FMContainer>, h: real, d: Direction, a: int, b: int, c: int)
    requires |g| == Size3(Nx, Ny, Nz) && InGrid3(Nx, Ny, Nz, a, b, c)
    ensures At(Nx, Ny, Nz, Swept(Nx, Ny, Nz, g, h, d), a, b, c) ==
      if IsInterior3(Nx, Ny, Nz, a, b, c) then SweptCell(Nx, Ny, Nz, g, h, d, a, b, c, Length(Nx, Ny, Nz, d))
      else At(Nx, Ny, Nz, g, a, b, c)
  {
    GI3Range(Nx, Ny, Nz, a, b, c);
    GIJKInvertsGI(Nx, Ny, Nz, a, b, c);
  }

  /** `SweptIs` for every cell. */
  lemma SweptCells(Nx: nat, Ny: nat, Nz: nat, g: seq<FMContainer>, h: real, d: Direction)
    requires |g| == Size3(Nx, Ny, Nz)
    ensures forall a, b, c {:trigger At(Nx, Ny, Nz, Swept(Nx, Ny, Nz, g, h, d), a, b, c)} :: InGrid3(Nx, Ny, Nz, a, b, c) ==>
      At(Nx, Ny, Nz, Swept(Nx, Ny, Nz, g, h, d), a, b, c) ==
        if IsInterior3(Nx, Ny, Nz, a, b, c) then SweptCell(Nx, Ny, Nz, g, h, d, a, b, c, Length(Nx, Ny, Nz, d))
        else At(Nx, Ny, Nz, g, a, b, c)
  {
    forall a, b, c {:trigger At(Nx, Ny, Nz, Swept(Nx, Ny, Nz, g, h, d), a, b, c)} | InGrid3(Nx, Ny, Nz, a, b, c)
      ensures At(Nx, Ny, Nz, Swept(Nx, Ny, Nz, g, h, d), a, b, c) ==
        if IsInterior3(Nx, Ny, Nz, a, b, c) then SweptCell(Nx, Ny, Nz, g, h, d, a, b, c, Length(Nx, Ny, Nz, d))
        else At(Nx, Ny, Nz, g, a, b, c)
    {
      SweptIs(Nx, Ny, Nz, g, h, d, a, b, c);
    }
  }

  /** What `Initialize` leaves in the grid: the z sweep, then the y sweep, then the x sweep. */
  ghost function Initialized(Nx: nat, Ny: nat, Nz: nat, g: seq<FMContainer>, h: real): seq<FMContainer>
    requires |g| == Size3(Nx, Ny, Nz)
  {
    Swept(Nx, Ny, Nz, Swept(Nx, Ny, Nz, Swept(Nx, Ny, Nz, g, h, ZLines), h, YLines), h, XLines)
  }

  /** Before a sweep starts, nothing has changed. */
  lemma SweepStart(Nx: nat, Ny: nat, Nz: nat, g0: seq<FMContainer>, h: real, d: Direction)
    requires |g0| == Size3(Nx, Ny, Nz)
    ensures SweptUpTo(Nx, Ny, Nz, g0, g0, h, d, 1, 1, 1)
  {
  }

  /** Finishing line (l1, l2) is starting line (l1, l2 + 1). */
  lemma SweepNextLine(Nx: nat, Ny: nat, Nz: nat, g0: seq<FMContainer>, s: seq<FMContainer>, h: real, d: Direction, l1: int, l2: int)
    requires |g0| == Size3(Nx, Ny, Nz)
    requires SweptUpTo(Nx, Ny, Nz, g0, s, h, d, l1, l2, Length(Nx, Ny, Nz, d))
    ensures SweptUpTo(Nx, Ny, Nz, g0, s, h, d, l1, l2 + 1, 1)
  {
  }

  /** Finishing the inner loop at outer iteration l1 is starting outer iteration l1 + 1. */
  lemma SweepNextPlane(Nx: nat, Ny: nat, Nz: nat, g0: seq<FMContainer>, s: seq<FMContainer>, h: real, d: Direction, l1: int)
    requires |g0| == Size3(Nx, Ny, Nz)
    requires SweptUpTo(Nx, Ny, Nz, g0, s, h, d, l1, Lines2(Nx, Ny, Nz, d) + 1, 1)
    ensures SweptUpTo(Nx, Ny, Nz, g0, s, h, d, l1 + 1, 1, 1)
  {
  }

  /** After the last line, the sweep is complete. */
  lemma SweepDone(Nx: nat, Ny: nat, Nz: nat, g0: seq<FMContainer>, s: seq<FMContainer>, h: real, d: Direction)
    requires |g0| == Size3(Nx, Ny, Nz)
    requires SweptUpTo(Nx, Ny, Nz, g0, s, h, d, Lines1(Nx, Ny, Nz, d) + 1, 1, 1)
    ensures s == Swept(Nx, Ny, Nz, g0, h, d)
  {
    SweptCells(Nx, Ny, Nz, g0, h, d);
    SameCells(Nx, Ny, Nz, s, Swept(Nx, Ny, Nz, g0, h, d));
  }

  /** A sweep never changes the sign of a flag, and never touches a negative cell. */
  lemma SweptSigns(Nx: nat, Ny: nat, Nz: nat, g: seq<FMContainer>, h: real, d: Direction, a: int, b: int, c: int, lim: int)
    requires |g| == Size3(Nx, Ny, Nz) && IsInterior3(Nx, Ny, Nz, a, b, c)
    ensures var e := SweptCell(Nx, Ny, Nz, g, h, d, a, b, c, lim);
            var e0 := At(Nx, Ny, Nz, g, a, b, c);
            (e.DoneFlag < 0 <==> e0.DoneFlag < 0) && (e0.DoneFlag < 0 ==> e == e0) &&
            (-1 <= e0.DoneFlag <= 1 ==> -1 <= e.DoneFlag <= 1)
  {
  }

  /** Before the step at position k, the cell at k is as the sweep found it. */
  lemma SweepAhead(Nx: nat, Ny: nat, Nz: nat, g0: seq<FMContainer>, s: seq<FMContainer>, h: real, d: Direction,
                   l1: int, l2: int, k: int)
    requires |g0| == Size3(Nx, Ny, Nz) && 1 <= l1 <= Lines1(Nx, Ny, Nz, d) && 1 <= l2 <= Lines2(Nx, Ny, Nz, d)
    requires 1 <= k <= Length(Nx, Ny, Nz, d)
    requires SweptUpTo(Nx, Ny, Nz, g0, s, h, d, l1, l2, k - 1)
    ensures var (ca, cb, cc) := OnLine(d, l1, l2, k); At(Nx, Ny, Nz, s, ca, cb, cc) == At(Nx, Ny, Nz, g0, ca, cb, cc)
  {
    var (ca, cb, cc) := OnLine(d, l1, l2, k);
    assert At(Nx, Ny, Nz, s, ca, cb, cc) == SweptCell(Nx, Ny, Nz, g0, h, d, ca, cb, cc, k - 1);
  }

  /**
   * One step of a sweep at position k of line (l1, l2): the pair (k-1, k)
   * is examined and, when exactly one of the two is negative, the other one
   * is crossed with it. The cell at k has not been touched before the step.
   */
  lemma SweepStep(Nx: nat, Ny: nat, Nz: nat, g0: seq<FMContainer>, s: seq<FMContainer>, h: real, d: Direction,
                  l1: int, l2: int, k: int, s': seq<FMContainer>)
    requires |g0| == Size3(Nx, Ny, Nz) && 1 <= l1 <= Lines1(Nx, Ny, Nz, d) && 1 <= l2 <= Lines2(Nx, Ny, Nz, d)
    requires 2 <= k <= Length(Nx, Ny, Nz, d)
    requires SweptUpTo(Nx, Ny, Nz, g0, s, h, d, l1, l2, k - 1)
    requires var (ca, cb, cc) := OnLine(d, l1, l2, k);
             var (pa, pb, pc) := OnLine(d, l1, l2, k - 1);
             var c, p := At(Nx, Ny, Nz, s, ca, cb, cc), At(Nx, Ny, Nz, s, pa, pb, pc);
             s' == if (c.DoneFlag < 0) == (p.DoneFlag < 0) then s
                   else if c.DoneFlag >= 0 then SetAt(Nx, Ny, Nz, s, ca, cb, cc, Crossed(c, p, h))
                   else SetAt(Nx, Ny, Nz, s, pa, pb, pc, Crossed(p, c, h))
    ensures SweptUpTo(Nx, Ny, Nz, g0, s', h, d, l1, l2, k)
  {
    forall a, b, e {:trigger At(Nx, Ny, Nz, s', a, b, e)} | InGrid3(Nx, Ny, Nz, a, b, e)
      ensures At(Nx, Ny, Nz, s', a, b, e) ==
        if IsInterior3(Nx, Ny, Nz, a, b, e) then SweptCell(Nx, Ny, Nz, g0, h, d, a, b, e, Lim(Nx, Ny, Nz, d, a, b, e, l1, l2, k))
        else At(Nx, Ny, Nz, g0, a, b, e)
    {
      SweepCellStep(Nx, Ny, Nz, g0, s, h, d, l1, l2, k, s', a, b, e);
    }
  }

  /** `SweepStep` for one cell (a, b, e). */
  lemma SweepCellStep(Nx: nat, Ny: nat, Nz: nat, g0: seq<FMContainer>, s: seq<FMContainer>, h: real, d: Direction,
                      l1: int, l2: int, k: int, s': seq<FMContainer>, a: int, b: int, e: int)
    requires |g0| == Size3(Nx, Ny, Nz) && 1 <= l1 <= Lines1(Nx, Ny, Nz, d) && 1 <= l2 <= Lines2(Nx, Ny, Nz, d)
    requires 2 <= k <= Length(Nx, Ny, Nz, d)
    requires SweptUpTo(Nx, Ny, Nz, g0, s, h, d, l1, l2, k - 1)
    requires var (ca, cb, cc) := OnLine(d, l1, l2, k);
             var (pa, pb, pc) := OnLine(d, l1, l2, k - 1);
             var c, p := At(Nx, Ny, Nz, s, ca, cb, cc), At(Nx, Ny, Nz, s, pa, pb, pc);
             s' == if (c.DoneFlag < 0) == (p.DoneFlag < 0) then s
                   else if c.DoneFlag >= 0 then SetAt(Nx, Ny, Nz, s, ca, cb, cc, Crossed(c, p, h))
                   else SetAt(Nx, Ny, Nz, s, pa, pb, pc, Crossed(p, c, h))
    requires InGrid3(Nx, Ny, Nz, a, b, e)
    ensures At(Nx, Ny, Nz, s', a, b, e) ==
      if IsInterior3(Nx, Ny, Nz, a, b, e) then SweptCell(Nx, Ny, Nz, g0, h, d, a, b, e, Lim(Nx, Ny, Nz, d, a, b, e, l1, l2, k))
      else At(Nx, Ny, Nz, g0, a, b, e)
  {
    var (ca, cb, cc) := OnLine(d, l1, l2, k);
    var (pa, pb, pc) := OnLine(d, l1, l2, k - 1);
    var c, p := At(Nx, Ny, Nz, s, ca, cb, cc), At(Nx, Ny, Nz, s, pa, pb, pc);
    if (a, b, e) == (ca, cb, cc) || (a, b, e) == (pa, pb, pc) {
      SweepPairStep(Nx, Ny, Nz, g0, s, h, d, l1, l2, k, s');
      LimPair(Nx, Ny, Nz, d, l1, l2, k);
    } else {
      assert At(Nx, Ny, Nz, s', a, b, e) == At(Nx, Ny, Nz, s, a, b, e);
      if IsInterior3(Nx, Ny, Nz, a, b, e) {
        LimStep(Nx, Ny, Nz, g0, h, d, l1, l2, k, a, b, e);
      }
    }
  }

  /** `SweepStep` for the two cells of the pair it examines. */
  lemma SweepPairStep(Nx: nat, Ny: nat, Nz: nat, g0: seq<FMContainer>, s: seq<FMContainer>, h: real, d: Direction,
                      l1: int, l2: int, k: int, s': seq<FMContainer>)
    requires |g0| == Size3(Nx, Ny, Nz) && 1 <= l1 <= Lines1(Nx, Ny, Nz, d) && 1 <= l2 <= Lines2(Nx, Ny, Nz, d)
    requires 2 <= k <= Length(Nx, Ny, Nz, d)
    requires SweptUpTo(Nx, Ny, Nz, g0, s, h, d, l1, l2, k - 1)
    requires var (ca, cb, cc) := OnLine(d, l1, l2, k);
             var (pa, pb, pc) := OnLine(d, l1, l2, k - 1);
             var c, p := At(Nx, Ny, Nz, s, ca, cb, cc), At(Nx, Ny, Nz, s, pa, pb, pc);
             s' == if (c.DoneFlag < 0) == (p.DoneFlag < 0) then s
                   else if c.DoneFlag >= 0 then SetAt(Nx, Ny, Nz, s, ca, cb, cc, Crossed(c, p, h))
                   else SetAt(Nx, Ny, Nz, s, pa, pb, pc, Crossed(p, c, h))
    ensures var (ca, cb, cc) := OnLine(d, l1, l2, k);
            At(Nx, Ny, Nz, s', ca, cb, cc) == SweptCell(Nx, Ny, Nz, g0, h, d, ca, cb, cc, k)
    ensures var (pa, pb, pc) := OnLine(d, l1, l2, k - 1);
            At(Nx, Ny, Nz, s', pa, pb, pc) == SweptCell(Nx, Ny, Nz, g0, h, d, pa, pb, pc, k)
  {
    var (ca, cb, cc) := OnLine(d, l1, l2, k);
    var (pa, pb, pc) := OnLine(d, l1, l2, k - 1);
    var c, p := At(Nx, Ny, Nz, s, ca, cb, cc), At(Nx, Ny, Nz, s, pa, pb, pc);
    SweepAhead(Nx, Ny, Nz, g0, s, h, d, l1, l2, k);
    assert p == SweptCell(Nx, Ny, Nz, g0, h, d, pa, pb, pc, k - 1);
    SweptSigns(Nx, Ny, Nz, g0, h, d, pa, pb, pc, k - 1);
    assert Next(d, pa, pb, pc, 1) == (ca, cb, cc) && Next(d, ca, cb, cc, -1) == (pa, pb, pc);
    assert At(Nx, Ny, Nz, s', ca, cb, cc) == Crossed(c, At(Nx, Ny, Nz, g0, pa, pb, pc), h);
    assert At(Nx, Ny, Nz, s', pa, pb, pc) == Crossed(p, c, h);
  }

  /** The bound of the two cells of the pair examined at position k of line (l1, l2). */
  lemma LimPair(Nx: nat, Ny: nat, Nz: nat, d: Direction, l1: int, l2: int, k: int)
    ensures var (ca, cb, cc) := OnLine(d, l1, l2, k);
            var (pa, pb, pc) := OnLine(d, l1, l2, k - 1);
            Lim(Nx, Ny, Nz, d, ca, cb, cc, l1, l2, k) == k && Lim(Nx, Ny, Nz, d, pa, pb, pc, l1, l2, k) == k
  {
  }

  /** A step of a sweep changes the bound of no cell other than the two it examines. */
  lemma LimStep(Nx: nat, Ny: nat, Nz: nat, g0: seq<FMContainer>, h: real, d: Direction, l1: int, l2: int, k: int,
                a: int, b: int, e: int)
    requires |g0| == Size3(Nx, Ny, Nz) && IsInterior3(Nx, Ny, Nz, a, b, e)
    requires (a, b, e) != OnLine(d, l1, l2, k) && (a, b, e) != OnLine(d, l1, l2, k - 1)
    ensures SweptCell(Nx, Ny, Nz, g0, h, d, a, b, e, Lim(Nx, Ny, Nz, d, a, b, e, l1, l2, k)) ==
            SweptCell(Nx, Ny, Nz, g0, h, d, a, b, e, Lim(Nx, Ny, Nz, d, a, b, e, l1, l2, k - 1))
  {
    assert OnLine(d, Line(d, a, b, e).0, Line(d, a, b, e).1, Along(d, a, b, e)) == (a, b, e);
  }

  /** The first cell of a line is untouched before the sweep of the line has started. */
  lemma SweepFirst(Nx: nat, Ny: nat, Nz: nat, g0: seq<FMContainer>, s: seq<FMContainer>, h: real, d: Direction,
                   l1: int, l2: int)
    requires |g0| == Size3(Nx, Ny, Nz) && 1 <= l1 <= Lines1(Nx, Ny, Nz, d) && 1 <= l2 <= Lines2(Nx, Ny, Nz, d)
    requires 1 <= Length(Nx, Ny, Nz, d) && FlagsInRange(g0)
    requires SweptUpTo(Nx, Ny, Nz, g0, s, h, d, l1, l2, 1)
    ensures var (fa, fb, fc) := OnLine(d, l1, l2, 1);
            At(Nx, Ny, Nz, s, fa, fb, fc) == At(Nx, Ny, Nz, g0, fa, fb, fc) && -1 <= At(Nx, Ny, Nz, s, fa, fb, fc).DoneFlag <= 1
  {
    var (fa, fb, fc) := OnLine(d, l1, l2, 1);
    assert At(Nx, Ny, Nz, s, fa, fb, fc) == SweptCell(Nx, Ny, Nz, g0, h, d, fa, fb, fc, 1);
    GI3Range(Nx, Ny, Nz, fa, fb, fc);
  }

  /**
   * Before the step at position k of line (l1, l2): the cell at k is as the
   * sweep found it, both cells of the pair have flags in range, and the
   * cell at k - 1 has kept its sign.
   */
  lemma PairFlags(Nx: nat, Ny: nat, Nz: nat, g0: seq<FMContainer>, s: seq<FMContainer>, h: real, d: Direction,
                  l1: int, l2: int, k: int)
    requires |g0| == Size3(Nx, Ny, Nz) && 1 <= l1 <= Lines1(Nx, Ny, Nz, d) && 1 <= l2 <= Lines2(Nx, Ny, Nz, d)
    requires 2 <= k <= Length(Nx, Ny, Nz, d) && FlagsInRange(g0)
    requires SweptUpTo(Nx, Ny, Nz, g0, s, h, d, l1, l2, k - 1)
    ensures var (ca, cb, cc) := OnLine(d, l1, l2, k);
            var (pa, pb, pc) := OnLine(d, l1, l2, k - 1);
            At(Nx, Ny, Nz, s, ca, cb, cc) == At(Nx, Ny, Nz, g0, ca, cb, cc) &&
            -1 <= At(Nx, Ny, Nz, s, ca, cb, cc).DoneFlag <= 1 && -1 <= At(Nx, Ny, Nz, s, pa, pb, pc).DoneFlag <= 1
  {
    var (ca, cb, cc) := OnLine(d, l1, l2, k);
    var (pa, pb, pc) := OnLine(d, l1, l2, k - 1);
    SweepAhead(Nx, Ny, Nz, g0, s, h, d, l1, l2, k);
    assert At(Nx, Ny, Nz, s, pa, pb, pc) == SweptCell(Nx, Ny, Nz, g0, h, d, pa, pb, pc, k - 1);
    GI3Range(Nx, Ny, Nz, ca, cb, cc);
    GI3Range(Nx, Ny, Nz, pa, pb, pc);
    SweptSigns(Nx, Ny, Nz, g0, h, d, pa, pb, pc, k - 1);
  }

  /** After the step at position k, a flag with the sign the cell at k had in g0 tracks it. */
  lemma TracksAfter(Nx: nat, Ny: nat, Nz: nat, g0: seq<FMContainer>, s: seq<FMContainer>, h: real, d: Direction,
                    l1: int, l2: int, k: int, flag: int)
    requires |g0| == Size3(Nx, Ny, Nz) && 1 <= l1 <= Lines1(Nx, Ny, Nz, d) && 1 <= l2 <= Lines2(Nx, Ny, Nz, d)
    requires 1 <= k <= Length(Nx, Ny, Nz, d) && SweptUpTo(Nx, Ny, Nz, g0, s, h, d, l1, l2, k)
    requires var (ca, cb, cc) := OnLine(d, l1, l2, k);
             -1 <= flag <= 1 && (flag < 0 <==> At(Nx, Ny, Nz, g0, ca, cb, cc).DoneFlag < 0)
    ensures Tracks(Nx, Ny, Nz, s, d, l1, l2, k, flag)
  {
    var (ca, cb, cc) := OnLine(d, l1, l2, k);
    assert At(Nx, Ny, Nz, s, ca, cb, cc) == SweptCell(Nx, Ny, Nz, g0, h, d, ca, cb, cc, k);
    SweptSigns(Nx, Ny, Nz, g0, h, d, ca, cb, cc, k);
  }

  /** A neighbour that the sweeps examine (`looked`) or skip. */
  datatype Probe = Probe(n: FMContainer, looked: bool)

  /** A cell crossed with each looked-at probe in turn. */
  function Chain(c: FMContainer, ps: seq<Probe>, h: real): FMContainer
  {
    if |ps| == 0 then c else CrossIf(ps[|ps| - 1].looked, Chain(c, ps[..|ps| - 1], h), ps[|ps| - 1].n, h)
  }

  /** Some probe is looked at and fixed. */
  predicate AnyHit(ps: seq<Probe>)
  {
    exists p {:trigger ps[p]} :: 0 <= p < |ps| && Hit(ps[p].looked, ps[p].n)
  }

  /**
   * c' is what crossing c with the probes ps makes of it. A fixed c is
   * unchanged. An open or Done c becomes Done exactly when some probe looked
   * at is fixed; its value then becomes the least of its own value and
   * |h + value| over those fixed probes, and is otherwise unchanged.
   */
  predicate CrossedWithAll(c: FMContainer, c': FMContainer, ps: seq<Probe>, h: real)
  {
    (c.DoneFlag < 0 ==> c' == c) &&
    (c.DoneFlag >= 0 && !AnyHit(ps) ==> c' == c) &&
    (c.DoneFlag >= 0 && AnyHit(ps) ==> c'.DoneFlag == 1) &&
    c'.HeapPosition == c.HeapPosition && c'.value <= c.value &&
    (c.DoneFlag >= 0 ==>
      forall p {:trigger ps[p]} :: 0 <= p < |ps| && Hit(ps[p].looked, ps[p].n) ==> c'.value <= Abs(h + ps[p].n.value)) &&
    (c'.value == c.value ||
      exists p {:trigger ps[p]} :: 0 <= p < |ps| && Hit(ps[p].looked, ps[p].n) && c'.value == Abs(h + ps[p].n.value))
  }

  /** `Chain` is characterised by `CrossedWithAll`, whatever the probes. */
  lemma {:induction false} ChainCrossed(c: FMContainer, ps: seq<Probe>, h: real)
    ensures CrossedWithAll(c, Chain(c, ps, h), ps, h)
  {
    if |ps| > 0 {
      var q, last := ps[..|ps| - 1], ps[|ps| - 1];
      ChainCrossed(c, q, h);
      var w := Chain(c, q, h);
      var c' := Chain(c, ps, h);
      assert c' == CrossIf(last.looked, w, last.n, h);
      assert forall p {:trigger q[p]} :: 0 <= p < |q| ==> q[p] == ps[p];
      assert AnyHit(ps) <==> AnyHit(q) || Hit(last.looked, last.n) by {
        if AnyHit(q) {
          var p :| 0 <= p < |q| && Hit(q[p].looked, q[p].n);
          assert ps[p] == q[p];
        }
        if AnyHit(ps) && !Hit(last.looked, last.n) {
          var p :| 0 <= p < |ps| && Hit(ps[p].looked, ps[p].n);
          assert p < |q| && q[p] == ps[p];
        }
      }
      if c'.value != c.value {
        if c'.value == w.value {
          var p :| 0 <= p < |q| && Hit(q[p].looked, q[p].n) && w.value == Abs(h + q[p].n.value);
          assert ps[p] == q[p];
        } else {
          assert ps[|ps| - 1] == last;
        }
      }
    }
  }

  /** `Chain` over one more probe. */
  lemma ChainPush(c: FMContainer, ps: seq<Probe>, p: Probe, h: real)
    ensures Chain(c, ps + [p], h) == CrossIf(p.looked, Chain(c, ps, h), p.n, h)
  {
    assert (ps + [p])[..|ps|] == ps;
  }

  /**
   * The six neighbours of interior cell (a, b, c) in the order the sweeps
   * examine them: below and above in z, then in y, then in x; a neighbour
   * is looked at when it is interior.
   */
  function Neighbours(Nx: nat, Ny: nat, Nz: nat, g: seq<FMContainer>, a: int, b: int, c: int): seq<Probe>
    requires |g| == Size3(Nx, Ny, Nz) && IsInterior3(Nx, Ny, Nz, a, b, c)
  {
    [Probe(At(Nx, Ny, Nz, g, a, b, c - 1), c >= 2), Probe(At(Nx, Ny, Nz, g, a, b, c + 1), c + 1 <= Nz),
     Probe(At(Nx, Ny, Nz, g, a, b - 1, c), b >= 2), Probe(At(Nx, Ny, Nz, g, a, b + 1, c), b + 1 <= Ny),
     Probe(At(Nx, Ny, Nz, g, a - 1, b, c), a >= 2), Probe(At(Nx, Ny, Nz, g, a + 1, b, c), a + 1 <= Nx)]
  }

  /**
   * What `Initialize` makes of interior cell (a, b, c) of g: c', the cell
   * crossed with its interior 6-neighbours (see `CrossedWithAll`).
   */
  predicate InitializedCell(Nx: nat, Ny: nat, Nz: nat, g: seq<FMContainer>, h: real, a: int, b: int, c: int, c': FMContainer)
    requires |g| == Size3(Nx, Ny, Nz) && IsInterior3(Nx, Ny, Nz, a, b, c)
  {
    CrossedWithAll(At(Nx, Ny, Nz, g, a, b, c), c', Neighbours(Nx, Ny, Nz, g, a, b, c), h)
  }

  /** Interior cell (a, b, c) after `Initialize`, characterised by `InitializedCell`. */
  lemma InitializedAt(Nx: nat, Ny: nat, Nz: nat, g: seq<FMContainer>, h: real, a: int, b: int, c: int)
    requires |g| == Size3(Nx, Ny, Nz) && IsInterior3(Nx, Ny, Nz, a, b, c)
    ensures InitializedCell(Nx, Ny, Nz, g, h, a, b, c, At(Nx, Ny, Nz, Initialized(Nx, Ny, Nz, g, h), a, b, c))
  {
    InitializedChain(Nx, Ny, Nz, g, h, a, b, c);
    ChainCrossed(At(Nx, Ny, Nz, g, a, b, c), Neighbours(Nx, Ny, Nz, g, a, b, c), h);
  }

  /** Interior cell (a, b, c) after a sweep: crossed with the cells before and after it on its line. */
  lemma SweptAt(Nx: nat, Ny: nat, Nz: nat, g: seq<FMContainer>, h: real, d: Direction, a: int, b: int, c: int)
    requires |g| == Size3(Nx, Ny, Nz) && IsInterior3(Nx, Ny, Nz, a, b, c)
    ensures var (pa, pb, pc) := Next(d, a, b, c, -1);
            var (na, nb, nc) := Next(d, a, b, c, 1);
            var k := Along(d, a, b, c);
            At(Nx, Ny, Nz, Swept(Nx, Ny, Nz, g, h, d), a, b, c) ==
              CrossIf(k + 1 <= Length(Nx, Ny, Nz, d), CrossIf(2 <= k, At(Nx, Ny, Nz, g, a, b, c), At(Nx, Ny, Nz, g, pa, pb, pc), h),
                      At(Nx, Ny, Nz, g, na, nb, nc), h)
  {
    SweptIs(Nx, Ny, Nz, g, h, d, a, b, c);
  }

  /** A sweep keeps the sign of every cell, and a fixed one as it is. */
  lemma NeighbourSwept(Nx: nat, Ny: nat, Nz: nat, g: seq<FMContainer>, h: real, d: Direction, a: int, b: int, c: int)
    requires |g| == Size3(Nx, Ny, Nz) && InGrid3(Nx, Ny, Nz, a, b, c)
    ensures var e, e' := At(Nx, Ny, Nz, g, a, b, c), At(Nx, Ny, Nz, Swept(Nx, Ny, Nz, g, h, d), a, b, c);
            (e'.DoneFlag < 0 <==> e.DoneFlag < 0) && (e.DoneFlag < 0 ==> e' == e)
  {
    SweptIs(Nx, Ny, Nz, g, h, d, a, b, c);
    if IsInterior3(Nx, Ny, Nz, a, b, c) {
      SweptSigns(Nx, Ny, Nz, g, h, d, a, b, c, Length(Nx, Ny, Nz, d));
    }
  }

  /** The z sweep crosses interior cell (a, b, c) with its z neighbours. */
  lemma ZStage(Nx: nat, Ny: nat, Nz: nat, g: seq<FMContainer>, h: real, a: int, b: int, c: int)
    requires |g| == Size3(Nx, Ny, Nz) && IsInterior3(Nx, Ny, Nz, a, b, c)
    ensures var ps := Neighbours(Nx, Ny, Nz, g, a, b, c);
            At(Nx, Ny, Nz, Swept(Nx, Ny, Nz, g, h, ZLines), a, b, c) == Chain(At(Nx, Ny, Nz, g, a, b, c), [ps[0], ps[1]], h)
  {
    var ps := Neighbours(Nx, Ny, Nz, g, a, b, c);
    SweptAt(Nx, Ny, Nz, g, h, ZLines, a, b, c);
    ChainPush(At(Nx, Ny, Nz, g, a, b, c), [], ps[0], h);
    ChainPush(At(Nx, Ny, Nz, g, a, b, c), [ps[0]], ps[1], h);
  }

  /** Crossing with a cell of the same sign, and the same value when fixed, as probe p is pushing p. */
  lemma PushSame(c0: FMContainer, qs: seq<Probe>, p: Probe, n': FMContainer, h: real)
    requires p.looked ==> (n'.DoneFlag < 0 <==> p.n.DoneFlag < 0) && (p.n.DoneFlag < 0 ==> n' == p.n)
    ensures CrossIf(p.looked, Chain(c0, qs, h), n', h) == Chain(c0, qs + [p], h)
  {
    CrossIfSameFixed(p.looked, Chain(c0, qs, h), n', p.n, h);
    ChainPush(c0, qs, p, h);
  }

  /** The z and y sweeps cross interior cell (a, b, c) with its z and y neighbours. */
  lemma YStage(Nx: nat, Ny: nat, Nz: nat, g: seq<FMContainer>, h: real, a: int, b: int, c: int)
    requires |g| == Size3(Nx, Ny, Nz) && IsInterior3(Nx, Ny, Nz, a, b, c)
    ensures var ps := Neighbours(Nx, Ny, Nz, g, a, b, c);
            var g1 := Swept(Nx, Ny, Nz, g, h, ZLines);
            At(Nx, Ny, Nz, Swept(Nx, Ny, Nz, g1, h, YLines), a, b, c) ==
              Chain(At(Nx, Ny, Nz, g, a, b, c), [ps[0], ps[1], ps[2], ps[3]], h)
  {
    var ps := Neighbours(Nx, Ny, Nz, g, a, b, c);
    var c0 := At(Nx, Ny, Nz, g, a, b, c);
    var g1 := Swept(Nx, Ny, Nz, g, h, ZLines);
    ZStage(Nx, Ny, Nz, g, h, a, b, c);
    SweptAt(Nx, Ny, Nz, g1, h, YLines, a, b, c);
    NeighbourSwept(Nx, Ny, Nz, g, h, ZLines, a, b - 1, c);
    PushSame(c0, [ps[0], ps[1]], ps[2], At(Nx, Ny, Nz, g1, a, b - 1, c), h);
    assert [ps[0], ps[1]] + [ps[2]] == [ps[0], ps[1], ps[2]];
    NeighbourSwept(Nx, Ny, Nz, g, h, ZLines, a, b + 1, c);
    PushSame(c0, [ps[0], ps[1], ps[2]], ps[3], At(Nx, Ny, Nz, g1, a, b + 1, c), h);
    assert [ps[0], ps[1], ps[2]] + [ps[3]] == [ps[0], ps[1], ps[2], ps[3]];
  }

  /** Interior cell (a, b, c) after `Initialize` is itself crossed with its six neighbours in sweep order. */
  lemma InitializedChain(Nx: nat, Ny: nat, Nz: nat, g: seq<FMContainer>, h: real, a: int, b: int, c: int)
    requires |g| == Size3(Nx, Ny, Nz) && IsInterior3(Nx, Ny, Nz, a, b, c)
    ensures At(Nx, Ny, Nz, Initialized(Nx, Ny, Nz, g, h), a, b, c) ==
            Chain(At(Nx, Ny, Nz, g, a, b, c), Neighbours(Nx, Ny, Nz, g, a, b, c), h)
  {
    var ps := Neighbours(Nx, Ny, Nz, g, a, b, c);
    var c0 := At(Nx, Ny, Nz, g, a, b, c);
    var g1 := Swept(Nx, Ny, Nz, g, h, ZLines);
    var g2 := Swept(Nx, Ny, Nz, g1, h, YLines);
    YStage(Nx, Ny, Nz, g, h, a, b, c);
    SweptAt(Nx, Ny, Nz, g2, h, XLines, a, b, c);
    NeighbourSwept(Nx, Ny, Nz, g, h, ZLines, a - 1, b, c);
    NeighbourSwept(Nx, Ny, Nz, g1, h, YLines, a - 1, b, c);
    PushSame(c0, [ps[0], ps[1], ps[2], ps[3]], ps[4], At(Nx, Ny, Nz, g2, a - 1, b, c), h);
    assert [ps[0], ps[1], ps[2], ps[3]] + [ps[4]] == [ps[0], ps[1], ps[2], ps[3], ps[4]];
    NeighbourSwept(Nx, Ny, Nz, g, h, ZLines, a + 1, b, c);
    NeighbourSwept(Nx, Ny, Nz, g1, h, YLines, a + 1, b, c);
    PushSame(c0, [ps[0], ps[1], ps[2], ps[3], ps[4]], ps[5], At(Nx, Ny, Nz, g2, a + 1, b, c), h);
    assert [ps[0], ps[1], ps[2], ps[3], ps[4]] + [ps[5]] == ps;
  }

  /** Every ghost cell is fixed. */
  ghost predicate GhostsFixed(Nx: nat, Ny: nat, Nz: nat, g: seq<FMContainer>)
    requires |g| == Size3(Nx, Ny, Nz)
  {
    forall a, b, c {:trigger At(Nx, Ny, Nz, g, a, b, c)} :: IsGhost3(Nx, Ny, Nz, a, b, c) ==> At(Nx, Ny, Nz, g, a, b, c).DoneFlag == -1
  }

  /** A completed sweep keeps flags in range and ghost cells fixed, and only grows flags. */
  lemma SweptKeeps(Nx: nat, Ny: nat, Nz: nat, g: seq<FMContainer>, h: real, d: Direction)
    requires |g| == Size3(Nx, Ny, Nz) && FlagsInRange(g) && GhostsFixed(Nx, Ny, Nz, g)
    ensures FlagsInRange(Swept(Nx, Ny, Nz, g, h, d)) && GhostsFixed(Nx, Ny, Nz, Swept(Nx, Ny, Nz, g, h, d))
    ensures FlagsGrow(g, Swept(Nx, Ny, Nz, g, h, d))
  {
    var r := Swept(Nx, Ny, Nz, g, h, d);
    forall e | 0 <= e < |g|
      ensures -1 <= r[e].DoneFlag <= 1
      ensures r[e].DoneFlag == g[e].DoneFlag || (g[e].DoneFlag == 0 && r[e].DoneFlag == 1)
    {
      SweptFlag(Nx, Ny, Nz, g, h, d, e);
    }
    forall a, b, c {:trigger At(Nx, Ny, Nz, r, a, b, c)} | IsGhost3(Nx, Ny, Nz, a, b, c)
      ensures At(Nx, Ny, Nz, r, a, b, c).DoneFlag == -1
    {
      SweptIs(Nx, Ny, Nz, g, h, d, a, b, c);
    }
  }

  /** A sweep moves the flag of one cell at most from open to Done. */
  lemma SweptFlag(Nx: nat, Ny: nat, Nz: nat, g: seq<FMContainer>, h: real, d: Direction, e: int)
    requires |g| == Size3(Nx, Ny, Nz) && 0 <= e < |g| && -1 <= g[e].DoneFlag <= 1
    ensures var r := Swept(Nx, Ny, Nz, g, h, d);
            -1 <= r[e].DoneFlag <= 1 && (r[e].DoneFlag == g[e].DoneFlag || (g[e].DoneFlag == 0 && r[e].DoneFlag == 1))
  {
    var r := Swept(Nx, Ny, Nz, g, h, d);
    Coords3(Nx, Ny, Nz, e);
    var (a, b, c) := GIJK(Nx, Ny, e);
    assert r[e] == At(Nx, Ny, Nz, r, a, b, c);
    assert g[e] == At(Nx, Ny, Nz, g, a, b, c);
    SweptIs(Nx, Ny, Nz, g, h, d, a, b, c);
    if IsInterior3(Nx, Ny, Nz, a, b, c) {
      SweptSigns(Nx, Ny, Nz, g, h, d, a, b, c, Length(Nx, Ny, Nz, d));
    }
  }

  /**
   * Initialize over the whole grid, cell by cell: fixed cells (ghost cells
   * among them) are unchanged, back-indices are unchanged, flags only move
   * from open to Done, and non-negative values stay non-negative.
   */
  lemma InitializedKeeps(Nx: nat, Ny: nat, Nz: nat, g: seq<FMContainer>, h: real)
    requires |g| == Size3(Nx, Ny, Nz) && FlagsInRange(g) && GhostsFixed(Nx, Ny, Nz, g)
    ensures var r := Initialized(Nx, Ny, Nz, g, h);
            |r| == |g| && FlagsInRange(r) && GhostsFixed(Nx, Ny, Nz, r) && FlagsGrow(g, r) &&
            (forall e {:trigger r[e]} :: 0 <= e < |g| ==>
              r[e].HeapPosition == g[e].HeapPosition && r[e].value <= g[e].value &&
              (g[e].DoneFlag < 0 ==> r[e] == g[e])) &&
            (NonNegative(g) ==> NonNegative(r))
  {
    var g1 := Swept(Nx, Ny, Nz, g, h, ZLines);
    var g2 := Swept(Nx, Ny, Nz, g1, h, YLines);
    SweptKeeps(Nx, Ny, Nz, g, h, ZLines);
    SweptKeeps(Nx, Ny, Nz, g1, h, YLines);
    SweptKeeps(Nx, Ny, Nz, g2, h, XLines);
    var r := Initialized(Nx, Ny, Nz, g, h);
    forall e | 0 <= e < |g|
      ensures r[e].HeapPosition == g[e].HeapPosition && r[e].value <= g[e].value
      ensures g[e].DoneFlag < 0 ==> r[e] == g[e]
      ensures g[e].DoneFlag >= 0 && g[e].value >= 0.0 ==> r[e].value >= 0.0
      ensures r[e].DoneFlag >= 0 ==> g[e].DoneFlag >= 0
    {
      Coords3(Nx, Ny, Nz, e);
      var (a, b, c) := GIJK(Nx, Ny, e);
      assert r[e] == At(Nx, Ny, Nz, r, a, b, c);
      assert g[e] == At(Nx, Ny, Nz, g, a, b, c);
      if IsInterior3(Nx, Ny, Nz, a, b, c) {
        InitializedAt(Nx, Ny, Nz, g, h, a, b, c);
      } else {
        SweptIs(Nx, Ny, Nz, g, h, ZLines, a, b, c);
        SweptIs(Nx, Ny, Nz, g1, h, YLines, a, b, c);
        SweptIs(Nx, Ny, Nz, g2, h, XLines, a, b, c);
      }
    }
  }

  // ------------------------------------------------- flags and close points

  /** Interior cell (x, y, z) has a Done 6-neighbour. */
  predicate DoneNeighbour(Nx: nat, Ny: nat, Nz: nat, g: seq<FMContainer>, x: int, y: int, z: int)
    requires |g| == Size3(Nx, Ny, Nz) && IsInterior3(Nx, Ny, Nz, x, y, z)
  {
    At(Nx, Ny, Nz, g, x + 1, y, z).DoneFlag == 1 || At(Nx, Ny, Nz, g, x - 1, y, z).DoneFlag == 1 ||
    At(Nx, Ny, Nz, g, x, y + 1, z).DoneFlag == 1 || At(Nx, Ny, Nz, g, x, y - 1, z).DoneFlag == 1 ||
    At(Nx, Ny, Nz, g, x, y, z + 1).DoneFlag == 1 || At(Nx, Ny, Nz, g, x, y, z - 1).DoneFlag == 1
  }

  /** A close point: an index of the grid that, while still open, is interior with a Done neighbour. */
  ghost predicate Seeded(Nx: nat, Ny: nat, Nz: nat, g: seq<FMContainer>, e: int)
    requires |g| == Size3(Nx, Ny, Nz)
  {
    0 <= e < |g| &&
    (g[e].DoneFlag == 0 ==>
      IsInterior3(Nx, Ny, Nz, I3(Nx, e), J3(Nx, Ny, e), K3(Nx, Ny, e)) &&
      DoneNeighbour(Nx, Ny, Nz, g, I3(Nx, e), J3(Nx, Ny, e), K3(Nx, Ny, e)))
  }

  ghost predicate Seeds(Nx: nat, Ny: nat, Nz: nat, g: seq<FMContainer>, cp: seq<int>)
    requires |g| == Size3(Nx, Ny, Nz)
  {
    forall p {:trigger cp[p]} :: 0 <= p < |cp| ==> Seeded(Nx, Ny, Nz, g, cp[p])
  }

  /** Close points stay close points while flags only grow. */
  lemma SeedsGrow(Nx: nat, Ny: nat, Nz: nat, g: seq<FMContainer>, g': seq<FMContainer>, cp: seq<int>)
    requires |g| == Size3(Nx, Ny, Nz) && Seeds(Nx, Ny, Nz, g, cp) && FlagsGrow(g, g')
    ensures Seeds(Nx, Ny, Nz, g', cp)
  {
    forall p | 0 <= p < |cp|
      ensures Seeded(Nx, Ny, Nz, g', cp[p])
    {
      SeedGrows(Nx, Ny, Nz, g, g', cp[p]);
    }
  }

  /** One close point stays a close point while flags only grow. */
  lemma SeedGrows(Nx: nat, Ny: nat, Nz: nat, g: seq<FMContainer>, g': seq<FMContainer>, e: int)
    requires |g| == Size3(Nx, Ny, Nz) && Seeded(Nx, Ny, Nz, g, e) && FlagsGrow(g, g')
    ensures Seeded(Nx, Ny, Nz, g', e)
  {
    if g'[e].DoneFlag == 0 {
      assert g[e].DoneFlag == 0;
      var x, y, z := I3(Nx, e), J3(Nx, Ny, e), K3(Nx, Ny, e);
      assert DoneNeighbour(Nx, Ny, Nz, g, x, y, z);
      GI3Range(Nx, Ny, Nz, x + 1, y, z);
      GI3Range(Nx, Ny, Nz, x - 1, y, z);
      GI3Range(Nx, Ny, Nz, x, y + 1, z);
      GI3Range(Nx, Ny, Nz, x, y - 1, z);
      GI3Range(Nx, Ny, Nz, x, y, z + 1);
      GI3Range(Nx, Ny, Nz, x, y, z - 1);
    }
  }

  /** (dx, dy, dz) is a step to a 6-neighbour. */
  predicate UnitStep(dx: int, dy: int, dz: int)
  {
    (dy == 0 && dz == 0 && (dx == 1 || dx == -1)) || (dx == 0 && dz == 0 && (dy == 1 || dy == -1)) ||
    (dx == 0 && dy == 0 && (dz == 1 || dz == -1))
  }

  /** A cell next to a Done cell is a close point, given that ghost cells are fixed. */
  lemma SeedNextToDone(Nx: nat, Ny: nat, Nz: nat, g: seq<FMContainer>, x: int, y: int, z: int, dx: int, dy: int, dz: int)
    requires |g| == Size3(Nx, Ny, Nz) && GhostsFixed(Nx, Ny, Nz, g) && InGrid3(Nx, Ny, Nz, x, y, z) && UnitStep(dx, dy, dz)
    requires InGrid3(Nx, Ny, Nz, x + dx, y + dy, z + dz) && At(Nx, Ny, Nz, g, x + dx, y + dy, z + dz).DoneFlag == 1
    ensures Seeded(Nx, Ny, Nz, g, GI3(Nx, Ny, x, y, z))
  {
    GI3Range(Nx, Ny, Nz, x, y, z);
    if At(Nx, Ny, Nz, g, x, y, z).DoneFlag == 0 {
      assert !IsGhost3(Nx, Ny, Nz, x, y, z);
    }
  }

  /** `flag` of a sweep: a flag value with the sign of the cell at position k of line (l1, l2). */
  predicate Tracks(Nx: nat, Ny: nat, Nz: nat, g: seq<FMContainer>, d: Direction, l1: int, l2: int, k: int, flag: int)
    requires |g| == Size3(Nx, Ny, Nz)
    requires var (a, b, c) := OnLine(d, l1, l2, k); InGrid3(Nx, Ny, Nz, a, b, c)
  {
    var (a, b, c) := OnLine(d, l1, l2, k);
    -1 <= flag <= 1 && (flag < 0 <==> At(Nx, Ny, Nz, g, a, b, c).DoneFlag < 0)
  }

  /** Position k of line (l1, l2) in direction d is an interior cell. */
  predicate OnSweep(Nx: nat, Ny: nat, Nz: nat, d: Direction, l1: int, l2: int)
  {
    1 <= l1 <= Lines1(Nx, Ny, Nz, d) && 1 <= l2 <= Lines2(Nx, Ny, Nz, d)
  }

  // ------------------------------------------------------------ the march

  /** The state the march keeps: the heap invariant, with every ghost cell fixed. */
  ghost predicate MarchInv(Nx: nat, Ny: nat, Nz: nat, g: seq<FMContainer>, heap: seq<int>, n: int)
    requires |g| == Size3(Nx, Ny, Nz)
  {
    HeapInv(g, heap, n) && GhostsFixed(Nx, Ny, Nz, g)
  }

  /** Ghost cells stay fixed while fixed cells stay fixed. */
  lemma GhostsStay(Nx: nat, Ny: nat, Nz: nat, g: seq<FMContainer>, g': seq<FMContainer>)
    requires |g| == Size3(Nx, Ny, Nz) && GhostsFixed(Nx, Ny, Nz, g) && FixedStay(g, g')
    ensures GhostsFixed(Nx, Ny, Nz, g')
  {
    forall a, b, c | IsGhost3(Nx, Ny, Nz, a, b, c)
      ensures At(Nx, Ny, Nz, g', a, b, c).DoneFlag == -1
    {
      GI3Range(Nx, Ny, Nz, a, b, c);
      assert At(Nx, Ny, Nz, g, a, b, c).DoneFlag == -1;
    }
  }

  /** The stencil `FindPhi` builds for interior cell (x, y, z): neighbours x+1, x-1, y+1, y-1, z+1, z-1. */
  function Stencil3(Nx: nat, Ny: nat, Nz: nat, g: seq<FMContainer>, hInv: real, x: int, y: int, z: int): Stencil
    requires |g| == Size3(Nx, Ny, Nz) && IsInterior3(Nx, Ny, Nz, x, y, z)
  {
    Select3(At(Nx, Ny, Nz, g, x + 1, y, z), At(Nx, Ny, Nz, g, x - 1, y, z), At(Nx, Ny, Nz, g, x, y + 1, z),
            At(Nx, Ny, Nz, g, x, y - 1, z), At(Nx, Ny, Nz, g, x, y, z + 1), At(Nx, Ny, Nz, g, x, y, z - 1), hInv)
  }

  /**
   * Next to a Done cell the discriminant of `FindPhi` is at least h^2, so
   * its negative-discriminant branch is never taken.
   */
  lemma DiscriminantPositive(Nx: nat, Ny: nat, Nz: nat, g: seq<FMContainer>, h: real, hInv: real, x: int, y: int, z: int)
    requires h > 0.0 && hInv == 1.0 / h
    requires |g| == Size3(Nx, Ny, Nz) && IsInterior3(Nx, Ny, Nz, x, y, z) && DoneNeighbour(Nx, Ny, Nz, g, x, y, z)
    ensures Quotient(Stencil3(Nx, Ny, Nz, g, hInv, x, y, z), h) >= Square(h) > 0.0
    ensures 1 <= Stencil3(Nx, Ny, Nz, g, hInv, x, y, z).a <= 3
  {
    Select3Upwind(At(Nx, Ny, Nz, g, x + 1, y, z), At(Nx, Ny, Nz, g, x - 1, y, z), At(Nx, Ny, Nz, g, x, y + 1, z),
                  At(Nx, Ny, Nz, g, x, y - 1, z), At(Nx, Ny, Nz, g, x, y, z + 1), At(Nx, Ny, Nz, g, x, y, z - 1), h, hInv);
    QuotientBound(Stencil3(Nx, Ny, Nz, g, hInv, x, y, z), h);
    MulPos(h, h);
  }

  /** Some neighbour of the six is Done. */
  predicate AnyDone(xp: FMContainer, xm: FMContainer, yp: FMContainer, ym: FMContainer, zp: FMContainer, zm: FMContainer)
  {
    xp.DoneFlag == 1 || xm.DoneFlag == 1 || yp.DoneFlag == 1 || ym.DoneFlag == 1 || zp.DoneFlag == 1 || zm.DoneFlag == 1
  }

  /** Every Done neighbour of the six has a non-negative value. */
  predicate AllDoneNonNegative(xp: FMContainer, xm: FMContainer, yp: FMContainer, ym: FMContainer, zp: FMContainer, zm: FMContainer)
  {
    DoneNonNegative(xp) && DoneNonNegative(xm) && DoneNonNegative(yp) && DoneNonNegative(ym) &&
    DoneNonNegative(zp) && DoneNonNegative(zm)
  }

  /**
   * The solve step of `FindPhi` on the six neighbours of a cell, one of them
   * Done and every Done value non-negative: for a non-negative root r of the
   * discriminant, the stored root meets `SolvesUpwind`.
   */
  lemma SolveRoot(xp: FMContainer, xm: FMContainer, yp: FMContainer, ym: FMContainer, zp: FMContainer, zm: FMContainer,
                  h: real, hInv: real, r: real)
    requires h > 0.0 && hInv == 1.0 / h
    requires AnyDone(xp, xm, yp, ym, zp, zm) && AllDoneNonNegative(xp, xm, yp, ym, zp, zm)
    requires var s := Select3(xp, xm, yp, ym, zp, zm, hInv); r >= 0.0 && r * r == Quotient(s, h)
    ensures var s := Select3(xp, xm, yp, ym, zp, zm, hInv); s.a != 0 && SolvesUpwind(s, h, Root(s, r))
  {
    Select3Upwind(xp, xm, yp, ym, zp, zm, h, hInv);
    Select3NonNegative(xp, xm, yp, ym, zp, zm, hInv);
    UpwindRoot(Select3(xp, xm, yp, ym, zp, zm, hInv), h, r);
  }

  /** With a Done neighbour the selection uses at least one axis. */
  lemma Select3Active(xp: FMContainer, xm: FMContainer, yp: FMContainer, ym: FMContainer, zp: FMContainer, zm: FMContainer,
                      h: real, hInv: real)
    requires h > 0.0 && hInv == 1.0 / h && AnyDone(xp, xm, yp, ym, zp, zm)
    ensures Select3(xp, xm, yp, ym, zp, zm, hInv).a != 0
  {
    Select3Upwind(xp, xm, yp, ym, zp, zm, h, hInv);
  }

  /**
   * The outcome of the solve step for the selection s, its discriminant
   * quotient q and a root r of q: solved exactly when q is not negative,
   * and then the stored root meets `SolvesUpwind`.
   */
  lemma SolveOutcomeWith(xp: FMContainer, xm: FMContainer, yp: FMContainer, ym: FMContainer, zp: FMContainer, zm: FMContainer,
                         h: real, hInv: real, s: Stencil, q: real, r: real, solved: bool, phi: real)
    requires h > 0.0 && hInv == 1.0 / h
    requires AnyDone(xp, xm, yp, ym, zp, zm) && AllDoneNonNegative(xp, xm, yp, ym, zp, zm)
    requires s == Select3(xp, xm, yp, ym, zp, zm, hInv) && q == Quotient(s, h)
    requires (solved <==> q >= 0.0) && (q >= 0.0 ==> r >= 0.0 && r * r == q) && (solved && s.a != 0 ==> phi == Root(s, r))
    ensures (solved <==> q >= 0.0) && (solved ==> s.a != 0 && phi == Root(s, r) && SolvesUpwind(s, h, phi))
  {
    Select3Active(xp, xm, yp, ym, zp, zm, h, hInv);
    if solved {
      SolveRoot(xp, xm, yp, ym, zp, zm, h, hInv, r);
    }
  }

  /** Writing a cell's value keeps the march invariant. */
  lemma ValueWritten(Nx: nat, Ny: nat, Nz: nat, g: seq<FMContainer>, heap: seq<int>, n: int, index: int, v: real)
    requires |g| == Size3(Nx, Ny, Nz) && MarchInv(Nx, Ny, Nz, g, heap, n) && 0 <= index < |g|
    ensures MarchInv(Nx, Ny, Nz, g[index := g[index].(value := v)], heap, n)
    ensures HeapKeeps(g, heap, n, g[index := g[index].(value := v)], heap, n)
    ensures g[index].DoneFlag == 0 ==> Settled(g, g[index := g[index].(value := v)])
  {
    HeapValueWritten(g, heap, n, index, v);
    GhostsStay(Nx, Ny, Nz, g, g[index := g[index].(value := v)]);
  }

  /** `HeapRebuilt` on the march state. */
  lemma RebuiltInv(Nx: nat, Ny: nat, Nz: nat, g: seq<FMContainer>, heap: seq<int>, n: int,
                   g': seq<FMContainer>, heap': seq<int>, n': int, index: int)
    requires |g| == Size3(Nx, Ny, Nz) && MarchInv(Nx, Ny, Nz, g, heap, n) && 0 <= index < |g| && g[index].DoneFlag == 0
    requires Linked(g', heap', n') && |heap'| == |g'| && SameKeys(g, g')
    requires forall c {:trigger InHeap(g, heap, n, c)} :: 0 <= c < |g| ==>
      (InHeap(g', heap', n', c) <==> InHeap(g, heap, n, c) || c == index)
    requires forall c {:trigger g[c]} :: 0 <= c < |g| && c != index && !InHeap(g, heap, n, c) ==> g'[c] == g[c]
    ensures MarchInv(Nx, Ny, Nz, g', heap', n')
    ensures Settled(g, g') && HeapKeeps(g, heap, n, g', heap', n')
  {
    HeapRebuilt(g, heap, n, g', heap', n', index);
    GhostsStay(Nx, Ny, Nz, g, g');
  }

  /** `HeapPopped` on the march state. */
  lemma PoppedInv(Nx: nat, Ny: nat, Nz: nat, g: seq<FMContainer>, heap: seq<int>, n: int,
                  g': seq<FMContainer>, heap': seq<int>, n': int, index: int)
    requires |g| == Size3(Nx, Ny, Nz) && MarchInv(Nx, Ny, Nz, g, heap, n) && 0 <= index < |g| && g[index].DoneFlag == 0
    requires Linked(g', heap', n') && |heap'| == |g'| && |g'| == |g|
    requires forall c {:trigger g[c]} :: 0 <= c < |g| ==>
      g'[c].value == g[c].value && g'[c].DoneFlag == (if c == index then 1 else g[c].DoneFlag)
    requires forall c {:trigger InHeap(g, heap, n, c)} :: 0 <= c < |g| ==>
      (InHeap(g', heap', n', c) <==> InHeap(g, heap, n, c) && c != index)
    requires forall c {:trigger g[c]} :: 0 <= c < |g| && !InHeap(g, heap, n, c) ==> g'[c] == g[c]
    ensures MarchInv(Nx, Ny, Nz, g', heap', n')
  {
    HeapPopped(g, heap, n, g', heap', n', index);
    GhostsStay(Nx, Ny, Nz, g, g');
  }

  /** Close points stay close points when no flag changes. */
  lemma SeedsSameFlags(Nx: nat, Ny: nat, Nz: nat, g: seq<FMContainer>, g': seq<FMContainer>, cp: seq<int>)
    requires |g| == Size3(Nx, Ny, Nz) && Seeds(Nx, Ny, Nz, g, cp) && |g'| == |g|
    requires forall c {:trigger g'[c]} :: 0 <= c < |g| ==> g'[c].DoneFlag == g[c].DoneFlag
    ensures Seeds(Nx, Ny, Nz, g', cp)
  {
    assert FlagsGrow(g, g');
    SeedsGrow(Nx, Ny, Nz, g, g', cp);
  }

  /**
   * After `SetBoundary` on loaded cells: a cell is fixed exactly when it is
   * a ghost cell or its value is negative, open otherwise, with every value
   * and back-index as loaded.
   */
  lemma BoundaryLoaded(Nx: nat, Ny: nat, Nz: nat, g0: seq<FMContainer>, g1: seq<FMContainer>)
    requires |g0| == Size3(Nx, Ny, Nz) && |g1| == Size3(Nx, Ny, Nz) && LoadedForm(g0)
    requires forall a, b, c {:trigger At(Nx, Ny, Nz, g1, a, b, c)} :: InGrid3(Nx, Ny, Nz, a, b, c) ==>
      At(Nx, Ny, Nz, g1, a, b, c) ==
        if IsGhost3(Nx, Ny, Nz, a, b, c) then Pinned(At(Nx, Ny, Nz, g0, a, b, c)) else At(Nx, Ny, Nz, g0, a, b, c)
    ensures FlagsInRange(g1) && GhostsFixed(Nx, Ny, Nz, g1) && NonNegative(g1)
    ensures forall e {:trigger g1[e]} :: 0 <= e < |g0| ==>
      g1[e].value == g0[e].value && g1[e].HeapPosition == -1 &&
      g1[e].DoneFlag == (if GhostIndex(Nx, Ny, Nz, e) || g0[e].value < 0.0 then -1 else 0)
  {
    forall e | 0 <= e < |g0|
      ensures g1[e].value == g0[e].value && g1[e].HeapPosition == -1
      ensures g1[e].DoneFlag == (if GhostIndex(Nx, Ny, Nz, e) || g0[e].value < 0.0 then -1 else 0)
    {
      Coords3(Nx, Ny, Nz, e);
      var (a, b, c) := GIJK(Nx, Ny, e);
      assert At(Nx, Ny, Nz, g1, a, b, c) == g1[e];
      assert At(Nx, Ny, Nz, g0, a, b, c) == g0[e];
    }
    forall a, b, c | IsGhost3(Nx, Ny, Nz, a, b, c)
      ensures At(Nx, Ny, Nz, g1, a, b, c).DoneFlag == -1
    {
    }
  }

  /** With every back-index -1, an empty heap satisfies the march invariant and is ordered. */
  lemma EmptyHeapInv(Nx: nat, Ny: nat, Nz: nat, g: seq<FMContainer>, heap: seq<int>)
    requires |g| == Size3(Nx, Ny, Nz) && |heap| == |g| && FlagsInRange(g) && GhostsFixed(Nx, Ny, Nz, g)
    requires forall c {:trigger g[c]} :: 0 <= c < |g| ==> g[c].HeapPosition == -1
    ensures MarchInv(Nx, Ny, Nz, g, heap, 0) && Ordered(g, heap, 0)
  {
    EmptyHeap(g, heap);
  }

  /**
   * The four stages of `ReinitHalf` together: fixed and ghost cells keep
   * their loaded values, and every cell loaded non-negative ends non-negative.
   */
  lemma HalfKeeps(Nx: nat, Ny: nat, Nz: nat, g0: seq<FMContainer>, g1: seq<FMContainer>, g2: seq<FMContainer>,
                  g3: seq<FMContainer>, g4: seq<FMContainer>)
    requires |g0| == Size3(Nx, Ny, Nz) && |g1| == |g0| && |g2| == |g0| && |g3| == |g0| && |g4| == |g0|
    requires forall e {:trigger g1[e]} :: 0 <= e < |g0| ==>
      g1[e].value == g0[e].value &&
      g1[e].DoneFlag == (if GhostIndex(Nx, Ny, Nz, e) || g0[e].value < 0.0 then -1 else 0)
    requires FlagsGrow(g1, g2) && forall e {:trigger g2[e]} :: 0 <= e < |g0| && g1[e].DoneFlag < 0 ==> g2[e] == g1[e]
    requires forall e {:trigger g3[e]} :: 0 <= e < |g0| ==>
      g3[e].DoneFlag == g2[e].DoneFlag && (g2[e].DoneFlag != 0 ==> g3[e] == g2[e])
    requires Kept(g3, g4) && FlagsGrow(g3, g4) && NonNegative(g4)
    ensures forall e {:trigger g4[e]} :: 0 <= e < |g0| ==>
      ((g0[e].value < 0.0 || GhostIndex(Nx, Ny, Nz, e)) ==> g4[e].value == g0[e].value) &&
      (g0[e].value >= 0.0 ==> g4[e].value >= 0.0)
  {
    forall e | 0 <= e < |g0|
      ensures (g0[e].value < 0.0 || GhostIndex(Nx, Ny, Nz, e)) ==> g4[e].value == g0[e].value
      ensures g0[e].value >= 0.0 ==> g4[e].value >= 0.0
    {
      assert g1[e].value == g0[e].value;
      if g1[e].DoneFlag < 0 {
        assert g2[e] == g1[e];
        assert g3[e] == g2[e];
        assert g4[e] == g3[e];
      } else {
        assert g2[e].DoneFlag >= 0;
        assert g3[e].DoneFlag >= 0;
        assert g4[e].DoneFlag >= 0;
      }
    }
  }

  // ----------------------------------------------------------- the class

  class FastMarch3D {
    const Nx: nat
    const Ny: nat
    const Nz: nat
    const size: nat
    const h: real
    const hInv: real
    /** The strides of the index: dj = Nx+2 and dk = (Nx+2)*(Ny+2). */
    const dj: int
    const dk: int
    const NxInv: real
    const NyNxInv: real
    /** The square root of `FindPhi`. */
    const sqrt: real -> real
    const grid: array<FMContainer>
    const FMHeap: array<int>
    var heapSize: int
    /** The close list; `closeSize` is its length. */
    var ClosePoints: seq<int>

    ghost predicate Valid()
      reads this
    {
      1 <= Nx && 1 <= Ny && 1 <= Nz && size == Size3(Nx, Ny, Nz) && grid.Length == size && FMHeap.Length == size &&
      h > 0.0 && hInv == 1.0 / h && dj == Nx + 2 && dk == (Nx + 2) * (Ny + 2) &&
      NxInv == 1.0 / (Nx + 2) as real && NyNxInv == 1.0 / dk as real && IsSqrt(sqrt)
    }

    /** The grid, the heap and the close list sized for the padded (nx+2) x (ny+2) x (nz+2) grid. */
    constructor(nx: nat, ny: nat, nz: nat, hi: real, sqrt: real -> real)
      requires 1 <= nx && 1 <= ny && 1 <= nz && hi > 0.0 && IsSqrt(sqrt)
      ensures Valid() && Nx == nx && Ny == ny && Nz == nz && h == hi && heapSize == 0 && ClosePoints == []
      ensures size == (nx + 2) * (ny + 2) * (nz + 2)
      ensures fresh(grid) && fresh(FMHeap)
    {
      Nx, Ny, Nz, h, hInv := nx, ny, nz, hi, 1.0 / hi;
      Size3IsProduct(nx, ny, nz);
      size := (nx + 2) * (ny + 2) * (nz + 2);
      dj, dk := nx + 2, (nx + 2) * (ny + 2);
      NxInv, NyNxInv := 1.0 / (nx + 2) as real, 1.0 / ((nx + 2) * (ny + 2)) as real;
      this.sqrt := sqrt;
      FMHeap := new int[(nx + 2) * (ny + 2) * (nz + 2)];
      grid := new FMContainer[(nx + 2) * (ny + 2) * (nz + 2)](_ => Loaded(0.0));
      heapSize := 0;
      ClosePoints := [];
    }

    /** `Set(index, value)`: load the negated value; negative cells are fixed, the rest are open. */
    method Set(index: int, value: real)
      requires Valid() && 0 <= index < size
      modifies grid
      ensures grid[..] == old(grid[..])[index := Loaded(value)]
    {
      grid[index] := grid[index].(value := -value);
      grid[index] := grid[index].(HeapPosition := -1);
      if grid[index].value < 0.0 {
        grid[index] := grid[index].(DoneFlag := -1);
      } else {
        grid[index] := grid[index].(DoneFlag := 0);
      }
    }

    /**
     * `SetBoundary`: fix every ghost cell (flag -1) - the faces, then the
     * edges along z, y and x, then the eight corners; nothing else changes.
     */
    method SetBoundary()
      requires Valid()
      modifies grid
      ensures forall a, b, c {:trigger At(Nx, Ny, Nz, grid[..], a, b, c)} :: InGrid3(Nx, Ny, Nz, a, b, c) ==>
        At(Nx, Ny, Nz, grid[..], a, b, c) ==
          if IsGhost3(Nx, Ny, Nz, a, b, c) then Pinned(At(Nx, Ny, Nz, old(grid[..]), a, b, c)) else At(Nx, Ny, Nz, old(grid[..]), a, b, c)
    {
      ghost var g0 := grid[..];
      SideStart(Nx, Ny, Nz, g0, grid[..], FacesX);
      PinFaces(g0, FacesX);
      SideDone(Nx, Ny, Nz, g0, grid[..], FacesX, FacesY);
      PinFaces(g0, FacesY);
      SideDone(Nx, Ny, Nz, g0, grid[..], FacesY, FacesZ);
      PinFaces(g0, FacesZ);
      SideDone(Nx, Ny, Nz, g0, grid[..], FacesZ, EdgesK);
      PinEdges(g0, EdgesK);
      SideDone(Nx, Ny, Nz, g0, grid[..], EdgesK, EdgesJ);
      PinEdges(g0, EdgesJ);
      SideDone(Nx, Ny, Nz, g0, grid[..], EdgesJ, EdgesI);
      PinEdges(g0, EdgesI);
      PinCorners(g0);
    }

    /** One face loop of `SetBoundary`: both cells of every iteration (outer, inner). */
    method PinFaces(ghost g0: seq<FMContainer>, side: Side)
      requires Valid() && IsFace(side) && BoundaryState(Nx, Ny, Nz, g0, grid[..], side, 1, 1)
      modifies grid
      ensures BoundaryState(Nx, Ny, Nz, g0, grid[..], side, Outer(Nx, Ny, Nz, side) + 1, 1)
    {
      for o := 1 to Outer(Nx, Ny, Nz, side) + 1
        invariant BoundaryState(Nx, Ny, Nz, g0, grid[..], side, o, 1)
      {
        PinFaceRow(g0, side, o);
        RowDone(Nx, Ny, Nz, g0, grid[..], side, o);
      }
    }

    /** The inner loop of a face loop at outer iteration o. */
    method PinFaceRow(ghost g0: seq<FMContainer>, side: Side, o: int)
      requires Valid() && IsFace(side) && 1 <= o <= Outer(Nx, Ny, Nz, side)
      requires BoundaryState(Nx, Ny, Nz, g0, grid[..], side, o, 1)
      modifies grid
      ensures BoundaryState(Nx, Ny, Nz, g0, grid[..], side, o, Inner(Nx, Ny, Nz, side) + 1)
    {
      for n := 1 to Inner(Nx, Ny, Nz, side) + 1
        invariant BoundaryState(Nx, Ny, Nz, g0, grid[..], side, o, n)
      {
        ghost var s := grid[..];
        var (a0, b0, c0) := FaceCell(Nx, Ny, Nz, side, o, n, 0);
        var (a1, b1, c1) := FaceCell(Nx, Ny, Nz, side, o, n, 1);
        PinTwo(g0, a1, b1, c1, a0, b0, c0);
        FaceStep(Nx, Ny, Nz, g0, s, grid[..], side, o, n);
      }
    }

    /** One edge loop of `SetBoundary`: the four cells of every iteration. */
    method PinEdges(ghost g0: seq<FMContainer>, side: Side)
      requires Valid() && !IsFace(side) && BoundaryState(Nx, Ny, Nz, g0, grid[..], side, 1, 1)
      modifies grid
      ensures BoundaryState(Nx, Ny, Nz, g0, grid[..], side, Outer(Nx, Ny, Nz, side) + 1, 1)
    {
      for o := 1 to Outer(Nx, Ny, Nz, side) + 1
        invariant BoundaryState(Nx, Ny, Nz, g0, grid[..], side, o, 1)
      {
        PinEdgeRow(g0, side, o);
      }
    }

    /** Iteration o of an edge loop: its four cells, in the source's order. */
    method PinEdgeRow(ghost g0: seq<FMContainer>, side: Side, o: int)
      requires Valid() && !IsFace(side) && 1 <= o <= Outer(Nx, Ny, Nz, side)
      requires BoundaryState(Nx, Ny, Nz, g0, grid[..], side, o, 1)
      modifies grid
      ensures BoundaryState(Nx, Ny, Nz, g0, grid[..], side, o + 1, 1)
    {
      ghost var s := grid[..];
      var (a0, b0, c0) := EdgeCell(Nx, Ny, Nz, side, o, 0);
      var (a1, b1, c1) := EdgeCell(Nx, Ny, Nz, side, o, 1);
      var (a2, b2, c2) := EdgeCell(Nx, Ny, Nz, side, o, 2);
      var (a3, b3, c3) := EdgeCell(Nx, Ny, Nz, side, o, 3);
      PinTwo(g0, a1, b1, c1, a0, b0, c0);
      ghost var s1 := grid[..];
      PinTwo(g0, a3, b3, c3, a2, b2, c2);
      FixedAt(Nx, Ny, Nz, s1, grid[..], a0, b0, c0);
      FixedAt(Nx, Ny, Nz, s1, grid[..], a1, b1, c1);
      assert EdgeFixed(Nx, Ny, Nz, grid[..], side, o, 0) && EdgeFixed(Nx, Ny, Nz, grid[..], side, o, 1);
      assert EdgeFixed(Nx, Ny, Nz, grid[..], side, o, 2) && EdgeFixed(Nx, Ny, Nz, grid[..], side, o, 3);
      EdgeStep(Nx, Ny, Nz, g0, s, grid[..], side, o);
    }

    /** The eight corners of `SetBoundary`, in the source's order (`CornerList`). */
    method PinCorners(ghost g0: seq<FMContainer>)
      requires Valid() && BoundaryState(Nx, Ny, Nz, g0, grid[..], EdgesI, Outer(Nx, Ny, Nz, EdgesI) + 1, 1)
      modifies grid
      ensures forall a, b, c {:trigger At(Nx, Ny, Nz, grid[..], a, b, c)} :: InGrid3(Nx, Ny, Nz, a, b, c) ==>
        At(Nx, Ny, Nz, grid[..], a, b, c) ==
          if IsGhost3(Nx, Ny, Nz, a, b, c) then Pinned(At(Nx, Ny, Nz, g0, a, b, c)) else At(Nx, Ny, Nz, g0, a, b, c)
    {
      assert CornerState(Nx, Ny, Nz, g0, grid[..], 0);
      PinFirstCorners(g0);
      PinLastCorners(g0);
      CornersAll(Nx, Ny, Nz, g0, grid[..]);
    }

    /** Corners 0 to 3 of `CornerList`. */
    method PinFirstCorners(ghost g0: seq<FMContainer>)
      requires Valid() && CornerState(Nx, Ny, Nz, g0, grid[..], 0)
      modifies grid
      ensures CornerState(Nx, Ny, Nz, g0, grid[..], 4)
    {
      PinCorner(g0, 0, Nx + 1, 0, 0);
      PinCorner(g0, 1, 0, 0, 0);
      PinCorner(g0, 2, 0, 0, Nz + 1);
      PinCorner(g0, 3, 0, Ny + 1, 0);
    }

    /** Corners 4 to 7 of `CornerList`. */
    method PinLastCorners(ghost g0: seq<FMContainer>)
      requires Valid() && CornerState(Nx, Ny, Nz, g0, grid[..], 4)
      modifies grid
      ensures CornerState(Nx, Ny, Nz, g0, grid[..], 8)
    {
      PinCorner(g0, 4, Nx + 1, 0, Nz + 1);
      PinCorner(g0, 5, Nx + 1, Ny + 1, 0);
      PinCorner(g0, 6, Nx + 1, Ny + 1, Nz + 1);
      PinCorner(g0, 7, 0, Ny + 1, Nz + 1);
    }

    /** Fix corner (i, j, k), corner n of `CornerList`, the n before it being fixed already. */
    method PinCorner(ghost g0: seq<FMContainer>, ghost n: int, i: int, j: int, k: int)
      requires Valid() && 0 <= n < 8 && CornerList(Nx, Ny, Nz)[n] == (i, j, k) && CornerState(Nx, Ny, Nz, g0, grid[..], n)
      modifies grid
      ensures CornerState(Nx, Ny, Nz, g0, grid[..], n + 1)
    {
      ghost var s := grid[..];
      Pin(i, j, k);
      PinStep(Nx, Ny, Nz, g0, s, i, j, k);
      CornerStep(Nx, Ny, Nz, g0, s, grid[..], n);
    }

    /** Fix ghost cell (i0, j0, k0), then ghost cell (i1, j1, k1). */
    method PinTwo(ghost g0: seq<FMContainer>, i0: int, j0: int, k0: int, i1: int, j1: int, k1: int)
      requires Valid() && |g0| == size && PinnedSome(Nx, Ny, Nz, g0, grid[..])
      requires IsGhost3(Nx, Ny, Nz, i0, j0, k0) && IsGhost3(Nx, Ny, Nz, i1, j1, k1)
      modifies grid
      ensures PinnedSome(Nx, Ny, Nz, g0, grid[..]) && FixedStay(old(grid[..]), grid[..])
      ensures At(Nx, Ny, Nz, grid[..], i0, j0, k0).DoneFlag == -1 && At(Nx, Ny, Nz, grid[..], i1, j1, k1).DoneFlag == -1
    {
      ghost var s := grid[..];
      Pin(i0, j0, k0);
      PinStep(Nx, Ny, Nz, g0, s, i0, j0, k0);
      ghost var s1 := grid[..];
      Pin(i1, j1, k1);
      PinStep(Nx, Ny, Nz, g0, s1, i1, j1, k1);
    }

    /** Fix cell (i, j, k). */
    method Pin(i: int, j: int, k: int)
      requires Valid() && InGrid3(Nx, Ny, Nz, i, j, k)
      modifies grid
      ensures grid[..] == SetAt(Nx, Ny, Nz, old(grid[..]), i, j, k, Pinned(At(Nx, Ny, Nz, old(grid[..]), i, j, k)))
    {
      GI3Range(Nx, Ny, Nz, i, j, k);
      grid[GI3(Nx, Ny, i, j, k)] := grid[GI3(Nx, Ny, i, j, k)].(DoneFlag := -1);
    }

    /** `AddClose`: append an open cell to the close list; any other cell is skipped. */
    method AddClose(index: int)
      requires Valid() && 0 <= index < size
      modifies this
      ensures ClosePoints == old(ClosePoints) + if grid[index].DoneFlag == 0 then [index] else []
      ensures heapSize == old(heapSize)
    {
      if grid[index].DoneFlag == 0 {
        ClosePoints := ClosePoints + [index];
      }
    }

    /**
     * One crossing: cell (x, y, z), open or Done, sits next to the fixed cell
     * n on its line. It becomes Done, the cell e beyond it on the line is
     * offered to the close list, and its value drops to min(own, |h + n|).
     */
    method Cross(x: int, y: int, z: int, nx: int, ny: int, nz: int, ex: int, ey: int, ez: int)
      requires Valid() && InGrid3(Nx, Ny, Nz, x, y, z) && InGrid3(Nx, Ny, Nz, nx, ny, nz) && InGrid3(Nx, Ny, Nz, ex, ey, ez)
      requires (x, y, z) != (nx, ny, nz) && UnitStep(x - ex, y - ey, z - ez)
      requires 0 <= At(Nx, Ny, Nz, grid[..], x, y, z).DoneFlag <= 1 && At(Nx, Ny, Nz, grid[..], nx, ny, nz).DoneFlag < 0
      requires GhostsFixed(Nx, Ny, Nz, grid[..]) && Seeds(Nx, Ny, Nz, grid[..], ClosePoints)
      modifies this, grid
      ensures grid[..] == SetAt(Nx, Ny, Nz, old(grid[..]), x, y, z,
                                Crossed(At(Nx, Ny, Nz, old(grid[..]), x, y, z), At(Nx, Ny, Nz, old(grid[..]), nx, ny, nz), h))
      ensures Seeds(Nx, Ny, Nz, grid[..], ClosePoints)
      ensures |ClosePoints| >= |old(ClosePoints)| && ClosePoints[..|old(ClosePoints)|] == old(ClosePoints)
      ensures heapSize == old(heapSize)
    {
      ghost var s := grid[..];
      GI3Range(Nx, Ny, Nz, x, y, z);
      GI3Range(Nx, Ny, Nz, nx, ny, nz);
      GI3Range(Nx, Ny, Nz, ex, ey, ez);
      var c, n := GI3(Nx, Ny, x, y, z), GI3(Nx, Ny, nx, ny, nz);
      grid[c] := grid[c].(DoneFlag := 1);
      ghost var s1 := grid[..];
      assert FlagsGrow(s, s1);
      assert s1 == SetAt(Nx, Ny, Nz, s, x, y, z, s[c].(DoneFlag := 1));
      assert GhostsFixed(Nx, Ny, Nz, s1);
      SeedsGrow(Nx, Ny, Nz, s, s1, ClosePoints);
      SeedNextToDone(Nx, Ny, Nz, s1, ex, ey, ez, x - ex, y - ey, z - ez);
      AddClose(GI3(Nx, Ny, ex, ey, ez));
      grid[c] := grid[c].(value := Min(grid[c].value, Abs(h + grid[n].value)));
      assert FlagsGrow(s1, grid[..]);
      SeedsGrow(Nx, Ny, Nz, s1, grid[..], ClosePoints);
      assert grid[..] == SetAt(Nx, Ny, Nz, s, x, y, z, Crossed(s[c], s[n], h));
    }

    /**
     * One step of a sweep: examine the pair at positions k-1 and k of line
     * (l1, l2); `flag` carries the sign of the cell at k-1, and the XOR test
     * finds a pair whose signs differ.
     */
    method SweepPair(d: Direction, l1: int, l2: int, k: int, flag: int, ghost g0: seq<FMContainer>,
                     ghost cp0: seq<int>, ghost n0: int) returns (flag': int)
      requires 2 <= k <= Length(Nx, Ny, Nz, d) && LineState(d, l1, l2, k - 1, flag, g0, cp0, n0)
      requires FlagsInRange(g0) && GhostsFixed(Nx, Ny, Nz, g0)
      modifies this, grid
      ensures LineState(d, l1, l2, k, flag', g0, cp0, n0)
    {
      ghost var s := grid[..];
      var (ca, cb, cc) := OnLine(d, l1, l2, k);
      GI3Range(Nx, Ny, Nz, ca, cb, cc);
      var ci := GI3(Nx, Ny, ca, cb, cc);
      PairFlags(Nx, Ny, Nz, g0, s, h, d, l1, l2, k);
      XorSign(flag, grid[ci].DoneFlag);
      flag' := flag;
      if XorNegative(flag, grid[ci].DoneFlag) {
        flag' := grid[ci].DoneFlag;
        CrossPair(d, l1, l2, k, g0);
      } else {
        SweepStep(Nx, Ny, Nz, g0, s, h, d, l1, l2, k, grid[..]);
      }
      TracksAfter(Nx, Ny, Nz, g0, grid[..], h, d, l1, l2, k, flag');
    }

    /**
     * The crossing branch of a sweep step: of the pair at positions k-1 and
     * k, whose signs differ, the non-negative one is crossed with the other,
     * and the cell beyond it on the line is offered to the close list.
     */
    method CrossPair(d: Direction, l1: int, l2: int, k: int, ghost g0: seq<FMContainer>)
      requires Valid() && OnSweep(Nx, Ny, Nz, d, l1, l2) && 2 <= k <= Length(Nx, Ny, Nz, d) && |g0| == size
      requires FlagsInRange(g0) && GhostsFixed(Nx, Ny, Nz, g0)
      requires SweptUpTo(Nx, Ny, Nz, g0, grid[..], h, d, l1, l2, k - 1)
      requires var (ca, cb, cc) := OnLine(d, l1, l2, k);
               var (pa, pb, pc) := OnLine(d, l1, l2, k - 1);
               (At(Nx, Ny, Nz, grid[..], ca, cb, cc).DoneFlag < 0) != (At(Nx, Ny, Nz, grid[..], pa, pb, pc).DoneFlag < 0)
      requires Seeds(Nx, Ny, Nz, grid[..], ClosePoints)
      modifies this, grid
      ensures SweptUpTo(Nx, Ny, Nz, g0, grid[..], h, d, l1, l2, k)
      ensures Seeds(Nx, Ny, Nz, grid[..], ClosePoints)
      ensures |ClosePoints| >= |old(ClosePoints)| && ClosePoints[..|old(ClosePoints)|] == old(ClosePoints)
      ensures heapSize == old(heapSize)
    {
      ghost var s := grid[..];
      var (ca, cb, cc) := OnLine(d, l1, l2, k);
      var (pa, pb, pc) := OnLine(d, l1, l2, k - 1);
      GI3Range(Nx, Ny, Nz, ca, cb, cc);
      var ci := GI3(Nx, Ny, ca, cb, cc);
      PairFlags(Nx, Ny, Nz, g0, s, h, d, l1, l2, k);
      if grid[ci].DoneFlag >= 0 {
        var (na, nb, nc) := OnLine(d, l1, l2, k + 1);
        Cross(ca, cb, cc, pa, pb, pc, na, nb, nc);
        SweepStep(Nx, Ny, Nz, g0, s, h, d, l1, l2, k, grid[..]);
      } else {
        var (na, nb, nc) := OnLine(d, l1, l2, k - 2);
        Cross(pa, pb, pc, ca, cb, cc, na, nb, nc);
        SweepStep(Nx, Ny, Nz, g0, s, h, d, l1, l2, k, grid[..]);
      }
    }

    /** One line of an `Initialize` sweep (the innermost loop of each sweep). */
    method SweepLine(d: Direction, l1: int, l2: int, ghost g0: seq<FMContainer>, ghost cp0: seq<int>, ghost n0: int)
      requires OnSweep(Nx, Ny, Nz, d, l1, l2) && SweepState(d, l1, l2, g0, cp0, n0)
      requires FlagsInRange(g0) && GhostsFixed(Nx, Ny, Nz, g0)
      modifies this, grid
      ensures SweepState(d, l1, l2 + 1, g0, cp0, n0)
    {
      var flag := FirstFlag(d, l1, l2, g0, cp0, n0);
      var k := 1;
      while k < Length(Nx, Ny, Nz, d)
        invariant LineState(d, l1, l2, k, flag, g0, cp0, n0)
        decreases Length(Nx, Ny, Nz, d) - k
      {
        flag := SweepPair(d, l1, l2, k + 1, flag, g0, cp0, n0);
        k := k + 1;
      }
      LineDone(d, l1, l2, flag, g0, cp0, n0);
    }

    /** The flag a line sweep starts with: that of the line's first cell. */
    method FirstFlag(d: Direction, l1: int, l2: int, ghost g0: seq<FMContainer>, ghost cp0: seq<int>, ghost n0: int)
      returns (flag: int)
      requires OnSweep(Nx, Ny, Nz, d, l1, l2) && SweepState(d, l1, l2, g0, cp0, n0) && FlagsInRange(g0)
      ensures LineState(d, l1, l2, 1, flag, g0, cp0, n0)
    {
      var (fa, fb, fc) := OnLine(d, l1, l2, 1);
      GI3Range(Nx, Ny, Nz, fa, fb, fc);
      flag := grid[GI3(Nx, Ny, fa, fb, fc)].DoneFlag;
      SweepFirst(Nx, Ny, Nz, g0, grid[..], h, d, l1, l2);
    }

    /** A line swept to its end: the sweep moves on to the next line. */
    lemma LineDone(d: Direction, l1: int, l2: int, flag: int, g0: seq<FMContainer>, cp0: seq<int>, n0: int)
      requires LineState(d, l1, l2, Length(Nx, Ny, Nz, d), flag, g0, cp0, n0)
      ensures SweepState(d, l1, l2 + 1, g0, cp0, n0)
    {
      SweepNextLine(Nx, Ny, Nz, g0, grid[..], h, d, l1, l2);
    }

    /**
     * The state of a sweep of line (l1, l2) at position k: swept up to k,
     * with `flag` tracking the cell at k, the close list still made of close
     * points and extending `cp0`, and the heap size still `n0`.
     */
    ghost predicate LineState(d: Direction, l1: int, l2: int, k: int, flag: int, g0: seq<FMContainer>, cp0: seq<int>, n0: int)
      reads this, grid
    {
      Valid() && |g0| == size && OnSweep(Nx, Ny, Nz, d, l1, l2) && 1 <= k <= Length(Nx, Ny, Nz, d) &&
      SweptUpTo(Nx, Ny, Nz, g0, grid[..], h, d, l1, l2, k) && Tracks(Nx, Ny, Nz, grid[..], d, l1, l2, k, flag) &&
      Seeds(Nx, Ny, Nz, grid[..], ClosePoints) && |ClosePoints| >= |cp0| && ClosePoints[..|cp0|] == cp0 && heapSize == n0
    }

    /**
     * A sweep at outer line l1 of direction d has reached inner line l2: the
     * close list is still made of close points and extends `cp0`, and the
     * heap size is still `n0`.
     */
    ghost predicate SweepState(d: Direction, l1: int, l2: int, g0: seq<FMContainer>, cp0: seq<int>, n0: int)
      reads this, grid
    {
      Valid() && |g0| == size && SweptUpTo(Nx, Ny, Nz, g0, grid[..], h, d, l1, l2, 1) &&
      Seeds(Nx, Ny, Nz, grid[..], ClosePoints) && |ClosePoints| >= |cp0| && ClosePoints[..|cp0|] == cp0 && heapSize == n0
    }

    /** The inner loop of a sweep: every line (l1, l2) for the outer line l1. */
    method SweepPlane(d: Direction, l1: int, ghost g0: seq<FMContainer>)
      requires Valid() && 1 <= l1 <= Lines1(Nx, Ny, Nz, d) && |g0| == size
      requires FlagsInRange(g0) && GhostsFixed(Nx, Ny, Nz, g0)
      requires SweptUpTo(Nx, Ny, Nz, g0, grid[..], h, d, l1, 1, 1)
      requires Seeds(Nx, Ny, Nz, grid[..], ClosePoints)
      modifies this, grid
      ensures SweptUpTo(Nx, Ny, Nz, g0, grid[..], h, d, l1 + 1, 1, 1)
      ensures Seeds(Nx, Ny, Nz, grid[..], ClosePoints)
      ensures |ClosePoints| >= |old(ClosePoints)| && ClosePoints[..|old(ClosePoints)|] == old(ClosePoints)
      ensures heapSize == old(heapSize)
    {
      for l2 := 1 to Lines2(Nx, Ny, Nz, d) + 1
        invariant SweepState(d, l1, l2, g0, old(ClosePoints), old(heapSize))
      {
        SweepLine(d, l1, l2, g0, old(ClosePoints), old(heapSize));
      }
      SweepNextPlane(Nx, Ny, Nz, g0, grid[..], h, d, l1);
    }

    /** One whole sweep of `Initialize` in direction d. */
    method SweepAll(d: Direction)
      requires Valid() && FlagsInRange(grid[..]) && GhostsFixed(Nx, Ny, Nz, grid[..])
      requires Seeds(Nx, Ny, Nz, grid[..], ClosePoints)
      modifies this, grid
      ensures grid[..] == Swept(Nx, Ny, Nz, old(grid[..]), h, d)
      ensures Seeds(Nx, Ny, Nz, grid[..], ClosePoints)
      ensures |ClosePoints| >= |old(ClosePoints)| && ClosePoints[..|old(ClosePoints)|] == old(ClosePoints)
      ensures heapSize == old(heapSize)
    {
      ghost var g0 := grid[..];
      SweepStart(Nx, Ny, Nz, g0, h, d);
      for l1 := 1 to Lines1(Nx, Ny, Nz, d) + 1
        invariant SweepState(d, l1, 1, g0, old(ClosePoints), old(heapSize))
      {
        SweepPlane(d, l1, g0);
      }
      SweepDone(Nx, Ny, Nz, g0, grid[..], h, d);
    }

    /**
     * `Initialize`: sweep every z line, then every y line, then every x line,
     * marking Done each open cell that sits next to a fixed one on the line
     * (with value min(own, |h + neighbour|)) and listing the open cell beyond
     * it as close.
     */
    method Initialize()
      requires Valid() && FlagsInRange(grid[..]) && GhostsFixed(Nx, Ny, Nz, grid[..])
      requires Seeds(Nx, Ny, Nz, grid[..], ClosePoints)
      modifies this, grid
      ensures grid[..] == Initialized(Nx, Ny, Nz, old(grid[..]), h)
      ensures Seeds(Nx, Ny, Nz, grid[..], ClosePoints)
      ensures |ClosePoints| >= |old(ClosePoints)| && ClosePoints[..|old(ClosePoints)|] == old(ClosePoints)
      ensures heapSize == old(heapSize)
    {
      ghost var g0 := grid[..];
      SweepAll(ZLines);
      SweptKeeps(Nx, Ny, Nz, g0, h, ZLines);
      ghost var g1 := grid[..];
      SweepAll(YLines);
      SweptKeeps(Nx, Ny, Nz, g1, h, YLines);
      SweepAll(XLines);
    }

    /**
     * `FindPhi(index, x, y, z)` for open interior cell (x, y, z) next to a
     * Done cell: build the upwind stencil of its Done neighbours and, unless
     * the discriminant is negative (see `DiscriminantPositive`), store the
     * root of the upwind quadratic as its value, then add the cell to the
     * heap or, when it is already there, sift it up.
     */
    method FindPhi(index: int, x: int, y: int, z: int)
      requires Valid() && MarchInv(Nx, Ny, Nz, grid[..], FMHeap[..], heapSize) && NonNegative(grid[..])
      requires IsInterior3(Nx, Ny, Nz, x, y, z) && index == GI3(Nx, Ny, x, y, z) && 0 <= index < size && grid[index].DoneFlag == 0
      requires DoneNeighbour(Nx, Ny, Nz, grid[..], x, y, z)
      modifies this, grid, FMHeap
      ensures MarchInv(Nx, Ny, Nz, grid[..], FMHeap[..], heapSize) && NonNegative(grid[..])
      ensures ClosePoints == old(ClosePoints)
      ensures var s := Stencil3(Nx, Ny, Nz, old(grid[..]), hInv, x, y, z);
              var q := Quotient(s, h);
              (q < 0.0 ==> grid[..] == old(grid[..]) && FMHeap[..] == old(FMHeap[..]) && heapSize == old(heapSize)) &&
              (q >= 0.0 ==>
                s.a != 0 && grid[index].value == Root(s, sqrt(q)) && SolvesUpwind(s, h, grid[index].value) &&
                InHeap(grid[..], FMHeap[..], heapSize, index) &&
                heapSize == old(heapSize) + (if old(grid[index].HeapPosition) == -1 then 1 else 0))
      ensures Settled(old(grid[..]), grid[..]) && HeapKeeps(old(grid[..]), old(FMHeap[..]), old(heapSize), grid[..], FMHeap[..], heapSize)
      ensures forall c {:trigger grid[c]} :: 0 <= c < size && c != index ==> grid[c].value == old(grid[c].value)
      ensures old(Ordered(grid[..], FMHeap[..], heapSize)) &&
              (old(grid[index].HeapPosition) == -1 || grid[index].value <= old(grid[index].value)) ==>
              Ordered(grid[..], FMHeap[..], heapSize)
    {
      var solved, phi := SolvePhi(x, y, z);
      if solved {
        StorePhi(index, phi);
      }
    }

    /**
     * The arithmetic of `FindPhi` for interior cell (x, y, z) next to a Done
     * cell: the upwind stencil of its Done neighbours (`CheckFront`,
     * `CheckBehind`, `CheckMax3`, `CheckMax2`) and, when the discriminant is
     * not negative, the larger root of the upwind quadratic. The root solves
     * the quadratic, is no smaller than the neighbour values it was built
     * from, and is non-negative.
     */
    method SolvePhi(x: int, y: int, z: int) returns (solved: bool, phi: real)
      requires Valid() && NonNegative(grid[..]) && IsInterior3(Nx, Ny, Nz, x, y, z) && DoneNeighbour(Nx, Ny, Nz, grid[..], x, y, z)
      ensures var s := Stencil3(Nx, Ny, Nz, grid[..], hInv, x, y, z);
              var q := Quotient(s, h);
              (solved <==> q >= 0.0) && (solved ==> s.a != 0 && phi == Root(s, sqrt(q)) && SolvesUpwind(s, h, phi))
    {
      GI3Range(Nx, Ny, Nz, x + 1, y, z);
      GI3Range(Nx, Ny, Nz, x - 1, y, z);
      GI3Range(Nx, Ny, Nz, x, y + 1, z);
      GI3Range(Nx, Ny, Nz, x, y - 1, z);
      GI3Range(Nx, Ny, Nz, x, y, z + 1);
      GI3Range(Nx, Ny, Nz, x, y, z - 1);
      var xp, xm := grid[GI3(Nx, Ny, x + 1, y, z)], grid[GI3(Nx, Ny, x - 1, y, z)];
      var yp, ym := grid[GI3(Nx, Ny, x, y + 1, z)], grid[GI3(Nx, Ny, x, y - 1, z)];
      var zp, zm := grid[GI3(Nx, Ny, x, y, z + 1)], grid[GI3(Nx, Ny, x, y, z - 1)];
      var s := Select3(xp, xm, yp, ym, zp, zm, hInv);
      assert s == Stencil3(Nx, Ny, Nz, grid[..], hInv, x, y, z);
      assert AnyDone(xp, xm, yp, ym, zp, zm) && AllDoneNonNegative(xp, xm, yp, ym, zp, zm);
      var quotient := Quotient(s, h);
      if quotient < 0.0 {
        // The source only logs here.
        solved, phi := false, 0.0;
        SolveOutcomeWith(xp, xm, yp, ym, zp, zm, h, hInv, s, quotient, 0.0, solved, phi);
      } else {
        Select3Active(xp, xm, yp, ym, zp, zm, h, hInv);
        solved, phi := true, Root(s, sqrt(quotient));
        var r := SqrtOf(sqrt, quotient);
        SolveOutcomeWith(xp, xm, yp, ym, zp, zm, h, hInv, s, quotient, r, solved, phi);
      }
    }

    /**
     * The last step of `FindPhi`: store the new value of open cell `index`,
     * then `AddToHeap` when it has no back-index, `UpdateHeap` otherwise.
     */
    method StorePhi(index: int, phi: real)
      requires Valid() && MarchInv(Nx, Ny, Nz, grid[..], FMHeap[..], heapSize) && NonNegative(grid[..])
      requires 0 <= index < size && grid[index].DoneFlag == 0 && phi >= 0.0
      modifies this, grid, FMHeap
      ensures MarchInv(Nx, Ny, Nz, grid[..], FMHeap[..], heapSize) && NonNegative(grid[..])
      ensures ClosePoints == old(ClosePoints)
      ensures grid[index].value == phi && InHeap(grid[..], FMHeap[..], heapSize, index)
      ensures heapSize == old(heapSize) + (if old(grid[index].HeapPosition) == -1 then 1 else 0)
      ensures Settled(old(grid[..]), grid[..]) && HeapKeeps(old(grid[..]), old(FMHeap[..]), old(heapSize), grid[..], FMHeap[..], heapSize)
      ensures forall c {:trigger grid[c]} :: 0 <= c < size && c != index ==> grid[c].value == old(grid[c].value)
      ensures old(Ordered(grid[..], FMHeap[..], heapSize)) &&
              (old(grid[index].HeapPosition) == -1 || phi <= old(grid[index].value)) ==>
              Ordered(grid[..], FMHeap[..], heapSize)
    {
      ghost var g0, h0, n0 := grid[..], FMHeap[..], heapSize;
      grid[index] := grid[index].(value := phi);
      ghost var g1 := grid[..];
      ValueWritten(Nx, Ny, Nz, g0, h0, n0, index, phi);
      if grid[index].HeapPosition == -1 {
        OrderedOutside(g0, h0, n0, index, phi);
        HeapRoom(g1, h0, n0, index);
        heapSize := AddToHeap(grid, FMHeap, heapSize, index);
      } else {
        assert g1[index := g1[index].(value := g0[index].value)] == g0;
        UpdateHeap(grid, FMHeap, heapSize, index, g0[index].value);
      }
      RebuiltInv(Nx, Ny, Nz, g1, h0, n0, grid[..], FMHeap[..], heapSize, index);
      SettledTrans(g0, h0, n0, g1, h0, n0, grid[..], FMHeap[..], heapSize);
    }

    /**
     * The body of the `InitHeap` loop for one close point: an open close
     * point outside the heap is evaluated by `FindPhi` (`GIJK` recovers its
     * coordinates), which puts it in the heap.
     */
    method InitPoint(e: int)
      requires Valid() && MarchInv(Nx, Ny, Nz, grid[..], FMHeap[..], heapSize) && NonNegative(grid[..])
      requires Seeded(Nx, Ny, Nz, grid[..], e) && Ordered(grid[..], FMHeap[..], heapSize)
      modifies this, grid, FMHeap
      ensures MarchInv(Nx, Ny, Nz, grid[..], FMHeap[..], heapSize) && NonNegative(grid[..])
      ensures Ordered(grid[..], FMHeap[..], heapSize)
      ensures ClosePoints == old(ClosePoints)
      ensures Settled(old(grid[..]), grid[..]) && HeapKeeps(old(grid[..]), old(FMHeap[..]), old(heapSize), grid[..], FMHeap[..], heapSize)
      ensures grid[e].DoneFlag == 0 ==> InHeap(grid[..], FMHeap[..], heapSize, e)
    {
      if grid[e].HeapPosition == -1 && grid[e].DoneFlag == 0 {
        var (x, y, z) := GIJK(Nx, Ny, e);
        GIInvertsGIJK(Nx, Ny, Nz, e);
        DiscriminantPositive(Nx, Ny, Nz, grid[..], h, hInv, x, y, z);
        FindPhi(e, x, y, z);
      }
    }

    /**
     * `InitHeap`: run `FindPhi` on every close point that is open and not
     * yet in the heap. Afterwards every open close point is in the heap, the
     * heap is ordered, and no flag and no fixed or Done cell has changed.
     */
    method InitHeap()
      requires Valid() && MarchInv(Nx, Ny, Nz, grid[..], FMHeap[..], heapSize) && NonNegative(grid[..])
      requires Seeds(Nx, Ny, Nz, grid[..], ClosePoints) && Ordered(grid[..], FMHeap[..], heapSize)
      modifies this, grid, FMHeap
      ensures MarchInv(Nx, Ny, Nz, grid[..], FMHeap[..], heapSize) && NonNegative(grid[..])
      ensures Ordered(grid[..], FMHeap[..], heapSize)
      ensures ClosePoints == old(ClosePoints)
      ensures forall c {:trigger grid[c]} :: 0 <= c < size ==>
        grid[c].DoneFlag == old(grid[c].DoneFlag) && (old(grid[c].DoneFlag) != 0 ==> grid[c] == old(grid[c]))
      ensures forall p {:trigger ClosePoints[p]} :: 0 <= p < |ClosePoints| && grid[ClosePoints[p]].DoneFlag == 0 ==>
        InHeap(grid[..], FMHeap[..], heapSize, ClosePoints[p])
    {
      ghost var g0 := grid[..];
      for i := 0 to |ClosePoints|
        invariant MarchInv(Nx, Ny, Nz, grid[..], FMHeap[..], heapSize) && NonNegative(grid[..])
        invariant Ordered(grid[..], FMHeap[..], heapSize)
        invariant ClosePoints == old(ClosePoints)
        invariant forall c {:trigger grid[c]} :: 0 <= c < size ==>
          grid[c].DoneFlag == g0[c].DoneFlag && (g0[c].DoneFlag != 0 ==> grid[c] == g0[c])
        invariant forall p {:trigger ClosePoints[p]} :: 0 <= p < i && grid[ClosePoints[p]].DoneFlag == 0 ==>
          InHeap(grid[..], FMHeap[..], heapSize, ClosePoints[p])
      {
        ghost var gi := grid[..];
        ghost var hi, ni := FMHeap[..], heapSize;
        assert Seeds(Nx, Ny, Nz, g0, ClosePoints);
        SeedsSameFlags(Nx, Ny, Nz, g0, gi, ClosePoints);
        InitPoint(ClosePoints[i]);
        forall p | 0 <= p < i + 1 && grid[ClosePoints[p]].DoneFlag == 0
          ensures InHeap(grid[..], FMHeap[..], heapSize, ClosePoints[p])
        {
          if p < i {
            assert InHeap(gi, hi, ni, ClosePoints[p]);
          }
        }
      }
    }

    /**
     * One neighbour step of `March`: neighbour (a, b, c) of Done interior
     * cell (x, y, z) is re-evaluated by `FindPhi` when it is open. Afterwards
     * it is in the heap if it is open, and its new value solves the upwind
     * quadratic of its old neighbourhood; fixed and Done cells and all flags
     * are unchanged, and the heap keeps every cell it held.
     */
    method MarchNeighbour(x: int, y: int, z: int, a: int, b: int, c: int)
      requires Valid() && MarchInv(Nx, Ny, Nz, grid[..], FMHeap[..], heapSize) && NonNegative(grid[..])
      requires IsInterior3(Nx, Ny, Nz, x, y, z) && At(Nx, Ny, Nz, grid[..], x, y, z).DoneFlag == 1
      requires UnitStep(a - x, b - y, c - z)
      modifies this, grid, FMHeap
      ensures MarchInv(Nx, Ny, Nz, grid[..], FMHeap[..], heapSize) && NonNegative(grid[..])
      ensures ClosePoints == old(ClosePoints)
      ensures Queued(grid[..], FMHeap[..], heapSize, GI3(Nx, Ny, a, b, c))
      ensures old(grid[GI3(Nx, Ny, a, b, c)].DoneFlag) == 0 ==>
        IsInterior3(Nx, Ny, Nz, a, b, c) &&
        SolvesUpwind(Stencil3(Nx, Ny, Nz, old(grid[..]), hInv, a, b, c), h, grid[GI3(Nx, Ny, a, b, c)].value)
      ensures Settled(old(grid[..]), grid[..]) && HeapKeeps(old(grid[..]), old(FMHeap[..]), old(heapSize), grid[..], FMHeap[..], heapSize)
    {
      GI3Range(Nx, Ny, Nz, a, b, c);
      var e := GI3(Nx, Ny, a, b, c);
      if grid[e].DoneFlag == 0 {
        assert At(Nx, Ny, Nz, grid[..], a, b, c) == grid[e];
        assert !IsGhost3(Nx, Ny, Nz, a, b, c);
        assert DoneNeighbour(Nx, Ny, Nz, grid[..], a, b, c);
        DiscriminantPositive(Nx, Ny, Nz, grid[..], h, hInv, a, b, c);
        FindPhi(e, a, b, c);
      }
    }

    /**
     * The body of the `March` loop for popped cell (x, y, z): its six
     * neighbours in the source's order (x-1, x+1, y-1, y+1, z-1, z+1).
     * Afterwards every open one of them is in the heap.
     */
    method MarchFrom(x: int, y: int, z: int)
      requires Valid() && MarchInv(Nx, Ny, Nz, grid[..], FMHeap[..], heapSize) && NonNegative(grid[..])
      requires IsInterior3(Nx, Ny, Nz, x, y, z) && At(Nx, Ny, Nz, grid[..], x, y, z).DoneFlag == 1
      modifies this, grid, FMHeap
      ensures MarchInv(Nx, Ny, Nz, grid[..], FMHeap[..], heapSize) && NonNegative(grid[..])
      ensures ClosePoints == old(ClosePoints)
      ensures Queued(grid[..], FMHeap[..], heapSize, GI3(Nx, Ny, x - 1, y, z)) &&
              Queued(grid[..], FMHeap[..], heapSize, GI3(Nx, Ny, x + 1, y, z)) &&
              Queued(grid[..], FMHeap[..], heapSize, GI3(Nx, Ny, x, y - 1, z)) &&
              Queued(grid[..], FMHeap[..], heapSize, GI3(Nx, Ny, x, y + 1, z)) &&
              Queued(grid[..], FMHeap[..], heapSize, GI3(Nx, Ny, x, y, z - 1)) &&
              Queued(grid[..], FMHeap[..], heapSize, GI3(Nx, Ny, x, y, z + 1))
      ensures Settled(old(grid[..]), grid[..]) && HeapKeeps(old(grid[..]), old(FMHeap[..]), old(heapSize), grid[..], FMHeap[..], heapSize)
    {
      GI3Range(Nx, Ny, Nz, x, y, z);
      ghost var g0, h0, n0 := grid[..], FMHeap[..], heapSize;
      MarchAxis(x, y, z, 1, 0, 0);
      ghost var g1, h1, n1 := grid[..], FMHeap[..], heapSize;
      assert At(Nx, Ny, Nz, g1, x, y, z) == g1[GI3(Nx, Ny, x, y, z)];
      MarchYZ(x, y, z);
      QueuedSettled(g1, h1, n1, grid[..], FMHeap[..], heapSize, GI3(Nx, Ny, x - 1, y, z));
      QueuedSettled(g1, h1, n1, grid[..], FMHeap[..], heapSize, GI3(Nx, Ny, x + 1, y, z));
      SettledTrans(g0, h0, n0, g1, h1, n1, grid[..], FMHeap[..], heapSize);
    }

    /** The y and z axes of `MarchFrom`, in the source's order. */
    method MarchYZ(x: int, y: int, z: int)
      requires Valid() && MarchInv(Nx, Ny, Nz, grid[..], FMHeap[..], heapSize) && NonNegative(grid[..])
      requires IsInterior3(Nx, Ny, Nz, x, y, z) && At(Nx, Ny, Nz, grid[..], x, y, z).DoneFlag == 1
      modifies this, grid, FMHeap
      ensures MarchInv(Nx, Ny, Nz, grid[..], FMHeap[..], heapSize) && NonNegative(grid[..])
      ensures ClosePoints == old(ClosePoints)
      ensures Queued(grid[..], FMHeap[..], heapSize, GI3(Nx, Ny, x, y - 1, z)) &&
              Queued(grid[..], FMHeap[..], heapSize, GI3(Nx, Ny, x, y + 1, z)) &&
              Queued(grid[..], FMHeap[..], heapSize, GI3(Nx, Ny, x, y, z - 1)) &&
              Queued(grid[..], FMHeap[..], heapSize, GI3(Nx, Ny, x, y, z + 1))
      ensures Settled(old(grid[..]), grid[..]) && HeapKeeps(old(grid[..]), old(FMHeap[..]), old(heapSize), grid[..], FMHeap[..], heapSize)
    {
      GI3Range(Nx, Ny, Nz, x, y, z);
      ghost var g0, h0, n0 := grid[..], FMHeap[..], heapSize;
      MarchAxis(x, y, z, 0, 1, 0);
      ghost var g1, h1, n1 := grid[..], FMHeap[..], heapSize;
      assert At(Nx, Ny, Nz, g1, x, y, z) == g1[GI3(Nx, Ny, x, y, z)];
      MarchAxis(x, y, z, 0, 0, 1);
      QueuedSettled(g1, h1, n1, grid[..], FMHeap[..], heapSize, GI3(Nx, Ny, x, y - 1, z));
      QueuedSettled(g1, h1, n1, grid[..], FMHeap[..], heapSize, GI3(Nx, Ny, x, y + 1, z));
      SettledTrans(g0, h0, n0, g1, h1, n1, grid[..], FMHeap[..], heapSize);
    }

    /** One axis of `MarchFrom`: the neighbour (x - dx, y - dy, z - dz), then (x + dx, y + dy, z + dz). */
    method MarchAxis(x: int, y: int, z: int, dx: int, dy: int, dz: int)
      requires Valid() && MarchInv(Nx, Ny, Nz, grid[..], FMHeap[..], heapSize) && NonNegative(grid[..])
      requires IsInterior3(Nx, Ny, Nz, x, y, z) && At(Nx, Ny, Nz, grid[..], x, y, z).DoneFlag == 1
      requires UnitStep(dx, dy, dz) && dx >= 0 && dy >= 0 && dz >= 0
      modifies this, grid, FMHeap
      ensures MarchInv(Nx, Ny, Nz, grid[..], FMHeap[..], heapSize) && NonNegative(grid[..])
      ensures ClosePoints == old(ClosePoints)
      ensures Queued(grid[..], FMHeap[..], heapSize, GI3(Nx, Ny, x - dx, y - dy, z - dz)) &&
              Queued(grid[..], FMHeap[..], heapSize, GI3(Nx, Ny, x + dx, y + dy, z + dz))
      ensures Settled(old(grid[..]), grid[..]) && HeapKeeps(old(grid[..]), old(FMHeap[..]), old(heapSize), grid[..], FMHeap[..], heapSize)
    {
      GI3Range(Nx, Ny, Nz, x, y, z);
      ghost var g0, h0, n0 := grid[..], FMHeap[..], heapSize;
      MarchNeighbour(x, y, z, x - dx, y - dy, z - dz);
      ghost var g1, h1, n1 := grid[..], FMHeap[..], heapSize;
      assert At(Nx, Ny, Nz, g1, x, y, z) == g1[GI3(Nx, Ny, x, y, z)];
      MarchNeighbour(x, y, z, x + dx, y + dy, z + dz);
      QueuedSettled(g1, h1, n1, grid[..], FMHeap[..], heapSize, GI3(Nx, Ny, x - dx, y - dy, z - dz));
      SettledTrans(g0, h0, n0, g1, h1, n1, grid[..], FMHeap[..], heapSize);
    }

    /**
     * `PopHeap` on the march state: -1 on an empty heap, otherwise the
     * former root, now Done, an interior cell, with one open cell fewer.
     */
    method Pop() returns (index: int)
      requires Valid() && MarchInv(Nx, Ny, Nz, grid[..], FMHeap[..], heapSize) && NonNegative(grid[..])
      modifies this, grid, FMHeap
      ensures MarchInv(Nx, Ny, Nz, grid[..], FMHeap[..], heapSize) && NonNegative(grid[..])
      ensures ClosePoints == old(ClosePoints)
      ensures index == -1 <==> old(heapSize) == 0
      ensures index == -1 ==> heapSize == 0 && grid[..] == old(grid[..])
      ensures index != -1 ==>
        0 <= index < size && index == old(FMHeap[0]) &&
        IsInterior3(Nx, Ny, Nz, I3(Nx, index), J3(Nx, Ny, index), K3(Nx, Ny, index)) &&
        old(grid[index].DoneFlag) == 0 && grid[index].DoneFlag == 1 && heapSize == old(heapSize) - 1 &&
        |OpenCells(grid[..])| == |OpenCells(old(grid[..]))| - 1
      ensures Kept(old(grid[..]), grid[..]) && FlagsGrow(old(grid[..]), grid[..])
    {
      ghost var g, hp, n := grid[..], FMHeap[..], heapSize;
      var newSize;
      index, newSize := PopHeap(grid, FMHeap, heapSize);
      heapSize := newSize;
      if index != -1 {
        assert hp[0] == index;
        PoppedInv(Nx, Ny, Nz, g, hp, n, grid[..], FMHeap[..], heapSize, index);
        Coords3(Nx, Ny, Nz, index);
        assert At(Nx, Ny, Nz, g, I3(Nx, index), J3(Nx, Ny, index), K3(Nx, Ny, index)) == g[index];
        OpenCellsShrink(g, grid[..], index);
        assert forall c {:trigger grid[c]} :: 0 <= c < size && g[c].DoneFlag != 0 ==> !InHeap(g, hp, n, c);
      }
    }

    /**
     * `March`: pop cells in heap order and re-evaluate their open
     * neighbours, until the heap is empty (the ghost result is -1) or a
     * popped value exceeds `FASTMARCH_LIMIT` (the ghost result is that cell,
     * now Done). Flags only grow and fixed and Done cells are never touched.
     */
    method March() returns (ghost last: int)
      requires Valid() && MarchInv(Nx, Ny, Nz, grid[..], FMHeap[..], heapSize) && NonNegative(grid[..])
      modifies this, grid, FMHeap
      ensures MarchInv(Nx, Ny, Nz, grid[..], FMHeap[..], heapSize) && NonNegative(grid[..])
      ensures ClosePoints == old(ClosePoints)
      ensures Kept(old(grid[..]), grid[..]) && FlagsGrow(old(grid[..]), grid[..])
      ensures last == -1 ==> heapSize == 0
      ensures last != -1 ==> 0 <= last < size && grid[last].DoneFlag == 1 && grid[last].value > FASTMARCH_LIMIT
    {
      ghost var g0 := grid[..];
      var index := Pop();
      while index != -1
        invariant Valid() && MarchInv(Nx, Ny, Nz, grid[..], FMHeap[..], heapSize) && NonNegative(grid[..])
        invariant ClosePoints == old(ClosePoints)
        invariant index != -1 ==>
          0 <= index < size && IsInterior3(Nx, Ny, Nz, I3(Nx, index), J3(Nx, Ny, index), K3(Nx, Ny, index)) &&
          grid[index].DoneFlag == 1
        invariant index == -1 ==> heapSize == 0
        invariant Kept(g0, grid[..]) && FlagsGrow(g0, grid[..])
        decreases |OpenCells(grid[..])| + (if index == -1 then 0 else 1)
      {
        if grid[index].value > FASTMARCH_LIMIT {
          return index;
        }
        var (x, y, z) := GIJK(Nx, Ny, index);
        GIInvertsGIJK(Nx, Ny, Nz, index);
        assert At(Nx, Ny, Nz, grid[..], x, y, z) == grid[index];
        ghost var g1 := grid[..];
        MarchFrom(x, y, z);
        ghost var g2 := grid[..];
        OpenCellsSame(g1, g2);
        KeptGrowTrans(g0, g1, g2);
        index := Pop();
        KeptGrowTrans(g0, g2, grid[..]);
      }
      return -1;
    }

    /**
     * `ReinitHalf`: empty the heap and the close list, fix the ghost cells,
     * find the crossings, fill the heap and march. Cells that were fixed
     * (negative) and ghost cells keep their values; every other cell ends
     * with a non-negative value.
     */
    method ReinitHalf()
      requires Valid() && LoadedForm(grid[..])
      modifies this, grid, FMHeap
      ensures forall e {:trigger grid[e]} :: 0 <= e < size ==>
        ((old(grid[e].value) < 0.0 || GhostIndex(Nx, Ny, Nz, e)) ==> grid[e].value == old(grid[e].value)) &&
        (old(grid[e].value) >= 0.0 ==> grid[e].value >= 0.0)
    {
      heapSize := 0;
      ClosePoints := [];
      ghost var g0 := grid[..];
      SetBoundary();
      ghost var g1 := grid[..];
      BoundaryLoaded(Nx, Ny, Nz, g0, g1);
      Initialize();
      ghost var g2 := grid[..];
      InitializedKeeps(Nx, Ny, Nz, g1, h);
      EmptyHeapInv(Nx, Ny, Nz, g2, FMHeap[..]);
      InitHeap();
      ghost var g3 := grid[..];
      ghost var last := March();
      HalfKeeps(Nx, Ny, Nz, g0, g1, g2, g3, grid[..]);
    }

    /**
     * `Reinitialize(lset)`: load every cell of `lset` with `Set` (so the
     * negative side of the level set is open and is marched first), march,
     * reload every cell with `Set` of its value, march the other side, and
     * copy the values back into `lset`. With v the value of a cell of `lset`
     * before the call and `mid` the values between the halves: a cell with
     * v > 0 ends non-negative; a cell with v <= 0 has a non-negative `mid`
     * and, when that is positive, ends as its negation; a ghost cell ends as v.
     */
    method Reinitialize(lset: Grid3D) returns (ghost mid: seq<real>)
      requires Valid() && lset.Valid() && lset.Nx == Nx && lset.Ny == Ny && lset.Nz == Nz
      modifies this, grid, FMHeap, lset.grid
      ensures |mid| == size
      ensures forall e {:trigger lset.grid[e]} :: 0 <= e < size ==>
        (old(lset.grid[e]) > 0.0 ==> lset.grid[e] >= 0.0) &&
        (old(lset.grid[e]) <= 0.0 ==> mid[e] >= 0.0 && (mid[e] > 0.0 ==> lset.grid[e] == -mid[e])) &&
        (GhostIndex(Nx, Ny, Nz, e) ==> lset.grid[e] == old(lset.grid[e]))
    {
      ghost var v := lset.grid[..];
      for i := 0 to size
        invariant lset.grid[..] == v
        invariant forall c {:trigger grid[c]} :: 0 <= c < i ==> grid[c] == Loaded(v[c])
      {
        Set(i, lset.grid[i]);
      }
      assert LoadedForm(grid[..]);
      ghost var g0 := grid[..];
      ReinitHalf();
      mid := seq(size, c requires 0 <= c < size reads grid => grid[c].value);
      ghost var g1 := grid[..];
      for i := 0 to size
        invariant lset.grid[..] == v
        invariant forall c {:trigger grid[c]} :: 0 <= c < size ==> grid[c] == if c < i then Loaded(mid[c]) else g1[c]
      {
        Set(i, grid[i].value);
      }
      assert LoadedForm(grid[..]);
      ghost var g2 := grid[..];
      ReinitHalf();
      ghost var g3 := grid[..];
      for i := 0 to size
        invariant grid[..] == g3
        invariant forall c {:trigger lset.grid[c]} :: 0 <= c < size ==> lset.grid[c] == if c < i then g3[c].value else v[c]
      {
        lset.grid[i] := grid[i].value;
      }
      forall e | 0 <= e < size
        ensures old(lset.grid[e]) > 0.0 ==> lset.grid[e] >= 0.0
        ensures old(lset.grid[e]) <= 0.0 ==> mid[e] >= 0.0 && (mid[e] > 0.0 ==> lset.grid[e] == -mid[e])
        ensures GhostIndex(Nx, Ny, Nz, e) ==> lset.grid[e] == old(lset.grid[e])
      {
        assert g0[e] == Loaded(v[e]);
        assert g1[e].value == mid[e];
        assert g2[e] == Loaded(mid[e]);
        assert lset.grid[e] == g3[e].value;
      }
    }
  }
}
