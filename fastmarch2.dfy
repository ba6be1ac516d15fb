/**
 * The 2D Fast Marching reinitializer (`FastMarch2D`). It keeps its own grid
 * of `FMContainer` cells, indexed like the level-set grid (GI(i, j) =
 * i + (Nx+2)*j over the padded (Nx+2) x (Ny+2) grid), the heap array
 * `FMHeap`, and the list `ClosePoints` of the cells next to the interface
 * that seed the heap.
 *
 * `Reinitialize` runs `ReinitHalf` twice: once on the values as loaded (the
 * negated level set, so the negative side is marched first), then, after
 * `Set` has negated every cell again, for the other side. Each half fixes
 * the ghost border (`SetBoundary`), marks the cells at the interface Done
 * (`Initialize`), seeds the heap from `ClosePoints` (`InitHeap`) and then
 * pops cells in value order, recomputing their open neighbours (`FastMarch`).
 *
 * The square root of `FindPhi` is the function `sqrt` the object is built
 * with; the object's invariant requires it to be a square root (`IsSqrt`).
 */
module FastMarch2 {
  import opened Numerics
  import opened Grid2
  import opened MarchHeap
  import opened Eikonal

  // --------------------------------------------------------- cell access

  /** The cell (i, j) of a cell sequence. */
  function At(Nx: nat, Ny: nat, g: seq<FMContainer>, i: int, j: int): FMContainer
    requires |g| == Size(Nx, Ny) && InGrid(Nx, Ny, i, j)
  {
    GIRange(Nx, Ny, i, j);
    g[GI(Nx, i, j)]
  }

  /** The cell sequence with cell (i, j) replaced by v; no other cell changes. */
  function SetAt(Nx: nat, Ny: nat, g: seq<FMContainer>, i: int, j: int, v: FMContainer): (r: seq<FMContainer>)
    requires |g| == Size(Nx, Ny) && InGrid(Nx, Ny, i, j)
    ensures |r| == |g|
    ensures forall a, b {:trigger At(Nx, Ny, r, a, b)} :: InGrid(Nx, Ny, a, b) ==>
      At(Nx, Ny, r, a, b) == if a == i && b == j then v else At(Nx, Ny, g, a, b)
  {
    GIRange(Nx, Ny, i, j);
    GIFacts(Nx, Ny);
    g[GI(Nx, i, j) := v]
  }

  /** Two cell sequences of the grid's size with the same cells are equal. */
  lemma SameCells(Nx: nat, Ny: nat, a: seq<FMContainer>, b: seq<FMContainer>)
    requires |a| == Size(Nx, Ny) && |b| == Size(Nx, Ny)
    requires forall i, j {:trigger At(Nx, Ny, a, i, j)} :: InGrid(Nx, Ny, i, j) ==> At(Nx, Ny, a, i, j) == At(Nx, Ny, b, i, j)
    ensures a == b
  {
    forall k | 0 <= k < |a|
      ensures a[k] == b[k]
    {
      ColRowRange(Nx, Ny, k);
      assert At(Nx, Ny, a, Col(Nx, k), Row(Nx, k)) == At(Nx, Ny, b, Col(Nx, k), Row(Nx, k));
    }
  }

  /**
   * `GIJ`: column and row of a linear index, computed as the source does,
   * with `Mod` and a truncated product by the reciprocal 1/(Nx+2).
   */
  function GIJ(Nx: nat, NxInv: real, index: int): (int, int)
  {
    (Mod(index, Nx + 2, NxInv), Trunc(index as real * NxInv))
  }

  /** With the exact reciprocal, `GIJ` inverts `GI` on the padded grid. */
  lemma GIJInvertsGI(Nx: nat, Ny: nat, NxInv: real, i: int, j: int)
    requires NxInv == 1.0 / (Nx + 2) as real && InGrid(Nx, Ny, i, j)
    ensures GIJ(Nx, NxInv, GI(Nx, i, j)) == (i, j)
  {
    var k := GI(Nx, i, j);
    GIRange(Nx, Ny, i, j);
    ColRowAreModDiv(Nx, k);
    ModIsRemainder(k, Nx + 2, NxInv);
    TruncIsQuotient(k, Nx + 2, NxInv);
    GIJOf(Nx, NxInv, k, i, j);
  }

  /** `GIJ` from its two components. */
  lemma GIJOf(Nx: nat, NxInv: real, k: int, i: int, j: int)
    requires Mod(k, Nx + 2, NxInv) == i && Trunc(k as real * NxInv) == j
    ensures GIJ(Nx, NxInv, k) == (i, j)
  {
  }

  // ------------------------------------------------------- SetBoundary

  /** The ghost cells that `SetBoundary` has fixed once its loops reach side row `sides` and top column `tops`. */
  predicate EdgeDone(Nx: nat, Ny: nat, a: int, b: int, sides: int, tops: int, corners: bool)
  {
    (IsLeftRight(Nx, Ny, a, b) && b < sides) || (IsTopBottom(Nx, Ny, a, b) && a < tops) ||
    (corners && IsCorner(Nx, Ny, a, b))
  }

  ghost predicate PinnedUpTo(Nx: nat, Ny: nat, g: seq<FMContainer>, s: seq<FMContainer>, sides: int, tops: int, corners: bool)
    requires |g| == Size(Nx, Ny)
  {
    |s| == |g| &&
    forall a, b {:trigger At(Nx, Ny, s, a, b)} :: InGrid(Nx, Ny, a, b) ==>
      At(Nx, Ny, s, a, b) == if EdgeDone(Nx, Ny, a, b, sides, tops, corners) then Pinned(At(Nx, Ny, g, a, b)) else At(Nx, Ny, g, a, b)
  }

  lemma SideStep(Nx: nat, Ny: nat, g: seq<FMContainer>, s: seq<FMContainer>, i: int)
    requires 1 <= Nx && 1 <= Ny && |g| == Size(Nx, Ny) && 1 <= i <= Ny
    requires PinnedUpTo(Nx, Ny, g, s, i, 1, false)
    ensures var s1 := SetAt(Nx, Ny, s, Nx + 1, i, Pinned(At(Nx, Ny, s, Nx + 1, i)));
            PinnedUpTo(Nx, Ny, g, SetAt(Nx, Ny, s1, 0, i, Pinned(At(Nx, Ny, s1, 0, i))), i + 1, 1, false)
  {
    var s1 := SetAt(Nx, Ny, s, Nx + 1, i, Pinned(At(Nx, Ny, s, Nx + 1, i)));
    var s2 := SetAt(Nx, Ny, s1, 0, i, Pinned(At(Nx, Ny, s1, 0, i)));
    forall a, b {:trigger At(Nx, Ny, s2, a, b)} | InGrid(Nx, Ny, a, b)
      ensures At(Nx, Ny, s2, a, b) ==
        if EdgeDone(Nx, Ny, a, b, i + 1, 1, false) then Pinned(At(Nx, Ny, g, a, b)) else At(Nx, Ny, g, a, b)
    {
      assert At(Nx, Ny, s2, a, b) == if a == 0 && b == i then Pinned(At(Nx, Ny, s1, a, b)) else At(Nx, Ny, s1, a, b);
      assert At(Nx, Ny, s1, a, b) == if a == Nx + 1 && b == i then Pinned(At(Nx, Ny, s, a, b)) else At(Nx, Ny, s, a, b);
    }
  }

  lemma TopStep(Nx: nat, Ny: nat, g: seq<FMContainer>, s: seq<FMContainer>, i: int)
    requires 1 <= Nx && 1 <= Ny && |g| == Size(Nx, Ny) && 1 <= i <= Nx
    requires PinnedUpTo(Nx, Ny, g, s, Ny + 1, i, false)
    ensures var s1 := SetAt(Nx, Ny, s, i, Ny + 1, Pinned(At(Nx, Ny, s, i, Ny + 1)));
            PinnedUpTo(Nx, Ny, g, SetAt(Nx, Ny, s1, i, 0, Pinned(At(Nx, Ny, s1, i, 0))), Ny + 1, i + 1, false)
  {
    var s1 := SetAt(Nx, Ny, s, i, Ny + 1, Pinned(At(Nx, Ny, s, i, Ny + 1)));
    var s2 := SetAt(Nx, Ny, s1, i, 0, Pinned(At(Nx, Ny, s1, i, 0)));
    forall a, b {:trigger At(Nx, Ny, s2, a, b)} | InGrid(Nx, Ny, a, b)
      ensures At(Nx, Ny, s2, a, b) ==
        if EdgeDone(Nx, Ny, a, b, Ny + 1, i + 1, false) then Pinned(At(Nx, Ny, g, a, b)) else At(Nx, Ny, g, a, b)
    {
      assert At(Nx, Ny, s2, a, b) == if a == i && b == 0 then Pinned(At(Nx, Ny, s1, a, b)) else At(Nx, Ny, s1, a, b);
      assert At(Nx, Ny, s1, a, b) == if a == i && b == Ny + 1 then Pinned(At(Nx, Ny, s, a, b)) else At(Nx, Ny, s, a, b);
    }
  }

  /** A corner write, on top of completed edges, keeps the pinned pattern with that corner added. */
  ghost predicate CornersUpTo(Nx: nat, Ny: nat, g: seq<FMContainer>, s: seq<FMContainer>, done: set<(int, int)>)
    requires |g| == Size(Nx, Ny)
  {
    |s| == |g| &&
    forall a, b {:trigger At(Nx, Ny, s, a, b)} :: InGrid(Nx, Ny, a, b) ==>
      At(Nx, Ny, s, a, b) ==
        if EdgeDone(Nx, Ny, a, b, Ny + 1, Nx + 1, false) || (a, b) in done then Pinned(At(Nx, Ny, g, a, b))
        else At(Nx, Ny, g, a, b)
  }

  lemma CornerStep(Nx: nat, Ny: nat, g: seq<FMContainer>, s: seq<FMContainer>, done: set<(int, int)>, i: int, j: int)
    requires 1 <= Nx && 1 <= Ny && |g| == Size(Nx, Ny) && IsCorner(Nx, Ny, i, j)
    requires CornersUpTo(Nx, Ny, g, s, done)
    ensures CornersUpTo(Nx, Ny, g, SetAt(Nx, Ny, s, i, j, Pinned(At(Nx, Ny, s, i, j))), done + {(i, j)})
  {
    var s1 := SetAt(Nx, Ny, s, i, j, Pinned(At(Nx, Ny, s, i, j)));
    forall a, b {:trigger At(Nx, Ny, s1, a, b)} | InGrid(Nx, Ny, a, b)
      ensures At(Nx, Ny, s1, a, b) ==
        if EdgeDone(Nx, Ny, a, b, Ny + 1, Nx + 1, false) || (a, b) in done + {(i, j)} then Pinned(At(Nx, Ny, g, a, b))
        else At(Nx, Ny, g, a, b)
    {
      assert At(Nx, Ny, s1, a, b) == if a == i && b == j then Pinned(At(Nx, Ny, s, a, b)) else At(Nx, Ny, s, a, b);
    }
  }

  /** After all edges and the four corners, exactly the ghost cells are pinned. */
  lemma CornersDone(Nx: nat, Ny: nat, g: seq<FMContainer>, s: seq<FMContainer>)
    requires 1 <= Nx && 1 <= Ny && |g| == Size(Nx, Ny)
    requires CornersUpTo(Nx, Ny, g, s, {(0, 0), (0, Ny + 1), (Nx + 1, 0), (Nx + 1, Ny + 1)})
    ensures forall a, b {:trigger At(Nx, Ny, s, a, b)} :: InGrid(Nx, Ny, a, b) ==>
      At(Nx, Ny, s, a, b) == if IsGhost(Nx, Ny, a, b) then Pinned(At(Nx, Ny, g, a, b)) else At(Nx, Ny, g, a, b)
  {
    forall a, b {:trigger At(Nx, Ny, s, a, b)} | InGrid(Nx, Ny, a, b)
      ensures At(Nx, Ny, s, a, b) == if IsGhost(Nx, Ny, a, b) then Pinned(At(Nx, Ny, g, a, b)) else At(Nx, Ny, g, a, b)
    {
      GhostKinds(Nx, Ny, a, b);
    }
  }

  // -------------------------------------------------------- Initialize

  /** The two sweeps of `Initialize`: down the columns (j varies), then along the rows (i varies). */
  datatype Direction = Columns | Rows

  /** The cell at position k of sweep line `line`. */
  function OnLine(d: Direction, line: int, k: int): (int, int)
  {
    if d == Columns then (line, k) else (k, line)
  }

  /** The position of cell (a, b) along its sweep line. */
  function Along(d: Direction, a: int, b: int): int
  {
    if d == Columns then b else a
  }

  /** The sweep line of cell (a, b). */
  function Line(d: Direction, a: int, b: int): int
  {
    if d == Columns then a else b
  }

  /** The number of interior cells on one sweep line. */
  function Length(Nx: nat, Ny: nat, d: Direction): int
  {
    if d == Columns then Ny else Nx
  }

  /** The number of sweep lines. */
  function Lines(Nx: nat, Ny: nat, d: Direction): int
  {
    if d == Columns then Nx else Ny
  }

  /** The cell t positions further along the sweep line of (a, b). */
  function Next(d: Direction, a: int, b: int, t: int): (int, int)
  {
    if d == Columns then (a, b + t) else (a + t, b)
  }

  /**
   * Interior cell (a, b) once the sweep of its line has examined the pairs of
   * positions up to `lim`: the pair with the cell before it, then the pair
   * with the cell after it, each through `Crossed`.
   */
  function SweptCell(Nx: nat, Ny: nat, g: seq<FMContainer>, h: real, d: Direction, a: int, b: int, lim: int): FMContainer
    requires |g| == Size(Nx, Ny) && IsInterior(Nx, Ny, a, b)
  {
    var (pa, pb) := Next(d, a, b, -1);
    var (na, nb) := Next(d, a, b, 1);
    var k := Along(d, a, b);
    CrossIf(k + 1 <= lim, CrossIf(2 <= k <= lim, At(Nx, Ny, g, a, b), At(Nx, Ny, g, pa, pb), h), At(Nx, Ny, g, na, nb), h)
  }

  /** How far the sweep has gone on the line of (a, b), when it is at position k of line `line`. */
  function Lim(Nx: nat, Ny: nat, d: Direction, a: int, b: int, line: int, k: int): int
  {
    var l := Line(d, a, b);
    if l < line then Length(Nx, Ny, d) else if l == line then k else 1
  }

  /** The state of a sweep over g0 that is at position k of line `line`. */
  ghost predicate SweptUpTo(Nx: nat, Ny: nat, g0: seq<FMContainer>, s: seq<FMContainer>, h: real, d: Direction, line: int, k: int)
    requires |g0| == Size(Nx, Ny)
  {
    |s| == |g0| &&
    forall a, b {:trigger At(Nx, Ny, s, a, b)} :: InGrid(Nx, Ny, a, b) ==>
      At(Nx, Ny, s, a, b) ==
        if IsInterior(Nx, Ny, a, b) then SweptCell(Nx, Ny, g0, h, d, a, b, Lim(Nx, Ny, d, a, b, line, k))
        else At(Nx, Ny, g0, a, b)
  }

  /** A completed sweep in direction d over g. */
  ghost function Swept(Nx: nat, Ny: nat, g: seq<FMContainer>, h: real, d: Direction): (r: seq<FMContainer>)
    requires |g| == Size(Nx, Ny)
    ensures |r| == |g|
    ensures forall a, b {:trigger At(Nx, Ny, r, a, b)} :: InGrid(Nx, Ny, a, b) ==>
      At(Nx, Ny, r, a, b) ==
        if IsInterior(Nx, Ny, a, b) then SweptCell(Nx, Ny, g, h, d, a, b, Length(Nx, Ny, d)) else At(Nx, Ny, g, a, b)
  {
    var r := seq(|g|, k requires 0 <= k < |g| =>
      ColRowRange(Nx, Ny, k);
      if IsInterior(Nx, Ny, Col(Nx, k), Row(Nx, k)) then SweptCell(Nx, Ny, g, h, d, Col(Nx, k), Row(Nx, k), Length(Nx, Ny, d))
      else g[k]);
    GIFacts(Nx, Ny);
    r
  }

  /** What `Initialize` leaves in the grid: the column sweep, then the row sweep. */
  ghost function Initialized(Nx: nat, Ny: nat, g: seq<FMContainer>, h: real): seq<FMContainer>
    requires |g| == Size(Nx, Ny)
  {
    Swept(Nx, Ny, Swept(Nx, Ny, g, h, Columns), h, Rows)
  }

  /** Before a sweep starts, nothing has changed. */
  lemma SweepStart(Nx: nat, Ny: nat, g0: seq<FMContainer>, h: real, d: Direction)
    requires |g0| == Size(Nx, Ny)
    ensures SweptUpTo(Nx, Ny, g0, g0, h, d, 1, 1)
  {
  }

  /** Finishing line `line` is starting line `line + 1`. */
  lemma SweepNextLine(Nx: nat, Ny: nat, g0: seq<FMContainer>, s: seq<FMContainer>, h: real, d: Direction, line: int)
    requires |g0| == Size(Nx, Ny) && 1 <= Ny && 1 <= Nx
    requires SweptUpTo(Nx, Ny, g0, s, h, d, line, Length(Nx, Ny, d))
    ensures SweptUpTo(Nx, Ny, g0, s, h, d, line + 1, 1)
  {
  }

  /** After the last line, the sweep is complete. */
  lemma SweepDone(Nx: nat, Ny: nat, g0: seq<FMContainer>, s: seq<FMContainer>, h: real, d: Direction)
    requires |g0| == Size(Nx, Ny) && 1 <= Ny && 1 <= Nx
    requires SweptUpTo(Nx, Ny, g0, s, h, d, Lines(Nx, Ny, d) + 1, 1)
    ensures s == Swept(Nx, Ny, g0, h, d)
  {
    SameCells(Nx, Ny, s, Swept(Nx, Ny, g0, h, d));
  }

  /** A sweep never changes the sign of a flag, and never touches a negative cell. */
  lemma SweptSigns(Nx: nat, Ny: nat, g: seq<FMContainer>, h: real, d: Direction, a: int, b: int, lim: int)
    requires |g| == Size(Nx, Ny) && IsInterior(Nx, Ny, a, b)
    ensures var c := SweptCell(Nx, Ny, g, h, d, a, b, lim);
            (c.DoneFlag < 0 <==> At(Nx, Ny, g, a, b).DoneFlag < 0) &&
            (At(Nx, Ny, g, a, b).DoneFlag < 0 ==> c == At(Nx, Ny, g, a, b)) &&
            (-1 <= At(Nx, Ny, g, a, b).DoneFlag <= 1 ==> -1 <= c.DoneFlag <= 1)
  {
  }

  /** Before the step at position k, the cell at k is as the sweep found it. */
  lemma SweepAhead(Nx: nat, Ny: nat, g0: seq<FMContainer>, s: seq<FMContainer>, h: real, d: Direction, line: int, k: int)
    requires |g0| == Size(Nx, Ny) && 1 <= line <= Lines(Nx, Ny, d) && 1 <= k <= Length(Nx, Ny, d)
    requires SweptUpTo(Nx, Ny, g0, s, h, d, line, k - 1)
    ensures var (ca, cb) := OnLine(d, line, k); At(Nx, Ny, s, ca, cb) == At(Nx, Ny, g0, ca, cb)
  {
    var (ca, cb) := OnLine(d, line, k);
    assert At(Nx, Ny, s, ca, cb) == SweptCell(Nx, Ny, g0, h, d, ca, cb, k - 1);
  }

  /**
   * One step of a sweep at position k of line `line`: the pair (k-1, k) is
   * examined and, when exactly one of the two is negative, the other one is
   * crossed with it. The cell at k has not been touched before the step.
   */
  lemma SweepStep(Nx: nat, Ny: nat, g0: seq<FMContainer>, s: seq<FMContainer>, h: real, d: Direction, line: int, k: int,
                  s': seq<FMContainer>)
    requires |g0| == Size(Nx, Ny) && 1 <= line <= Lines(Nx, Ny, d) && 2 <= k <= Length(Nx, Ny, d)
    requires SweptUpTo(Nx, Ny, g0, s, h, d, line, k - 1)
    requires var (ca, cb) := OnLine(d, line, k);
             var (pa, pb) := OnLine(d, line, k - 1);
             var c, p := At(Nx, Ny, s, ca, cb), At(Nx, Ny, s, pa, pb);
             s' == if (c.DoneFlag < 0) == (p.DoneFlag < 0) then s
                   else if c.DoneFlag >= 0 then SetAt(Nx, Ny, s, ca, cb, Crossed(c, p, h))
                   else SetAt(Nx, Ny, s, pa, pb, Crossed(p, c, h))
    ensures var (ca, cb) := OnLine(d, line, k); At(Nx, Ny, s, ca, cb) == At(Nx, Ny, g0, ca, cb)
    ensures SweptUpTo(Nx, Ny, g0, s', h, d, line, k)
  {
    var (ca, cb) := OnLine(d, line, k);
    var (pa, pb) := OnLine(d, line, k - 1);
    var c, p := At(Nx, Ny, s, ca, cb), At(Nx, Ny, s, pa, pb);
    assert c == At(Nx, Ny, g0, ca, cb);
    SweptSigns(Nx, Ny, g0, h, d, pa, pb, k - 1);
    assert Next(d, pa, pb, 1) == (ca, cb) && Next(d, ca, cb, -1) == (pa, pb);
    forall a, b {:trigger At(Nx, Ny, s', a, b)} | InGrid(Nx, Ny, a, b)
      ensures At(Nx, Ny, s', a, b) ==
        if IsInterior(Nx, Ny, a, b) then SweptCell(Nx, Ny, g0, h, d, a, b, Lim(Nx, Ny, d, a, b, line, k))
        else At(Nx, Ny, g0, a, b)
    {
      if (a, b) == (ca, cb) {
        assert At(Nx, Ny, s', a, b) == Crossed(c, At(Nx, Ny, g0, pa, pb), h);
      } else if (a, b) == (pa, pb) {
        assert At(Nx, Ny, s', a, b) == Crossed(p, c, h);
      } else {
        assert At(Nx, Ny, s', a, b) == At(Nx, Ny, s, a, b);
      }
    }
  }

  /** Some interior 4-neighbour of (a, b) is fixed (negative), as g has it. */
  predicate NegativeNeighbour(Nx: nat, Ny: nat, g: seq<FMContainer>, a: int, b: int)
    requires |g| == Size(Nx, Ny) && IsInterior(Nx, Ny, a, b)
  {
    Hit(b >= 2, At(Nx, Ny, g, a, b - 1)) || Hit(b + 1 <= Ny, At(Nx, Ny, g, a, b + 1)) ||
    Hit(a >= 2, At(Nx, Ny, g, a - 1, b)) || Hit(a + 1 <= Nx, At(Nx, Ny, g, a + 1, b))
  }

  /**
   * c' is what crossing c with the neighbours n1..n4 (each where its p
   * holds) makes of it. A fixed c is unchanged. An open or Done c becomes
   * Done exactly when some neighbour looked at is fixed; its value then
   * becomes the least of its own value and |h + value| over those fixed
   * neighbours, and is otherwise unchanged.
   */
  predicate CrossedWith(c: FMContainer, c': FMContainer, n1: FMContainer, p1: bool, n2: FMContainer, p2: bool,
                        n3: FMContainer, p3: bool, n4: FMContainer, p4: bool, h: real)
  {
    var hit := Hit(p1, n1) || Hit(p2, n2) || Hit(p3, n3) || Hit(p4, n4);
    (c.DoneFlag < 0 ==> c' == c) &&
    (c.DoneFlag >= 0 && !hit ==> c' == c) &&
    (c.DoneFlag >= 0 && hit ==> c'.DoneFlag == 1) &&
    c'.HeapPosition == c.HeapPosition && c'.value <= c.value &&
    (c.DoneFlag >= 0 ==>
      (Hit(p1, n1) ==> c'.value <= Abs(h + n1.value)) && (Hit(p2, n2) ==> c'.value <= Abs(h + n2.value)) &&
      (Hit(p3, n3) ==> c'.value <= Abs(h + n3.value)) && (Hit(p4, n4) ==> c'.value <= Abs(h + n4.value))) &&
    (c'.value == c.value ||
      (Hit(p1, n1) && c'.value == Abs(h + n1.value)) || (Hit(p2, n2) && c'.value == Abs(h + n2.value)) ||
      (Hit(p3, n3) && c'.value == Abs(h + n3.value)) || (Hit(p4, n4) && c'.value == Abs(h + n4.value)))
  }

  /**
   * What `Initialize` makes of interior cell (a, b) of g: c', the cell
   * crossed with its interior 4-neighbours (see `CrossedWith`).
   */
  predicate InitializedCell(Nx: nat, Ny: nat, g: seq<FMContainer>, h: real, a: int, b: int, c': FMContainer)
    requires |g| == Size(Nx, Ny) && IsInterior(Nx, Ny, a, b)
  {
    CrossedWith(At(Nx, Ny, g, a, b), c', At(Nx, Ny, g, a, b - 1), b >= 2, At(Nx, Ny, g, a, b + 1), b + 1 <= Ny,
                At(Nx, Ny, g, a - 1, b), a >= 2, At(Nx, Ny, g, a + 1, b), a + 1 <= Nx, h)
  }

  /** Interior cell (a, b) after `Initialize`, characterised by `InitializedCell`. */
  lemma InitializedAt(Nx: nat, Ny: nat, g: seq<FMContainer>, h: real, a: int, b: int)
    requires |g| == Size(Nx, Ny) && FlagsInRange(g) && IsInterior(Nx, Ny, a, b)
    ensures InitializedCell(Nx, Ny, g, h, a, b, At(Nx, Ny, Initialized(Nx, Ny, g, h), a, b))
  {
    InitializedChain(Nx, Ny, g, h, a, b);
    ChainIsInitializedCell(Nx, Ny, g, h, a, b);
  }

  /** The four-neighbour chain of `InitializedChain` meets `InitializedCell`. */
  lemma ChainIsInitializedCell(Nx: nat, Ny: nat, g: seq<FMContainer>, h: real, a: int, b: int)
    requires |g| == Size(Nx, Ny) && FlagsInRange(g) && IsInterior(Nx, Ny, a, b)
    ensures InitializedCell(Nx, Ny, g, h, a, b,
              CrossIf(a + 1 <= Nx, CrossIf(a >= 2, CrossIf(b + 1 <= Ny, CrossIf(b >= 2,
                At(Nx, Ny, g, a, b), At(Nx, Ny, g, a, b - 1), h), At(Nx, Ny, g, a, b + 1), h),
                At(Nx, Ny, g, a - 1, b), h), At(Nx, Ny, g, a + 1, b), h))
  {
    GIRange(Nx, Ny, a, b);
    assert At(Nx, Ny, g, a, b) == g[GI(Nx, a, b)];
    Chain4(At(Nx, Ny, g, a, b), At(Nx, Ny, g, a, b - 1), b >= 2, At(Nx, Ny, g, a, b + 1), b + 1 <= Ny,
           At(Nx, Ny, g, a - 1, b), a >= 2, At(Nx, Ny, g, a + 1, b), a + 1 <= Nx, h);
  }

  /** Interior cell (a, b) after a sweep: crossed with the cells before and after it on its line. */
  lemma SweptAt(Nx: nat, Ny: nat, g: seq<FMContainer>, h: real, d: Direction, a: int, b: int)
    requires |g| == Size(Nx, Ny) && IsInterior(Nx, Ny, a, b)
    ensures var (pa, pb) := Next(d, a, b, -1);
            var (na, nb) := Next(d, a, b, 1);
            var k := Along(d, a, b);
            At(Nx, Ny, Swept(Nx, Ny, g, h, d), a, b) ==
              CrossIf(k + 1 <= Length(Nx, Ny, d), CrossIf(2 <= k, At(Nx, Ny, g, a, b), At(Nx, Ny, g, pa, pb), h),
                      At(Nx, Ny, g, na, nb), h)
  {
    assert At(Nx, Ny, Swept(Nx, Ny, g, h, d), a, b) == SweptCell(Nx, Ny, g, h, d, a, b, Length(Nx, Ny, d));
  }

  /** Interior cell (a, b) after `Initialize` is itself crossed with its four neighbours in sweep order. */
  lemma InitializedChain(Nx: nat, Ny: nat, g: seq<FMContainer>, h: real, a: int, b: int)
    requires |g| == Size(Nx, Ny) && IsInterior(Nx, Ny, a, b)
    ensures At(Nx, Ny, Initialized(Nx, Ny, g, h), a, b) ==
            CrossIf(a + 1 <= Nx, CrossIf(a >= 2, CrossIf(b + 1 <= Ny, CrossIf(b >= 2,
              At(Nx, Ny, g, a, b), At(Nx, Ny, g, a, b - 1), h), At(Nx, Ny, g, a, b + 1), h),
              At(Nx, Ny, g, a - 1, b), h), At(Nx, Ny, g, a + 1, b), h)
  {
    var g1 := Swept(Nx, Ny, g, h, Columns);
    SweptAt(Nx, Ny, g1, h, Rows, a, b);
    SweptAt(Nx, Ny, g, h, Columns, a, b);
    var w1 := At(Nx, Ny, g1, a, b);
    assert w1 == CrossIf(b + 1 <= Ny, CrossIf(b >= 2, At(Nx, Ny, g, a, b), At(Nx, Ny, g, a, b - 1), h), At(Nx, Ny, g, a, b + 1), h);
    var w2 := CrossIf(a >= 2, w1, At(Nx, Ny, g1, a - 1, b), h);
    assert At(Nx, Ny, Initialized(Nx, Ny, g, h), a, b) == CrossIf(a + 1 <= Nx, w2, At(Nx, Ny, g1, a + 1, b), h);
    if a >= 2 {
      NeighbourSwept(Nx, Ny, g, h, a - 1, b);
    }
    CrossIfSameFixed(a >= 2, w1, At(Nx, Ny, g1, a - 1, b), At(Nx, Ny, g, a - 1, b), h);
    if a + 1 <= Nx {
      NeighbourSwept(Nx, Ny, g, h, a + 1, b);
    }
    CrossIfSameFixed(a + 1 <= Nx, w2, At(Nx, Ny, g1, a + 1, b), At(Nx, Ny, g, a + 1, b), h);
  }

  /** The column pass keeps the sign of an interior cell, and a fixed one as it is. */
  lemma NeighbourSwept(Nx: nat, Ny: nat, g: seq<FMContainer>, h: real, a: int, b: int)
    requires |g| == Size(Nx, Ny) && IsInterior(Nx, Ny, a, b)
    ensures var c, c' := At(Nx, Ny, g, a, b), At(Nx, Ny, Swept(Nx, Ny, g, h, Columns), a, b);
            (c'.DoneFlag < 0 <==> c.DoneFlag < 0) && (c.DoneFlag < 0 ==> c' == c)
  {
    assert At(Nx, Ny, Swept(Nx, Ny, g, h, Columns), a, b) == SweptCell(Nx, Ny, g, h, Columns, a, b, Ny);
    SweptSigns(Nx, Ny, g, h, Columns, a, b, Ny);
  }

  /** Crossing a cell with four neighbours in turn, characterised by `CrossedWith`. */
  lemma Chain4(c: FMContainer, n1: FMContainer, p1: bool, n2: FMContainer, p2: bool,
               n3: FMContainer, p3: bool, n4: FMContainer, p4: bool, h: real)
    requires -1 <= c.DoneFlag <= 1
    ensures CrossedWith(c, CrossIf(p4, CrossIf(p3, CrossIf(p2, CrossIf(p1, c, n1, h), n2, h), n3, h), n4, h),
                        n1, p1, n2, p2, n3, p3, n4, p4, h)
  {
  }

  // ------------------------------------------------- flags and close points

  /** Every ghost cell is fixed. */
  ghost predicate GhostsFixed(Nx: nat, Ny: nat, g: seq<FMContainer>)
    requires |g| == Size(Nx, Ny)
  {
    forall a, b {:trigger At(Nx, Ny, g, a, b)} :: IsGhost(Nx, Ny, a, b) ==> At(Nx, Ny, g, a, b).DoneFlag == -1
  }

  /** Interior cell (x, y) has a Done 4-neighbour. */
  predicate DoneNeighbour(Nx: nat, Ny: nat, g: seq<FMContainer>, x: int, y: int)
    requires |g| == Size(Nx, Ny) && IsInterior(Nx, Ny, x, y)
  {
    At(Nx, Ny, g, x + 1, y).DoneFlag == 1 || At(Nx, Ny, g, x - 1, y).DoneFlag == 1 ||
    At(Nx, Ny, g, x, y + 1).DoneFlag == 1 || At(Nx, Ny, g, x, y - 1).DoneFlag == 1
  }

  /** A close point: an index of the grid that, while still open, is interior with a Done neighbour. */
  ghost predicate Seeded(Nx: nat, Ny: nat, g: seq<FMContainer>, e: int)
    requires |g| == Size(Nx, Ny)
  {
    0 <= e < |g| &&
    (g[e].DoneFlag == 0 ==> IsInterior(Nx, Ny, Col(Nx, e), Row(Nx, e)) && DoneNeighbour(Nx, Ny, g, Col(Nx, e), Row(Nx, e)))
  }

  ghost predicate Seeds(Nx: nat, Ny: nat, g: seq<FMContainer>, cp: seq<int>)
    requires |g| == Size(Nx, Ny)
  {
    forall p {:trigger cp[p]} :: 0 <= p < |cp| ==> Seeded(Nx, Ny, g, cp[p])
  }

  /** Close points stay close points while flags only grow. */
  lemma SeedsGrow(Nx: nat, Ny: nat, g: seq<FMContainer>, g': seq<FMContainer>, cp: seq<int>)
    requires |g| == Size(Nx, Ny) && Seeds(Nx, Ny, g, cp) && FlagsGrow(g, g')
    ensures Seeds(Nx, Ny, g', cp)
  {
    forall p | 0 <= p < |cp|
      ensures Seeded(Nx, Ny, g', cp[p])
    {
      var e := cp[p];
      if g'[e].DoneFlag == 0 {
        assert g[e].DoneFlag == 0;
        var x, y := Col(Nx, e), Row(Nx, e);
        assert DoneNeighbour(Nx, Ny, g, x, y);
        GIRange(Nx, Ny, x + 1, y);
        GIRange(Nx, Ny, x - 1, y);
        GIRange(Nx, Ny, x, y + 1);
        GIRange(Nx, Ny, x, y - 1);
      }
    }
  }

  /** A cell next to a Done cell is a close point, given that ghost cells are fixed. */
  lemma SeedNextToDone(Nx: nat, Ny: nat, g: seq<FMContainer>, x: int, y: int, dx: int, dy: int)
    requires |g| == Size(Nx, Ny) && GhostsFixed(Nx, Ny, g) && InGrid(Nx, Ny, x, y)
    requires (dx == 0 && (dy == 1 || dy == -1)) || (dy == 0 && (dx == 1 || dx == -1))
    requires InGrid(Nx, Ny, x + dx, y + dy) && At(Nx, Ny, g, x + dx, y + dy).DoneFlag == 1
    ensures Seeded(Nx, Ny, g, GI(Nx, x, y))
  {
    GIRange(Nx, Ny, x, y);
    if At(Nx, Ny, g, x, y).DoneFlag == 0 {
      assert !IsGhost(Nx, Ny, x, y);
    }
  }

  /** `flag` of a sweep: a flag value with the sign of the cell at position k of the line. */
  predicate Tracks(Nx: nat, Ny: nat, g: seq<FMContainer>, d: Direction, line: int, k: int, flag: int)
    requires |g| == Size(Nx, Ny) && InGrid(Nx, Ny, OnLine(d, line, k).0, OnLine(d, line, k).1)
  {
    var (a, b) := OnLine(d, line, k);
    -1 <= flag <= 1 && (flag < 0 <==> At(Nx, Ny, g, a, b).DoneFlag < 0)
  }

  /**
   * The solve step of `FindPhi` on the four neighbours of a cell, one of them
   * Done and every Done value non-negative: for a non-negative root r of the
   * discriminant, the stored root meets `SolvesUpwind`.
   */
  lemma SolveRoot(right: FMContainer, left: FMContainer, up: FMContainer, down: FMContainer,
                  h: real, hInv: real, r: real)
    requires h > 0.0 && hInv == 1.0 / h
    requires right.DoneFlag == 1 || left.DoneFlag == 1 || up.DoneFlag == 1 || down.DoneFlag == 1
    requires DoneNonNegative(right) && DoneNonNegative(left) && DoneNonNegative(up) && DoneNonNegative(down)
    requires var s := Select2(right, left, up, down, hInv); r >= 0.0 && r * r == Quotient(s, h)
    ensures var s := Select2(right, left, up, down, hInv); s.a != 0 && SolvesUpwind(s, h, Root(s, r))
  {
    Select2Upwind(right, left, up, down, h, hInv);
    Select2NonNegative(right, left, up, down, hInv);
    UpwindRoot(Select2(right, left, up, down, hInv), h, r);
  }

  /** With a Done neighbour the selection uses at least one axis. */
  lemma Select2Active(right: FMContainer, left: FMContainer, up: FMContainer, down: FMContainer, h: real, hInv: real)
    requires h > 0.0 && hInv == 1.0 / h
    requires right.DoneFlag == 1 || left.DoneFlag == 1 || up.DoneFlag == 1 || down.DoneFlag == 1
    ensures Select2(right, left, up, down, hInv).a != 0
  {
    Select2Upwind(right, left, up, down, h, hInv);
  }

  /**
   * The outcome of the solve step for the selection s, its discriminant
   * quotient q and a root r of q: solved exactly when q is not negative,
   * and then the stored root meets `SolvesUpwind`.
   */
  lemma SolveOutcomeWith(right: FMContainer, left: FMContainer, up: FMContainer, down: FMContainer,
                         h: real, hInv: real, s: Stencil, q: real, r: real, solved: bool, phi: real)
    requires h > 0.0 && hInv == 1.0 / h
    requires right.DoneFlag == 1 || left.DoneFlag == 1 || up.DoneFlag == 1 || down.DoneFlag == 1
    requires DoneNonNegative(right) && DoneNonNegative(left) && DoneNonNegative(up) && DoneNonNegative(down)
    requires s == Select2(right, left, up, down, hInv) && q == Quotient(s, h)
    requires (solved <==> q >= 0.0) && (q >= 0.0 ==> r >= 0.0 && r * r == q) && (solved && s.a != 0 ==> phi == Root(s, r))
    ensures (solved <==> q >= 0.0) && (solved ==> s.a != 0 && phi == Root(s, r) && SolvesUpwind(s, h, phi))
  {
    Select2Active(right, left, up, down, h, hInv);
    if solved {
      SolveRoot(right, left, up, down, h, hInv, r);
    }
  }

  // ----------------------------------------------------------- the class

  class FastMarch2D {
    const Nx: nat
    const Ny: nat
    const size: nat
    const h: real
    const hInv: real
    const NxInv: real
    /** The square root of `FindPhi`. */
    const sqrt: real -> real
    const grid: array<FMContainer>
    const FMHeap: array<int>
    var heapSize: int
    /** The close list; `closeSize` is its length. */
    var ClosePoints: seq<int>

    ghost predicate Valid()
      reads this
    {
      1 <= Nx && 1 <= Ny && size == Size(Nx, Ny) && grid.Length == size && FMHeap.Length == size &&
      h > 0.0 && hInv == 1.0 / h && NxInv == 1.0 / (Nx + 2) as real && IsSqrt(sqrt)
    }

    /** The grid, the heap and the close list sized for the padded (nx+2) x (ny+2) grid. */
    constructor(nx: nat, ny: nat, hi: real, sqrt: real -> real)
      requires 1 <= nx && 1 <= ny && hi > 0.0 && IsSqrt(sqrt)
      ensures Valid() && Nx == nx && Ny == ny && h == hi && heapSize == 0 && ClosePoints == []
      ensures size == (nx + 2) * (ny + 2)
      ensures fresh(grid) && fresh(FMHeap)
    {
      Nx, Ny, h, hInv := nx, ny, hi, 1.0 / hi;
      StrideIsProduct(nx, ny + 2);
      size := (nx + 2) * (ny + 2);
      NxInv := 1.0 / (nx + 2) as real;
      this.sqrt := sqrt;
      FMHeap := new int[(nx + 2) * (ny + 2)];
      grid := new FMContainer[(nx + 2) * (ny + 2)](_ => Loaded(0.0));
      heapSize := 0;
      ClosePoints := [];
    }

    /** `Set(index, value)`: load the negated value; negative cells are fixed, the rest are open. */
    method Set(index: int, value: real)
      requires Valid() && 0 <= index < size
      modifies grid
      ensures grid[..] == old(grid[..])[index := Loaded(value)]
    {
      grid[index] := grid[index].(value := -value);
      grid[index] := grid[index].(HeapPosition := -1);
      if grid[index].value < 0.0 {
        grid[index] := grid[index].(DoneFlag := -1);
      } else {
        grid[index] := grid[index].(DoneFlag := 0);
      }
    }

    /** `SetBoundary`: fix every ghost cell (flag -1); nothing else changes. */
    method SetBoundary()
      requires Valid()
      modifies grid
      ensures forall a, b {:trigger At(Nx, Ny, grid[..], a, b)} :: InGrid(Nx, Ny, a, b) ==>
        At(Nx, Ny, grid[..], a, b) ==
          if IsGhost(Nx, Ny, a, b) then Pinned(At(Nx, Ny, old(grid[..]), a, b)) else At(Nx, Ny, old(grid[..]), a, b)
    {
      ghost var g0 := grid[..];
      assert PinnedUpTo(Nx, Ny, g0, grid[..], 1, 1, false);
      PinSides(g0);
      PinTops(g0);
      PinCorners(g0);
    }

    /** The side loop of `SetBoundary`: columns 0 and Nx+1 of rows 1..Ny. */
    method PinSides(ghost g0: seq<FMContainer>)
      requires Valid() && |g0| == Size(Nx, Ny) && PinnedUpTo(Nx, Ny, g0, grid[..], 1, 1, false)
      modifies grid
      ensures PinnedUpTo(Nx, Ny, g0, grid[..], Ny + 1, 1, false)
    {
      for i := 1 to Ny + 1
        invariant PinnedUpTo(Nx, Ny, g0, grid[..], i, 1, false)
      {
        ghost var s := grid[..];
        Pin(Nx + 1, i);
        ghost var s1 := grid[..];
        assert s1 == SetAt(Nx, Ny, s, Nx + 1, i, Pinned(At(Nx, Ny, s, Nx + 1, i)));
        Pin(0, i);
        assert grid[..] == SetAt(Nx, Ny, s1, 0, i, Pinned(At(Nx, Ny, s1, 0, i)));
        SideStep(Nx, Ny, g0, s, i);
      }
    }

    /** The top/bottom loop of `SetBoundary`: rows 0 and Ny+1 of columns 1..Nx. */
    method PinTops(ghost g0: seq<FMContainer>)
      requires Valid() && |g0| == Size(Nx, Ny) && PinnedUpTo(Nx, Ny, g0, grid[..], Ny + 1, 1, false)
      modifies grid
      ensures PinnedUpTo(Nx, Ny, g0, grid[..], Ny + 1, Nx + 1, false)
    {
      for i := 1 to Nx + 1
        invariant PinnedUpTo(Nx, Ny, g0, grid[..], Ny + 1, i, false)
      {
        ghost var s := grid[..];
        Pin(i, Ny + 1);
        ghost var s1 := grid[..];
        Pin(i, 0);
        TopStep(Nx, Ny, g0, s, i);
        assert s1 == SetAt(Nx, Ny, s, i, Ny + 1, Pinned(At(Nx, Ny, s, i, Ny + 1)));
        assert grid[..] == SetAt(Nx, Ny, s1, i, 0, Pinned(At(Nx, Ny, s1, i, 0)));
      }
    }

    /** The four corners of `SetBoundary`, after the edges. */
    method PinCorners(ghost g0: seq<FMContainer>)
      requires Valid() && |g0| == Size(Nx, Ny) && PinnedUpTo(Nx, Ny, g0, grid[..], Ny + 1, Nx + 1, false)
      modifies grid
      ensures forall a, b {:trigger At(Nx, Ny, grid[..], a, b)} :: InGrid(Nx, Ny, a, b) ==>
        At(Nx, Ny, grid[..], a, b) == if IsGhost(Nx, Ny, a, b) then Pinned(At(Nx, Ny, g0, a, b)) else At(Nx, Ny, g0, a, b)
    {
      assert CornersUpTo(Nx, Ny, g0, grid[..], {});
      PinCorner(g0, {}, 0, Ny + 1);
      PinCorner(g0, {(0, Ny + 1)}, 0, 0);
      PinCorner(g0, {(0, Ny + 1), (0, 0)}, Nx + 1, Ny + 1);
      PinCorner(g0, {(0, Ny + 1), (0, 0), (Nx + 1, Ny + 1)}, Nx + 1, 0);
      assert {(0, Ny + 1), (0, 0), (Nx + 1, Ny + 1), (Nx + 1, 0)} == {(0, 0), (0, Ny + 1), (Nx + 1, 0), (Nx + 1, Ny + 1)};
      CornersDone(Nx, Ny, g0, grid[..]);
    }

    /** Fix corner (i, j), the corners in `done` being fixed already. */
    method PinCorner(ghost g0: seq<FMContainer>, ghost done: set<(int, int)>, i: int, j: int)
      requires Valid() && |g0| == Size(Nx, Ny) && IsCorner(Nx, Ny, i, j) && CornersUpTo(Nx, Ny, g0, grid[..], done)
      modifies grid
      ensures CornersUpTo(Nx, Ny, g0, grid[..], done + {(i, j)})
    {
      ghost var s := grid[..];
      Pin(i, j);
      CornerStep(Nx, Ny, g0, s, done, i, j);
    }

    /** Fix cell (i, j). */
    method Pin(i: int, j: int)
      requires Valid() && InGrid(Nx, Ny, i, j)
      modifies grid
      ensures grid[..] == SetAt(Nx, Ny, old(grid[..]), i, j, Pinned(At(Nx, Ny, old(grid[..]), i, j)))
    {
      GIRange(Nx, Ny, i, j);
      grid[GI(Nx, i, j)] := grid[GI(Nx, i, j)].(DoneFlag := -1);
    }
  
    /** `AddClose`: append an open cell to the close list; any other cell is skipped. */
    method AddClose(index: int)
      requires Valid() && 0 <= index < size
      modifies this
      ensures ClosePoints == old(ClosePoints) + if grid[index].DoneFlag == 0 then [index] else []
      ensures heapSize == old(heapSize)
    {
      if grid[index].DoneFlag == 0 {
        ClosePoints := ClosePoints + [index];
      }
    }

    /**
     * One crossing: cell (x, y), open or Done, sits next to the fixed cell n
     * on its line. It becomes Done, the cell e beyond it on the line is
     * offered to the close list, and its value drops to min(own, |h + n|).
     */
    method Cross(x: int, y: int, nx: int, ny: int, ex: int, ey: int)
      requires Valid() && InGrid(Nx, Ny, x, y) && InGrid(Nx, Ny, nx, ny) && InGrid(Nx, Ny, ex, ey)
      requires (x, y) != (nx, ny)
      requires (ex - x == 0 && (ey - y == 1 || ey - y == -1)) || (ey - y == 0 && (ex - x == 1 || ex - x == -1))
      requires 0 <= At(Nx, Ny, grid[..], x, y).DoneFlag <= 1 && At(Nx, Ny, grid[..], nx, ny).DoneFlag < 0
      requires GhostsFixed(Nx, Ny, grid[..]) && Seeds(Nx, Ny, grid[..], ClosePoints)
      modifies this, grid
      ensures grid[..] == SetAt(Nx, Ny, old(grid[..]), x, y,
                                Crossed(At(Nx, Ny, old(grid[..]), x, y), At(Nx, Ny, old(grid[..]), nx, ny), h))
      ensures Seeds(Nx, Ny, grid[..], ClosePoints)
      ensures |ClosePoints| >= |old(ClosePoints)| && ClosePoints[..|old(ClosePoints)|] == old(ClosePoints)
      ensures heapSize == old(heapSize)
    {
      ghost var s := grid[..];
      GIRange(Nx, Ny, x, y);
      GIRange(Nx, Ny, nx, ny);
      GIRange(Nx, Ny, ex, ey);
      var c, n := GI(Nx, x, y), GI(Nx, nx, ny);
      grid[c] := grid[c].(DoneFlag := 1);
      ghost var s1 := grid[..];
      assert FlagsGrow(s, s1);
      assert s1 == SetAt(Nx, Ny, s, x, y, s[c].(DoneFlag := 1));
      assert GhostsFixed(Nx, Ny, s1);
      SeedsGrow(Nx, Ny, s, s1, ClosePoints);
      SeedNextToDone(Nx, Ny, s1, ex, ey, x - ex, y - ey);
      AddClose(GI(Nx, ex, ey));
      grid[c] := grid[c].(value := Min(grid[c].value, Abs(h + grid[n].value)));
      assert FlagsGrow(s1, grid[..]);
      SeedsGrow(Nx, Ny, s1, grid[..], ClosePoints);
      assert grid[..] == SetAt(Nx, Ny, s, x, y, Crossed(s[c], s[n], h));
    }

    /**
     * One step of a sweep: examine the pair at positions k-1 and k of the
     * line; `flag` carries the sign of the cell at k-1, and the XOR test
     * finds a pair whose signs differ.
     */
    method SweepPair(d: Direction, line: int, k: int, flag: int, ghost g0: seq<FMContainer>) returns (flag': int)
      requires Valid() && 1 <= line <= Lines(Nx, Ny, d) && 2 <= k <= Length(Nx, Ny, d) && |g0| == size
      requires FlagsInRange(g0) && GhostsFixed(Nx, Ny, g0)
      requires SweptUpTo(Nx, Ny, g0, grid[..], h, d, line, k - 1)
      requires Tracks(Nx, Ny, grid[..], d, line, k - 1, flag)
      requires Seeds(Nx, Ny, grid[..], ClosePoints)
      modifies this, grid
      ensures SweptUpTo(Nx, Ny, g0, grid[..], h, d, line, k)
      ensures Tracks(Nx, Ny, grid[..], d, line, k, flag')
      ensures Seeds(Nx, Ny, grid[..], ClosePoints)
      ensures |ClosePoints| >= |old(ClosePoints)| && ClosePoints[..|old(ClosePoints)|] == old(ClosePoints)
      ensures heapSize == old(heapSize)
    {
      ghost var s := grid[..];
      var (ca, cb) := OnLine(d, line, k);
      GIRange(Nx, Ny, ca, cb);
      var ci := GI(Nx, ca, cb);
      SweepAhead(Nx, Ny, g0, s, h, d, line, k);
      XorSign(flag, grid[ci].DoneFlag);
      flag' := flag;
      if XorNegative(flag, grid[ci].DoneFlag) {
        flag' := grid[ci].DoneFlag;
        CrossPair(d, line, k, g0);
      }
      SweepStep(Nx, Ny, g0, s, h, d, line, k, grid[..]);
      SweptSigns(Nx, Ny, g0, h, d, ca, cb, k);
    }

    /**
     * The crossing branch of a sweep step: of the pair at positions k-1 and
     * k, whose signs differ, the non-negative one is crossed with the other,
     * and the cell beyond it on the line is offered to the close list.
     */
    method CrossPair(d: Direction, line: int, k: int, ghost g0: seq<FMContainer>)
      requires Valid() && 1 <= line <= Lines(Nx, Ny, d) && 2 <= k <= Length(Nx, Ny, d) && |g0| == size
      requires FlagsInRange(g0) && GhostsFixed(Nx, Ny, g0)
      requires SweptUpTo(Nx, Ny, g0, grid[..], h, d, line, k - 1)
      requires var (ca, cb) := OnLine(d, line, k);
               var (pa, pb) := OnLine(d, line, k - 1);
               (At(Nx, Ny, grid[..], ca, cb).DoneFlag < 0) != (At(Nx, Ny, grid[..], pa, pb).DoneFlag < 0)
      requires Seeds(Nx, Ny, grid[..], ClosePoints)
      modifies this, grid
      ensures var (ca, cb) := OnLine(d, line, k);
              var (pa, pb) := OnLine(d, line, k - 1);
              var c, p := At(Nx, Ny, old(grid[..]), ca, cb), At(Nx, Ny, old(grid[..]), pa, pb);
              grid[..] == if c.DoneFlag >= 0 then SetAt(Nx, Ny, old(grid[..]), ca, cb, Crossed(c, p, h))
                          else SetAt(Nx, Ny, old(grid[..]), pa, pb, Crossed(p, c, h))
      ensures Seeds(Nx, Ny, grid[..], ClosePoints)
      ensures |ClosePoints| >= |old(ClosePoints)| && ClosePoints[..|old(ClosePoints)|] == old(ClosePoints)
      ensures heapSize == old(heapSize)
    {
      ghost var s := grid[..];
      var (ca, cb) := OnLine(d, line, k);
      var (pa, pb) := OnLine(d, line, k - 1);
      GIRange(Nx, Ny, ca, cb);
      var ci := GI(Nx, ca, cb);
      SweepAhead(Nx, Ny, g0, s, h, d, line, k);
      SweptSigns(Nx, Ny, g0, h, d, pa, pb, k - 1);
      assert GhostsFixed(Nx, Ny, s);
      if grid[ci].DoneFlag >= 0 {
        var (na, nb) := OnLine(d, line, k + 1);
        Cross(ca, cb, pa, pb, na, nb);
      } else {
        var (na, nb) := OnLine(d, line, k - 2);
        Cross(pa, pb, ca, cb, na, nb);
      }
    }

    /** One line of an `Initialize` sweep (the inner loop of either sweep). */
    method SweepLine(d: Direction, line: int, ghost g0: seq<FMContainer>)
      requires Valid() && 1 <= line <= Lines(Nx, Ny, d) && |g0| == size
      requires FlagsInRange(g0) && GhostsFixed(Nx, Ny, g0)
      requires SweptUpTo(Nx, Ny, g0, grid[..], h, d, line, 1)
      requires Seeds(Nx, Ny, grid[..], ClosePoints)
      modifies this, grid
      ensures SweptUpTo(Nx, Ny, g0, grid[..], h, d, line, Length(Nx, Ny, d))
      ensures Seeds(Nx, Ny, grid[..], ClosePoints)
      ensures |ClosePoints| >= |old(ClosePoints)| && ClosePoints[..|old(ClosePoints)|] == old(ClosePoints)
      ensures heapSize == old(heapSize)
    {
      var (fa, fb) := OnLine(d, line, 1);
      GIRange(Nx, Ny, fa, fb);
      var flag := grid[GI(Nx, fa, fb)].DoneFlag;
      assert At(Nx, Ny, grid[..], fa, fb) == At(Nx, Ny, g0, fa, fb);
      for k := 2 to Length(Nx, Ny, d) + 1
        invariant LineState(d, line, k - 1, flag, g0, old(ClosePoints), old(heapSize))
      {
        flag := SweepPair(d, line, k, flag, g0);
      }
    }

    /**
     * The state of a sweep of line `line` at position k: swept up to k, with
     * `flag` tracking the cell at k, the close list still made of close
     * points and extending `cp0`, and the heap size still `n0`.
     */
    ghost predicate LineState(d: Direction, line: int, k: int, flag: int, g0: seq<FMContainer>, cp0: seq<int>, n0: int)
      reads this, grid
    {
      Valid() && |g0| == size && 1 <= line <= Lines(Nx, Ny, d) && 1 <= k <= Length(Nx, Ny, d) &&
      SweptUpTo(Nx, Ny, g0, grid[..], h, d, line, k) && Tracks(Nx, Ny, grid[..], d, line, k, flag) &&
      Seeds(Nx, Ny, grid[..], ClosePoints) && |ClosePoints| >= |cp0| && ClosePoints[..|cp0|] == cp0 && heapSize == n0
    }

    /**
     * `Initialize`: sweep every column, then every row, marking Done each
     * open cell that sits next to a fixed one on the line (with value
     * min(own, |h + neighbour|)) and listing the open cell beyond it as close.
     */
    method Initialize()
      requires Valid() && FlagsInRange(grid[..]) && GhostsFixed(Nx, Ny, grid[..])
      requires Seeds(Nx, Ny, grid[..], ClosePoints)
      modifies this, grid
      ensures grid[..] == Initialized(Nx, Ny, old(grid[..]), h)
      ensures Seeds(Nx, Ny, grid[..], ClosePoints)
      ensures |ClosePoints| >= |old(ClosePoints)| && ClosePoints[..|old(ClosePoints)|] == old(ClosePoints)
      ensures heapSize == old(heapSize)
    {
      ghost var g0 := grid[..];
      SweepStart(Nx, Ny, g0, h, Columns);
      for i := 1 to Nx + 1
        invariant SweptUpTo(Nx, Ny, g0, grid[..], h, Columns, i, 1)
        invariant Seeds(Nx, Ny, grid[..], ClosePoints)
        invariant |ClosePoints| >= |old(ClosePoints)| && ClosePoints[..|old(ClosePoints)|] == old(ClosePoints)
        invariant heapSize == old(heapSize)
      {
        SweepLine(Columns, i, g0);
        SweepNextLine(Nx, Ny, g0, grid[..], h, Columns, i);
      }
      SweepDone(Nx, Ny, g0, grid[..], h, Columns);
      ghost var g1 := grid[..];
      SweptKeeps(Nx, Ny, g0, h, Columns);
      SweepStart(Nx, Ny, g1, h, Rows);
      for j := 1 to Ny + 1
        invariant SweptUpTo(Nx, Ny, g1, grid[..], h, Rows, j, 1)
        invariant Seeds(Nx, Ny, grid[..], ClosePoints)
        invariant |ClosePoints| >= |old(ClosePoints)| && ClosePoints[..|old(ClosePoints)|] == old(ClosePoints)
        invariant heapSize == old(heapSize)
      {
        SweepLine(Rows, j, g1);
        SweepNextLine(Nx, Ny, g1, grid[..], h, Rows, j);
      }
      SweepDone(Nx, Ny, g1, grid[..], h, Rows);
    }

    /**
     * `FindPhi(index, x, y)` for open interior cell (x, y) next to a Done
     * cell: build the upwind stencil of its Done neighbours and, unless the
     * discriminant is negative (see `DiscriminantPositive`), store the root
     * of the upwind quadratic as its value, then add the cell to the heap or,
     * when it is already there, sift it up.
     */
    method FindPhi(index: int, x: int, y: int)
      requires Valid() && MarchInv(Nx, Ny, grid[..], FMHeap[..], heapSize) && NonNegative(grid[..])
      requires IsInterior(Nx, Ny, x, y) && index == GI(Nx, x, y) && 0 <= index < size && grid[index].DoneFlag == 0
      requires DoneNeighbour(Nx, Ny, grid[..], x, y)
      modifies this, grid, FMHeap
      ensures MarchInv(Nx, Ny, grid[..], FMHeap[..], heapSize) && NonNegative(grid[..])
      ensures ClosePoints == old(ClosePoints)
      ensures var s := Stencil2(Nx, Ny, old(grid[..]), hInv, x, y);
              var q := Quotient(s, h);
              (q < 0.0 ==> grid[..] == old(grid[..]) && FMHeap[..] == old(FMHeap[..]) && heapSize == old(heapSize)) &&
              (q >= 0.0 ==>
                s.a != 0 && grid[index].value == Root(s, sqrt(q)) && SolvesUpwind(s, h, grid[index].value) &&
                InHeap(grid[..], FMHeap[..], heapSize, index) &&
                heapSize == old(heapSize) + (if old(grid[index].HeapPosition) == -1 then 1 else 0))
      ensures Settled(old(grid[..]), grid[..]) && HeapKeeps(old(grid[..]), old(FMHeap[..]), old(heapSize), grid[..], FMHeap[..], heapSize)
      ensures forall c {:trigger grid[c]} :: 0 <= c < size && c != index ==> grid[c].value == old(grid[c].value)
      ensures old(Ordered(grid[..], FMHeap[..], heapSize)) &&
              (old(grid[index].HeapPosition) == -1 || grid[index].value <= old(grid[index].value)) ==>
              Ordered(grid[..], FMHeap[..], heapSize)
    {
      var solved, phi := SolvePhi(x, y);
      if solved {
        StorePhi(index, phi);
      }
    }

    /**
     * The arithmetic of `FindPhi` for interior cell (x, y) next to a Done
     * cell: the upwind stencil of its Done neighbours (`CheckFront`,
     * `CheckBehind`, `CheckMax2`) and, when the discriminant is not negative,
     * the larger root of the upwind quadratic. The root solves the quadratic,
     * is no smaller than the neighbour values it was built from, and is
     * non-negative.
     */
    method SolvePhi(x: int, y: int) returns (solved: bool, phi: real)
      requires Valid() && NonNegative(grid[..]) && IsInterior(Nx, Ny, x, y) && DoneNeighbour(Nx, Ny, grid[..], x, y)
      ensures var s := Stencil2(Nx, Ny, grid[..], hInv, x, y);
              var q := Quotient(s, h);
              (solved <==> q >= 0.0) && (solved ==> s.a != 0 && phi == Root(s, sqrt(q)) && SolvesUpwind(s, h, phi))
    {
      GIRange(Nx, Ny, x + 1, y);
      GIRange(Nx, Ny, x - 1, y);
      GIRange(Nx, Ny, x, y + 1);
      GIRange(Nx, Ny, x, y - 1);
      var right, left, up, down := grid[GI(Nx, x + 1, y)], grid[GI(Nx, x - 1, y)], grid[GI(Nx, x, y + 1)], grid[GI(Nx, x, y - 1)];
      var s := Select2(right, left, up, down, hInv);
      assert s == Stencil2(Nx, Ny, grid[..], hInv, x, y);
      var quotient := Quotient(s, h);
      if quotient < 0.0 {
        // The source only logs here.
        solved, phi := false, 0.0;
        SolveOutcomeWith(right, left, up, down, h, hInv, s, quotient, 0.0, solved, phi);
      } else {
        Select2Active(right, left, up, down, h, hInv);
        solved, phi := true, Root(s, sqrt(quotient));
        var r := SqrtOf(sqrt, quotient);
        SolveOutcomeWith(right, left, up, down, h, hInv, s, quotient, r, solved, phi);
      }
    }

    /**
     * The last step of `FindPhi`: store the new value of open cell `index`,
     * then `AddToHeap` when it has no back-index, `UpdateHeap` otherwise.
     */
    method StorePhi(index: int, phi: real)
      requires Valid() && MarchInv(Nx, Ny, grid[..], FMHeap[..], heapSize) && NonNegative(grid[..])
      requires 0 <= index < size && grid[index].DoneFlag == 0 && phi >= 0.0
      modifies this, grid, FMHeap
      ensures MarchInv(Nx, Ny, grid[..], FMHeap[..], heapSize) && NonNegative(grid[..])
      ensures ClosePoints == old(ClosePoints)
      ensures grid[index].value == phi && InHeap(grid[..], FMHeap[..], heapSize, index)
      ensures heapSize == old(heapSize) + (if old(grid[index].HeapPosition) == -1 then 1 else 0)
      ensures Settled(old(grid[..]), grid[..]) && HeapKeeps(old(grid[..]), old(FMHeap[..]), old(heapSize), grid[..], FMHeap[..], heapSize)
      ensures forall c {:trigger grid[c]} :: 0 <= c < size && c != index ==> grid[c].value == old(grid[c].value)
      ensures old(Ordered(grid[..], FMHeap[..], heapSize)) &&
              (old(grid[index].HeapPosition) == -1 || phi <= old(grid[index].value)) ==>
              Ordered(grid[..], FMHeap[..], heapSize)
    {
      ghost var g0, h0, n0 := grid[..], FMHeap[..], heapSize;
      grid[index] := grid[index].(value := phi);
      ghost var g1 := grid[..];
      ValueWritten(Nx, Ny, g0, h0, n0, index, phi);
      if grid[index].HeapPosition == -1 {
        OrderedOutside(g0, h0, n0, index, phi);
        HeapRoom(g1, h0, n0, index);
        heapSize := AddToHeap(grid, FMHeap, heapSize, index);
      } else {
        assert g1[index := g1[index].(value := g0[index].value)] == g0;
        UpdateHeap(grid, FMHeap, heapSize, index, g0[index].value);
      }
      RebuiltInv(Nx, Ny, g1, h0, n0, grid[..], FMHeap[..], heapSize, index);
      SettledTrans(g0, h0, n0, g1, h0, n0, grid[..], FMHeap[..], heapSize);
    }

    /**
     * The body of the `InitHeap` loop for one close point: an open close
     * point outside the heap is evaluated by `FindPhi` (`GIJ` recovers its
     * coordinates), which puts it in the heap.
     */
    method InitPoint(e: int)
      requires Valid() && MarchInv(Nx, Ny, grid[..], FMHeap[..], heapSize) && NonNegative(grid[..])
      requires Seeded(Nx, Ny, grid[..], e) && Ordered(grid[..], FMHeap[..], heapSize)
      modifies this, grid, FMHeap
      ensures MarchInv(Nx, Ny, grid[..], FMHeap[..], heapSize) && NonNegative(grid[..])
      ensures Ordered(grid[..], FMHeap[..], heapSize)
      ensures ClosePoints == old(ClosePoints)
      ensures Settled(old(grid[..]), grid[..]) && HeapKeeps(old(grid[..]), old(FMHeap[..]), old(heapSize), grid[..], FMHeap[..], heapSize)
      ensures grid[e].DoneFlag == 0 ==> InHeap(grid[..], FMHeap[..], heapSize, e)
    {
      if grid[e].HeapPosition == -1 && grid[e].DoneFlag == 0 {
        var (x, y) := GIJ(Nx, NxInv, e);
        ColRowRange(Nx, Ny, e);
        GIJInvertsGI(Nx, Ny, NxInv, Col(Nx, e), Row(Nx, e));
        DiscriminantPositive(Nx, Ny, grid[..], h, hInv, x, y);
        FindPhi(e, x, y);
      }
    }

    /**
     * `InitHeap`: run `FindPhi` on every close point that is open and not
     * yet in the heap. Afterwards every open close point is in the heap, the
     * heap is ordered, and no flag and no fixed or Done cell has changed.
     */
    method InitHeap()
      requires Valid() && MarchInv(Nx, Ny, grid[..], FMHeap[..], heapSize) && NonNegative(grid[..])
      requires Seeds(Nx, Ny, grid[..], ClosePoints) && Ordered(grid[..], FMHeap[..], heapSize)
      modifies this, grid, FMHeap
      ensures MarchInv(Nx, Ny, grid[..], FMHeap[..], heapSize) && NonNegative(grid[..])
      ensures Ordered(grid[..], FMHeap[..], heapSize)
      ensures ClosePoints == old(ClosePoints)
      ensures forall c {:trigger grid[c]} :: 0 <= c < size ==>
        grid[c].DoneFlag == old(grid[c].DoneFlag) && (old(grid[c].DoneFlag) != 0 ==> grid[c] == old(grid[c]))
      ensures forall p {:trigger ClosePoints[p]} :: 0 <= p < |ClosePoints| && grid[ClosePoints[p]].DoneFlag == 0 ==>
        InHeap(grid[..], FMHeap[..], heapSize, ClosePoints[p])
    {
      ghost var g0 := grid[..];
      for i := 0 to |ClosePoints|
        invariant MarchInv(Nx, Ny, grid[..], FMHeap[..], heapSize) && NonNegative(grid[..])
        invariant Ordered(grid[..], FMHeap[..], heapSize)
        invariant ClosePoints == old(ClosePoints)
        invariant forall c {:trigger grid[c]} :: 0 <= c < size ==>
          grid[c].DoneFlag == g0[c].DoneFlag && (g0[c].DoneFlag != 0 ==> grid[c] == g0[c])
        invariant forall p {:trigger ClosePoints[p]} :: 0 <= p < i && grid[ClosePoints[p]].DoneFlag == 0 ==>
          InHeap(grid[..], FMHeap[..], heapSize, ClosePoints[p])
      {
        ghost var gi := grid[..];
        ghost var hi, ni := FMHeap[..], heapSize;
        assert Seeds(Nx, Ny, g0, ClosePoints);
        SeedsSameFlags(Nx, Ny, g0, gi, ClosePoints);
        InitPoint(ClosePoints[i]);
        forall p | 0 <= p < i + 1 && grid[ClosePoints[p]].DoneFlag == 0
          ensures InHeap(grid[..], FMHeap[..], heapSize, ClosePoints[p])
        {
          if p < i {
            assert InHeap(gi, hi, ni, ClosePoints[p]);
          }
        }
      }
    }

    /**
     * One neighbour step of `FastMarch`: neighbour (a, b) of Done interior
     * cell (x, y) is re-evaluated by `FindPhi` when it is open. Afterwards
     * it is in the heap if it is open, and its new value solves the upwind
     * quadratic of its old neighbourhood; fixed and Done cells and all flags
     * are unchanged, and the heap keeps every cell it held.
     */
    method MarchNeighbour(x: int, y: int, a: int, b: int)
      requires Valid() && MarchInv(Nx, Ny, grid[..], FMHeap[..], heapSize) && NonNegative(grid[..])
      requires IsInterior(Nx, Ny, x, y) && At(Nx, Ny, grid[..], x, y).DoneFlag == 1
      requires (a == x && (b == y + 1 || b == y - 1)) || (b == y && (a == x + 1 || a == x - 1))
      modifies this, grid, FMHeap
      ensures MarchInv(Nx, Ny, grid[..], FMHeap[..], heapSize) && NonNegative(grid[..])
      ensures ClosePoints == old(ClosePoints)
      ensures Queued(grid[..], FMHeap[..], heapSize, GI(Nx, a, b))
      ensures old(grid[GI(Nx, a, b)].DoneFlag) == 0 ==>
        IsInterior(Nx, Ny, a, b) && SolvesUpwind(Stencil2(Nx, Ny, old(grid[..]), hInv, a, b), h, grid[GI(Nx, a, b)].value)
      ensures Settled(old(grid[..]), grid[..]) && HeapKeeps(old(grid[..]), old(FMHeap[..]), old(heapSize), grid[..], FMHeap[..], heapSize)
    {
      GIRange(Nx, Ny, a, b);
      var c := GI(Nx, a, b);
      if grid[c].DoneFlag == 0 {
        assert At(Nx, Ny, grid[..], a, b) == grid[c];
        assert !IsGhost(Nx, Ny, a, b);
        assert DoneNeighbour(Nx, Ny, grid[..], a, b);
        DiscriminantPositive(Nx, Ny, grid[..], h, hInv, a, b);
        FindPhi(c, a, b);
      }
    }

    /**
     * The body of the `FastMarch` loop for popped cell (x, y): its left,
     * right, lower and upper neighbours, in the source's order. Afterwards
     * every open one of them is in the heap.
     */
    method MarchFrom(x: int, y: int)
      requires Valid() && MarchInv(Nx, Ny, grid[..], FMHeap[..], heapSize) && NonNegative(grid[..])
      requires IsInterior(Nx, Ny, x, y) && At(Nx, Ny, grid[..], x, y).DoneFlag == 1
      modifies this, grid, FMHeap
      ensures MarchInv(Nx, Ny, grid[..], FMHeap[..], heapSize) && NonNegative(grid[..])
      ensures ClosePoints == old(ClosePoints)
      ensures Queued(grid[..], FMHeap[..], heapSize, GI(Nx, x - 1, y)) && Queued(grid[..], FMHeap[..], heapSize, GI(Nx, x + 1, y)) &&
              Queued(grid[..], FMHeap[..], heapSize, GI(Nx, x, y - 1)) && Queued(grid[..], FMHeap[..], heapSize, GI(Nx, x, y + 1))
      ensures Settled(old(grid[..]), grid[..]) && HeapKeeps(old(grid[..]), old(FMHeap[..]), old(heapSize), grid[..], FMHeap[..], heapSize)
    {
      GIRange(Nx, Ny, x, y);
      ghost var g0, h0, n0 := grid[..], FMHeap[..], heapSize;
      MarchAxis(x, y, 1, 0);
      ghost var g1, h1, n1 := grid[..], FMHeap[..], heapSize;
      MarchAxis(x, y, 0, 1);
      QueuedSettled(g1, h1, n1, grid[..], FMHeap[..], heapSize, GI(Nx, x - 1, y));
      QueuedSettled(g1, h1, n1, grid[..], FMHeap[..], heapSize, GI(Nx, x + 1, y));
      SettledTrans(g0, h0, n0, g1, h1, n1, grid[..], FMHeap[..], heapSize);
    }

    /** Half of `MarchFrom`: the neighbours (x - dx, y - dy), then (x + dx, y + dy). */
    method MarchAxis(x: int, y: int, dx: int, dy: int)
      requires Valid() && MarchInv(Nx, Ny, grid[..], FMHeap[..], heapSize) && NonNegative(grid[..])
      requires IsInterior(Nx, Ny, x, y) && At(Nx, Ny, grid[..], x, y).DoneFlag == 1
      requires (dx == 1 && dy == 0) || (dx == 0 && dy == 1)
      modifies this, grid, FMHeap
      ensures MarchInv(Nx, Ny, grid[..], FMHeap[..], heapSize) && NonNegative(grid[..])
      ensures ClosePoints == old(ClosePoints)
      ensures Queued(grid[..], FMHeap[..], heapSize, GI(Nx, x - dx, y - dy)) && Queued(grid[..], FMHeap[..], heapSize, GI(Nx, x + dx, y + dy))
      ensures Settled(old(grid[..]), grid[..]) && HeapKeeps(old(grid[..]), old(FMHeap[..]), old(heapSize), grid[..], FMHeap[..], heapSize)
    {
      GIRange(Nx, Ny, x, y);
      ghost var g0, h0, n0 := grid[..], FMHeap[..], heapSize;
      MarchNeighbour(x, y, x - dx, y - dy);
      ghost var g1, h1, n1 := grid[..], FMHeap[..], heapSize;
      assert At(Nx, Ny, g1, x, y) == g1[GI(Nx, x, y)];
      MarchNeighbour(x, y, x + dx, y + dy);
      QueuedSettled(g1, h1, n1, grid[..], FMHeap[..], heapSize, GI(Nx, x - dx, y - dy));
      SettledTrans(g0, h0, n0, g1, h1, n1, grid[..], FMHeap[..], heapSize);
    }

    /**
     * `PopHeap` on the march state: -1 on an empty heap, otherwise the
     * former root, now Done, an interior cell, with one open cell fewer.
     */
    method Pop() returns (index: int)
      requires Valid() && MarchInv(Nx, Ny, grid[..], FMHeap[..], heapSize) && NonNegative(grid[..])
      modifies this, grid, FMHeap
      ensures MarchInv(Nx, Ny, grid[..], FMHeap[..], heapSize) && NonNegative(grid[..])
      ensures ClosePoints == old(ClosePoints)
      ensures index == -1 <==> old(heapSize) == 0
      ensures index == -1 ==> heapSize == 0 && grid[..] == old(grid[..])
      ensures index != -1 ==>
        0 <= index < size && index == old(FMHeap[0]) && IsInterior(Nx, Ny, Col(Nx, index), Row(Nx, index)) &&
        old(grid[index].DoneFlag) == 0 && grid[index].DoneFlag == 1 && heapSize == old(heapSize) - 1 &&
        |OpenCells(grid[..])| == |OpenCells(old(grid[..]))| - 1
      ensures Kept(old(grid[..]), grid[..]) && FlagsGrow(old(grid[..]), grid[..])
    {
      ghost var g, hp, n := grid[..], FMHeap[..], heapSize;
      var newSize;
      index, newSize := PopHeap(grid, FMHeap, heapSize);
      heapSize := newSize;
      if index != -1 {
        assert hp[0] == index;
        PoppedInv(Nx, Ny, g, hp, n, grid[..], FMHeap[..], heapSize, index);
        ColRowRange(Nx, Ny, index);
        assert At(Nx, Ny, g, Col(Nx, index), Row(Nx, index)) == g[index];
        OpenCellsShrink(g, grid[..], index);
        assert forall c {:trigger grid[c]} :: 0 <= c < size && g[c].DoneFlag != 0 ==> !InHeap(g, hp, n, c);
      }
    }

    /**
     * `FastMarch`: pop cells in heap order and re-evaluate their open
     * neighbours, until the heap is empty (the ghost result is -1) or a
     * popped value exceeds `FASTMARCH_LIMIT` (the ghost result is that cell,
     * now Done). Flags only grow and fixed and Done cells are never touched.
     */
    method FastMarch() returns (ghost last: int)
      requires Valid() && MarchInv(Nx, Ny, grid[..], FMHeap[..], heapSize) && NonNegative(grid[..])
      modifies this, grid, FMHeap
      ensures MarchInv(Nx, Ny, grid[..], FMHeap[..], heapSize) && NonNegative(grid[..])
      ensures ClosePoints == old(ClosePoints)
      ensures Kept(old(grid[..]), grid[..]) && FlagsGrow(old(grid[..]), grid[..])
      ensures last == -1 ==> heapSize == 0
      ensures last != -1 ==> 0 <= last < size && grid[last].DoneFlag == 1 && grid[last].value > FASTMARCH_LIMIT
    {
      ghost var g0 := grid[..];
      var index := Pop();
      while index != -1
        invariant Valid() && MarchInv(Nx, Ny, grid[..], FMHeap[..], heapSize) && NonNegative(grid[..])
        invariant ClosePoints == old(ClosePoints)
        invariant index != -1 ==> 0 <= index < size && IsInterior(Nx, Ny, Col(Nx, index), Row(Nx, index)) && grid[index].DoneFlag == 1
        invariant index == -1 ==> heapSize == 0
        invariant Kept(g0, grid[..]) && FlagsGrow(g0, grid[..])
        decreases |OpenCells(grid[..])| + (if index == -1 then 0 else 1)
      {
        if grid[index].value > FASTMARCH_LIMIT {
          return index;
        }
        var (x, y) := GIJ(Nx, NxInv, index);
        ColRowRange(Nx, Ny, index);
        GIJInvertsGI(Nx, Ny, NxInv, Col(Nx, index), Row(Nx, index));
        assert At(Nx, Ny, grid[..], x, y) == grid[index];
        ghost var g1 := grid[..];
        MarchFrom(x, y);
        ghost var g2 := grid[..];
        OpenCellsSame(g1, g2);
        KeptGrowTrans(g0, g1, g2);
        index := Pop();
        KeptGrowTrans(g0, g2, grid[..]);
      }
      return -1;
    }

    /**
     * `ReinitHalf`: empty the heap and the close list, fix the ghost cells,
     * find the crossings, fill the heap and march. Cells that were fixed
     * (negative) and ghost cells keep their values; every other cell ends
     * with a non-negative value.
     */
    method ReinitHalf()
      requires Valid() && LoadedForm(grid[..])
      modifies this, grid, FMHeap
      ensures forall c {:trigger grid[c]} :: 0 <= c < size ==>
        ((old(grid[c].value) < 0.0 || IsGhost(Nx, Ny, Col(Nx, c), Row(Nx, c))) ==> grid[c].value == old(grid[c].value)) &&
        (old(grid[c].value) >= 0.0 ==> grid[c].value >= 0.0)
    {
      heapSize := 0;
      ClosePoints := [];
      ghost var g0 := grid[..];
      SetBoundary();
      ghost var g1 := grid[..];
      BoundaryLoaded(Nx, Ny, g0, g1);
      Initialize();
      ghost var g2 := grid[..];
      InitializedKeeps(Nx, Ny, g1, h);
      EmptyHeapInv(Nx, Ny, g2, FMHeap[..]);
      InitHeap();
      ghost var g3 := grid[..];
      ghost var last := FastMarch();
      HalfKeeps(Nx, Ny, g0, g1, g2, g3, grid[..]);
    }

    /**
     * `Reinitialize`: march the cells loaded non-negative (the negative
     * side of the level set, whose values `Set` negated), reload every cell
     * with `Set`, and march the other side. With v the loaded value of a
     * cell and `mid` the values between the halves: a cell loaded negative
     * ends non-negative; a cell loaded non-negative has a non-negative
     * `mid` and, when that is positive, ends as its negation; a ghost cell
     * ends as -v, the value first passed to `Set`.
     */
    method Reinitialize() returns (ghost mid: seq<real>)
      requires Valid() && LoadedForm(grid[..])
      modifies this, grid, FMHeap
      ensures |mid| == size
      ensures forall c {:trigger grid[c]} :: 0 <= c < size ==>
        (old(grid[c].value) < 0.0 && IsInterior(Nx, Ny, Col(Nx, c), Row(Nx, c)) ==> grid[c].value >= 0.0) &&
        (old(grid[c].value) >= 0.0 ==> mid[c] >= 0.0 && (mid[c] > 0.0 ==> grid[c].value == -mid[c])) &&
        (IsGhost(Nx, Ny, Col(Nx, c), Row(Nx, c)) ==> grid[c].value == -old(grid[c].value))
    {
      ghost var g0 := grid[..];
      ReinitHalf();
      mid := seq(size, c requires 0 <= c < size reads grid => grid[c].value);
      ghost var g1 := grid[..];
      for i := 0 to size
        invariant forall c {:trigger grid[c]} :: 0 <= c < size ==> grid[c] == if c < i then Loaded(mid[c]) else g1[c]
      {
        Set(i, grid[i].value);
      }
      assert LoadedForm(grid[..]);
      ghost var g2 := grid[..];
      ReinitHalf();
      forall c | 0 <= c < size
        ensures old(grid[c].value) < 0.0 && IsInterior(Nx, Ny, Col(Nx, c), Row(Nx, c)) ==> grid[c].value >= 0.0
        ensures old(grid[c].value) >= 0.0 ==> mid[c] >= 0.0 && (mid[c] > 0.0 ==> grid[c].value == -mid[c])
        ensures IsGhost(Nx, Ny, Col(Nx, c), Row(Nx, c)) ==> grid[c].value == -old(grid[c].value)
      {
        assert g2[c] == Loaded(mid[c]);
        assert g1[c].value == mid[c];
      }
    }
  }

  /** A completed sweep keeps flags in range and ghost cells fixed, and only grows flags. */
  lemma SweptKeeps(Nx: nat, Ny: nat, g: seq<FMContainer>, h: real, d: Direction)
    requires |g| == Size(Nx, Ny) && FlagsInRange(g) && GhostsFixed(Nx, Ny, g)
    ensures FlagsInRange(Swept(Nx, Ny, g, h, d)) && GhostsFixed(Nx, Ny, Swept(Nx, Ny, g, h, d))
    ensures FlagsGrow(g, Swept(Nx, Ny, g, h, d))
  {
    var r := Swept(Nx, Ny, g, h, d);
    forall c | 0 <= c < |g|
      ensures -1 <= r[c].DoneFlag <= 1
      ensures r[c].DoneFlag == g[c].DoneFlag || (g[c].DoneFlag == 0 && r[c].DoneFlag == 1)
    {
      ColRowRange(Nx, Ny, c);
      assert r[c] == At(Nx, Ny, r, Col(Nx, c), Row(Nx, c));
      assert g[c] == At(Nx, Ny, g, Col(Nx, c), Row(Nx, c));
    }
  }

  /**
   * Initialize over the whole grid, cell by cell: fixed cells (ghost cells
   * among them) are unchanged, back-indices are unchanged, flags only move
   * from open to Done, and non-negative values stay non-negative.
   */
  lemma InitializedKeeps(Nx: nat, Ny: nat, g: seq<FMContainer>, h: real)
    requires |g| == Size(Nx, Ny) && FlagsInRange(g) && GhostsFixed(Nx, Ny, g)
    ensures var r := Initialized(Nx, Ny, g, h);
            |r| == |g| && FlagsInRange(r) && GhostsFixed(Nx, Ny, r) && FlagsGrow(g, r) &&
            (forall c {:trigger r[c]} :: 0 <= c < |g| ==>
              r[c].HeapPosition == g[c].HeapPosition && r[c].value <= g[c].value &&
              (g[c].DoneFlag < 0 ==> r[c] == g[c])) &&
            (NonNegative(g) ==> NonNegative(r))
  {
    var g1 := Swept(Nx, Ny, g, h, Columns);
    SweptKeeps(Nx, Ny, g, h, Columns);
    SweptKeeps(Nx, Ny, g1, h, Rows);
    var r := Initialized(Nx, Ny, g, h);
    forall c | 0 <= c < |g|
      ensures r[c].HeapPosition == g[c].HeapPosition && r[c].value <= g[c].value
      ensures g[c].DoneFlag < 0 ==> r[c] == g[c]
      ensures g[c].DoneFlag >= 0 && g[c].value >= 0.0 ==> r[c].value >= 0.0
      ensures r[c].DoneFlag >= 0 ==> g[c].DoneFlag >= 0
    {
      ColRowRange(Nx, Ny, c);
      var a, b := Col(Nx, c), Row(Nx, c);
      assert r[c] == At(Nx, Ny, r, a, b);
      assert g[c] == At(Nx, Ny, g, a, b);
      if IsInterior(Nx, Ny, a, b) {
        InitializedAt(Nx, Ny, g, h, a, b);
      } else {
        assert At(Nx, Ny, g1, a, b) == At(Nx, Ny, g, a, b);
      }
    }
  }

  // ------------------------------------------------------------ the march

  /** The state the march keeps: the heap invariant, with every ghost cell fixed. */
  ghost predicate MarchInv(Nx: nat, Ny: nat, g: seq<FMContainer>, heap: seq<int>, n: int)
    requires |g| == Size(Nx, Ny)
  {
    HeapInv(g, heap, n) && GhostsFixed(Nx, Ny, g)
  }

  /** Ghost cells stay fixed while fixed cells stay fixed. */
  lemma GhostsStay(Nx: nat, Ny: nat, g: seq<FMContainer>, g': seq<FMContainer>)
    requires |g| == Size(Nx, Ny) && GhostsFixed(Nx, Ny, g) && FixedStay(g, g')
    ensures GhostsFixed(Nx, Ny, g')
  {
    forall a, b | IsGhost(Nx, Ny, a, b)
      ensures At(Nx, Ny, g', a, b).DoneFlag == -1
    {
      GIRange(Nx, Ny, a, b);
      assert At(Nx, Ny, g, a, b).DoneFlag == -1;
    }
  }

  /** The stencil `FindPhi` builds for interior cell (x, y): neighbours right, left, up, down. */
  function Stencil2(Nx: nat, Ny: nat, g: seq<FMContainer>, hInv: real, x: int, y: int): Stencil
    requires |g| == Size(Nx, Ny) && IsInterior(Nx, Ny, x, y)
  {
    Select2(At(Nx, Ny, g, x + 1, y), At(Nx, Ny, g, x - 1, y), At(Nx, Ny, g, x, y + 1), At(Nx, Ny, g, x, y - 1), hInv)
  }

  /**
   * Next to a Done cell the discriminant of `FindPhi` is at least h^2, so
   * its negative-discriminant branch is never taken.
   */
  lemma DiscriminantPositive(Nx: nat, Ny: nat, g: seq<FMContainer>, h: real, hInv: real, x: int, y: int)
    requires h > 0.0 && hInv == 1.0 / h
    requires |g| == Size(Nx, Ny) && IsInterior(Nx, Ny, x, y) && DoneNeighbour(Nx, Ny, g, x, y)
    ensures Quotient(Stencil2(Nx, Ny, g, hInv, x, y), h) >= Square(h) > 0.0
    ensures 1 <= Stencil2(Nx, Ny, g, hInv, x, y).a <= 2
  {
    Select2Upwind(At(Nx, Ny, g, x + 1, y), At(Nx, Ny, g, x - 1, y), At(Nx, Ny, g, x, y + 1), At(Nx, Ny, g, x, y - 1), h, hInv);
    QuotientBound(Stencil2(Nx, Ny, g, hInv, x, y), h);
    MulPos(h, h);
  }

  /** Writing a cell's value keeps the march invariant. */
  lemma ValueWritten(Nx: nat, Ny: nat, g: seq<FMContainer>, heap: seq<int>, n: int, index: int, v: real)
    requires |g| == Size(Nx, Ny) && MarchInv(Nx, Ny, g, heap, n) && 0 <= index < |g|
    ensures MarchInv(Nx, Ny, g[index := g[index].(value := v)], heap, n)
    ensures HeapKeeps(g, heap, n, g[index := g[index].(value := v)], heap, n)
    ensures g[index].DoneFlag == 0 ==> Settled(g, g[index := g[index].(value := v)])
  {
    HeapValueWritten(g, heap, n, index, v);
    GhostsStay(Nx, Ny, g, g[index := g[index].(value := v)]);
  }

  /** `HeapRebuilt` on the march state. */
  lemma RebuiltInv(Nx: nat, Ny: nat, g: seq<FMContainer>, heap: seq<int>, n: int,
                   g': seq<FMContainer>, heap': seq<int>, n': int, index: int)
    requires |g| == Size(Nx, Ny) && MarchInv(Nx, Ny, g, heap, n) && 0 <= index < |g| && g[index].DoneFlag == 0
    requires Linked(g', heap', n') && |heap'| == |g'| && SameKeys(g, g')
    requires forall c {:trigger InHeap(g, heap, n, c)} :: 0 <= c < |g| ==>
      (InHeap(g', heap', n', c) <==> InHeap(g, heap, n, c) || c == index)
    requires forall c {:trigger g[c]} :: 0 <= c < |g| && c != index && !InHeap(g, heap, n, c) ==> g'[c] == g[c]
    ensures MarchInv(Nx, Ny, g', heap', n')
    ensures Settled(g, g') && HeapKeeps(g, heap, n, g', heap', n')
  {
    HeapRebuilt(g, heap, n, g', heap', n', index);
    GhostsStay(Nx, Ny, g, g');
  }

  /** `HeapPopped` on the march state. */
  lemma PoppedInv(Nx: nat, Ny: nat, g: seq<FMContainer>, heap: seq<int>, n: int,
                  g': seq<FMContainer>, heap': seq<int>, n': int, index: int)
    requires |g| == Size(Nx, Ny) && MarchInv(Nx, Ny, g, heap, n) && 0 <= index < |g| && g[index].DoneFlag == 0
    requires Linked(g', heap', n') && |heap'| == |g'| && |g'| == |g|
    requires forall c {:trigger g[c]} :: 0 <= c < |g| ==>
      g'[c].value == g[c].value && g'[c].DoneFlag == (if c == index then 1 else g[c].DoneFlag)
    requires forall c {:trigger InHeap(g, heap, n, c)} :: 0 <= c < |g| ==>
      (InHeap(g', heap', n', c) <==> InHeap(g, heap, n, c) && c != index)
    requires forall c {:trigger g[c]} :: 0 <= c < |g| && !InHeap(g, heap, n, c) ==> g'[c] == g[c]
    ensures MarchInv(Nx, Ny, g', heap', n')
  {
    HeapPopped(g, heap, n, g', heap', n', index);
    GhostsStay(Nx, Ny, g, g');
  }

  /** Close points stay close points when no flag changes. */
  lemma SeedsSameFlags(Nx: nat, Ny: nat, g: seq<FMContainer>, g': seq<FMContainer>, cp: seq<int>)
    requires |g| == Size(Nx, Ny) && Seeds(Nx, Ny, g, cp) && |g'| == |g|
    requires forall c {:trigger g'[c]} :: 0 <= c < |g| ==> g'[c].DoneFlag == g[c].DoneFlag
    ensures Seeds(Nx, Ny, g', cp)
  {
    assert FlagsGrow(g, g');
    SeedsGrow(Nx, Ny, g, g', cp);
  }

  /**
   * After `SetBoundary` on loaded cells: a cell is fixed exactly when it is
   * a ghost cell or its value is negative, open otherwise, with every value
   * and back-index as loaded.
   */
  lemma BoundaryLoaded(Nx: nat, Ny: nat, g0: seq<FMContainer>, g1: seq<FMContainer>)
    requires |g0| == Size(Nx, Ny) && |g1| == Size(Nx, Ny) && LoadedForm(g0)
    requires forall a, b {:trigger At(Nx, Ny, g1, a, b)} :: InGrid(Nx, Ny, a, b) ==>
      At(Nx, Ny, g1, a, b) == if IsGhost(Nx, Ny, a, b) then Pinned(At(Nx, Ny, g0, a, b)) else At(Nx, Ny, g0, a, b)
    ensures FlagsInRange(g1) && GhostsFixed(Nx, Ny, g1) && NonNegative(g1)
    ensures forall c {:trigger g1[c]} :: 0 <= c < |g0| ==>
      g1[c].value == g0[c].value && g1[c].HeapPosition == -1 &&
      g1[c].DoneFlag == (if IsGhost(Nx, Ny, Col(Nx, c), Row(Nx, c)) || g0[c].value < 0.0 then -1 else 0)
  {
    forall c | 0 <= c < |g0|
      ensures g1[c].value == g0[c].value && g1[c].HeapPosition == -1
      ensures g1[c].DoneFlag == (if IsGhost(Nx, Ny, Col(Nx, c), Row(Nx, c)) || g0[c].value < 0.0 then -1 else 0)
    {
      ColRowRange(Nx, Ny, c);
      assert At(Nx, Ny, g1, Col(Nx, c), Row(Nx, c)) == g1[c];
      assert At(Nx, Ny, g0, Col(Nx, c), Row(Nx, c)) == g0[c];
    }
    forall a, b | IsGhost(Nx, Ny, a, b)
      ensures At(Nx, Ny, g1, a, b).DoneFlag == -1
    {
    }
  }

  /** With every back-index -1, an empty heap satisfies the march invariant and is ordered. */
  lemma EmptyHeapInv(Nx: nat, Ny: nat, g: seq<FMContainer>, heap: seq<int>)
    requires |g| == Size(Nx, Ny) && |heap| == |g| && FlagsInRange(g) && GhostsFixed(Nx, Ny, g)
    requires forall c {:trigger g[c]} :: 0 <= c < |g| ==> g[c].HeapPosition == -1
    ensures MarchInv(Nx, Ny, g, heap, 0) && Ordered(g, heap, 0)
  {
    EmptyHeap(g, heap);
  }

  /**
   * The four stages of `ReinitHalf` together: fixed and ghost cells keep
   * their loaded values, and every cell loaded non-negative ends non-negative.
   */
  lemma HalfKeeps(Nx: nat, Ny: nat, g0: seq<FMContainer>, g1: seq<FMContainer>, g2: seq<FMContainer>,
                  g3: seq<FMContainer>, g4: seq<FMContainer>)
    requires |g0| == Size(Nx, Ny) && |g1| == |g0| && |g2| == |g0| && |g3| == |g0| && |g4| == |g0|
    requires forall c {:trigger g1[c]} :: 0 <= c < |g0| ==>
      g1[c].value == g0[c].value &&
      g1[c].DoneFlag == (if IsGhost(Nx, Ny, Col(Nx, c), Row(Nx, c)) || g0[c].value < 0.0 then -1 else 0)
    requires FlagsGrow(g1, g2) && forall c {:trigger g2[c]} :: 0 <= c < |g0| && g1[c].DoneFlag < 0 ==> g2[c] == g1[c]
    requires forall c {:trigger g3[c]} :: 0 <= c < |g0| ==>
      g3[c].DoneFlag == g2[c].DoneFlag && (g2[c].DoneFlag != 0 ==> g3[c] == g2[c])
    requires Kept(g3, g4) && FlagsGrow(g3, g4) && NonNegative(g4)
    ensures forall c {:trigger g4[c]} :: 0 <= c < |g0| ==>
      ((g0[c].value < 0.0 || IsGhost(Nx, Ny, Col(Nx, c), Row(Nx, c))) ==> g4[c].value == g0[c].value) &&
      (g0[c].value >= 0.0 ==> g4[c].value >= 0.0)
  {
    forall c | 0 <= c < |g0|
      ensures (g0[c].value < 0.0 || IsGhost(Nx, Ny, Col(Nx, c), Row(Nx, c))) ==> g4[c].value == g0[c].value
      ensures g0[c].value >= 0.0 ==> g4[c].value >= 0.0
    {
      assert g1[c].value == g0[c].value;
      if g1[c].DoneFlag < 0 {
        assert g2[c] == g1[c];
        assert g3[c] == g2[c];
        assert g4[c] == g3[c];
      } else {
        assert g2[c].DoneFlag >= 0;
        assert g3[c].DoneFlag >= 0;
        assert g4[c].DoneFlag >= 0;
      }
    }
  }
}
