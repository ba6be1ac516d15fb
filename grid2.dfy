/**
 * The 2D scalar grid with a one-cell ghost border. Cell (i, j), with
 * 0 <= i <= Nx+1 and 0 <= j <= Ny+1, is stored at GI(i, j) = i + (Nx+2)*j of
 * an array of (Nx+2)*(Ny+2) values; the interior is 1..Nx by 1..Ny.
 *
 * Each boundary routine is specified by a function from the old cell sequence
 * to the new one: first an edge stage (the left/right and top/bottom ghost
 * rows), then, except for Dirichlet, the corner stage that averages two edge
 * ghosts into each corner.
 */
module Grid2 {
  import opened Numerics

  // ------------------------------------------------------- index arithmetic
  //
  // The stride (Nx+2)*j is defined by repeated addition, so that the solver
  // reasons about indices linearly; `StrideIsProduct` connects it to the
  // product.

  /** `(Nx+2) * j`, the start of row j. */
  function Stride(Nx: nat, j: int): int
    decreases if j < 0 then -j else j
  {
    if j == 0 then 0
    else if j > 0 then Stride(Nx, j - 1) + (Nx + 2)
    else Stride(Nx, j + 1) - (Nx + 2)
  }

  lemma {:induction false} StrideIsProduct(Nx: nat, j: int)
    ensures Stride(Nx, j) == (Nx + 2) * j
    decreases if j < 0 then -j else j
  {
    if j > 0 {
      StrideIsProduct(Nx, j - 1);
    } else if j < 0 {
      StrideIsProduct(Nx, j + 1);
    }
  }

  /** Later rows start later: `Stride` is strictly increasing in j, for j >= 0. */
  lemma {:induction false} StrideMonotone(Nx: nat, j1: nat, j2: nat)
    requires j1 <= j2
    ensures Stride(Nx, j1) <= Stride(Nx, j2)
    ensures j1 < j2 ==> Stride(Nx, j1) + (Nx + 2) <= Stride(Nx, j2)
    decreases j2
  {
    if j1 < j2 {
      StrideMonotone(Nx, j1, j2 - 1);
    }
  }

  /** The number of cells, ghost cells included: (Nx+2)*(Ny+2). */
  function Size(Nx: nat, Ny: nat): nat
  {
    StrideMonotone(Nx, 0, Ny + 2);
    Stride(Nx, Ny + 2)
  }

  /** `GI`: the linear index of cell (i, j), i + (Nx+2)*j. */
  function GI(Nx: nat, i: int, j: int): int
  {
    i + Stride(Nx, j)
  }

  /**
   * The column of a linear index: what is left after removing whole rows of
   * width Nx+2 (the remainder of k by Nx+2, for k >= 0).
   */
  function Col(Nx: nat, k: int): int
    decreases if k < 0 then 0 else k
  {
    if k < Nx + 2 then k else Col(Nx, k - (Nx + 2))
  }

  /** The row of a linear index: the number of whole rows before it. */
  function Row(Nx: nat, k: int): int
    decreases if k < 0 then 0 else k
  {
    if k < Nx + 2 then 0 else 1 + Row(Nx, k - (Nx + 2))
  }

  /** For k >= 0, column and row are the remainder and quotient by Nx+2. */
  lemma {:induction false} ColRowDivMod(Nx: nat, k: int)
    requires k >= 0
    ensures 0 <= Col(Nx, k) < Nx + 2 && Row(Nx, k) >= 0
    ensures k == GI(Nx, Col(Nx, k), Row(Nx, k))
    decreases k
  {
    if k >= Nx + 2 {
      ColRowDivMod(Nx, k - (Nx + 2));
    }
  }

  /** With exact arithmetic, `GI` is i + (Nx+2)*j, and column and row are k % (Nx+2) and k / (Nx+2). */
  lemma ColRowAreModDiv(Nx: nat, k: int)
    requires k >= 0
    ensures Col(Nx, k) == k % (Nx + 2) && Row(Nx, k) == k / (Nx + 2)
  {
    ColRowDivMod(Nx, k);
    StrideIsProduct(Nx, Row(Nx, k));
    assert k == Col(Nx, k) + (Nx + 2) * Row(Nx, k);
    assert k == Row(Nx, k) * (Nx + 2) + Col(Nx, k);
    RemainderUnique(k, Nx + 2, Row(Nx, k), Col(Nx, k));
  }

  predicate InGrid(Nx: nat, Ny: nat, i: int, j: int)
  {
    0 <= i <= Nx + 1 && 0 <= j <= Ny + 1
  }

  predicate IsInterior(Nx: nat, Ny: nat, i: int, j: int)
  {
    1 <= i <= Nx && 1 <= j <= Ny
  }

  /** Ghost cells of the left and right border, corners excluded. */
  predicate IsLeftRight(Nx: nat, Ny: nat, i: int, j: int)
  {
    (i == 0 || i == Nx + 1) && 1 <= j <= Ny
  }

  /** Ghost cells of the bottom (j = 0) and top (j = Ny+1) border, corners excluded. */
  predicate IsTopBottom(Nx: nat, Ny: nat, i: int, j: int)
  {
    (j == 0 || j == Ny + 1) && 1 <= i <= Nx
  }

  predicate IsCorner(Nx: nat, Ny: nat, i: int, j: int)
  {
    (i == 0 || i == Nx + 1) && (j == 0 || j == Ny + 1)
  }

  predicate IsGhost(Nx: nat, Ny: nat, i: int, j: int)
  {
    InGrid(Nx, Ny, i, j) && !IsInterior(Nx, Ny, i, j)
  }

  /** Every ghost cell is exactly one of: a side ghost, a top/bottom ghost, a corner. */
  lemma GhostKinds(Nx: nat, Ny: nat, i: int, j: int)
    requires 1 <= Nx && 1 <= Ny
    ensures IsGhost(Nx, Ny, i, j) <==>
      IsLeftRight(Nx, Ny, i, j) || IsTopBottom(Nx, Ny, i, j) || IsCorner(Nx, Ny, i, j)
    ensures !(IsLeftRight(Nx, Ny, i, j) && IsTopBottom(Nx, Ny, i, j))
    ensures !(IsLeftRight(Nx, Ny, i, j) && IsCorner(Nx, Ny, i, j))
    ensures !(IsTopBottom(Nx, Ny, i, j) && IsCorner(Nx, Ny, i, j))
  {
  }

  /** `GI` maps the padded grid into [0, size), and column and row recover (i, j). */
  lemma GIRange(Nx: nat, Ny: nat, i: int, j: int)
    requires InGrid(Nx, Ny, i, j)
    ensures 0 <= GI(Nx, i, j) < Size(Nx, Ny)
    ensures Col(Nx, GI(Nx, i, j)) == i && Row(Nx, GI(Nx, i, j)) == j
  {
    StrideMonotone(Nx, 0, j);
    StrideMonotone(Nx, j, Ny + 2);
    ColRowOfGI(Nx, i, j);
  }

  lemma {:induction false} ColRowOfGI(Nx: nat, i: int, j: nat)
    requires 0 <= i < Nx + 2
    ensures Col(Nx, GI(Nx, i, j)) == i && Row(Nx, GI(Nx, i, j)) == j
    decreases j
  {
    if j > 0 {
      assert GI(Nx, i, j) - (Nx + 2) == GI(Nx, i, j - 1);
      ColRowOfGI(Nx, i, j - 1);
    }
  }

  /** Every index in [0, size) is GI of its column and row: `GI` is onto. */
  lemma ColRowRange(Nx: nat, Ny: nat, k: int)
    requires 0 <= k < Size(Nx, Ny)
    ensures InGrid(Nx, Ny, Col(Nx, k), Row(Nx, k))
    ensures GI(Nx, Col(Nx, k), Row(Nx, k)) == k
  {
    ColRowDivMod(Nx, k);
    if Row(Nx, k) > Ny + 1 {
      StrideMonotone(Nx, Ny + 2, Row(Nx, k));
      assert false;
    }
  }

  /** `GI` is injective on the padded grid. */
  lemma GIInjective(Nx: nat, Ny: nat, i1: int, j1: int, i2: int, j2: int)
    requires InGrid(Nx, Ny, i1, j1) && InGrid(Nx, Ny, i2, j2)
    requires GI(Nx, i1, j1) == GI(Nx, i2, j2)
    ensures i1 == i2 && j1 == j2
  {
    GIRange(Nx, Ny, i1, j1);
    GIRange(Nx, Ny, i2, j2);
  }

  /** `GIRange` for all cells at once. */
  lemma GIFacts(Nx: nat, Ny: nat)
    ensures forall i, j {:trigger GI(Nx, i, j)} :: InGrid(Nx, Ny, i, j) ==>
      0 <= GI(Nx, i, j) < Size(Nx, Ny) && Col(Nx, GI(Nx, i, j)) == i && Row(Nx, GI(Nx, i, j)) == j
  {
    forall i, j {:trigger GI(Nx, i, j)} | InGrid(Nx, Ny, i, j)
      ensures 0 <= GI(Nx, i, j) < Size(Nx, Ny) && Col(Nx, GI(Nx, i, j)) == i && Row(Nx, GI(Nx, i, j)) == j
    {
      GIRange(Nx, Ny, i, j);
    }
  }

  /**
   * The offset `(j-1)*nx + (i-1)` of interior cell (i, j) in a dense nx-by-ny
   * array; it lies inside that array.
   */
  function DenseIndex(nx: nat, ny: nat, i: int, j: int): (r: int)
    ensures 1 <= i <= nx && 1 <= j <= ny ==> 0 <= r < nx * ny
  {
    if 1 <= i <= nx && 1 <= j <= ny then DenseIndexRange(nx, ny, i, j); (j - 1) * nx + (i - 1)
    else (j - 1) * nx + (i - 1)
  }

  lemma DenseIndexRange(nx: nat, ny: nat, i: int, j: int)
    requires 1 <= i <= nx && 1 <= j <= ny
    ensures 0 <= (j - 1) * nx + (i - 1) < nx * ny
  {
    MulLeInt(j - 1, ny - 1, nx);
    MulLeInt(0, j - 1, nx);
    assert (ny - 1) * nx + nx == nx * ny;
  }

  // --------------------------------------------------- the cell sequence

  /** A cell of a cell sequence, by its grid coordinates. */
  function Cell(Nx: nat, Ny: nat, g: seq<real>, i: int, j: int): real
    requires |g| == Size(Nx, Ny) && InGrid(Nx, Ny, i, j)
  {
    GIRange(Nx, Ny, i, j);
    g[GI(Nx, i, j)]
  }

  /** The cell sequence with cell (i, j) replaced by v; no other cell changes. */
  function SetCell(Nx: nat, Ny: nat, g: seq<real>, i: int, j: int, v: real): (r: seq<real>)
    requires |g| == Size(Nx, Ny) && InGrid(Nx, Ny, i, j)
    ensures |r| == |g|
    ensures forall a, b {:trigger Cell(Nx, Ny, r, a, b)} :: InGrid(Nx, Ny, a, b) ==>
      Cell(Nx, Ny, r, a, b) == if a == i && b == j then v else Cell(Nx, Ny, g, a, b)
  {
    GIRange(Nx, Ny, i, j);
    GIFacts(Nx, Ny);
    g[GI(Nx, i, j) := v]
  }

  /**
   * How the side and top/bottom ghost rows are filled: from the adjacent
   * interior cell times a sign (`Mirror`), or with a constant.
   */
  datatype EdgeRule = Mirror(lr: real, tb: real) | Constant(c: real)

  const NeumannRule: EdgeRule := Mirror(1.0, 1.0)
  const URule: EdgeRule := Mirror(-1.0, 1.0)
  const VRule: EdgeRule := Mirror(1.0, -1.0)
  const SignedDistRule: EdgeRule := Constant(3.0 * HH as real)

  function EdgeValue(Nx: nat, Ny: nat, g: seq<real>, rule: EdgeRule, i: int, j: int): real
    requires 1 <= Nx && 1 <= Ny && |g| == Size(Nx, Ny)
    requires IsLeftRight(Nx, Ny, i, j) || IsTopBottom(Nx, Ny, i, j)
  {
    match rule
    case Constant(c) => c
    case Mirror(lr, tb) =>
      if i == 0 then lr * Cell(Nx, Ny, g, 1, j)
      else if i == Nx + 1 then lr * Cell(Nx, Ny, g, Nx, j)
      else if j == 0 then tb * Cell(Nx, Ny, g, i, 1)
      else tb * Cell(Nx, Ny, g, i, Ny)
  }

  /** The cells after the two side loops and the two top/bottom loops. */
  function EdgeStage(Nx: nat, Ny: nat, g: seq<real>, rule: EdgeRule): (r: seq<real>)
    requires 1 <= Nx && 1 <= Ny && |g| == Size(Nx, Ny)
    ensures |r| == |g|
  {
    seq(|g|, k requires 0 <= k < |g| =>
      if IsLeftRight(Nx, Ny, Col(Nx, k), Row(Nx, k)) || IsTopBottom(Nx, Ny, Col(Nx, k), Row(Nx, k))
      then EdgeValue(Nx, Ny, g, rule, Col(Nx, k), Row(Nx, k))
      else g[k])
  }

  /** A corner: the mean of its horizontal and its vertical edge-ghost neighbour. */
  function CornerValue(Nx: nat, Ny: nat, g: seq<real>, i: int, j: int): real
    requires 1 <= Nx && 1 <= Ny && |g| == Size(Nx, Ny) && IsCorner(Nx, Ny, i, j)
  {
    var di := if i == 0 then 1 else Nx;
    var dj := if j == 0 then 1 else Ny;
    0.5 * (Cell(Nx, Ny, g, di, j) + Cell(Nx, Ny, g, i, dj))
  }

  /** The cells after `SetBoundaryCorner`. */
  function CornerStage(Nx: nat, Ny: nat, g: seq<real>): (r: seq<real>)
    requires 1 <= Nx && 1 <= Ny && |g| == Size(Nx, Ny)
    ensures |r| == |g|
  {
    seq(|g|, k requires 0 <= k < |g| =>
      if IsCorner(Nx, Ny, Col(Nx, k), Row(Nx, k))
      then CornerValue(Nx, Ny, g, Col(Nx, k), Row(Nx, k))
      else g[k])
  }

  /** The cells after `SetBoundaryDirichlet`: every ghost cell zero. */
  function DirichletSpec(Nx: nat, Ny: nat, g: seq<real>): (r: seq<real>)
    requires |g| == Size(Nx, Ny)
    ensures |r| == |g|
  {
    seq(|g|, k requires 0 <= k < |g| =>
      if IsInterior(Nx, Ny, Col(Nx, k), Row(Nx, k)) then g[k] else 0.0)
  }

  /** The cells after an edge rule followed by the corner stage. */
  function WithCorners(Nx: nat, Ny: nat, g: seq<real>, rule: EdgeRule): (r: seq<real>)
    requires 1 <= Nx && 1 <= Ny && |g| == Size(Nx, Ny)
    ensures |r| == |g|
  {
    CornerStage(Nx, Ny, EdgeStage(Nx, Ny, g, rule))
  }

  /** The cells after `SetBoundary(b)`. */
  function BoundarySpec(Nx: nat, Ny: nat, g: seq<real>, b: int): (r: seq<real>)
    requires 1 <= Nx && 1 <= Ny && |g| == Size(Nx, Ny)
    ensures |r| == |g|
  {
    if b == 0 then WithCorners(Nx, Ny, g, NeumannRule)
    else if b == 1 then WithCorners(Nx, Ny, g, URule)
    else if b == 2 then WithCorners(Nx, Ny, g, VRule)
    else DirichletSpec(Nx, Ny, g)
  }

  // ------------------------------------------- properties of the boundary

  /** The edge stage, cell by cell. */
  lemma EdgeStageCells(Nx: nat, Ny: nat, g: seq<real>, rule: EdgeRule)
    requires 1 <= Nx && 1 <= Ny && |g| == Size(Nx, Ny)
    ensures forall i, j {:trigger Cell(Nx, Ny, EdgeStage(Nx, Ny, g, rule), i, j)} :: InGrid(Nx, Ny, i, j) ==>
      Cell(Nx, Ny, EdgeStage(Nx, Ny, g, rule), i, j) ==
        if IsLeftRight(Nx, Ny, i, j) || IsTopBottom(Nx, Ny, i, j)
        then EdgeValue(Nx, Ny, g, rule, i, j) else Cell(Nx, Ny, g, i, j)
  {
    forall i, j {:trigger Cell(Nx, Ny, EdgeStage(Nx, Ny, g, rule), i, j)} | InGrid(Nx, Ny, i, j)
      ensures Cell(Nx, Ny, EdgeStage(Nx, Ny, g, rule), i, j) ==
        if IsLeftRight(Nx, Ny, i, j) || IsTopBottom(Nx, Ny, i, j)
        then EdgeValue(Nx, Ny, g, rule, i, j) else Cell(Nx, Ny, g, i, j)
    {
      GIRange(Nx, Ny, i, j);
    }
  }

  /** The corner stage, cell by cell. */
  lemma CornerStageCells(Nx: nat, Ny: nat, g: seq<real>)
    requires 1 <= Nx && 1 <= Ny && |g| == Size(Nx, Ny)
    ensures forall i, j {:trigger Cell(Nx, Ny, CornerStage(Nx, Ny, g), i, j)} :: InGrid(Nx, Ny, i, j) ==>
      Cell(Nx, Ny, CornerStage(Nx, Ny, g), i, j) ==
        if IsCorner(Nx, Ny, i, j) then CornerValue(Nx, Ny, g, i, j) else Cell(Nx, Ny, g, i, j)
  {
    forall i, j {:trigger Cell(Nx, Ny, CornerStage(Nx, Ny, g), i, j)} | InGrid(Nx, Ny, i, j)
      ensures Cell(Nx, Ny, CornerStage(Nx, Ny, g), i, j) ==
        if IsCorner(Nx, Ny, i, j) then CornerValue(Nx, Ny, g, i, j) else Cell(Nx, Ny, g, i, j)
    {
      GIRange(Nx, Ny, i, j);
    }
  }

  /** Dirichlet, cell by cell. */
  lemma DirichletCells(Nx: nat, Ny: nat, g: seq<real>)
    requires |g| == Size(Nx, Ny)
    ensures forall i, j {:trigger Cell(Nx, Ny, DirichletSpec(Nx, Ny, g), i, j)} :: InGrid(Nx, Ny, i, j) ==>
      Cell(Nx, Ny, DirichletSpec(Nx, Ny, g), i, j) ==
        if IsInterior(Nx, Ny, i, j) then Cell(Nx, Ny, g, i, j) else 0.0
  {
    forall i, j {:trigger Cell(Nx, Ny, DirichletSpec(Nx, Ny, g), i, j)} | InGrid(Nx, Ny, i, j)
      ensures Cell(Nx, Ny, DirichletSpec(Nx, Ny, g), i, j) ==
        if IsInterior(Nx, Ny, i, j) then Cell(Nx, Ny, g, i, j) else 0.0
    {
      GIRange(Nx, Ny, i, j);
    }
  }

  /** Two cell sequences that agree on every cell are equal. */
  lemma CellsEqual(Nx: nat, Ny: nat, a: seq<real>, b: seq<real>)
    requires |a| == Size(Nx, Ny) && |b| == Size(Nx, Ny)
    requires forall i, j {:trigger Cell(Nx, Ny, a, i, j)} :: InGrid(Nx, Ny, i, j) ==> Cell(Nx, Ny, a, i, j) == Cell(Nx, Ny, b, i, j)
    ensures a == b
  {
    forall k | 0 <= k < |a| ensures a[k] == b[k] {
      ColRowRange(Nx, Ny, k);
      assert Cell(Nx, Ny, a, Col(Nx, k), Row(Nx, k)) == Cell(Nx, Ny, b, Col(Nx, k), Row(Nx, k));
    }
  }

  /** The cells after the side loop has done rows 1..n-1. */
  ghost predicate SidesUpTo(Nx: nat, Ny: nat, g: seq<real>, s: seq<real>, rule: EdgeRule, n: int)
    requires 1 <= Nx && 1 <= Ny && |g| == Size(Nx, Ny)
  {
    |s| == |g| &&
    forall a, b {:trigger Cell(Nx, Ny, s, a, b)} :: InGrid(Nx, Ny, a, b) ==>
      Cell(Nx, Ny, s, a, b) ==
        if IsLeftRight(Nx, Ny, a, b) && b < n then EdgeValue(Nx, Ny, g, rule, a, b) else Cell(Nx, Ny, g, a, b)
  }

  /** The cells after the side loop and the top/bottom loop up to column n-1. */
  ghost predicate EdgesUpTo(Nx: nat, Ny: nat, g: seq<real>, s: seq<real>, rule: EdgeRule, n: int)
    requires 1 <= Nx && 1 <= Ny && |g| == Size(Nx, Ny)
  {
    |s| == |g| &&
    forall a, b {:trigger Cell(Nx, Ny, s, a, b)} :: InGrid(Nx, Ny, a, b) ==>
      Cell(Nx, Ny, s, a, b) ==
        if IsLeftRight(Nx, Ny, a, b) || (IsTopBottom(Nx, Ny, a, b) && a < n)
        then EdgeValue(Nx, Ny, g, rule, a, b) else Cell(Nx, Ny, g, a, b)
  }

  lemma SidesStep(Nx: nat, Ny: nat, g: seq<real>, s: seq<real>, rule: EdgeRule, n: int)
    requires 1 <= Nx && 1 <= Ny && |g| == Size(Nx, Ny) && 1 <= n <= Ny
    requires SidesUpTo(Nx, Ny, g, s, rule, n)
    ensures SidesUpTo(Nx, Ny, g, SetCell(Nx, Ny, SetCell(Nx, Ny, s, 0, n, EdgeValue(Nx, Ny, g, rule, 0, n)),
                                         Nx + 1, n, EdgeValue(Nx, Ny, g, rule, Nx + 1, n)), rule, n + 1)
  {
    var s1 := SetCell(Nx, Ny, s, 0, n, EdgeValue(Nx, Ny, g, rule, 0, n));
    var s2 := SetCell(Nx, Ny, s1, Nx + 1, n, EdgeValue(Nx, Ny, g, rule, Nx + 1, n));
    forall a, b {:trigger Cell(Nx, Ny, s2, a, b)} | InGrid(Nx, Ny, a, b)
      ensures Cell(Nx, Ny, s2, a, b) ==
        if IsLeftRight(Nx, Ny, a, b) && b < n + 1 then EdgeValue(Nx, Ny, g, rule, a, b) else Cell(Nx, Ny, g, a, b)
    {
      assert Cell(Nx, Ny, s2, a, b) == if a == Nx + 1 && b == n then EdgeValue(Nx, Ny, g, rule, Nx + 1, n) else Cell(Nx, Ny, s1, a, b);
      assert Cell(Nx, Ny, s1, a, b) == if a == 0 && b == n then EdgeValue(Nx, Ny, g, rule, 0, n) else Cell(Nx, Ny, s, a, b);
    }
  }

  lemma EdgesStep(Nx: nat, Ny: nat, g: seq<real>, s: seq<real>, rule: EdgeRule, n: int)
    requires 1 <= Nx && 1 <= Ny && |g| == Size(Nx, Ny) && 1 <= n <= Nx
    requires EdgesUpTo(Nx, Ny, g, s, rule, n)
    ensures EdgesUpTo(Nx, Ny, g, SetCell(Nx, Ny, SetCell(Nx, Ny, s, n, 0, EdgeValue(Nx, Ny, g, rule, n, 0)),
                                         n, Ny + 1, EdgeValue(Nx, Ny, g, rule, n, Ny + 1)), rule, n + 1)
  {
    var s1 := SetCell(Nx, Ny, s, n, 0, EdgeValue(Nx, Ny, g, rule, n, 0));
    var s2 := SetCell(Nx, Ny, s1, n, Ny + 1, EdgeValue(Nx, Ny, g, rule, n, Ny + 1));
    forall a, b {:trigger Cell(Nx, Ny, s2, a, b)} | InGrid(Nx, Ny, a, b)
      ensures Cell(Nx, Ny, s2, a, b) ==
        if IsLeftRight(Nx, Ny, a, b) || (IsTopBottom(Nx, Ny, a, b) && a < n + 1)
        then EdgeValue(Nx, Ny, g, rule, a, b) else Cell(Nx, Ny, g, a, b)
    {
      assert Cell(Nx, Ny, s2, a, b) == if a == n && b == Ny + 1 then EdgeValue(Nx, Ny, g, rule, n, Ny + 1) else Cell(Nx, Ny, s1, a, b);
      assert Cell(Nx, Ny, s1, a, b) == if a == n && b == 0 then EdgeValue(Nx, Ny, g, rule, n, 0) else Cell(Nx, Ny, s, a, b);
    }
  }

  lemma SidesStart(Nx: nat, Ny: nat, g: seq<real>, rule: EdgeRule)
    requires 1 <= Nx && 1 <= Ny && |g| == Size(Nx, Ny)
    ensures SidesUpTo(Nx, Ny, g, g, rule, 1)
  {
  }

  lemma SidesDone(Nx: nat, Ny: nat, g: seq<real>, s: seq<real>, rule: EdgeRule)
    requires 1 <= Nx && 1 <= Ny && |g| == Size(Nx, Ny)
    requires SidesUpTo(Nx, Ny, g, s, rule, Ny + 1)
    ensures EdgesUpTo(Nx, Ny, g, s, rule, 1)
  {
  }

  lemma EdgesDone(Nx: nat, Ny: nat, g: seq<real>, s: seq<real>, rule: EdgeRule)
    requires 1 <= Nx && 1 <= Ny && |g| == Size(Nx, Ny)
    requires EdgesUpTo(Nx, Ny, g, s, rule, Nx + 1)
    ensures s == EdgeStage(Nx, Ny, g, rule)
  {
    EdgeStageCells(Nx, Ny, g, rule);
    CellsEqual(Nx, Ny, s, EdgeStage(Nx, Ny, g, rule));
  }

  /** The four sequential corner writes of `SetBoundaryCorner` compute the corner stage. */
  lemma CornerWrites(Nx: nat, Ny: nat, g: seq<real>, g1: seq<real>, g2: seq<real>, g3: seq<real>, g4: seq<real>)
    requires 1 <= Nx && 1 <= Ny && |g| == Size(Nx, Ny)
    requires g1 == SetCell(Nx, Ny, g, 0, 0, 0.5 * (Cell(Nx, Ny, g, 1, 0) + Cell(Nx, Ny, g, 0, 1)))
    requires g2 == SetCell(Nx, Ny, g1, 0, Ny + 1, 0.5 * (Cell(Nx, Ny, g1, 1, Ny + 1) + Cell(Nx, Ny, g1, 0, Ny)))
    requires g3 == SetCell(Nx, Ny, g2, Nx + 1, 0, 0.5 * (Cell(Nx, Ny, g2, Nx, 0) + Cell(Nx, Ny, g2, Nx + 1, 1)))
    requires g4 == SetCell(Nx, Ny, g3, Nx + 1, Ny + 1, 0.5 * (Cell(Nx, Ny, g3, Nx, Ny + 1) + Cell(Nx, Ny, g3, Nx + 1, Ny)))
    ensures g4 == CornerStage(Nx, Ny, g)
  {
    // Every value a corner is computed from is an edge cell, none of which is written.
    assert Cell(Nx, Ny, g1, 1, Ny + 1) == Cell(Nx, Ny, g, 1, Ny + 1) && Cell(Nx, Ny, g1, 0, Ny) == Cell(Nx, Ny, g, 0, Ny);
    assert Cell(Nx, Ny, g2, Nx, 0) == Cell(Nx, Ny, g, Nx, 0) && Cell(Nx, Ny, g2, Nx + 1, 1) == Cell(Nx, Ny, g, Nx + 1, 1);
    assert Cell(Nx, Ny, g3, Nx, Ny + 1) == Cell(Nx, Ny, g, Nx, Ny + 1) && Cell(Nx, Ny, g3, Nx + 1, Ny) == Cell(Nx, Ny, g, Nx + 1, Ny);
    var c := CornerStage(Nx, Ny, g);
    CornerStageCells(Nx, Ny, g);
    forall i, j {:trigger Cell(Nx, Ny, g4, i, j)} | InGrid(Nx, Ny, i, j)
      ensures Cell(Nx, Ny, g4, i, j) == Cell(Nx, Ny, c, i, j)
    {
      if !IsCorner(Nx, Ny, i, j) {
        assert Cell(Nx, Ny, g4, i, j) == Cell(Nx, Ny, g, i, j);
      }
    }
    CellsEqual(Nx, Ny, g4, c);
  }

  /** The edge stage with constant 0 followed by four zero corners is Dirichlet. */
  lemma DirichletWrites(Nx: nat, Ny: nat, g: seq<real>)
    requires 1 <= Nx && 1 <= Ny && |g| == Size(Nx, Ny)
    ensures var e := EdgeStage(Nx, Ny, g, Constant(0.0));
            SetCell(Nx, Ny, SetCell(Nx, Ny, SetCell(Nx, Ny, SetCell(Nx, Ny, e,
              0, 0, 0.0), 0, Ny + 1, 0.0), Nx + 1, 0, 0.0), Nx + 1, Ny + 1, 0.0) == DirichletSpec(Nx, Ny, g)
  {
    var e := EdgeStage(Nx, Ny, g, Constant(0.0));
    var d := SetCell(Nx, Ny, SetCell(Nx, Ny, SetCell(Nx, Ny, SetCell(Nx, Ny, e,
              0, 0, 0.0), 0, Ny + 1, 0.0), Nx + 1, 0, 0.0), Nx + 1, Ny + 1, 0.0);
    EdgeStageCells(Nx, Ny, g, Constant(0.0));
    DirichletCells(Nx, Ny, g);
    CellsEqual(Nx, Ny, d, DirichletSpec(Nx, Ny, g));
  }

  /** Every boundary routine leaves the interior cells alone. */
  lemma BoundaryKeepsInterior(Nx: nat, Ny: nat, g: seq<real>, b: int)
    requires 1 <= Nx && 1 <= Ny && |g| == Size(Nx, Ny)
    ensures forall i, j {:trigger Cell(Nx, Ny, BoundarySpec(Nx, Ny, g, b), i, j)} :: IsInterior(Nx, Ny, i, j) ==>
      Cell(Nx, Ny, BoundarySpec(Nx, Ny, g, b), i, j) == Cell(Nx, Ny, g, i, j)
  {
    if 0 <= b <= 2 {
      var rule := if b == 0 then NeumannRule else if b == 1 then URule else VRule;
      EdgeStageCells(Nx, Ny, g, rule);
      CornerStageCells(Nx, Ny, EdgeStage(Nx, Ny, g, rule));
    } else {
      DirichletCells(Nx, Ny, g);
    }
  }

  /** The signed-distance boundary leaves the interior cells alone. */
  lemma SignedDistKeepsInterior(Nx: nat, Ny: nat, g: seq<real>)
    requires 1 <= Nx && 1 <= Ny && |g| == Size(Nx, Ny)
    ensures forall i, j {:trigger Cell(Nx, Ny, WithCorners(Nx, Ny, g, SignedDistRule), i, j)} :: IsInterior(Nx, Ny, i, j) ==>
      Cell(Nx, Ny, WithCorners(Nx, Ny, g, SignedDistRule), i, j) == Cell(Nx, Ny, g, i, j)
  {
    EdgeStageCells(Nx, Ny, g, SignedDistRule);
    CornerStageCells(Nx, Ny, EdgeStage(Nx, Ny, g, SignedDistRule));
  }

  /** Dirichlet makes every ghost cell, corners included, zero. */
  lemma DirichletZeroesGhosts(Nx: nat, Ny: nat, g: seq<real>)
    requires |g| == Size(Nx, Ny)
    ensures forall i, j {:trigger Cell(Nx, Ny, DirichletSpec(Nx, Ny, g), i, j)} :: IsGhost(Nx, Ny, i, j) ==> Cell(Nx, Ny, DirichletSpec(Nx, Ny, g), i, j) == 0.0
  {
    DirichletCells(Nx, Ny, g);
  }

  /**
   * The signed-distance boundary makes every ghost cell 3*HH, the corners
   * included, since each corner averages two 3*HH edge ghosts.
   */
  lemma SignedDistGhosts(Nx: nat, Ny: nat, g: seq<real>)
    requires 1 <= Nx && 1 <= Ny && |g| == Size(Nx, Ny)
    ensures forall i, j {:trigger Cell(Nx, Ny, WithCorners(Nx, Ny, g, SignedDistRule), i, j)} :: IsGhost(Nx, Ny, i, j) ==>
      Cell(Nx, Ny, WithCorners(Nx, Ny, g, SignedDistRule), i, j) == 3.0 * HH as real
  {
    var e := EdgeStage(Nx, Ny, g, SignedDistRule);
    EdgeStageCells(Nx, Ny, g, SignedDistRule);
    CornerStageCells(Nx, Ny, e);
    forall i, j {:trigger Cell(Nx, Ny, CornerStage(Nx, Ny, e), i, j)} | IsGhost(Nx, Ny, i, j)
      ensures Cell(Nx, Ny, CornerStage(Nx, Ny, e), i, j) == 3.0 * HH as real
    {
      if IsCorner(Nx, Ny, i, j) {
        var di := if i == 0 then 1 else Nx;
        var dj := if j == 0 then 1 else Ny;
        assert Cell(Nx, Ny, e, di, j) == 3.0 * HH as real;
        assert Cell(Nx, Ny, e, i, dj) == 3.0 * HH as real;
      }
    }
  }

  /**
   * A mirror rule sets each side ghost to lr times its interior neighbour and
   * each top/bottom ghost to tb times its interior neighbour.
   */
  lemma MirrorEdges(Nx: nat, Ny: nat, g: seq<real>, lr: real, tb: real)
    requires 1 <= Nx && 1 <= Ny && |g| == Size(Nx, Ny)
    ensures var s := WithCorners(Nx, Ny, g, Mirror(lr, tb));
      && (forall j :: 1 <= j <= Ny ==>
            && Cell(Nx, Ny, s, 0, j) == lr * Cell(Nx, Ny, g, 1, j)
            && Cell(Nx, Ny, s, Nx + 1, j) == lr * Cell(Nx, Ny, g, Nx, j))
      && (forall i :: 1 <= i <= Nx ==>
            && Cell(Nx, Ny, s, i, 0) == tb * Cell(Nx, Ny, g, i, 1)
            && Cell(Nx, Ny, s, i, Ny + 1) == tb * Cell(Nx, Ny, g, i, Ny))
  {
    var e := EdgeStage(Nx, Ny, g, Mirror(lr, tb));
    EdgeStageCells(Nx, Ny, g, Mirror(lr, tb));
    CornerStageCells(Nx, Ny, e);
  }

  /** Neumann: each edge ghost copies its adjacent interior cell. */
  lemma NeumannCopiesEdges(Nx: nat, Ny: nat, g: seq<real>)
    requires 1 <= Nx && 1 <= Ny && |g| == Size(Nx, Ny)
    ensures var s := BoundarySpec(Nx, Ny, g, 0);
      && (forall j :: 1 <= j <= Ny ==>
            Cell(Nx, Ny, s, 0, j) == Cell(Nx, Ny, g, 1, j) && Cell(Nx, Ny, s, Nx + 1, j) == Cell(Nx, Ny, g, Nx, j))
      && (forall i :: 1 <= i <= Nx ==>
            Cell(Nx, Ny, s, i, 0) == Cell(Nx, Ny, g, i, 1) && Cell(Nx, Ny, s, i, Ny + 1) == Cell(Nx, Ny, g, i, Ny))
  {
    MirrorEdges(Nx, Ny, g, 1.0, 1.0);
  }

  /** U velocities: sides negate their neighbour, top and bottom copy it. */
  lemma UReflectsSides(Nx: nat, Ny: nat, g: seq<real>)
    requires 1 <= Nx && 1 <= Ny && |g| == Size(Nx, Ny)
    ensures var s := BoundarySpec(Nx, Ny, g, 1);
      && (forall j :: 1 <= j <= Ny ==>
            Cell(Nx, Ny, s, 0, j) == -Cell(Nx, Ny, g, 1, j) && Cell(Nx, Ny, s, Nx + 1, j) == -Cell(Nx, Ny, g, Nx, j))
      && (forall i :: 1 <= i <= Nx ==>
            Cell(Nx, Ny, s, i, 0) == Cell(Nx, Ny, g, i, 1) && Cell(Nx, Ny, s, i, Ny + 1) == Cell(Nx, Ny, g, i, Ny))
  {
    MirrorEdges(Nx, Ny, g, -1.0, 1.0);
  }

  /** V velocities: sides copy their neighbour, top and bottom negate it. */
  lemma VReflectsTopBottom(Nx: nat, Ny: nat, g: seq<real>)
    requires 1 <= Nx && 1 <= Ny && |g| == Size(Nx, Ny)
    ensures var s := BoundarySpec(Nx, Ny, g, 2);
      && (forall j :: 1 <= j <= Ny ==>
            Cell(Nx, Ny, s, 0, j) == Cell(Nx, Ny, g, 1, j) && Cell(Nx, Ny, s, Nx + 1, j) == Cell(Nx, Ny, g, Nx, j))
      && (forall i :: 1 <= i <= Nx ==>
            Cell(Nx, Ny, s, i, 0) == -Cell(Nx, Ny, g, i, 1) && Cell(Nx, Ny, s, i, Ny + 1) == -Cell(Nx, Ny, g, i, Ny))
  {
    MirrorEdges(Nx, Ny, g, 1.0, -1.0);
  }

  /** After the corner stage each corner is the mean of its two edge-ghost neighbours. */
  lemma CornersAverage(Nx: nat, Ny: nat, g: seq<real>)
    requires 1 <= Nx && 1 <= Ny && |g| == Size(Nx, Ny)
    ensures var s := CornerStage(Nx, Ny, g);
      && Cell(Nx, Ny, s, 0, 0) == 0.5 * (Cell(Nx, Ny, s, 1, 0) + Cell(Nx, Ny, s, 0, 1))
      && Cell(Nx, Ny, s, 0, Ny + 1) == 0.5 * (Cell(Nx, Ny, s, 1, Ny + 1) + Cell(Nx, Ny, s, 0, Ny))
      && Cell(Nx, Ny, s, Nx + 1, 0) == 0.5 * (Cell(Nx, Ny, s, Nx, 0) + Cell(Nx, Ny, s, Nx + 1, 1))
      && Cell(Nx, Ny, s, Nx + 1, Ny + 1) == 0.5 * (Cell(Nx, Ny, s, Nx, Ny + 1) + Cell(Nx, Ny, s, Nx + 1, Ny))
  {
    CornerStageCells(Nx, Ny, g);
  }

  /** Re-applying an edge rule with corners changes nothing. */
  lemma WithCornersIdempotent(Nx: nat, Ny: nat, g: seq<real>, rule: EdgeRule)
    requires 1 <= Nx && 1 <= Ny && |g| == Size(Nx, Ny)
    ensures WithCorners(Nx, Ny, WithCorners(Nx, Ny, g, rule), rule) == WithCorners(Nx, Ny, g, rule)
  {
    var e := EdgeStage(Nx, Ny, g, rule);
    var s := CornerStage(Nx, Ny, e);
    var e2 := EdgeStage(Nx, Ny, s, rule);
    EdgeStageCells(Nx, Ny, g, rule);
    CornerStageCells(Nx, Ny, e);
    EdgeStageCells(Nx, Ny, s, rule);
    CornerStageCells(Nx, Ny, e2);
    // the edge stage re-derives each edge ghost from an interior cell that
    // neither stage touched
    forall i, j {:trigger Cell(Nx, Ny, e2, i, j)} | InGrid(Nx, Ny, i, j) ensures Cell(Nx, Ny, e2, i, j) == Cell(Nx, Ny, s, i, j) {
      if IsLeftRight(Nx, Ny, i, j) || IsTopBottom(Nx, Ny, i, j) {
        match rule
        case Constant(c) =>
        case Mirror(lr, tb) =>
          if i == 0 {
            assert Cell(Nx, Ny, s, 1, j) == Cell(Nx, Ny, g, 1, j);
          } else if i == Nx + 1 {
            assert Cell(Nx, Ny, s, Nx, j) == Cell(Nx, Ny, g, Nx, j);
          } else if j == 0 {
            assert Cell(Nx, Ny, s, i, 1) == Cell(Nx, Ny, g, i, 1);
          } else {
            assert Cell(Nx, Ny, s, i, Ny) == Cell(Nx, Ny, g, i, Ny);
          }
      }
    }
    CellsEqual(Nx, Ny, e2, s);
    // the corner stage then averages edge ghosts that are unchanged
    forall i, j {:trigger Cell(Nx, Ny, CornerStage(Nx, Ny, s), i, j)} | InGrid(Nx, Ny, i, j) ensures Cell(Nx, Ny, CornerStage(Nx, Ny, s), i, j) == Cell(Nx, Ny, s, i, j) {
      if IsCorner(Nx, Ny, i, j) {
        var di := if i == 0 then 1 else Nx;
        var dj := if j == 0 then 1 else Ny;
        assert Cell(Nx, Ny, s, di, j) == Cell(Nx, Ny, e, di, j);
        assert Cell(Nx, Ny, s, i, dj) == Cell(Nx, Ny, e, i, dj);
      }
    }
    CornerStageCells(Nx, Ny, s);
    CellsEqual(Nx, Ny, CornerStage(Nx, Ny, s), s);
  }

  /** Applying the same boundary routine twice gives the grid of applying it once. */
  lemma BoundaryIdempotent(Nx: nat, Ny: nat, g: seq<real>, b: int)
    requires 1 <= Nx && 1 <= Ny && |g| == Size(Nx, Ny)
    ensures BoundarySpec(Nx, Ny, BoundarySpec(Nx, Ny, g, b), b) == BoundarySpec(Nx, Ny, g, b)
  {
    if b == 0 {
      WithCornersIdempotent(Nx, Ny, g, NeumannRule);
    } else if b == 1 {
      WithCornersIdempotent(Nx, Ny, g, URule);
    } else if b == 2 {
      WithCornersIdempotent(Nx, Ny, g, VRule);
    } else {
      var d := DirichletSpec(Nx, Ny, g);
      DirichletCells(Nx, Ny, g);
      DirichletCells(Nx, Ny, d);
      CellsEqual(Nx, Ny, DirichletSpec(Nx, Ny, d), d);
    }
  }

  /** The signed-distance boundary is idempotent too. */
  lemma SignedDistIdempotent(Nx: nat, Ny: nat, g: seq<real>)
    requires 1 <= Nx && 1 <= Ny && |g| == Size(Nx, Ny)
    ensures WithCorners(Nx, Ny, WithCorners(Nx, Ny, g, SignedDistRule), SignedDistRule)
         == WithCorners(Nx, Ny, g, SignedDistRule)
  {
    WithCornersIdempotent(Nx, Ny, g, SignedDistRule);
  }

  // ------------------------------------------------- cell-wise arithmetic

  function AddCells(a: seq<real>, b: seq<real>): (r: seq<real>)
    requires |a| <= |b|
    ensures |r| == |a|
  {
    seq(|a|, k requires 0 <= k < |a| => a[k] + b[k])
  }

  function SubCells(a: seq<real>, b: seq<real>): (r: seq<real>)
    requires |a| <= |b|
    ensures |r| == |a|
    ensures |a| == |b| ==> AddCells(r, b) == a
  {
    seq(|a|, k requires 0 <= k < |a| => a[k] - b[k])
  }

  function ScaleCells(a: seq<real>, c: real): (r: seq<real>)
    ensures |r| == |a|
  {
    seq(|a|, k requires 0 <= k < |a| => a[k] * c)
  }

  /** `/=` scales by the reciprocal, which `*=` by the divisor undoes. */
  lemma ScaleByReciprocal(a: seq<real>, c: real)
    requires c != 0.0
    ensures ScaleCells(ScaleCells(a, 1.0 / c), c) == a
  {
    forall k | 0 <= k < |a| ensures ScaleCells(ScaleCells(a, 1.0 / c), c)[k] == a[k] {
      assert a[k] * (1.0 / c) * c == a[k];
    }
  }

  /** The sum of products of the first n cells. */
  function DotSum(a: seq<real>, b: seq<real>, n: nat): real
    requires n <= |a| && n <= |b|
  {
    if n == 0 then 0.0 else DotSum(a, b, n - 1) + a[n - 1] * b[n - 1]
  }

  lemma {:induction false} DotSymmetric(a: seq<real>, b: seq<real>, n: nat)
    requires n <= |a| && n <= |b|
    ensures DotSum(a, b, n) == DotSum(b, a, n)
  {
    if n > 0 {
      DotSymmetric(a, b, n - 1);
    }
  }

  /** `SquaredLength`, the dot product of a grid with itself, is never negative. */
  lemma {:induction false} SelfDotNonNegative(a: seq<real>, n: nat)
    requires n <= |a|
    ensures DotSum(a, a, n) >= 0.0
  {
    if n > 0 {
      SelfDotNonNegative(a, n - 1);
      assert a[n - 1] * a[n - 1] == Square(a[n - 1]);
    }
  }

  // ---------------------------------------------------------- the grid

  class Grid2D {
    const Nx: nat
    const Ny: nat
    const size: nat
    const grid: array<real>

    ghost predicate Valid()
      reads this
    {
      size == Size(Nx, Ny) && grid.Length == size
    }

    /** `Grid2D(nx, ny)`: every cell, ghost cells included, is zero. */
    constructor (nx: nat, ny: nat)
      ensures Valid() && Nx == nx && Ny == ny && fresh(grid)
      ensures forall k :: 0 <= k < size ==> grid[k] == 0.0
    {
      Nx, Ny, size := nx, ny, Size(nx, ny);
      grid := new real[Size(nx, ny)](_ => 0.0);
    }

    /** The copy constructor: same dimensions, a fresh copy of every cell. */
    constructor Copy(gi: Grid2D)
      requires gi.Valid()
      ensures Valid() && Nx == gi.Nx && Ny == gi.Ny && fresh(grid)
      ensures grid[..] == gi.grid[..]
    {
      Nx, Ny, size := gi.Nx, gi.Ny, gi.size;
      var a := new real[gi.size];
      var i := 0;
      while i < gi.size
        invariant 0 <= i <= gi.size
        invariant forall k :: 0 <= k < i ==> a[k] == gi.grid[k]
      {
        a[i] := gi.grid[i];
        i := i + 1;
      }
      grid := a;
    }

    /**
     * `Grid2D(nx, ny, val)`: interior cell (i, j) is `val[(j-1)*nx + (i-1)]`;
     * the ghost cells are left unspecified.
     */
    constructor FromValues(nx: nat, ny: nat, val: seq<real>)
      requires |val| >= nx * ny
      ensures Valid() && Nx == nx && Ny == ny && fresh(grid)
      ensures forall i, j {:trigger Cell(nx, ny, grid[..], i, j)} :: IsInterior(nx, ny, i, j) ==> Cell(nx, ny, grid[..], i, j) == val[DenseIndex(nx, ny, i, j)]
    {
      Nx, Ny, size := nx, ny, Size(nx, ny);
      grid := new real[Size(nx, ny)];
      new;
      SetValues(val);
    }

    /** `set(val)`: writes every interior cell from the dense array; ghosts untouched. */
    method SetValues(val: seq<real>)
      requires Valid() && |val| >= Nx * Ny
      modifies grid
      ensures forall i, j {:trigger Cell(Nx, Ny, grid[..], i, j)} :: IsInterior(Nx, Ny, i, j) ==> Cell(Nx, Ny, grid[..], i, j) == val[DenseIndex(Nx, Ny, i, j)]
      ensures forall i, j {:trigger Cell(Nx, Ny, grid[..], i, j)} :: IsGhost(Nx, Ny, i, j) ==> Cell(Nx, Ny, grid[..], i, j) == Cell(Nx, Ny, old(grid[..]), i, j)
    {
      ghost var g := grid[..];
      GIFacts(Nx, Ny);
      var j := 1;
      while j <= Ny
        invariant 1 <= j <= Ny + 1
        invariant forall a, b {:trigger grid[GI(Nx, a, b)]} :: InGrid(Nx, Ny, a, b) ==>
          grid[GI(Nx, a, b)] == (if IsInterior(Nx, Ny, a, b) && b < j
                                 then val[DenseIndex(Nx, Ny, a, b)] else g[GI(Nx, a, b)])
      {
        var i := 1;
        while i <= Nx
          invariant 1 <= i <= Nx + 1
          invariant forall a, b {:trigger grid[GI(Nx, a, b)]} :: InGrid(Nx, Ny, a, b) ==>
            grid[GI(Nx, a, b)] == (if IsInterior(Nx, Ny, a, b) && (b < j || (b == j && a < i))
                                   then val[DenseIndex(Nx, Ny, a, b)] else g[GI(Nx, a, b)])
        {
          grid[GI(Nx, i, j)] := val[DenseIndex(Nx, Ny, i, j)];
          i := i + 1;
        }
        j := j + 1;
      }
    }

    /** `Clear`: every cell, ghost cells included, becomes zero. */
    method Clear()
      requires Valid()
      modifies grid
      ensures forall k :: 0 <= k < size ==> grid[k] == 0.0
    {
      var i := 0;
      while i < size
        invariant 0 <= i <= size
        invariant forall k :: 0 <= k < i ==> grid[k] == 0.0
      {
        grid[i] := 0.0;
        i := i + 1;
      }
    }

    /** `operator=`: copies the first `size` cells of gi. */
    method Assign(gi: Grid2D)
      requires Valid() && gi.Valid() && gi.size >= size
      modifies grid
      ensures grid[..] == old(gi.grid[..size])
    {
      var i := 0;
      while i < size
        invariant 0 <= i <= size
        invariant forall k :: 0 <= k < i ==> grid[k] == old(gi.grid[k])
        invariant forall k :: i <= k < gi.size ==> gi.grid[k] == old(gi.grid[k])
      {
        grid[i] := gi.grid[i];
        i := i + 1;
      }
    }

    /** `+=`: adds gi cell by cell over all `size` cells. */
    method AddAssign(gi: Grid2D)
      requires Valid() && gi.Valid() && gi.size >= size
      modifies grid
      ensures grid[..] == AddCells(old(grid[..]), old(gi.grid[..]))
    {
      var i := 0;
      while i < size
        invariant 0 <= i <= size
        invariant forall k :: 0 <= k < i ==> grid[k] == old(grid[k]) + old(gi.grid[k])
        invariant forall k :: i <= k < size ==> grid[k] == old(grid[k])
        invariant forall k :: i <= k < gi.size ==> gi.grid[k] == old(gi.grid[k])
      {
        grid[i] := grid[i] + gi.grid[i];
        i := i + 1;
      }
    }

    /** `-=`: subtracts gi cell by cell over all `size` cells. */
    method SubAssign(gi: Grid2D)
      requires Valid() && gi.Valid() && gi.size >= size
      modifies grid
      ensures grid[..] == SubCells(old(grid[..]), old(gi.grid[..]))
    {
      var i := 0;
      while i < size
        invariant 0 <= i <= size
        invariant forall k :: 0 <= k < i ==> grid[k] == old(grid[k]) - old(gi.grid[k])
        invariant forall k :: i <= k < size ==> grid[k] == old(grid[k])
        invariant forall k :: i <= k < gi.size ==> gi.grid[k] == old(gi.grid[k])
      {
        grid[i] := grid[i] - gi.grid[i];
        i := i + 1;
      }
    }

    /** `*=`: scales every cell. */
    method ScaleAssign(c: real)
      requires Valid()
      modifies grid
      ensures grid[..] == ScaleCells(old(grid[..]), c)
    {
      var i := 0;
      while i < size
        invariant 0 <= i <= size
        invariant forall k :: 0 <= k < i ==> grid[k] == old(grid[k]) * c
        invariant forall k :: i <= k < size ==> grid[k] == old(grid[k])
      {
        grid[i] := grid[i] * c;
        i := i + 1;
      }
      forall k | 0 <= k < size ensures grid[k] == ScaleCells(old(grid[..]), c)[k] {
      }
    }

    /** `/=`: scales every cell by the reciprocal of c. */
    method DivAssign(c: real)
      requires Valid() && c != 0.0
      modifies grid
      ensures grid[..] == ScaleCells(old(grid[..]), 1.0 / c)
    {
      var cInv := 1.0 / c;
      ScaleAssign(cInv);
    }

    /** `dot`: the sum of cell-wise products over all `size` cells. */
    method Dot(gi: Grid2D) returns (ret: real)
      requires Valid() && gi.Valid() && gi.size >= size
      ensures ret == DotSum(grid[..], gi.grid[..], size)
    {
      ret := 0.0;
      var i := 0;
      while i < size
        invariant 0 <= i <= size
        invariant ret == DotSum(grid[..], gi.grid[..], i)
      {
        ret := ret + grid[i] * gi.grid[i];
        i := i + 1;
      }
    }

    /** `SquaredLength`: the grid dotted with itself, never negative. */
    method SquaredLength() returns (r: real)
      requires Valid()
      ensures r == DotSum(grid[..], grid[..], size)
      ensures r >= 0.0
    {
      r := Dot(this);
      SelfDotNonNegative(grid[..], size);
    }

    // ------------------------------------------------------ boundaries

    /** The two side loops and the two top/bottom loops of one edge rule. */
    method ApplyEdges(rule: EdgeRule)
      requires Valid() && 1 <= Nx && 1 <= Ny
      modifies grid
      ensures grid[..] == EdgeStage(Nx, Ny, old(grid[..]), rule)
    {
      ghost var g := grid[..];
      SidesStart(Nx, Ny, g, rule);
      ApplySides(g, rule);
      SidesDone(Nx, Ny, g, grid[..], rule);
      ApplyTopBottom(g, rule);
    }

    /** The side loop of an edge rule, over rows 1..Ny. */
    method ApplySides(ghost g: seq<real>, rule: EdgeRule)
      requires Valid() && 1 <= Nx && 1 <= Ny && |g| == size
      requires SidesUpTo(Nx, Ny, g, grid[..], rule, 1)
      modifies grid
      ensures SidesUpTo(Nx, Ny, g, grid[..], rule, Ny + 1)
    {
      var i := 1;
      while i <= Ny
        invariant 1 <= i <= Ny + 1
        invariant SidesUpTo(Nx, Ny, g, grid[..], rule, i)
      {
        ghost var s := grid[..];
        SidesStep(Nx, Ny, g, s, rule, i);
        GIRange(Nx, Ny, 1, i);
        GIRange(Nx, Ny, Nx, i);
        GIRange(Nx, Ny, 0, i);
        GIRange(Nx, Ny, Nx + 1, i);
        assert Cell(Nx, Ny, s, 1, i) == Cell(Nx, Ny, g, 1, i);
        assert Cell(Nx, Ny, s, Nx, i) == Cell(Nx, Ny, g, Nx, i);
        var left, right;
        match rule {
          case Constant(c) =>
            left, right := c, c;
          case Mirror(lr, _) =>
            left, right := lr * grid[GI(Nx, 1, i)], lr * grid[GI(Nx, Nx, i)];
        }
        assert left == EdgeValue(Nx, Ny, g, rule, 0, i) && right == EdgeValue(Nx, Ny, g, rule, Nx + 1, i);
        grid[GI(Nx, 0, i)] := left;
        grid[GI(Nx, Nx + 1, i)] := right;
        assert grid[..] == SetCell(Nx, Ny, SetCell(Nx, Ny, s, 0, i, left), Nx + 1, i, right);
        i := i + 1;
      }
    }

    /** The top/bottom loop of an edge rule, over columns 1..Nx. */
    method ApplyTopBottom(ghost g: seq<real>, rule: EdgeRule)
      requires Valid() && 1 <= Nx && 1 <= Ny && |g| == size
      requires EdgesUpTo(Nx, Ny, g, grid[..], rule, 1)
      modifies grid
      ensures grid[..] == EdgeStage(Nx, Ny, g, rule)
    {
      var i := 1;
      while i <= Nx
        invariant 1 <= i <= Nx + 1
        invariant EdgesUpTo(Nx, Ny, g, grid[..], rule, i)
      {
        ghost var s := grid[..];
        EdgesStep(Nx, Ny, g, s, rule, i);
        GIRange(Nx, Ny, i, 1);
        GIRange(Nx, Ny, i, Ny);
        GIRange(Nx, Ny, i, 0);
        GIRange(Nx, Ny, i, Ny + 1);
        assert Cell(Nx, Ny, s, i, 1) == Cell(Nx, Ny, g, i, 1);
        assert Cell(Nx, Ny, s, i, Ny) == Cell(Nx, Ny, g, i, Ny);
        var bottom, top;
        match rule {
          case Constant(c) =>
            bottom, top := c, c;
          case Mirror(_, tb) =>
            bottom, top := tb * grid[GI(Nx, i, 1)], tb * grid[GI(Nx, i, Ny)];
        }
        assert bottom == EdgeValue(Nx, Ny, g, rule, i, 0) && top == EdgeValue(Nx, Ny, g, rule, i, Ny + 1);
        grid[GI(Nx, i, 0)] := bottom;
        grid[GI(Nx, i, Ny + 1)] := top;
        assert grid[..] == SetCell(Nx, Ny, SetCell(Nx, Ny, s, i, 0, bottom), i, Ny + 1, top);
        i := i + 1;
      }
      EdgesDone(Nx, Ny, g, grid[..], rule);
    }

    /** `SetBoundaryCorner`: each corner becomes the mean of its two edge ghosts. */
    method SetBoundaryCorner()
      requires Valid() && 1 <= Nx && 1 <= Ny
      modifies grid
      ensures grid[..] == CornerStage(Nx, Ny, old(grid[..]))
    {
      ghost var g := grid[..];
      GIRange(Nx, Ny, 0, 0);
      GIRange(Nx, Ny, 0, Ny + 1);
      GIRange(Nx, Ny, Nx + 1, 0);
      GIRange(Nx, Ny, Nx + 1, Ny + 1);
      GIRange(Nx, Ny, 1, 0);
      GIRange(Nx, Ny, 0, 1);
      GIRange(Nx, Ny, 1, Ny + 1);
      GIRange(Nx, Ny, 0, Ny);
      GIRange(Nx, Ny, Nx, 0);
      GIRange(Nx, Ny, Nx + 1, 1);
      GIRange(Nx, Ny, Nx, Ny + 1);
      GIRange(Nx, Ny, Nx + 1, Ny);
      grid[GI(Nx, 0, 0)] := 0.5 * (grid[GI(Nx, 1, 0)] + grid[GI(Nx, 0, 1)]);
      ghost var g1 := grid[..];
      assert g1 == SetCell(Nx, Ny, g, 0, 0, 0.5 * (Cell(Nx, Ny, g, 1, 0) + Cell(Nx, Ny, g, 0, 1)));
      grid[GI(Nx, 0, Ny + 1)] := 0.5 * (grid[GI(Nx, 1, Ny + 1)] + grid[GI(Nx, 0, Ny)]);
      ghost var g2 := grid[..];
      assert g2 == SetCell(Nx, Ny, g1, 0, Ny + 1, 0.5 * (Cell(Nx, Ny, g1, 1, Ny + 1) + Cell(Nx, Ny, g1, 0, Ny)));
      grid[GI(Nx, Nx + 1, 0)] := 0.5 * (grid[GI(Nx, Nx, 0)] + grid[GI(Nx, Nx + 1, 1)]);
      ghost var g3 := grid[..];
      assert g3 == SetCell(Nx, Ny, g2, Nx + 1, 0, 0.5 * (Cell(Nx, Ny, g2, Nx, 0) + Cell(Nx, Ny, g2, Nx + 1, 1)));
      grid[GI(Nx, Nx + 1, Ny + 1)] := 0.5 * (grid[GI(Nx, Nx, Ny + 1)] + grid[GI(Nx, Nx + 1, Ny)]);
      assert grid[..] == SetCell(Nx, Ny, g3, Nx + 1, Ny + 1, 0.5 * (Cell(Nx, Ny, g3, Nx, Ny + 1) + Cell(Nx, Ny, g3, Nx + 1, Ny)));
      CornerWrites(Nx, Ny, g, g1, g2, g3, grid[..]);
    }

    /** `SetBoundaryDirichlet`: every ghost cell zero, corners set directly. */
    method SetBoundaryDirichlet()
      requires Valid() && 1 <= Nx && 1 <= Ny
      modifies grid
      ensures grid[..] == DirichletSpec(Nx, Ny, old(grid[..]))
    {
      DirichletWrites(Nx, Ny, grid[..]);
      ApplyEdges(Constant(0.0));
      GIFacts(Nx, Ny);
      grid[GI(Nx, 0, 0)] := 0.0;
      grid[GI(Nx, 0, Ny + 1)] := 0.0;
      grid[GI(Nx, Nx + 1, 0)] := 0.0;
      grid[GI(Nx, Nx + 1, Ny + 1)] := 0.0;
    }

    method SetBoundaryNeumann()
      requires Valid() && 1 <= Nx && 1 <= Ny
      modifies grid
      ensures grid[..] == WithCorners(Nx, Ny, old(grid[..]), NeumannRule)
    {
      ApplyEdges(NeumannRule);
      SetBoundaryCorner();
    }

    method SetBoundaryU()
      requires Valid() && 1 <= Nx && 1 <= Ny
      modifies grid
      ensures grid[..] == WithCorners(Nx, Ny, old(grid[..]), URule)
    {
      ApplyEdges(URule);
      SetBoundaryCorner();
    }

    method SetBoundaryV()
      requires Valid() && 1 <= Nx && 1 <= Ny
      modifies grid
      ensures grid[..] == WithCorners(Nx, Ny, old(grid[..]), VRule)
    {
      ApplyEdges(VRule);
      SetBoundaryCorner();
    }

    method SetBoundarySignedDist()
      requires Valid() && 1 <= Nx && 1 <= Ny
      modifies grid
      ensures grid[..] == WithCorners(Nx, Ny, old(grid[..]), SignedDistRule)
    {
      ApplyEdges(SignedDistRule);
      SetBoundaryCorner();
    }

    /** `SetBoundary(b)`: 0 Neumann, 1 U, 2 V, anything else Dirichlet. */
    method SetBoundary(b: int)
      requires Valid() && 1 <= Nx && 1 <= Ny
      modifies grid
      ensures grid[..] == BoundarySpec(Nx, Ny, old(grid[..]), b)
    {
      if b == 0 {
        SetBoundaryNeumann();
      } else if b == 1 {
        SetBoundaryU();
      } else if b == 2 {
        SetBoundaryV();
      } else {
        SetBoundaryDirichlet();
      }
    }
  }
}
