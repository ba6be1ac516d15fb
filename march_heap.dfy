/**
 * The Fast Marching cell record and the array-backed binary min-heap that the
 * 2D and 3D marchers share. The heap holds cell indices in `heap[0..n)`; each
 * cell in it records its own slot in `HeapPosition` (the back-index). The
 * sift routines are written once here because the 2D and 3D sources carry the
 * same text; the classes of both marchers call them on their own arrays.
 */
module MarchHeap {
  import opened Numerics

  /** One cell of the marching grid: -1 fixed, 0 open, 1 Done. */
  datatype FMContainer = FMContainer(DoneFlag: int, HeapPosition: int, value: real)

  /** Slot c is a child of slot p in the implicit binary tree. */
  predicate IsChild(p: int, c: int)
  {
    c == 2 * p + 1 || c == 2 * p + 2
  }

  /** Every slot below n names a cell whose back-index is that slot. */
  ghost predicate Linked(g: seq<FMContainer>, h: seq<int>, n: int)
  {
    0 <= n <= |h| &&
    forall p {:trigger h[p]} :: 0 <= p < n ==> 0 <= h[p] < |g| && g[h[p]].HeapPosition == p
  }

  /** Cell c is in the heap: its back-index names a slot that names it. */
  ghost predicate InHeap(g: seq<FMContainer>, h: seq<int>, n: int, c: int)
    requires 0 <= c < |g| && n <= |h|
  {
    0 <= g[c].HeapPosition < n && h[g[c].HeapPosition] == c
  }

  /**
   * Parent-before-child order on `value` for every pair of slots, except the
   * pairs whose child is `skipChild` or whose parent is `skipParent` (the
   * "hole" a sift is moving; -1 skips nothing).
   */
  ghost predicate PairsOrdered(g: seq<FMContainer>, h: seq<int>, n: int, skipChild: int, skipParent: int)
    requires Linked(g, h, n)
  {
    forall p, c {:trigger h[p], h[c]} ::
      0 <= p < n && 0 <= c < n && IsChild(p, c) && c != skipChild && p != skipParent ==>
        g[h[p]].value <= g[h[c]].value
  }

  /** The min-heap invariant: linked and ordered. */
  ghost predicate Ordered(g: seq<FMContainer>, h: seq<int>, n: int)
  {
    Linked(g, h, n) && PairsOrdered(g, h, n, -1, -1)
  }

  /**
   * The hole at slot i is bridged: i's parent is no larger than i's children
   * (what a sift up or down keeps while slot i is out of order).
   */
  ghost predicate Bridge(g: seq<FMContainer>, h: seq<int>, n: int, i: int)
    requires Linked(g, h, n) && 0 <= i < n
  {
    i > 0 ==>
      forall c {:trigger h[c]} :: 0 <= c < n && IsChild(i, c) ==> g[h[(i - 1) / 2]].value <= g[h[c]].value
  }

  /** The flags and values of two cell arrays agree; only back-indices may differ. */
  ghost predicate SameKeys(g: seq<FMContainer>, g': seq<FMContainer>)
  {
    |g| == |g'| &&
    forall c {:trigger g'[c]} :: 0 <= c < |g| ==> g'[c].DoneFlag == g[c].DoneFlag && g'[c].value == g[c].value
  }

  // ------------------------------------------------------------ swapping

  /** The cell array after slots i and j trade their cells. */
  ghost function SwapCells(g: seq<FMContainer>, h: seq<int>, i: int, j: int): seq<FMContainer>
    requires 0 <= i < |h| && 0 <= j < |h| && 0 <= h[i] < |g| && 0 <= h[j] < |g|
  {
    g[h[j] := g[h[j]].(HeapPosition := i)][h[i] := g[h[i]].(HeapPosition := j)]
  }

  ghost function SwapSlots(h: seq<int>, i: int, j: int): seq<int>
    requires 0 <= i < |h| && 0 <= j < |h|
  {
    h[i := h[j]][j := h[i]]
  }

  /** Trading two slots keeps the links, the membership and every key. */
  lemma SwapLinks(g: seq<FMContainer>, h: seq<int>, n: int, i: int, j: int)
    requires Linked(g, h, n) && 0 <= i < n && 0 <= j < n && i != j
    ensures Linked(SwapCells(g, h, i, j), SwapSlots(h, i, j), n)
    ensures SameKeys(g, SwapCells(g, h, i, j))
    ensures forall c {:trigger InHeap(g, h, n, c)} :: 0 <= c < |g| ==>
      (InHeap(SwapCells(g, h, i, j), SwapSlots(h, i, j), n, c) <==> InHeap(g, h, n, c))
    ensures forall c {:trigger g[c]} :: 0 <= c < |g| && !InHeap(g, h, n, c) ==> SwapCells(g, h, i, j)[c] == g[c]
  {
    var g', h' := SwapCells(g, h, i, j), SwapSlots(h, i, j);
    assert h[i] != h[j] by {
      assert g[h[i]].HeapPosition == i && g[h[j]].HeapPosition == j;
    }
    forall p | 0 <= p < n
      ensures 0 <= h'[p] < |g'| && g'[h'[p]].HeapPosition == p
    {
      if p != i && p != j {
        assert h'[p] == h[p] && h[p] != h[i] && h[p] != h[j] by {
          assert g[h[p]].HeapPosition == p;
          assert g[h[i]].HeapPosition == i && g[h[j]].HeapPosition == j;
        }
      }
    }
    forall c | 0 <= c < |g|
      ensures InHeap(g', h', n, c) <==> InHeap(g, h, n, c)
    {
      if c == h[i] || c == h[j] {
      } else {
        assert g'[c] == g[c];
        var q := g[c].HeapPosition;
        if 0 <= q < n && (q == i || q == j) {
          assert h'[q] != c && h[q] != c;
        }
      }
    }
  }

  // ------------------------------------------------------------- sift up

  /** A sift-up swap moves the hole from slot i to its parent j. */
  lemma SwapUp(g: seq<FMContainer>, h: seq<int>, n: int, i: int, j: int)
    requires Linked(g, h, n) && 0 < i < n && j == (i - 1) / 2
    requires PairsOrdered(g, h, n, i, -1) && Bridge(g, h, n, i)
    requires g[h[i]].value < g[h[j]].value
    ensures Linked(SwapCells(g, h, i, j), SwapSlots(h, i, j), n)
    ensures PairsOrdered(SwapCells(g, h, i, j), SwapSlots(h, i, j), n, j, -1)
    ensures Bridge(SwapCells(g, h, i, j), SwapSlots(h, i, j), n, j)
  {
    SwapLinks(g, h, n, i, j);
    var g', h' := SwapCells(g, h, i, j), SwapSlots(h, i, j);
    assert IsChild(j, i);
    forall p, c | 0 <= p < n && 0 <= c < n && IsChild(p, c) && c != j
      ensures g'[h'[p]].value <= g'[h'[c]].value
    {
      assert g'[h'[p]].value == g[h'[p]].value && g'[h'[c]].value == g[h'[c]].value;
      if p == j && c == i {
      } else if p == j {
        assert g[h[j]].value <= g[h[c]].value;
      } else if p == i {
        assert g[h[j]].value <= g[h[c]].value;
      } else if c == i {
        assert false;
      } else {
        assert h'[p] == h[p] && h'[c] == h[c];
        assert g[h[p]].value <= g[h[c]].value;
      }
    }
    if j > 0 {
      var pj := (j - 1) / 2;
      assert IsChild(pj, j);
      assert g[h[pj]].value <= g[h[j]].value;
      forall c | 0 <= c < n && IsChild(j, c)
        ensures g'[h'[pj]].value <= g'[h'[c]].value
      {
        assert g'[h'[pj]].value == g[h[pj]].value;
        assert g'[h'[c]].value == g[h'[c]].value;
        if c != i {
          assert g[h[j]].value <= g[h[c]].value;
        }
      }
    }
  }

  /** A sift-up that halts, at the root or below a smaller parent, leaves a heap. */
  lemma UpDone(g: seq<FMContainer>, h: seq<int>, n: int, i: int)
    requires Linked(g, h, n) && 0 <= i < n && PairsOrdered(g, h, n, i, -1)
    requires i > 0 ==> g[h[(i - 1) / 2]].value <= g[h[i]].value
    ensures Ordered(g, h, n)
  {
    forall p, c | 0 <= p < n && 0 <= c < n && IsChild(p, c)
      ensures g[h[p]].value <= g[h[c]].value
    {
      if c == i {
        assert p == (i - 1) / 2;
      }
    }
  }

  /**
   * Sift the cell at slot i0 up towards the root (the loop shared by
   * `AddToHeap` and `UpdateHeap`). When `ord` holds the heap is ordered but for
   * the pairs whose child is i0, and it is fully ordered afterwards.
   */
  method SiftUp(grid: array<FMContainer>, heap: array<int>, n: int, i0: int, ghost ord: bool)
    requires Linked(grid[..], heap[..], n) && 0 <= i0 < n
    requires ord ==> PairsOrdered(grid[..], heap[..], n, i0, -1) && Bridge(grid[..], heap[..], n, i0)
    modifies grid, heap
    ensures Linked(grid[..], heap[..], n)
    ensures ord ==> Ordered(grid[..], heap[..], n)
    ensures SameKeys(old(grid[..]), grid[..])
    ensures forall c {:trigger InHeap(old(grid[..]), old(heap[..]), n, c)} :: 0 <= c < grid.Length ==>
      (InHeap(grid[..], heap[..], n, c) <==> InHeap(old(grid[..]), old(heap[..]), n, c))
    ensures forall c {:trigger old(grid[c])} :: 0 <= c < grid.Length && !InHeap(old(grid[..]), old(heap[..]), n, c) ==>
      grid[c] == old(grid[c])
    ensures forall p {:trigger heap[p]} :: n <= p < heap.Length ==> heap[p] == old(heap[p])
  {
    ghost var g0, h0 := grid[..], heap[..];
    var index := heap[i0];
    var i := i0;
    while i > 0
      invariant 0 <= i < n && heap.Length == |h0| && grid.Length == |g0|
      invariant Linked(grid[..], heap[..], n) && heap[i] == index
      invariant ord ==> PairsOrdered(grid[..], heap[..], n, i, -1) && Bridge(grid[..], heap[..], n, i)
      invariant SameKeys(g0, grid[..])
      invariant forall c {:trigger InHeap(g0, h0, n, c)} :: 0 <= c < |g0| ==>
        (InHeap(grid[..], heap[..], n, c) <==> InHeap(g0, h0, n, c))
      invariant forall c {:trigger g0[c]} :: 0 <= c < |g0| && !InHeap(g0, h0, n, c) ==> grid[c] == g0[c]
      invariant forall p {:trigger heap[p]} :: n <= p < heap.Length ==> heap[p] == h0[p]
    {
      var j := (i - 1) / 2;
      if grid[heap[i]].value < grid[heap[j]].value {
        ghost var g, h := grid[..], heap[..];
        SwapLinks(g, h, n, i, j);
        if ord {
          SwapUp(g, h, n, i, j);
        }
        heap[i] := heap[j];
        grid[heap[j]] := grid[heap[j]].(HeapPosition := i);
        heap[j] := index;
        grid[index] := grid[index].(HeapPosition := j);
        assert grid[..] == SwapCells(g, h, i, j);
        assert heap[..] == SwapSlots(h, i, j);
        forall c | 0 <= c < |g0| && !InHeap(g0, h0, n, c)
          ensures grid[c] == g0[c]
        {
          assert !InHeap(g, h, n, c);
        }
        i := j;
      } else {
        break;
      }
    }
    if ord {
      UpDone(grid[..], heap[..], n, i);
    }
  }

  /**
   * `AddToHeap`: put `index` in the first free slot and sift it up; the heap
   * grows by one. An ordered heap stays ordered.
   */
  method AddToHeap(grid: array<FMContainer>, heap: array<int>, heapSize: int, index: int)
    returns (newSize: int)
    requires Linked(grid[..], heap[..], heapSize) && heapSize < heap.Length
    requires 0 <= index < grid.Length && !InHeap(grid[..], heap[..], heapSize, index)
    modifies grid, heap
    ensures newSize == heapSize + 1
    ensures Linked(grid[..], heap[..], newSize)
    ensures Ordered(old(grid[..]), old(heap[..]), heapSize) ==> Ordered(grid[..], heap[..], newSize)
    ensures SameKeys(old(grid[..]), grid[..])
    ensures forall c {:trigger InHeap(old(grid[..]), old(heap[..]), heapSize, c)} :: 0 <= c < grid.Length ==>
      (InHeap(grid[..], heap[..], newSize, c) <==> InHeap(old(grid[..]), old(heap[..]), heapSize, c) || c == index)
    ensures forall c {:trigger old(grid[c])} ::
      0 <= c < grid.Length && c != index && !InHeap(old(grid[..]), old(heap[..]), heapSize, c) ==> grid[c] == old(grid[c])
  {
    ghost var g0, h0 := grid[..], heap[..];
    ghost var ord := Ordered(g0, h0, heapSize);
    heap[heapSize] := index;
    grid[index] := grid[index].(HeapPosition := heapSize);
    newSize := heapSize + 1;
    ghost var g1, h1 := grid[..], heap[..];
    forall p | 0 <= p < newSize
      ensures 0 <= h1[p] < |g1| && g1[h1[p]].HeapPosition == p
    {
      if p < heapSize {
        assert h1[p] == h0[p] && g0[h0[p]].HeapPosition == p;
        assert h0[p] != index;
      }
    }
    forall c | 0 <= c < |g0|
      ensures InHeap(g1, h1, newSize, c) <==> InHeap(g0, h0, heapSize, c) || c == index
    {
      if c != index {
        assert g1[c] == g0[c];
        var q := g0[c].HeapPosition;
        if 0 <= q < heapSize {
          assert h1[q] == h0[q];
        }
      }
    }
    if ord {
      forall p, c | 0 <= p < newSize && 0 <= c < newSize && IsChild(p, c) && c != heapSize
        ensures g1[h1[p]].value <= g1[h1[c]].value
      {
        assert h1[p] == h0[p] && h1[c] == h0[c];
        assert g0[h0[p]].value <= g0[h0[c]].value;
      }
      assert PairsOrdered(g1, h1, newSize, heapSize, -1);
      assert Bridge(g1, h1, newSize, heapSize) by {
        forall c | 0 <= c < newSize && IsChild(heapSize, c)
          ensures false
        {
        }
      }
    }
    SiftUp(grid, heap, newSize, heapSize, ord);
    forall c | 0 <= c < |g0| && c != index && !InHeap(g0, h0, heapSize, c)
      ensures grid[c] == g0[c]
    {
      assert !InHeap(g1, h1, newSize, c);
    }
  }

  /** The keys before a cell's value was lowered from `oldKey` formed a heap. */
  ghost predicate DecreasedKey(g: seq<FMContainer>, h: seq<int>, n: int, index: int, oldKey: real)
    requires 0 <= index < |g|
  {
    g[index].value <= oldKey && Ordered(g[index := g[index].(value := oldKey)], h, n)
  }

  /**
   * `UpdateHeap`: sift a cell already in the heap up from its slot. This
   * restores the order after its key was lowered; it never moves a key down.
   */
  method UpdateHeap(grid: array<FMContainer>, heap: array<int>, heapSize: int, index: int, ghost oldKey: real)
    requires Linked(grid[..], heap[..], heapSize)
    requires 0 <= index < grid.Length && InHeap(grid[..], heap[..], heapSize, index)
    modifies grid, heap
    ensures Linked(grid[..], heap[..], heapSize)
    ensures old(DecreasedKey(grid[..], heap[..], heapSize, index, oldKey)) ==> Ordered(grid[..], heap[..], heapSize)
    ensures SameKeys(old(grid[..]), grid[..])
    ensures forall c {:trigger InHeap(old(grid[..]), old(heap[..]), heapSize, c)} :: 0 <= c < grid.Length ==>
      (InHeap(grid[..], heap[..], heapSize, c) <==> InHeap(old(grid[..]), old(heap[..]), heapSize, c))
    ensures forall c {:trigger old(grid[c])} ::
      0 <= c < grid.Length && !InHeap(old(grid[..]), old(heap[..]), heapSize, c) ==> grid[c] == old(grid[c])
  {
    ghost var g0, h0 := grid[..], heap[..];
    var i := grid[index].HeapPosition;
    ghost var ord := DecreasedKey(g0, h0, heapSize, index, oldKey);
    if ord {
      var gk := g0[index := g0[index].(value := oldKey)];
      assert Linked(gk, h0, heapSize) && PairsOrdered(gk, h0, heapSize, -1, -1);
      forall p, c | 0 <= p < heapSize && 0 <= c < heapSize && IsChild(p, c) && c != i
        ensures g0[h0[p]].value <= g0[h0[c]].value
      {
        assert gk[h0[p]].value <= gk[h0[c]].value;
        assert h0[c] != index by {
          assert g0[h0[c]].HeapPosition == c;
        }
        if h0[p] == index {
          assert gk[h0[p]].value == oldKey;
        }
      }
      if i > 0 {
        var pi := (i - 1) / 2;
        assert IsChild(pi, i);
        assert gk[h0[pi]].value <= gk[h0[i]].value;
        assert h0[pi] != index by {
          assert g0[h0[pi]].HeapPosition == pi;
        }
        forall c | 0 <= c < heapSize && IsChild(i, c)
          ensures g0[h0[pi]].value <= g0[h0[c]].value
        {
          assert gk[h0[i]].value <= gk[h0[c]].value;
          assert h0[c] != index by {
            assert g0[h0[c]].HeapPosition == c;
          }
        }
      }
      assert Bridge(g0, h0, heapSize, i);
    }
    SiftUp(grid, heap, heapSize, i, ord);
  }

  // ----------------------------------------------------------- sift down

  /** A sift-down swap moves the hole from slot i to its smaller child c. */
  lemma SwapDown(g: seq<FMContainer>, h: seq<int>, n: int, i: int, c: int)
    requires Linked(g, h, n) && 0 <= i < c < n && IsChild(i, c)
    requires PairsOrdered(g, h, n, -1, i) && Bridge(g, h, n, i)
    requires g[h[c]].value < g[h[i]].value
    requires forall d {:trigger h[d]} :: 0 <= d < n && IsChild(i, d) ==> g[h[c]].value <= g[h[d]].value
    ensures Linked(SwapCells(g, h, i, c), SwapSlots(h, i, c), n)
    ensures PairsOrdered(SwapCells(g, h, i, c), SwapSlots(h, i, c), n, -1, c)
    ensures Bridge(SwapCells(g, h, i, c), SwapSlots(h, i, c), n, c)
  {
    SwapLinks(g, h, n, i, c);
    var g', h' := SwapCells(g, h, i, c), SwapSlots(h, i, c);
    assert (c - 1) / 2 == i;
    forall p, d | 0 <= p < n && 0 <= d < n && IsChild(p, d) && p != c
      ensures g'[h'[p]].value <= g'[h'[d]].value
    {
      assert g'[h'[p]].value == g[h'[p]].value && g'[h'[d]].value == g[h'[d]].value;
      if p == i {
        assert h'[p] == h[c];
        if d != c {
          assert h'[d] == h[d];
        }
      } else if d == i {
        // the new occupant of i is c's old cell, which is no smaller than p's
        assert p == (i - 1) / 2;
        assert g[h[p]].value <= g[h[c]].value;
      } else if d == c {
        assert false;
      } else {
        assert h'[p] == h[p] && h'[d] == h[d];
        assert g[h[p]].value <= g[h[d]].value;
      }
    }
    forall d | 0 <= d < n && IsChild(c, d)
      ensures g'[h'[i]].value <= g'[h'[d]].value
    {
      assert h'[i] == h[c] && h'[d] == h[d];
      assert g[h[c]].value <= g[h[d]].value;
    }
  }

  /** A sift-down that halts below no larger child leaves a heap. */
  lemma DownDone(g: seq<FMContainer>, h: seq<int>, n: int, i: int)
    requires Linked(g, h, n) && 0 <= i < n && PairsOrdered(g, h, n, -1, i)
    requires forall d {:trigger h[d]} :: 0 <= d < n && IsChild(i, d) ==> g[h[i]].value <= g[h[d]].value
    ensures Ordered(g, h, n)
  {
  }

  /** In a heap the root holds a least key. */
  lemma {:induction false} RootIsMin(g: seq<FMContainer>, h: seq<int>, n: int, p: int)
    requires Ordered(g, h, n) && 0 <= p < n
    ensures g[h[0]].value <= g[h[p]].value
    decreases p
  {
    if p > 0 {
      var q := (p - 1) / 2;
      assert IsChild(q, p);
      RootIsMin(g, h, n, q);
    }
  }

  /**
   * The first step of `PopHeap`, on values: g1/h1 are g0/h0 after the root
   * cell was marked Done and the last slot's cell was moved to the root.
   */
  lemma PopStart(g0: seq<FMContainer>, h0: seq<int>, n: int, g1: seq<FMContainer>, h1: seq<int>)
    requires Linked(g0, h0, n) && n > 0
    requires h1 == h0[0 := h0[n - 1]]
    requires g1 == g0[h0[0] := g0[h0[0]].(DoneFlag := 1)][h0[n - 1] := g0[h0[0] := g0[h0[0]].(DoneFlag := 1)][h0[n - 1]].(HeapPosition := 0)]
    ensures Linked(g1, h1, n - 1) && |g1| == |g0|
    ensures h1[n - 1] == h0[n - 1] && (n - 1 > 0 ==> h1[0] == h0[n - 1])
    ensures forall c {:trigger InHeap(g0, h0, n, c)} :: 0 <= c < |g0| ==>
      g1[c].value == g0[c].value &&
      g1[c].DoneFlag == (if c == h0[0] then 1 else g0[c].DoneFlag) &&
      (InHeap(g1, h1, n - 1, c) <==> InHeap(g0, h0, n, c) && c != h0[0]) &&
      (!InHeap(g0, h0, n, c) ==> g1[c] == g0[c])
    ensures Ordered(g0, h0, n) && n - 1 > 0 ==> PairsOrdered(g1, h1, n - 1, -1, 0)
  {
    var index, last := h0[0], h0[n - 1];
    assert g0[index].HeapPosition == 0 && g0[last].HeapPosition == n - 1;
    forall p | 0 <= p < n - 1
      ensures 0 <= h1[p] < |g1| && g1[h1[p]].HeapPosition == p
    {
      if p > 0 {
        assert h1[p] == h0[p] && g0[h0[p]].HeapPosition == p;
      }
    }
    forall c | 0 <= c < |g0|
      ensures g1[c].value == g0[c].value
      ensures g1[c].DoneFlag == (if c == index then 1 else g0[c].DoneFlag)
      ensures InHeap(g1, h1, n - 1, c) <==> InHeap(g0, h0, n, c) && c != index
      ensures !InHeap(g0, h0, n, c) ==> g1[c] == g0[c]
    {
      if c != index && c != last {
        assert g1[c] == g0[c];
        var q := g0[c].HeapPosition;
        if 0 <= q < n && h0[q] == c {
          assert q != 0 && q != n - 1;
          assert h1[q] == h0[q];
        }
        if 0 <= q < n - 1 && h1[q] == c {
          assert q != 0;
          assert h1[q] == h0[q];
        }
      }
    }
    if Ordered(g0, h0, n) && n - 1 > 0 {
      forall p, d | 0 <= p < n - 1 && 0 <= d < n - 1 && IsChild(p, d) && p != 0
        ensures g1[h1[p]].value <= g1[h1[d]].value
      {
        assert h1[p] == h0[p] && h1[d] == h0[d];
        assert g0[h0[p]].value <= g0[h0[d]].value;
      }
    }
  }

  /**
   * One pass of the sift-down loop body: pick the smaller child of slot i and,
   * when it is smaller than the cell at i (whose copy sits in slot n), trade
   * the two slots. `stop` reports that no child was smaller.
   */
  method SinkOnce(grid: array<FMContainer>, heap: array<int>, n: int, i: int) returns (j: int, stop: bool)
    requires Linked(grid[..], heap[..], n) && 0 <= i < n < heap.Length && heap[i] == heap[n]
    modifies grid, heap
    ensures stop ==> grid[..] == old(grid[..]) && heap[..] == old(heap[..])
    ensures stop ==> forall d {:trigger heap[d]} :: 0 <= d < n && IsChild(i, d) ==>
      grid[heap[i]].value <= grid[heap[d]].value
    ensures !stop ==> i < j < n && IsChild(i, j)
    ensures !stop ==> old(grid[heap[j]].value) < old(grid[heap[i]].value)
    ensures !stop ==> forall d {:trigger old(heap[d])} :: 0 <= d < n && IsChild(i, d) ==>
      old(grid[heap[j]].value) <= old(grid[heap[d]].value)
    ensures !stop ==> grid[..] == SwapCells(old(grid[..]), old(heap[..]), i, j)
    ensures !stop ==> heap[..] == SwapSlots(old(heap[..]), i, j)
  {
    var lc := 2 * i + 1;
    var rc := 2 * i + 2;
    var current := grid[heap[i]].value;
    if lc < n {
      var lv := grid[heap[lc]].value;
      if rc < n {
        var rv := grid[heap[rc]].value;
        if lv > rv {
          lc := rc;
          lv := rv;
        }
      }
      if current > lv {
        ghost var g, h := grid[..], heap[..];
        heap[i] := heap[lc];
        grid[heap[i]] := grid[heap[i]].(HeapPosition := i);
        heap[lc] := heap[n];
        grid[heap[n]] := grid[heap[n]].(HeapPosition := lc);
        assert grid[..] == SwapCells(g, h, i, lc);
        return lc, false;
      }
    }
    return i, true;
  }

  /**
   * The sift-down loop of `PopHeap`: the cell at the root, whose copy also
   * sits in the free slot n, trades places with its smaller child while that
   * child is smaller. When `ord` holds the heap is ordered but for the pairs
   * whose parent is the root, and it is fully ordered afterwards.
   */
  method SiftDown(grid: array<FMContainer>, heap: array<int>, n: int, ghost ord: bool)
    requires Linked(grid[..], heap[..], n) && n < heap.Length
    requires n > 0 ==> heap[0] == heap[n]
    requires ord && n > 0 ==> PairsOrdered(grid[..], heap[..], n, -1, 0)
    modifies grid, heap
    ensures Linked(grid[..], heap[..], n)
    ensures ord ==> Ordered(grid[..], heap[..], n)
    ensures SameKeys(old(grid[..]), grid[..])
    ensures forall c {:trigger InHeap(old(grid[..]), old(heap[..]), n, c)} :: 0 <= c < grid.Length ==>
      (InHeap(grid[..], heap[..], n, c) <==> InHeap(old(grid[..]), old(heap[..]), n, c))
    ensures forall c {:trigger old(grid[c])} :: 0 <= c < grid.Length && !InHeap(old(grid[..]), old(heap[..]), n, c) ==>
      grid[c] == old(grid[c])
  {
    ghost var g0, h0 := grid[..], heap[..];
    var i := 0;
    while i < n - 1
      invariant 0 <= i < n || (i == 0 && n == 0)
      invariant heap.Length == |h0| && grid.Length == |g0|
      invariant Linked(grid[..], heap[..], n)
      invariant n > 0 ==> heap[i] == heap[n]
      invariant heap[n] == h0[n]
      invariant ord && n > 0 ==> PairsOrdered(grid[..], heap[..], n, -1, i) && Bridge(grid[..], heap[..], n, i)
      invariant SameKeys(g0, grid[..])
      invariant forall c {:trigger InHeap(g0, h0, n, c)} :: 0 <= c < |g0| ==>
        (InHeap(grid[..], heap[..], n, c) <==> InHeap(g0, h0, n, c))
      invariant forall c {:trigger g0[c]} :: 0 <= c < |g0| && !InHeap(g0, h0, n, c) ==> grid[c] == g0[c]
      decreases n - i
    {
      ghost var g, h := grid[..], heap[..];
      var j, stop := SinkOnce(grid, heap, n, i);
      if stop {
        if ord {
          DownDone(grid[..], heap[..], n, i);
        }
        break;
      }
      SwapLinks(g, h, n, i, j);
      if ord {
        SwapDown(g, h, n, i, j);
      }
      forall c | 0 <= c < |g0| && !InHeap(g0, h0, n, c)
        ensures grid[c] == g0[c]
      {
        assert !InHeap(g, h, n, c);
      }
      i := j;
    }
    if ord && n > 0 && i >= n - 1 {
      DownDone(grid[..], heap[..], n, i);
    }
  }

  /**
   * `PopHeap`: returns -1 for an empty heap. Otherwise it takes the root
   * cell, marks it Done, moves the last cell to the root and sifts it down;
   * the heap shrinks by one. The root's `HeapPosition` is left as it was.
   */
  method PopHeap(grid: array<FMContainer>, heap: array<int>, heapSize: int)
    returns (index: int, newSize: int)
    requires Linked(grid[..], heap[..], heapSize)
    modifies grid, heap
    ensures heapSize == 0 ==> index == -1 && newSize == 0 && grid[..] == old(grid[..]) && heap[..] == old(heap[..])
    ensures heapSize > 0 ==> index == old(heap[0]) && newSize == heapSize - 1
    ensures Linked(grid[..], heap[..], newSize)
    ensures Ordered(old(grid[..]), old(heap[..]), heapSize) ==> Ordered(grid[..], heap[..], newSize)
    ensures heapSize > 0 && Ordered(old(grid[..]), old(heap[..]), heapSize) ==>
      forall p {:trigger old(heap[p])} :: 0 <= p < heapSize ==> grid[index].value <= old(grid[heap[p]].value)
    ensures forall c {:trigger old(grid[c])} :: 0 <= c < grid.Length ==>
      grid[c].value == old(grid[c].value) &&
      grid[c].DoneFlag == (if c == index then 1 else old(grid[c].DoneFlag))
    ensures forall c {:trigger InHeap(old(grid[..]), old(heap[..]), heapSize, c)} :: 0 <= c < grid.Length ==>
      (InHeap(grid[..], heap[..], newSize, c) <==> InHeap(old(grid[..]), old(heap[..]), heapSize, c) && c != index)
    ensures forall c {:trigger old(grid[c])} ::
      0 <= c < grid.Length && !InHeap(old(grid[..]), old(heap[..]), heapSize, c) ==> grid[c] == old(grid[c])
  {
    if heapSize == 0 {
      return -1, 0;
    }
    ghost var g0, h0 := grid[..], heap[..];
    ghost var ord := Ordered(g0, h0, heapSize);
    if ord {
      forall p | 0 <= p < heapSize
        ensures g0[h0[0]].value <= g0[h0[p]].value
      {
        RootIsMin(g0, h0, heapSize, p);
      }
    }
    index := heap[0];
    grid[index] := grid[index].(DoneFlag := 1);
    newSize := heapSize - 1;
    heap[0] := heap[newSize];
    grid[heap[newSize]] := grid[heap[newSize]].(HeapPosition := 0);
    ghost var g1, h1 := grid[..], heap[..];
    PopStart(g0, h0, heapSize, g1, h1);
    SiftDown(grid, heap, newSize, ord);
    forall c | 0 <= c < grid.Length
      ensures grid[c].value == g0[c].value
      ensures grid[c].DoneFlag == (if c == index then 1 else g0[c].DoneFlag)
      ensures InHeap(grid[..], heap[..], newSize, c) <==> InHeap(g0, h0, heapSize, c) && c != index
      ensures !InHeap(g0, h0, heapSize, c) ==> grid[c] == g0[c]
    {
      assert InHeap(g0, h0, heapSize, c) || !InHeap(g0, h0, heapSize, c);
      assert InHeap(g1, h1, newSize, c) || !InHeap(g1, h1, newSize, c);
    }
  }

  // ------------------------------------------------------ heap capacity

  /** The cells named by heap slots 0..n-1. */
  ghost function HeapCells(h: seq<int>, n: int): set<int>
    requires 0 <= n <= |h|
  {
    set p | 0 <= p < n :: h[p]
  }

  /** Linked slots name distinct cells, so n slots name n cells. */
  lemma {:induction false} HeapCellsCount(g: seq<FMContainer>, h: seq<int>, n: int)
    requires Linked(g, h, n)
    ensures |HeapCells(h, n)| == n
  {
    if n > 0 {
      HeapCellsCount(g, h, n - 1);
      assert HeapCells(h, n) == HeapCells(h, n - 1) + {h[n - 1]};
      assert h[n - 1] !in HeapCells(h, n - 1);
    }
  }

  /** The cell indices 0..m-1. */
  ghost function Range(m: nat): set<int>
  {
    if m == 0 then {} else Range(m - 1) + {m - 1}
  }

  lemma {:induction false} RangeCount(m: nat)
    ensures |Range(m)| == m
    ensures forall k :: k in Range(m) <==> 0 <= k < m
  {
    if m > 0 {
      RangeCount(m - 1);
    }
  }

  lemma SubsetCount<T>(a: set<T>, b: set<T>)
    requires a <= b
    ensures |a| <= |b|
  {
    assert b == a + (b - a);
  }

  /**
   * A cell outside a linked heap leaves room for it: the heap array, one slot
   * per cell, has a free slot, so `AddToHeap` never writes past its end.
   */
  lemma HeapRoom(g: seq<FMContainer>, h: seq<int>, n: int, index: int)
    requires Linked(g, h, n) && |h| == |g|
    requires 0 <= index < |g| && !InHeap(g, h, n, index)
    ensures n < |h|
  {
    HeapCellsCount(g, h, n);
    RangeCount(|g|);
    var cells := Range(|g|);
    forall c | c in HeapCells(h, n)
      ensures c in cells - {index}
    {
      var p :| 0 <= p < n && h[p] == c;
      assert g[h[p]].HeapPosition == p;
    }
    SubsetCount(HeapCells(h, n), cells - {index});
  }

  // ------------------------------------------------------ the sign test

  /** The 32-bit two's-complement pattern of a C `int`. */
  function Bits32(a: int): bv32
    requires -0x8000_0000 <= a < 0x8000_0000
  {
    if a < 0 then (a + 0x1_0000_0000) as bv32 else a as bv32
  }

  /** `(a ^ b) < 0` on C ints: the sign bit of the bitwise exclusive or is set. */
  predicate XorNegative(a: int, b: int)
    requires -0x8000_0000 <= a < 0x8000_0000 && -0x8000_0000 <= b < 0x8000_0000
  {
    (Bits32(a) ^ Bits32(b)) & 0x8000_0000 != 0
  }

  /**
   * The crossing test of `Initialize`: on the flag values -1, 0 and 1,
   * `(a ^ b) < 0` holds exactly when one flag is negative and the other is not.
   */
  lemma XorSign(a: int, b: int)
    requires -1 <= a <= 1 && -1 <= b <= 1
    ensures XorNegative(a, b) <==> (a < 0) != (b < 0)
  {
    assert Bits32(-1) == 0xFFFF_FFFF && Bits32(0) == 0 && Bits32(1) == 1;
  }

  // ------------------------------------------- cell rules of both marchers

  /** The cell `Set(index, value)` writes: the negated value, out of the heap, fixed if negative. */
  function Loaded(value: real): FMContainer
  {
    var v := -value;
    FMContainer(if v < 0.0 then -1 else 0, -1, v)
  }

  /** `Set` fixes exactly the cells whose stored (negated) value is negative, and opens the rest. */
  lemma LoadedFlags(value: real)
    ensures Loaded(value).value == -value && Loaded(value).HeapPosition == -1
    ensures Loaded(value).DoneFlag == -1 <==> Loaded(value).value < 0.0
    ensures Loaded(value).DoneFlag == 0 <==> Loaded(value).value >= 0.0
  {
  }

  /** Loading a loaded cell's value gives back the original value. */
  lemma LoadTwice(value: real)
    ensures Loaded(Loaded(value).value).value == value
  {
  }

  /** A cell made fixed by `SetBoundary`. */
  function Pinned(c: FMContainer): FMContainer
  {
    c.(DoneFlag := -1)
  }

  /**
   * The crossing update of `Initialize`: a non-negative cell next to a fixed
   * (negative) one becomes Done, and its value becomes min(own, |h + other|).
   * Any other pair leaves the cell as it is.
   */
  function Crossed(v: FMContainer, nb: FMContainer, h: real): FMContainer
  {
    if v.DoneFlag >= 0 && nb.DoneFlag < 0 then v.(DoneFlag := 1, value := Min(v.value, Abs(h + nb.value))) else v
  }

  /** `Crossed` when p holds, the cell itself otherwise. */
  function CrossIf(p: bool, v: FMContainer, nb: FMContainer, h: real): FMContainer
  {
    if p then Crossed(v, nb, h) else v
  }

  /** A neighbour n that is looked at (p) and fixed. */
  predicate Hit(p: bool, n: FMContainer)
  {
    p && n.DoneFlag < 0
  }

  /** A neighbour enters `Crossed` only through its sign and, when fixed, its value. */
  lemma CrossedSameFixed(v: FMContainer, n: FMContainer, n': FMContainer, h: real)
    requires (n.DoneFlag < 0 <==> n'.DoneFlag < 0) && (n.DoneFlag < 0 ==> n == n')
    ensures Crossed(v, n, h) == Crossed(v, n', h)
  {
  }

  /** `CrossedSameFixed` for a step that may be skipped. */
  lemma CrossIfSameFixed(p: bool, v: FMContainer, n: FMContainer, n': FMContainer, h: real)
    requires p ==> (n.DoneFlag < 0 <==> n'.DoneFlag < 0) && (n.DoneFlag < 0 ==> n == n')
    ensures CrossIf(p, v, n, h) == CrossIf(p, v, n', h)
  {
    if p {
      CrossedSameFixed(v, n, n', h);
    }
  }

  /** Every flag is -1, 0 or 1. */
  ghost predicate FlagsInRange(g: seq<FMContainer>)
  {
    forall c {:trigger g[c]} :: 0 <= c < |g| ==> -1 <= g[c].DoneFlag <= 1
  }

  /** Flags only move from open to Done. */
  ghost predicate FlagsGrow(g: seq<FMContainer>, g': seq<FMContainer>)
  {
    |g'| == |g| &&
    forall c {:trigger g'[c]} :: 0 <= c < |g| ==>
      g'[c].DoneFlag == g[c].DoneFlag || (g[c].DoneFlag == 0 && g'[c].DoneFlag == 1)
  }

  /** Every open or Done cell holds a non-negative value. */
  ghost predicate NonNegative(g: seq<FMContainer>)
  {
    forall c {:trigger g[c]} :: 0 <= c < |g| && g[c].DoneFlag >= 0 ==> g[c].value >= 0.0
  }

  /** The values `Set` loads: no back-index, fixed exactly when negative, open otherwise. */
  ghost predicate LoadedForm(g: seq<FMContainer>)
  {
    forall c {:trigger g[c]} :: 0 <= c < |g| ==>
      g[c].HeapPosition == -1 && g[c].DoneFlag == (if g[c].value < 0.0 then -1 else 0)
  }

  /** Cells that are fixed or Done in g are unchanged in g'. */
  ghost predicate Kept(g: seq<FMContainer>, g': seq<FMContainer>)
  {
    |g'| == |g| && forall c {:trigger g'[c]} :: 0 <= c < |g| && g[c].DoneFlag != 0 ==> g'[c] == g[c]
  }

  lemma KeptGrowTrans(g0: seq<FMContainer>, g1: seq<FMContainer>, g2: seq<FMContainer>)
    requires Kept(g0, g1) && FlagsGrow(g0, g1) && Kept(g1, g2) && FlagsGrow(g1, g2)
    ensures Kept(g0, g2) && FlagsGrow(g0, g2)
  {
    forall c | 0 <= c < |g0|
      ensures g2[c].DoneFlag == g0[c].DoneFlag || (g0[c].DoneFlag == 0 && g2[c].DoneFlag == 1)
      ensures g0[c].DoneFlag != 0 ==> g2[c] == g0[c]
    {
      assert g1[c].DoneFlag == g0[c].DoneFlag || (g0[c].DoneFlag == 0 && g1[c].DoneFlag == 1);
      assert g2[c].DoneFlag == g1[c].DoneFlag || (g1[c].DoneFlag == 0 && g2[c].DoneFlag == 1);
    }
  }

  /** A cell outside the heap can take any value without disturbing the heap order. */
  lemma OrderedOutside(g: seq<FMContainer>, heap: seq<int>, n: int, index: int, v: real)
    requires Linked(g, heap, n) && 0 <= index < |g| && g[index].HeapPosition == -1
    ensures Ordered(g, heap, n) ==> Ordered(g[index := g[index].(value := v)], heap, n)
  {
    var g' := g[index := g[index].(value := v)];
    assert forall p {:trigger heap[p]} :: 0 <= p < n ==> heap[p] != index && g'[heap[p]] == g[heap[p]].(HeapPosition := g'[heap[p]].HeapPosition);
  }

  /** The open cells of g. */
  ghost function OpenCells(g: seq<FMContainer>): set<int>
  {
    set c | 0 <= c < |g| && g[c].DoneFlag == 0
  }

  /** Marking one open cell Done, with no other flag changed, leaves one open cell fewer. */
  lemma OpenCellsShrink(g: seq<FMContainer>, g': seq<FMContainer>, index: int)
    requires |g'| == |g| && 0 <= index < |g| && g[index].DoneFlag == 0 && g'[index].DoneFlag == 1
    requires forall c {:trigger g'[c]} :: 0 <= c < |g| && c != index ==> g'[c].DoneFlag == g[c].DoneFlag
    ensures |OpenCells(g')| == |OpenCells(g)| - 1
  {
    assert OpenCells(g') == OpenCells(g) - {index};
  }

  /** With no flag changed, the open cells are the same. */
  lemma OpenCellsSame(g: seq<FMContainer>, g': seq<FMContainer>)
    requires |g'| == |g| && forall c {:trigger g'[c]} :: 0 <= c < |g| ==> g'[c].DoneFlag == g[c].DoneFlag
    ensures OpenCells(g') == OpenCells(g)
  {
  }

  /** Open cell c, if it is open, is in the heap. */
  ghost predicate Queued(g: seq<FMContainer>, heap: seq<int>, n: int, c: int)
  {
    0 <= c < |g| && n <= |heap| && (g[c].DoneFlag == 0 ==> InHeap(g, heap, n, c))
  }

  /**
   * The state the march keeps on the heap, in either dimension: the heap is
   * linked, flags are -1, 0 or 1, every heap entry is open, and every open
   * cell with a back-index is in the heap.
   */
  ghost predicate HeapInv(g: seq<FMContainer>, heap: seq<int>, n: int)
  {
    Linked(g, heap, n) && |heap| == |g| && FlagsInRange(g) &&
    (forall p {:trigger heap[p]} :: 0 <= p < n ==> g[heap[p]].DoneFlag == 0) &&
    (forall c {:trigger g[c]} :: 0 <= c < |g| && g[c].DoneFlag == 0 && g[c].HeapPosition != -1 ==> InHeap(g, heap, n, c))
  }

  /** Every cell fixed in g is still fixed in g'. */
  ghost predicate FixedStay(g: seq<FMContainer>, g': seq<FMContainer>)
  {
    |g'| == |g| && forall c {:trigger g'[c]} :: 0 <= c < |g| && g[c].DoneFlag == -1 ==> g'[c].DoneFlag == -1
  }

  /** Writing a cell's value keeps the heap invariant and every flag. */
  lemma HeapValueWritten(g: seq<FMContainer>, heap: seq<int>, n: int, index: int, v: real)
    requires HeapInv(g, heap, n) && 0 <= index < |g|
    ensures HeapInv(g[index := g[index].(value := v)], heap, n) && FixedStay(g, g[index := g[index].(value := v)])
    ensures HeapKeeps(g, heap, n, g[index := g[index].(value := v)], heap, n)
    ensures g[index].DoneFlag == 0 ==> Settled(g, g[index := g[index].(value := v)])
  {
    var g' := g[index := g[index].(value := v)];
    forall c | 0 <= c < |g'| && g'[c].DoneFlag == 0 && g'[c].HeapPosition != -1
      ensures InHeap(g', heap, n, c)
    {
      assert g[c].HeapPosition == g'[c].HeapPosition;
    }
  }

  /**
   * After `AddToHeap` or `UpdateHeap` on open cell `index` the heap
   * invariant holds again: the cells' flags and values are as before, the
   * heap holds what it held plus `index`, and cells outside it are untouched.
   */
  lemma HeapRebuilt(g: seq<FMContainer>, heap: seq<int>, n: int, g': seq<FMContainer>, heap': seq<int>, n': int, index: int)
    requires HeapInv(g, heap, n) && 0 <= index < |g| && g[index].DoneFlag == 0
    requires Linked(g', heap', n') && |heap'| == |g'| && SameKeys(g, g')
    requires forall c {:trigger InHeap(g, heap, n, c)} :: 0 <= c < |g| ==>
      (InHeap(g', heap', n', c) <==> InHeap(g, heap, n, c) || c == index)
    requires forall c {:trigger g[c]} :: 0 <= c < |g| && c != index && !InHeap(g, heap, n, c) ==> g'[c] == g[c]
    ensures HeapInv(g', heap', n') && FixedStay(g, g')
    ensures Settled(g, g') && HeapKeeps(g, heap, n, g', heap', n')
  {
    forall p | 0 <= p < n'
      ensures g'[heap'[p]].DoneFlag == 0
    {
      var c := heap'[p];
      assert InHeap(g', heap', n', c);
      if c != index {
        assert InHeap(g, heap, n, c);
        assert g[heap[g[c].HeapPosition]].DoneFlag == 0;
      }
    }
    forall c | 0 <= c < |g'| && g'[c].DoneFlag == 0 && g'[c].HeapPosition != -1
      ensures InHeap(g', heap', n', c)
    {
      if c != index && !InHeap(g, heap, n, c) {
        assert g'[c] == g[c];
      }
    }
  }

  /**
   * After `PopHeap` has taken open cell `index` out of the heap and marked it
   * Done, the heap invariant holds again.
   */
  lemma HeapPopped(g: seq<FMContainer>, heap: seq<int>, n: int, g': seq<FMContainer>, heap': seq<int>, n': int, index: int)
    requires HeapInv(g, heap, n) && 0 <= index < |g| && g[index].DoneFlag == 0
    requires Linked(g', heap', n') && |heap'| == |g'| && |g'| == |g|
    requires forall c {:trigger g[c]} :: 0 <= c < |g| ==>
      g'[c].value == g[c].value && g'[c].DoneFlag == (if c == index then 1 else g[c].DoneFlag)
    requires forall c {:trigger InHeap(g, heap, n, c)} :: 0 <= c < |g| ==>
      (InHeap(g', heap', n', c) <==> InHeap(g, heap, n, c) && c != index)
    requires forall c {:trigger g[c]} :: 0 <= c < |g| && !InHeap(g, heap, n, c) ==> g'[c] == g[c]
    ensures HeapInv(g', heap', n') && FixedStay(g, g')
  {
    forall c | 0 <= c < |g'|
      ensures -1 <= g'[c].DoneFlag <= 1
      ensures g[c].DoneFlag == -1 ==> g'[c].DoneFlag == -1
    {
      assert g'[c].DoneFlag == (if c == index then 1 else g[c].DoneFlag);
    }
    forall p | 0 <= p < n'
      ensures g'[heap'[p]].DoneFlag == 0
    {
      var c := heap'[p];
      assert InHeap(g', heap', n', c);
      assert InHeap(g, heap, n, c);
      assert g[heap[g[c].HeapPosition]].DoneFlag == 0;
    }
    forall c | 0 <= c < |g'| && g'[c].DoneFlag == 0 && g'[c].HeapPosition != -1
      ensures InHeap(g', heap', n', c)
    {
      assert g[c].DoneFlag == 0;
    }
  }

  /** With every back-index -1, an empty heap meets the heap invariant and is ordered. */
  lemma EmptyHeap(g: seq<FMContainer>, heap: seq<int>)
    requires |heap| == |g| && FlagsInRange(g)
    requires forall c {:trigger g[c]} :: 0 <= c < |g| ==> g[c].HeapPosition == -1
    ensures HeapInv(g, heap, 0) && Ordered(g, heap, 0)
  {
  }

  /** From g to g' no flag changed and no fixed or Done cell changed. */
  ghost predicate Settled(g: seq<FMContainer>, g': seq<FMContainer>)
  {
    |g'| == |g| &&
    forall c {:trigger g'[c]} :: 0 <= c < |g| ==> g'[c].DoneFlag == g[c].DoneFlag && (g[c].DoneFlag != 0 ==> g'[c] == g[c])
  }

  /** Every cell in the heap (g, heap, n) is still in the heap (g', heap', n'). */
  ghost predicate HeapKeeps(g: seq<FMContainer>, heap: seq<int>, n: int, g': seq<FMContainer>, heap': seq<int>, n': int)
  {
    |g'| == |g| && n <= |heap| && n' <= |heap'| &&
    forall c {:trigger InHeap(g, heap, n, c)} :: 0 <= c < |g| ==> InHeap(g, heap, n, c) ==> InHeap(g', heap', n', c)
  }

  /** Two steps that each keep the flags, the fixed and Done cells and the heap's cells keep them together. */
  lemma SettledTrans(g0: seq<FMContainer>, h0: seq<int>, n0: int, g1: seq<FMContainer>, h1: seq<int>, n1: int,
                     g2: seq<FMContainer>, h2: seq<int>, n2: int)
    requires Settled(g0, g1) && HeapKeeps(g0, h0, n0, g1, h1, n1)
    requires Settled(g1, g2) && HeapKeeps(g1, h1, n1, g2, h2, n2)
    ensures Settled(g0, g2) && HeapKeeps(g0, h0, n0, g2, h2, n2)
  {
    forall c | 0 <= c < |g0|
      ensures g2[c].DoneFlag == g0[c].DoneFlag && (g0[c].DoneFlag != 0 ==> g2[c] == g0[c])
    {
      assert g1[c].DoneFlag == g0[c].DoneFlag && (g0[c].DoneFlag != 0 ==> g1[c] == g0[c]);
    }
  }

  /** A cell queued before a settled step that kept the heap's cells is still queued. */
  lemma QueuedSettled(g: seq<FMContainer>, heap: seq<int>, n: int, g': seq<FMContainer>, heap': seq<int>, n': int, c: int)
    requires Queued(g, heap, n, c) && Settled(g, g') && HeapKeeps(g, heap, n, g', heap', n')
    ensures Queued(g', heap', n', c)
  {
    assert g'[c].DoneFlag == g[c].DoneFlag;
  }
}
