/**
 * The neighbour selection of `FindPhi` and its upwind quadratic, shared by
 * the 2D and 3D marchers (their `CheckFront`, `CheckBehind` and `CheckMax2`
 * have the same text). The C++ routines update `phi`, `a` and `flag` through
 * references; here each returns the updated triple. The square root itself is
 * not modelled: the lemmas about the root take any non-negative r with
 * r * r equal to the discriminant.
 */
module Eikonal {
  import opened Numerics
  import opened MarchHeap

  /** The (phi, a, flag) triple that the check routines update. */
  datatype Check = Check(phi: real, a: int, flag: bool)

  /** `CheckFront`: a Done front neighbour sets the axis value and counts the axis. */
  function CheckFront(s: Check, n: FMContainer): Check
  {
    if n.DoneFlag == 1 then Check(n.value, s.a + 1, true) else s
  }

  /**
   * `CheckBehind`: a Done behind neighbour counts the axis unless the front
   * one already did, and then the smaller of the two values is kept.
   */
  function CheckBehind(s: Check, n: FMContainer): Check
  {
    if n.DoneFlag == 1 then
      if !s.flag then Check(n.value, s.a + 1, true) else Check(Min(n.value, s.phi), s.a, true)
    else s
  }

  /**
   * One axis of `FindPhi`: its value starts at 0 and unflagged, then
   * `CheckFront` and `CheckBehind` look at the two neighbours. The axis is
   * counted once when either neighbour is Done, and its value is the smaller
   * Done value.
   */
  function Axis(a: int, front: FMContainer, behind: FMContainer): (r: Check)
    ensures r.flag <==> front.DoneFlag == 1 || behind.DoneFlag == 1
    ensures r.a == if r.flag then a + 1 else a
    ensures front.DoneFlag == 1 && behind.DoneFlag == 1 ==> r.phi == Min(front.value, behind.value)
    ensures front.DoneFlag == 1 && behind.DoneFlag != 1 ==> r.phi == front.value
    ensures front.DoneFlag != 1 && behind.DoneFlag == 1 ==> r.phi == behind.value
    ensures !r.flag ==> r.phi == 0.0
  {
    CheckBehind(CheckFront(Check(0.0, a, false), front), behind)
  }

  /**
   * `CheckMax2`: with phi1 the larger of two axis values, drop it (to 0) and
   * fall back to one axis when the two are more than a cell apart.
   */
  function CheckMax2(a: int, phi1: real, phi2: real, hInv: real): (r: (int, real))
  {
    if Square((phi1 - phi2) * hInv) > 1.0 then (1, 0.0) else (a, phi1)
  }

  /**
   * `CheckMax3`: with phi1 the largest of three axis values, drop its axis
   * (value 0, flag cleared, two axes left) when the two normalised squared
   * differences sum past 1.
   */
  function CheckMax3(a: int, flag: bool, phi1: real, phi2: real, phi3: real, hInv: real): (r: (int, bool, real))
  {
    if Square((phi1 - phi2) * hInv) + Square((phi1 - phi3) * hInv) > 1.0 then (2, false, 0.0)
    else (a, flag, phi1)
  }

  /** The values and axis count `FindPhi` hands to the quadratic. */
  datatype Stencil = Stencil(phiX: real, phiY: real, phiZ: real, a: int)

  /** `b`: the sum of the axis values. */
  function B(s: Stencil): real
  {
    s.phiX + s.phiY + s.phiZ
  }

  /** The discriminant over three plain values, with a the axis count. */
  function Q(a: real, p: real, q: real, w: real, h: real): real
  {
    Square(p + q + w) - a * (Square(p) + Square(q) + Square(w) - Square(h))
  }

  /** The sum of the squared axis values. */
  function SumSq(s: Stencil): real
  {
    Square(s.phiX) + Square(s.phiY) + Square(s.phiZ)
  }

  /** `quotient`: the discriminant of the upwind quadratic. */
  function Quotient(s: Stencil, h: real): real
  {
    Square(B(s)) - s.a as real * (SumSq(s) - Square(h))
  }

  /** The 2D selection (FastMarch2D.cpp `FindPhi` up to the discriminant). */
  function Select2(right: FMContainer, left: FMContainer, up: FMContainer, down: FMContainer, hInv: real): Stencil
  {
    var x := Axis(0, right, left);
    var y := Axis(x.a, up, down);
    if y.a == 2 then
      if x.phi >= y.phi then
        var (a, p) := CheckMax2(y.a, x.phi, y.phi, hInv); Stencil(p, y.phi, 0.0, a)
      else
        var (a, p) := CheckMax2(y.a, y.phi, x.phi, hInv); Stencil(x.phi, p, 0.0, a)
    else Stencil(x.phi, y.phi, 0.0, y.a)
  }

  /** The per-axis state of the 3D selection between its two max tests. */
  datatype Axes = Axes(a: int, flagX: bool, flagY: bool, flagZ: bool, phiX: real, phiY: real, phiZ: real)

  /** The `a == 3` test of the 3D `FindPhi`: `CheckMax3` on the largest axis. */
  function Max3Test(s: Axes, hInv: real): Axes
  {
    if s.a == 3 then
      if s.phiX >= s.phiY && s.phiX >= s.phiZ then
        var (a, f, p) := CheckMax3(s.a, s.flagX, s.phiX, s.phiY, s.phiZ, hInv); s.(a := a, flagX := f, phiX := p)
      else if s.phiY >= s.phiX && s.phiY >= s.phiZ then
        var (a, f, p) := CheckMax3(s.a, s.flagY, s.phiY, s.phiX, s.phiZ, hInv); s.(a := a, flagY := f, phiY := p)
      else
        var (a, f, p) := CheckMax3(s.a, s.flagZ, s.phiZ, s.phiX, s.phiY, hInv); s.(a := a, flagZ := f, phiZ := p)
    else s
  }

  /** The `a == 2` test of the 3D `FindPhi`: `CheckMax2` on the two flagged axes. */
  function Max2Test(s: Axes, hInv: real): Axes
  {
    if s.a == 2 then
      if !s.flagX then
        if s.phiY >= s.phiZ then var (a, p) := CheckMax2(s.a, s.phiY, s.phiZ, hInv); s.(a := a, phiY := p)
        else var (a, p) := CheckMax2(s.a, s.phiZ, s.phiY, hInv); s.(a := a, phiZ := p)
      else if !s.flagY then
        if s.phiX >= s.phiZ then var (a, p) := CheckMax2(s.a, s.phiX, s.phiZ, hInv); s.(a := a, phiX := p)
        else var (a, p) := CheckMax2(s.a, s.phiZ, s.phiX, hInv); s.(a := a, phiZ := p)
      else
        if s.phiX >= s.phiY then var (a, p) := CheckMax2(s.a, s.phiX, s.phiY, hInv); s.(a := a, phiX := p)
        else var (a, p) := CheckMax2(s.a, s.phiY, s.phiX, hInv); s.(a := a, phiY := p)
    else s
  }

  /** The three checked axes of the 3D `FindPhi`, before the max tests. */
  function Axes3(xp: FMContainer, xm: FMContainer, yp: FMContainer, ym: FMContainer,
                 zp: FMContainer, zm: FMContainer): Axes
  {
    var x := Axis(0, xp, xm);
    var y := Axis(x.a, yp, ym);
    var z := Axis(y.a, zp, zm);
    Axes(z.a, x.flag, y.flag, z.flag, x.phi, y.phi, z.phi)
  }

  /** The 3D selection (FastMarch.cpp `FindPhi` up to the discriminant). */
  function Select3(xp: FMContainer, xm: FMContainer, yp: FMContainer, ym: FMContainer,
                   zp: FMContainer, zm: FMContainer, hInv: real): Stencil
  {
    var s := Max2Test(Max3Test(Axes3(xp, xm, yp, ym, zp, zm), hInv), hInv);
    Stencil(s.phiX, s.phiY, s.phiZ, s.a)
  }

  // ------------------------------------------------------ the upwind shape

  /** Two axis values within a cell of each other. */
  predicate Close2(p: real, q: real, h: real)
  {
    p - q <= h && q - p <= h
  }

  /** p is the largest of three axis values and the other two are near it. */
  predicate Close3(p: real, q: real, r: real, h: real)
  {
    p >= q && p >= r && Square(p - q) + Square(p - r) <= Square(h)
  }

  /**
   * What the max tests guarantee: one axis with the other values 0, or two
   * close axes with the third 0, or three axes close to the largest.
   */
  predicate Upwind(s: Stencil, h: real)
  {
    (s.a == 1 && ((s.phiY == 0.0 && s.phiZ == 0.0) || (s.phiX == 0.0 && s.phiZ == 0.0) || (s.phiX == 0.0 && s.phiY == 0.0))) ||
    (s.a == 2 && ((s.phiZ == 0.0 && Close2(s.phiX, s.phiY, h)) || (s.phiY == 0.0 && Close2(s.phiX, s.phiZ, h)) ||
                  (s.phiX == 0.0 && Close2(s.phiY, s.phiZ, h)))) ||
    (s.a == 3 && (Close3(s.phiX, s.phiY, s.phiZ, h) || Close3(s.phiY, s.phiX, s.phiZ, h) || Close3(s.phiZ, s.phiX, s.phiY, h)))
  }

  // ---------------------------------------------- arithmetic in cell units

  /** Multiplying by k*k with k = 1/h turns a comparison with h*h into one with 1. */
  lemma ScaledSum(t: real, k: real, h: real)
    requires h > 0.0 && k * h == 1.0
    ensures t * (k * k) > 1.0 <==> t > h * h
  {
    assert (k * k) * (h * h) == (k * h) * (k * h) == 1.0;
    assert (t * (k * k)) * (h * h) == t * ((k * k) * (h * h));
    if t * (k * k) > 1.0 {
      MulLess(1.0, t * (k * k), h * h);
    } else {
      MulLe(t * (k * k), 1.0, h * h);
    }
  }

  lemma SquareScaled(d: real, k: real)
    ensures Square(d * k) == Square(d) * (k * k)
  {
    assert (d * k) * (d * k) == (d * d) * (k * k);
  }

  /** For h > 0, d*d exceeds h*h exactly when |d| exceeds h. */
  lemma SquareAbove(d: real, h: real)
    requires h > 0.0
    ensures Square(d) > h * h <==> Abs(d) > h
  {
    var e := Abs(d);
    assert Square(d) == e * e;
    if e > h {
      MulLess(h, e, h);
      MulLess(h, e, e);
    } else {
      MulLe(e, h, e);
      MulLe(e, h, h);
    }
  }

  /** The `CheckMax2` test in cell units: the difference exceeds h. */
  lemma ScaledSquare(d: real, h: real, hInv: real)
    requires h > 0.0 && hInv == 1.0 / h
    ensures Square(d * hInv) > 1.0 <==> Abs(d) > h
  {
    SquareScaled(d, hInv);
    ScaledSum(Square(d), hInv, h);
    SquareAbove(d, h);
  }

  /** The `CheckMax3` test in cell units. */
  lemma ScaledSquares(d: real, e: real, h: real, hInv: real)
    requires h > 0.0 && hInv == 1.0 / h
    ensures Square(d * hInv) + Square(e * hInv) > 1.0 <==> Square(d) + Square(e) > Square(h)
  {
    SquareScaled(d, hInv);
    SquareScaled(e, hInv);
    var t := Square(d) + Square(e);
    assert Square(d * hInv) + Square(e * hInv) == t * (hInv * hInv);
    assert hInv * h == 1.0;
    ScaledSum(t, hInv, h);
    assert Square(h) == h * h;
  }

  // ------------------------------------------------------ the selections

  /** The result of `CheckMax2` in cell units. */
  lemma CheckMax2Rule(a: int, p: real, q: real, h: real, hInv: real)
    requires h > 0.0 && hInv == 1.0 / h
    ensures CheckMax2(a, p, q, hInv) == if Abs(p - q) > h then (1, 0.0) else (a, p)
  {
    ScaledSquare(p - q, h, hInv);
  }

  /**
   * `CheckMax2` in `FindPhi` (2D): with both axes Done, the larger value is
   * dropped and one axis kept exactly when the two differ by more than h;
   * otherwise both values are used.
   */
  lemma Select2Max(right: FMContainer, left: FMContainer, up: FMContainer, down: FMContainer, h: real, hInv: real)
    requires h > 0.0 && hInv == 1.0 / h
    requires right.DoneFlag == 1 || left.DoneFlag == 1
    requires up.DoneFlag == 1 || down.DoneFlag == 1
    ensures var x, y := Axis(0, right, left).phi, Axis(1, up, down).phi;
            var s := Select2(right, left, up, down, hInv);
            if Abs(x - y) > h then
              s.a == 1 && s.phiX + s.phiY == Min(x, y) && (s.phiX == 0.0 || s.phiY == 0.0)
            else
              s.a == 2 && s.phiX == x && s.phiY == y
  {
    var x, y := Axis(0, right, left).phi, Axis(1, up, down).phi;
    CheckMax2Rule(2, x, y, h, hInv);
    CheckMax2Rule(2, y, x, h, hInv);
    assert Abs(x - y) == Abs(y - x);
  }

  /**
   * Every 2D selection with a Done neighbour has the upwind shape, so its
   * discriminant is at least h^2 (see `QuotientBound`).
   */
  lemma Select2Upwind(right: FMContainer, left: FMContainer, up: FMContainer, down: FMContainer, h: real, hInv: real)
    requires h > 0.0 && hInv == 1.0 / h
    requires right.DoneFlag == 1 || left.DoneFlag == 1 || up.DoneFlag == 1 || down.DoneFlag == 1
    ensures Upwind(Select2(right, left, up, down, hInv), h)
    ensures 1 <= Select2(right, left, up, down, hInv).a <= 2
  {
    var x := Axis(0, right, left);
    var y := Axis(x.a, up, down);
    if y.a == 2 {
      CheckMax2Rule(2, x.phi, y.phi, h, hInv);
      CheckMax2Rule(2, y.phi, x.phi, h, hInv);
    }
  }

  /** Flags and count of the 3D axis state agree, and unflagged axes are 0. */
  ghost predicate Counted(s: Axes)
  {
    s.a == (if s.flagX then 1 else 0) + (if s.flagY then 1 else 0) + (if s.flagZ then 1 else 0) &&
    (!s.flagX ==> s.phiX == 0.0) && (!s.flagY ==> s.phiY == 0.0) && (!s.flagZ ==> s.phiZ == 0.0)
  }

  /** The result of `CheckMax3` in cell units. */
  lemma CheckMax3Rule(a: int, f: bool, p: real, q: real, r: real, h: real, hInv: real)
    requires h > 0.0 && hInv == 1.0 / h
    ensures CheckMax3(a, f, p, q, r, hInv) ==
      if Square(p - q) + Square(p - r) > Square(h) then (2, false, 0.0) else (a, f, p)
  {
    ScaledSquares(p - q, p - r, h, hInv);
  }

  /**
   * The `a == 3` test in cell units: the largest axis is dropped exactly when
   * it is too far from the other two, and otherwise all three are close.
   */
  lemma Max3Rule(s: Axes, h: real, hInv: real)
    requires h > 0.0 && hInv == 1.0 / h && Counted(s) && s.a == 3
    ensures Counted(Max3Test(s, hInv))
    ensures Max3Test(s, hInv).a == 3 ==>
      Max3Test(s, hInv) == s &&
      (Close3(s.phiX, s.phiY, s.phiZ, h) || Close3(s.phiY, s.phiX, s.phiZ, h) || Close3(s.phiZ, s.phiX, s.phiY, h))
    ensures Max3Test(s, hInv).a == 2 || Max3Test(s, hInv).a == 3
  {
    CheckMax3Rule(s.a, s.flagX, s.phiX, s.phiY, s.phiZ, h, hInv);
    CheckMax3Rule(s.a, s.flagY, s.phiY, s.phiX, s.phiZ, h, hInv);
    CheckMax3Rule(s.a, s.flagZ, s.phiZ, s.phiX, s.phiY, h, hInv);
  }

  /** The `a == 2` test leaves two close axes with the third 0, or one axis. */
  lemma Max2Rule(s: Axes, h: real, hInv: real)
    requires h > 0.0 && hInv == 1.0 / h && Counted(s) && s.a == 2
    ensures Upwind(Stencil(Max2Test(s, hInv).phiX, Max2Test(s, hInv).phiY, Max2Test(s, hInv).phiZ, Max2Test(s, hInv).a), h)
  {
    CheckMax2Rule(2, s.phiY, s.phiZ, h, hInv);
    CheckMax2Rule(2, s.phiZ, s.phiY, h, hInv);
    CheckMax2Rule(2, s.phiX, s.phiZ, h, hInv);
    CheckMax2Rule(2, s.phiZ, s.phiX, h, hInv);
    CheckMax2Rule(2, s.phiX, s.phiY, h, hInv);
    CheckMax2Rule(2, s.phiY, s.phiX, h, hInv);
  }

  /**
   * Every 3D selection with a Done neighbour has the upwind shape: after
   * `CheckMax3` and `CheckMax2`, the axes left in use are within a cell.
   */
  lemma Select3Upwind(xp: FMContainer, xm: FMContainer, yp: FMContainer, ym: FMContainer,
                      zp: FMContainer, zm: FMContainer, h: real, hInv: real)
    requires h > 0.0 && hInv == 1.0 / h
    requires xp.DoneFlag == 1 || xm.DoneFlag == 1 || yp.DoneFlag == 1 || ym.DoneFlag == 1 ||
             zp.DoneFlag == 1 || zm.DoneFlag == 1
    ensures Upwind(Select3(xp, xm, yp, ym, zp, zm, hInv), h)
    ensures 1 <= Select3(xp, xm, yp, ym, zp, zm, hInv).a <= 3
  {
    var s0 := Axes3(xp, xm, yp, ym, zp, zm);
    assert Counted(s0) && 1 <= s0.a <= 3;
    var s1 := Max3Test(s0, hInv);
    if s0.a == 3 {
      Max3Rule(s0, h, hInv);
    } else {
      assert s1 == s0;
    }
    if s1.a == 2 {
      Max2Rule(s1, h, hInv);
    } else {
      assert Max2Test(s1, hInv) == s1;
    }
  }

  /**
   * `CheckMax3` in `FindPhi` (3D): with all three axes Done and X the largest,
   * when X is too far from the others its axis is dropped (value 0) and the
   * two-axis test then runs on Y and Z.
   */
  lemma Select3DropsLargest(xp: FMContainer, xm: FMContainer, yp: FMContainer, ym: FMContainer,
                            zp: FMContainer, zm: FMContainer, h: real, hInv: real)
    requires h > 0.0 && hInv == 1.0 / h
    requires var s := Axes3(xp, xm, yp, ym, zp, zm);
             s.flagX && s.flagY && s.flagZ && s.phiX >= s.phiY && s.phiX >= s.phiZ &&
             Square(s.phiX - s.phiY) + Square(s.phiX - s.phiZ) > Square(h)
    ensures var s := Axes3(xp, xm, yp, ym, zp, zm);
            var r := Select3(xp, xm, yp, ym, zp, zm, hInv);
            r.phiX == 0.0 &&
            (if Close2(s.phiY, s.phiZ, h) then r.a == 2 && r.phiY == s.phiY && r.phiZ == s.phiZ
             else r.a == 1 && r.phiY + r.phiZ == Min(s.phiY, s.phiZ) && (r.phiY == 0.0 || r.phiZ == 0.0))
  {
    var s := Axes3(xp, xm, yp, ym, zp, zm);
    CheckMax3Rule(3, true, s.phiX, s.phiY, s.phiZ, h, hInv);
    var s1 := Max3Test(s, hInv);
    assert s1 == s.(a := 2, flagX := false, phiX := 0.0);
    CheckMax2Rule(2, s.phiY, s.phiZ, h, hInv);
    CheckMax2Rule(2, s.phiZ, s.phiY, h, hInv);
  }

  // ------------------------------------------------------ the quadratic

  lemma SquareMonotone(x: real, y: real)
    requires 0.0 <= x <= y
    ensures Square(x) <= Square(y)
  {
    MulNonneg(y - x, y + x);
    assert (y - x) * (y + x) == y * y - x * x;
  }

  /** (q - r)^2 is at most (p - q)^2 + (p - r)^2 when p is the largest. */
  lemma InnerGap(p: real, q: real, r: real)
    requires p >= q && p >= r
    ensures Square(q - r) <= Square(p - q) + Square(p - r)
  {
    if q >= r {
      SquareMonotone(q - r, p - r);
    } else {
      SquareMonotone(r - q, p - q);
      assert Square(q - r) == Square(r - q);
    }
  }

  /** The discriminant does not depend on the order of the axis values. */
  lemma QPermuted(a: real, p: real, q: real, w: real, h: real)
    ensures Q(a, q, p, w, h) == Q(a, p, q, w, h)
    ensures Q(a, p, w, q, h) == Q(a, p, q, w, h)
    ensures Q(a, w, p, q, h) == Q(a, p, q, w, h)
  {
    assert q + p + w == p + w + q == w + p + q == p + q + w;
  }

  /**
   * An upwind stencil in canonical order: the axes in use come first, and
   * with three the largest comes first. Every axis value is one of p, q, w.
   */
  lemma Canonical(s: Stencil, h: real) returns (p: real, q: real, w: real)
    requires Upwind(s, h)
    ensures B(s) == p + q + w && SumSq(s) == Square(p) + Square(q) + Square(w)
    ensures Quotient(s, h) == Q(s.a as real, p, q, w, h)
    ensures s.a == 1 ==> q == 0.0 && w == 0.0
    ensures s.a == 2 ==> w == 0.0 && Close2(p, q, h)
    ensures s.a == 3 ==> Close3(p, q, w, h)
    ensures (s.phiX == p || s.phiX == q || s.phiX == w) && (s.phiY == p || s.phiY == q || s.phiY == w) &&
            (s.phiZ == p || s.phiZ == q || s.phiZ == w)
  {
    var x, y, z := s.phiX, s.phiY, s.phiZ;
    QPermuted(s.a as real, x, y, z, h);
    QPermuted(s.a as real, x, z, y, h);
    if s.a == 1 {
      if y == 0.0 && z == 0.0 {
        p, q, w := x, 0.0, 0.0;
      } else if x == 0.0 && z == 0.0 {
        p, q, w := y, 0.0, 0.0;
      } else {
        p, q, w := z, 0.0, 0.0;
      }
    } else if s.a == 2 {
      if z == 0.0 && Close2(x, y, h) {
        p, q, w := x, y, 0.0;
      } else if y == 0.0 && Close2(x, z, h) {
        p, q, w := x, z, 0.0;
      } else {
        p, q, w := y, z, 0.0;
      }
    } else {
      if Close3(x, y, z, h) {
        p, q, w := x, y, z;
      } else if Close3(y, x, z, h) {
        p, q, w := y, x, z;
      } else {
        p, q, w := z, x, y;
      }
    }
  }

  /** The discriminant with two axes in use. */
  lemma Q2(p: real, q: real, h: real)
    ensures Q(2.0, p, q, 0.0, h) == 2.0 * Square(h) - Square(p - q)
  {
    assert Square(p + q + 0.0) == p * p + 2.0 * p * q + q * q;
    assert Square(p - q) == p * p - 2.0 * p * q + q * q;
  }

  /** The discriminant with three axes in use. */
  lemma Q3(p: real, q: real, w: real, h: real)
    ensures Q(3.0, p, q, w, h) == 3.0 * Square(h) - (Square(p - q) + Square(p - w) + Square(q - w))
  {
    assert Square(p + q + w) == p * p + q * q + w * w + 2.0 * p * q + 2.0 * p * w + 2.0 * q * w;
    assert Square(p - q) + Square(p - w) + Square(q - w) ==
      2.0 * (p * p + q * q + w * w) - 2.0 * p * q - 2.0 * p * w - 2.0 * q * w;
  }

  /** Two close values have a squared difference of at most h^2. */
  lemma CloseSquare(p: real, q: real, h: real)
    requires h > 0.0 && Close2(p, q, h)
    ensures Square(p - q) <= Square(h)
  {
    SquareAbove(p - q, h);
    assert Square(h) == h * h;
  }

  /**
   * The discriminant of an upwind selection is at least h^2: the branch of
   * `FindPhi` that skips a negative discriminant is never taken.
   */
  lemma QuotientBound(s: Stencil, h: real)
    requires h > 0.0 && Upwind(s, h)
    ensures Quotient(s, h) >= Square(h)
  {
    var p, q, w := Canonical(s, h);
    if s.a == 1 {
      assert Q(1.0, p, 0.0, 0.0, h) == Square(h);
    } else if s.a == 2 {
      Q2(p, q, h);
      CloseSquare(p, q, h);
    } else {
      Q3(p, q, w, h);
      InnerGap(p, q, w);
    }
  }

  /** The left-hand side of the quadratic a*phi^2 - 2*b*phi + c = 0. */
  function Residual(a: real, b: real, c: real, phi: real): real
  {
    a * phi * phi - 2.0 * b * phi + c
  }

  /** phi with a*phi = b + r solves a*phi^2 - 2*b*phi + c = 0 when r^2 = b^2 - a*c. */
  lemma RootSolves(a: real, b: real, c: real, r: real, phi: real)
    requires a > 0.0 && r * r == Square(b) - a * c && a * phi == b + r
    ensures Residual(a, b, c, phi) == 0.0
  {
    assert a * phi * phi - 2.0 * b * phi + c == (a * phi * (a * phi) - 2.0 * b * (a * phi) + a * c) / a;
    assert (b + r) * (b + r) - 2.0 * b * (b + r) + a * c == r * r - (b * b - a * c);
  }

  /** A non-negative root whose square bounds d^2 bounds d. */
  lemma RootAbove(r: real, d: real)
    requires r >= 0.0 && d >= 0.0 && r * r >= d * d
    ensures r >= d
  {
    if r < d {
      SquareLess(r, d);
    }
  }

  lemma SquareLess(r: real, d: real)
    requires 0.0 <= r < d
    ensures r * r < d * d
  {
    MulLess(0.0, d - r, d + r);
    assert (d - r) * (d + r) == d * d - r * r;
  }

  /** Two close axes: phi is at least the larger of the two. */
  lemma Root2(p: real, q: real, h: real, r: real)
    requires h > 0.0 && Close2(p, q, h) && r >= 0.0 && r * r == 2.0 * Square(h) - Square(p - q)
    ensures (p + q + r) / 2.0 >= p && (p + q + r) / 2.0 >= q
  {
    CloseSquare(p, q, h);
    var d := Abs(p - q);
    assert d * d == Square(p - q);
    RootAbove(r, d);
  }

  /** Three close axes with p the largest: phi is at least p. */
  lemma Root3(p: real, q: real, w: real, h: real, r: real)
    requires h > 0.0 && Close3(p, q, w, h) && r >= 0.0
    requires r * r == 3.0 * Square(h) - (Square(p - q) + Square(p - w) + Square(q - w))
    ensures (p + q + w + r) / 3.0 >= p
  {
    var u, v := p - q, p - w;
    assert Square(q - w) == (u - v) * (u - v);
    assert r * r - (u + v) * (u + v) == 3.0 * (Square(h) - u * u - v * v);
    RootAbove(r, u + v);
  }

  /** The value `FindPhi` stores: `(b + sqrt(quotient)) / a`, with r for the root. */
  function Root(s: Stencil, r: real): real
    requires s.a != 0
  {
    (B(s) + r) / s.a as real
  }

  /**
   * The stored value, with r the non-negative root of the discriminant,
   * solves the upwind quadratic a*phi^2 - 2*b*phi + (sum of squares - h^2) = 0,
   * and it is no smaller than any non-zero axis value it was built from.
   */
  lemma RootIsUpwind(s: Stencil, h: real, r: real)
    requires h > 0.0 && Upwind(s, h)
    requires r >= 0.0 && r * r == Quotient(s, h)
    ensures Residual(s.a as real, B(s), SumSq(s) - Square(h), Root(s, r)) == 0.0
    ensures RootBounds(s, Root(s, r))
  {
    var a := s.a as real;
    assert a > 0.0;
    assert a * Root(s, r) == B(s) + r;
    RootSolves(a, B(s), SumSq(s) - Square(h), r, Root(s, r));
    RootBound(s, h, r);
  }

  /** phi is no smaller than any non-zero axis value of s. */
  predicate RootBounds(s: Stencil, phi: real)
  {
    (s.phiX != 0.0 ==> phi >= s.phiX) && (s.phiY != 0.0 ==> phi >= s.phiY) && (s.phiZ != 0.0 ==> phi >= s.phiZ)
  }

  /** The root of an upwind stencil is no smaller than any axis value in use. */
  lemma RootBound(s: Stencil, h: real, r: real)
    requires h > 0.0 && Upwind(s, h)
    requires r >= 0.0 && r * r == Quotient(s, h)
    ensures RootBounds(s, Root(s, r))
  {
    var p, q, w := Canonical(s, h);
    CanonicalRootBound(s.a, p, q, w, h, r);
  }

  /** `RootBound` on the canonical values. */
  lemma CanonicalRootBound(a: int, p: real, q: real, w: real, h: real, r: real)
    requires h > 0.0 && 1 <= a <= 3
    requires a == 1 ==> q == 0.0 && w == 0.0
    requires a == 2 ==> w == 0.0 && Close2(p, q, h)
    requires a == 3 ==> Close3(p, q, w, h)
    requires r >= 0.0 && r * r == Q(a as real, p, q, w, h)
    ensures var phi := (p + q + w + r) / a as real;
            (p != 0.0 ==> phi >= p) && (q != 0.0 ==> phi >= q) && (w != 0.0 ==> phi >= w)
  {
    if a == 1 {
    } else if a == 2 {
      Q2(p, q, h);
      Root2(p, q, h, r);
    } else {
      Q3(p, q, w, h);
      Root3(p, q, w, h, r);
    }
  }

  // ------------------------------------------------------ non-negativity

  /** A Done neighbour with a non-negative value, or a neighbour that is not Done. */
  predicate DoneNonNegative(n: FMContainer)
  {
    n.DoneFlag == 1 ==> n.value >= 0.0
  }

  /** The 2D selection built from non-negative Done values has non-negative axis values. */
  lemma Select2NonNegative(right: FMContainer, left: FMContainer, up: FMContainer, down: FMContainer, hInv: real)
    requires DoneNonNegative(right) && DoneNonNegative(left) && DoneNonNegative(up) && DoneNonNegative(down)
    ensures var s := Select2(right, left, up, down, hInv); s.phiX >= 0.0 && s.phiY >= 0.0 && s.phiZ >= 0.0
  {
  }

  /** The 3D selection built from non-negative Done values has non-negative axis values. */
  lemma Select3NonNegative(xp: FMContainer, xm: FMContainer, yp: FMContainer, ym: FMContainer,
                           zp: FMContainer, zm: FMContainer, hInv: real)
    requires DoneNonNegative(xp) && DoneNonNegative(xm) && DoneNonNegative(yp) && DoneNonNegative(ym)
    requires DoneNonNegative(zp) && DoneNonNegative(zm)
    ensures var s := Select3(xp, xm, yp, ym, zp, zm, hInv); s.phiX >= 0.0 && s.phiY >= 0.0 && s.phiZ >= 0.0
  {
  }

  /** The root of an upwind stencil with non-negative axis values is non-negative. */
  lemma RootNonNegative(s: Stencil, h: real, r: real)
    requires h > 0.0 && Upwind(s, h) && s.phiX >= 0.0 && s.phiY >= 0.0 && s.phiZ >= 0.0
    requires r >= 0.0 && r * r == Quotient(s, h)
    ensures Root(s, r) >= 0.0
  {
    RootBound(s, h, r);
    BoundedRootNonNegative(s, r);
  }

  /** `RootNonNegative` once the root is known to bound the axis values. */
  lemma BoundedRootNonNegative(s: Stencil, r: real)
    requires 1 <= s.a && s.phiX >= 0.0 && s.phiY >= 0.0 && s.phiZ >= 0.0 && r >= 0.0
    requires RootBounds(s, Root(s, r))
    ensures Root(s, r) >= 0.0
  {
    if s.phiX == 0.0 && s.phiY == 0.0 && s.phiZ == 0.0 {
      MulNonnegDiv(B(s) + r, s.a as real);
    }
  }

  /** A non-negative value over a positive count is non-negative. */
  lemma MulNonnegDiv(x: real, a: real)
    requires x >= 0.0 && a > 0.0
    ensures x / a >= 0.0
  {
  }

  /**
   * phi is what `FindPhi` wants of its new value: non-negative, a root of the
   * upwind quadratic a*phi^2 - 2*b*phi + (sum of squares - h^2), and no
   * smaller than any axis value in use.
   */
  predicate SolvesUpwind(s: Stencil, h: real, phi: real)
  {
    phi >= 0.0 && Residual(s.a as real, B(s), SumSq(s) - Square(h), phi) == 0.0 && RootBounds(s, phi)
  }

  /** The stored root of an upwind stencil with non-negative axis values meets `SolvesUpwind`. */
  lemma UpwindRoot(s: Stencil, h: real, r: real)
    requires h > 0.0 && Upwind(s, h) && s.phiX >= 0.0 && s.phiY >= 0.0 && s.phiZ >= 0.0
    requires r >= 0.0 && r * r == Quotient(s, h)
    ensures s.a != 0 && SolvesUpwind(s, h, Root(s, r))
  {
    RootIsUpwind(s, h, r);
    RootNonNegative(s, h, r);
  }
}
