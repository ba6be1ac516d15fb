/**
 * The tuning constants and small numeric helpers shared by the 2D and 3D
 * particle level set engines. `Float` and `Double` are modelled as `real`;
 * the C++ conversion `int(x)` (truncation toward zero) is `Trunc`, and the
 * library `ceil`/`floor` are `Ceil` and `.Floor`.
 */
module Numerics {

  // ---------------------------------------------------------------- constants

  /** Cell size in grid units. */
  const HH: int := 1
  const PARTICLES_PER_NODE: nat := 16
  const NX: nat := 100
  const NY: nat := 100

  const MAX_U: real := NX as real * 0.005
  const MAX_V: real := NY as real * 0.005
  const RADIUS_MIN: real := 0.1
  const RADIUS_MAX: real := 0.5
  const RESEED_THRESHOLD: real := 2.0 * HH as real
  const PARTICLE_DELETE: real := 100.0 * RADIUS_MIN
  const DT: real := 4.9 / ((MAX_U + MAX_V) / HH as real)
  /** Extent of influence of fast marching. */
  const FASTMARCH_LIMIT: real := 6.0 * HH as real
  /** Extent of influence of the semi-Lagrangian step. */
  const SEMILAGRA_LIMIT: real := 5.0 * HH as real

  /** The radius clamp and the two narrow bands rely on these orderings. */
  lemma ConstantsConsistent()
    ensures 0.0 < RADIUS_MIN < RADIUS_MAX
    ensures 0.0 < SEMILAGRA_LIMIT < FASTMARCH_LIMIT
    ensures RADIUS_MAX < PARTICLE_DELETE
    ensures DT == 4.9
  {
  }

  // ------------------------------------------------------- library functions

  function Abs(x: real): (r: real)
    ensures r >= 0.0 && (r == x || r == -x)
  {
    if x < 0.0 then -x else x
  }

  /** std::min, which returns its first argument on a tie. */
  function Min(a: real, b: real): (r: real)
    ensures r <= a && r <= b && (r == a || r == b)
  {
    if b < a then b else a
  }

  /** std::max, which returns its first argument on a tie. */
  function Max(a: real, b: real): (r: real)
    ensures r >= a && r >= b && (r == a || r == b)
  {
    if a < b then b else a
  }

  /** The C++ conversion `int(x)`: truncation toward zero. */
  function Trunc(x: real): (n: int)
    ensures x >= 0.0 ==> n >= 0 && n as real <= x < n as real + 1.0
    ensures x < 0.0 ==> n <= 0 && n as real - 1.0 < x <= n as real
  {
    if x >= 0.0 then x.Floor else -((-x).Floor)
  }

  /** std::ceil, for values whose ceiling fits an int. */
  function Ceil(x: real): (n: int)
    ensures x <= n as real < x + 1.0
  {
    -((-x).Floor)
  }

  // ------------------------------------------------------------------ helpers

  /** `square`: the product of a value with itself. */
  function Square(x: real): (r: real)
    ensures r >= 0.0
  {
    x * x
  }

  /** `Round`: nearest integer, halves rounded up. */
  function Round(alpha: real): (n: int)
    ensures n as real <= alpha + 0.5 < n as real + 1.0
  {
    (alpha + 0.5).Floor
  }

  /**
   * The library `sqrt`, which the model takes as a parameter: on a
   * non-negative argument it is non-negative and squares back to it.
   */
  ghost predicate IsSqrt(sqrt: real -> real)
  {
    forall q {:trigger SqrtAt(sqrt, q)} :: q >= 0.0 ==> SqrtAt(sqrt, q) >= 0.0 && SqrtAt(sqrt, q) * SqrtAt(sqrt, q) == q
  }

  /**
   * `sqrt(q)`, under a name of its own: `IsSqrt` speaks of this term, so
   * that its facts are drawn only where `SqrtOf` asks for them.
   */
  function SqrtAt(sqrt: real -> real, q: real): real
  {
    sqrt(q)
  }

  /** A square root's value at a non-negative argument. */
  lemma SqrtOf(sqrt: real -> real, q: real) returns (r: real)
    requires IsSqrt(sqrt) && q >= 0.0
    ensures r == sqrt(q) && r >= 0.0 && r * r == q
  {
    r := SqrtAt(sqrt, q);
  }

  /** The square root of 0 is 0. */
  lemma SqrtZero(sqrt: real -> real)
    requires IsSqrt(sqrt)
    ensures sqrt(0.0) == 0.0
  {
    var r := SqrtOf(sqrt, 0.0);
    if r != 0.0 {
      ZeroProduct(r, r);
    }
  }

  /** `Clamp` on Float. */
  function Clamp(alpha: real, a: real, b: real): (r: real)
    ensures a <= b ==> a <= r <= b
    ensures a <= alpha <= b ==> r == alpha
    ensures alpha < a ==> r == a
  {
    if alpha < a then a
    else if alpha > b then b
    else alpha
  }

  /** `Clamp` on int. */
  function ClampInt(alpha: int, a: int, b: int): (r: int)
    ensures a <= b ==> a <= r <= b
    ensures a <= alpha <= b ==> r == alpha
    ensures alpha < a ==> r == a
  {
    if alpha < a then a
    else if alpha > b then b
    else alpha
  }

  /** `Lerp`: the point a fraction alpha of the way from a to b. */
  function Lerp(alpha: real, a: real, b: real): (r: real)
    ensures alpha == 0.0 ==> r == a
    ensures alpha == 1.0 ==> r == b
    ensures a == b ==> r == a
    ensures 0.0 <= alpha <= 1.0 ==> Min(a, b) <= r <= Max(a, b)
  {
    LerpBetween(alpha, a, b);
    (1.0 - alpha) * a + alpha * b
  }

  lemma LerpBetween(alpha: real, a: real, b: real)
    ensures 0.0 <= alpha <= 1.0 ==>
      Min(a, b) <= (1.0 - alpha) * a + alpha * b <= Max(a, b)
  {
    if 0.0 <= alpha <= 1.0 {
      var r := (1.0 - alpha) * a + alpha * b;
      assert r == a + alpha * (b - a);
      if a <= b {
        MulNonneg(alpha, b - a);
        MulNonneg(1.0 - alpha, b - a);
      } else {
        MulNonneg(alpha, a - b);
        MulNonneg(1.0 - alpha, a - b);
      }
    }
  }

  /** `CmpFtoZero`: whether a value is within 0.00001 of zero. */
  predicate CmpFtoZero(compare: real)
  {
    (compare < 0.00001) && (compare > -0.00001)
  }

  lemma CmpFtoZeroIsSmallMagnitude(compare: real)
    ensures CmpFtoZero(compare) <==> Abs(compare) < 0.00001
  {
  }

  /**
   * The two end slopes of the monotone cubic: central differences, both zeroed
   * when the secant is (nearly) flat, and each zeroed when its sign opposes the
   * secant's.
   */
  function MCerpSlopes(fk0: real, fk1: real, fk2: real, fk3: real): (d: (real, real))
    ensures var delk := fk2 - fk1;
      && (CmpFtoZero(delk) ==> d.0 == 0.0 && d.1 == 0.0)
      && (!CmpFtoZero(delk) ==>
            && d.0 == (if Opposes(0.5 * (fk2 - fk0), delk) then 0.0 else 0.5 * (fk2 - fk0))
            && d.1 == (if Opposes(0.5 * (fk3 - fk1), delk) then 0.0 else 0.5 * (fk3 - fk1)))
    ensures !Opposes(d.0, fk2 - fk1) && !Opposes(d.1, fk2 - fk1)
  {
    var delk := fk2 - fk1;
    if CmpFtoZero(delk) then (0.0, 0.0)
    else
      var dk02 := 0.5 * (fk2 - fk0);
      var dk13 := 0.5 * (fk3 - fk1);
      (if Opposes(dk02, delk) then 0.0 else dk02,
       if Opposes(dk13, delk) then 0.0 else dk13)
  }

  /** Whether two quantities have strictly opposite signs. */
  predicate Opposes(x: real, y: real)
  {
    x * y < 0.0
  }

  /**
   * `MCerp`: monotone cubic interpolation between fk1 and fk2, where alpha is
   * the position relative to fk1.
   */
  function MCerp(alpha: real, fk0: real, fk1: real, fk2: real, fk3: real): (r: real)
    ensures alpha == 0.0 ==> r == fk1
    ensures alpha == 1.0 ==> r == fk2
  {
    var delk := fk2 - fk1;
    var d := MCerpSlopes(fk0, fk1, fk2, fk3);
    (d.0 + d.1 - 2.0 * delk) * alpha * alpha * alpha
      + (3.0 * delk - 2.0 * d.0 - d.1) * alpha * alpha + d.0 * alpha + fk1
  }

  /** `SmoothStep`: the cubic Hermite ramp from min to max. */
  function SmoothStep(min: real, max: real, alpha: real): (r: real)
    requires min != max
    ensures 0.0 <= r <= 1.0
    ensures min < max && alpha <= min ==> r == 0.0
    ensures min < max && alpha >= max ==> r == 1.0
  {
    var temp := Clamp((alpha - min) / (max - min), 0.0, 1.0);
    SmoothStepBounds(temp);
    SmoothStepRamp(min, max, alpha);
    -2.0 * temp * temp * temp + 3.0 * temp * temp
  }

  lemma SmoothStepRamp(min: real, max: real, alpha: real)
    requires min != max
    ensures min < max && alpha <= min ==> (alpha - min) / (max - min) <= 0.0
    ensures min < max && alpha >= max ==> (alpha - min) / (max - min) >= 1.0
  {
    if min < max {
      QuotientSign(alpha - min, max - min);
    }
  }

  lemma QuotientSign(x: real, y: real)
    requires 0.0 < y
    ensures x <= 0.0 ==> x / y <= 0.0
    ensures x >= y ==> x / y >= 1.0
  {
    var q := x / y;
    assert q * y == x;
    if x <= 0.0 && q > 0.0 {
      MulPos(q, y);
    }
    if x >= y && q < 1.0 {
      MulLess(q, 1.0, y);
    }
  }

  lemma SmoothStepBounds(t: real)
    requires 0.0 <= t <= 1.0
    ensures 0.0 <= -2.0 * t * t * t + 3.0 * t * t <= 1.0
  {
    var s := -2.0 * t * t * t + 3.0 * t * t;
    assert s == (t * t) * (3.0 - 2.0 * t);
    MulNonneg(t, t);
    MulNonneg(t * t, 3.0 - 2.0 * t);
    assert 1.0 - s == ((1.0 - t) * (1.0 - t)) * (1.0 + 2.0 * t);
    MulNonneg(1.0 - t, 1.0 - t);
    MulNonneg((1.0 - t) * (1.0 - t), 1.0 + 2.0 * t);
  }

  /**
   * `Mod(a, b, bInv)`: the remainder of a by b, computed with the precomputed
   * reciprocal bInv instead of an integer division.
   */
  function Mod(a: int, b: int, bInv: real): int
  {
    var n := Trunc(a as real * bInv);
    var a' := a - n * b;
    if a' < 0 then a' + b else a'
  }

  /** With an exact reciprocal, `Mod` is the (non-negative) Euclidean remainder. */
  lemma ModIsRemainder(a: int, b: int, bInv: real)
    requires b > 0 && bInv == 1.0 / b as real
    ensures 0 <= Mod(a, b, bInv) < b
    ensures Mod(a, b, bInv) == a % b
  {
    TruncQuotientBounds(a, b, bInv);
    FixRemainder(a, b, bInv);
  }

  /** The truncated quotient leaves a remainder strictly between -b and b. */
  lemma TruncQuotientBounds(a: int, b: int, bInv: real)
    requires b > 0 && bInv == 1.0 / b as real
    ensures var n := Trunc(a as real * bInv); -b < a - n * b < b
  {
    var n := Trunc(a as real * bInv);
    assert a as real * bInv == a as real / b as real;
    if a >= 0 {
      assert n as real <= a as real / b as real < n as real + 1.0;
      BelowQuotient(n, a, b);
    } else {
      assert n as real - 1.0 < a as real / b as real <= n as real;
      AboveQuotient(n, a, b);
    }
  }

  /** Adding b to a negative remainder gives the Euclidean one. */
  lemma FixRemainder(a: int, b: int, bInv: real)
    requires b > 0 && var n := Trunc(a as real * bInv); -b < a - n * b < b
    ensures 0 <= Mod(a, b, bInv) < b && Mod(a, b, bInv) == a % b
  {
    var n := Trunc(a as real * bInv);
    var r := a - n * b;
    if r < 0 {
      assert (n - 1) * b == n * b - b;
      RemainderUnique(a, b, n - 1, r + b);
    } else {
      RemainderUnique(a, b, n, r);
    }
  }

  /**
   * With an exact reciprocal, `int(a * bInv)` for a non-negative a is the
   * integer quotient of a by b.
   */
  lemma TruncIsQuotient(a: int, b: int, bInv: real)
    requires a >= 0 && b > 0 && bInv == 1.0 / b as real
    ensures Trunc(a as real * bInv) == a / b
  {
    var n := Trunc(a as real * bInv);
    assert a as real * bInv == a as real / b as real;
    BelowQuotient(n, a, b);
    RemainderUnique(a, b, n, a - n * b);
  }

  lemma BelowQuotient(n: int, a: int, b: int)
    requires b > 0
    requires n as real <= a as real / b as real < n as real + 1.0
    ensures n * b <= a < n * b + b
  {
    var br := b as real;
    var q := a as real / br;
    assert q * br == a as real;
    MulLe(n as real, q, br);
    MulLess(q, (n + 1) as real, br);
    CastProduct(n, b);
    CastProduct(n + 1, b);
    assert (n + 1) * b == n * b + b;
  }

  /** Multiplication commutes with the conversion to real. */
  lemma CastProduct(x: int, y: int)
    ensures (x * y) as real == x as real * y as real
  {
  }

  lemma AboveQuotient(n: int, a: int, b: int)
    requires b > 0
    requires n as real - 1.0 < a as real / b as real <= n as real
    ensures n * b - b < a <= n * b
  {
    var q := a as real / b as real;
    assert q * b as real == a as real;
    assert (n * b) as real == n as real * b as real;
    MulLe(q, n as real, b as real);
    MulLess(n as real - 1.0, q, b as real);
    assert (n as real - 1.0) * b as real == (n * b - b) as real;
  }

  lemma RemainderUnique(a: int, b: int, q: int, r: int)
    requires b > 0 && 0 <= r < b && a == q * b + r
    ensures r == a % b && q == a / b
  {
    var q0, r0 := a / b, a % b;
    assert a == q0 * b + r0;
    var k := q - q0;
    assert k * b == r0 - r by {
      assert q * b - q0 * b == (q - q0) * b;
    }
    if k >= 1 {
      MulLeInt(1, k, b);
    } else if k <= -1 {
      MulLeInt(1, -k, b);
    }
  }

  // ------------------------------------------------ arithmetic proof helpers

  lemma MulNonneg(x: real, y: real)
    requires 0.0 <= x && 0.0 <= y
    ensures 0.0 <= x * y
  {
  }

  lemma MulPos(x: real, y: real)
    requires 0.0 < x && 0.0 < y
    ensures 0.0 < x * y
  {
  }

  lemma ZeroProduct(x: real, y: real)
    requires y != 0.0
    ensures x * y == 0.0 ==> x == 0.0
  {
  }

  lemma MulLe(x: real, y: real, c: real)
    requires x <= y && 0.0 <= c
    ensures x * c <= y * c
  {
    MulNonneg(y - x, c);
  }

  lemma MulLess(x: real, y: real, c: real)
    requires x < y && 0.0 < c
    ensures x * c < y * c
  {
  }

  lemma MulLeInt(x: int, y: int, c: int)
    requires x <= y && 0 <= c
    ensures x * c <= y * c
  {
  }
}
