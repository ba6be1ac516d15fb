/**
 * The 2D vector. Its value (components 0 and 1) is the datatype `Vec2D`, on
 * which the pure operators are functions; the in-place compound operators act
 * on `Vec2DRef`, whose storage is the three-slot buffer of the C++ class (the
 * third slot is never used in 2D).
 */
module Vec2 {

  datatype Vec2D = Vec2D(x: real, y: real)

  const Zero: Vec2D := Vec2D(0.0, 0.0)

  /** The one-value constructor `Vec2D(c)`. */
  function Fill(c: real): Vec2D
  {
    Vec2D(c, c)
  }

  /** The array constructor `Vec2D(Float vec[])`: the first two entries. */
  function FromArray(vec: seq<real>): (r: Vec2D)
    requires |vec| >= 2
    ensures [r.x, r.y] == vec[..2]
  {
    Vec2D(vec[0], vec[1])
  }

  // ------------------------------------------------------ binary operators

  function Add(a: Vec2D, b: Vec2D): Vec2D
  {
    Vec2D(a.x + b.x, a.y + b.y)
  }

  /** Vector minus vector; undoes `Add`. */
  function Sub(a: Vec2D, b: Vec2D): (r: Vec2D)
    ensures Add(r, b) == a
  {
    Vec2D(a.x - b.x, a.y - b.y)
  }

  /** Componentwise product, `operator*(const Vec2D&)`. */
  function Mul(a: Vec2D, b: Vec2D): Vec2D
  {
    Vec2D(a.x * b.x, a.y * b.y)
  }

  function AddScalar(a: Vec2D, c: real): (r: Vec2D)
    ensures r == Add(a, Fill(c))
  {
    Vec2D(a.x + c, a.y + c)
  }

  function SubScalar(a: Vec2D, c: real): (r: Vec2D)
    ensures r == Sub(a, Fill(c))
    ensures AddScalar(r, c) == a
  {
    Vec2D(a.x - c, a.y - c)
  }

  /** Vector times scalar, `operator*(Float)`. */
  function Scale(a: Vec2D, c: real): (r: Vec2D)
    ensures r == Mul(a, Fill(c))
  {
    Vec2D(a.x * c, a.y * c)
  }

  /** Vector over scalar: multiplication by the reciprocal `1/c`. */
  function DivScalar(a: Vec2D, c: real): (r: Vec2D)
    requires c != 0.0
    ensures Scale(r, c) == a
  {
    var cInv := 1.0 / c;
    Vec2D(a.x * cInv, a.y * cInv)
  }

  /** Unary minus; cancels the vector it negates. */
  function Neg(a: Vec2D): (r: Vec2D)
    ensures Add(r, a) == Zero && Add(a, r) == Zero
  {
    Vec2D(-a.x, -a.y)
  }

  /** Scalar on the left, `operator*(Float, const Vec2D&)`. */
  function ScalarMul(c: real, a: Vec2D): (r: Vec2D)
    ensures r == Scale(a, c)
  {
    Vec2D(c * a.x, c * a.y)
  }

  /**
   * Scalar on the left of `/`: this scales the vector by `1/c`; it is not
   * the componentwise reciprocal of the vector.
   */
  function ScalarDiv(c: real, a: Vec2D): (r: Vec2D)
    requires c != 0.0
    ensures r == DivScalar(a, c)
  {
    var cInv := 1.0 / c;
    Vec2D(cInv * a.x, cInv * a.y)
  }

  /** Member `Dot`; the free function `dot` has the same body. */
  function Dot(a: Vec2D, b: Vec2D): real
  {
    a.x * b.x + a.y * b.y
  }

  function SquaredLength(a: Vec2D): (r: real)
    ensures r == Dot(a, a)
    ensures r >= 0.0
  {
    SquareSum(a.x, a.y);
    a.x * a.x + a.y * a.y
  }

  lemma SquareSum(p: real, q: real)
    ensures p * p + q * q >= 0.0
  {
    SquarePositive(p);
    SquarePositive(q);
  }

  lemma SquarePositive(p: real)
    ensures p * p >= 0.0
  {
    if p < 0.0 {
      assert p * p == (-p) * (-p);
    }
  }

  // --------------------------------------------------------------- laws

  lemma AddCommutes(a: Vec2D, b: Vec2D)
    ensures Add(a, b) == Add(b, a)
  {
  }

  lemma DotSymmetric(a: Vec2D, b: Vec2D)
    ensures Dot(a, b) == Dot(b, a)
  {
  }

  lemma ScaleCommutes(c: real, a: Vec2D)
    ensures ScalarMul(c, a) == Scale(a, c)
  {
  }

  // ----------------------------------------------- the in-place vector object

  /** A `Vec2D` object: the compound operators update its buffer in place. */
  class Vec2DRef {
    const v: array<real>

    ghost predicate Valid()
      reads this
    {
      v.Length == 3
    }

    function Value(): Vec2D
      reads this, v
      requires Valid()
    {
      Vec2D(v[0], v[1])
    }

    /** The `(x, y)` constructor (and the default one for `(0, 0)`). */
    constructor (x: real, y: real)
      ensures Valid() && fresh(v)
      ensures Value() == Vec2D(x, y)
    {
      v := new real[3](_ => 0.0);
      new;
      v[0], v[1] := x, y;
    }

    /** The copy constructor. */
    constructor Copy(vi: Vec2D)
      ensures Valid() && fresh(v)
      ensures Value() == vi
    {
      v := new real[3](_ => 0.0);
      new;
      v[0], v[1] := vi.x, vi.y;
    }

    /** `Set(x, y, z)`: writes the two used components; z is ignored. */
    method Set(x: real, y: real, z: real)
      requires Valid()
      modifies v
      ensures Valid() && Value() == Vec2D(x, y)
      ensures v[2] == old(v[2])
    {
      v[0], v[1] := x, y;
    }

    method AddAssign(vi: Vec2D)
      requires Valid()
      modifies v
      ensures Valid() && Value() == Add(old(Value()), vi)
      ensures v[2] == old(v[2])
    {
      v[0] := v[0] + vi.x;
      v[1] := v[1] + vi.y;
    }

    method SubAssign(vi: Vec2D)
      requires Valid()
      modifies v
      ensures Valid() && Value() == Sub(old(Value()), vi)
      ensures v[2] == old(v[2])
    {
      v[0] := v[0] - vi.x;
      v[1] := v[1] - vi.y;
    }

    method MulAssign(vi: Vec2D)
      requires Valid()
      modifies v
      ensures Valid() && Value() == Mul(old(Value()), vi)
      ensures v[2] == old(v[2])
    {
      v[0] := v[0] * vi.x;
      v[1] := v[1] * vi.y;
    }

    method AddScalarAssign(c: real)
      requires Valid()
      modifies v
      ensures Valid() && Value() == AddScalar(old(Value()), c)
      ensures v[2] == old(v[2])
    {
      v[0] := v[0] + c;
      v[1] := v[1] + c;
    }

    method SubScalarAssign(c: real)
      requires Valid()
      modifies v
      ensures Valid() && Value() == SubScalar(old(Value()), c)
      ensures v[2] == old(v[2])
    {
      v[0] := v[0] - c;
      v[1] := v[1] - c;
    }

    method ScaleAssign(c: real)
      requires Valid()
      modifies v
      ensures Valid() && Value() == Scale(old(Value()), c)
      ensures v[2] == old(v[2])
    {
      v[0] := v[0] * c;
      v[1] := v[1] * c;
    }

    /** `/=`: multiplies both components by the reciprocal of c. */
    method DivAssign(c: real)
      requires Valid() && c != 0.0
      modifies v
      ensures Valid() && Value() == DivScalar(old(Value()), c)
      ensures v[2] == old(v[2])
    {
      var cInv := 1.0 / c;
      v[0] := v[0] * cInv;
      v[1] := v[1] * cInv;
    }

    // Each binary operator copies the receiver and applies the compound
    // operator to the copy; the receiver itself is left alone.

    method Plus(vi: Vec2D) returns (r: Vec2D)
      requires Valid()
      ensures r == Add(Value(), vi)
    {
      var c := new Vec2DRef.Copy(Value());
      c.AddAssign(vi);
      r := c.Value();
    }

    method Minus(vi: Vec2D) returns (r: Vec2D)
      requires Valid()
      ensures r == Sub(Value(), vi)
    {
      var c := new Vec2DRef.Copy(Value());
      c.SubAssign(vi);
      r := c.Value();
    }

    method Times(vi: Vec2D) returns (r: Vec2D)
      requires Valid()
      ensures r == Mul(Value(), vi)
    {
      var c := new Vec2DRef.Copy(Value());
      c.MulAssign(vi);
      r := c.Value();
    }

    method PlusScalar(s: real) returns (r: Vec2D)
      requires Valid()
      ensures r == AddScalar(Value(), s)
    {
      var c := new Vec2DRef.Copy(Value());
      c.AddScalarAssign(s);
      r := c.Value();
    }

    method MinusScalar(s: real) returns (r: Vec2D)
      requires Valid()
      ensures r == SubScalar(Value(), s)
    {
      var c := new Vec2DRef.Copy(Value());
      c.SubScalarAssign(s);
      r := c.Value();
    }

    method TimesScalar(s: real) returns (r: Vec2D)
      requires Valid()
      ensures r == Scale(Value(), s)
    {
      var c := new Vec2DRef.Copy(Value());
      c.ScaleAssign(s);
      r := c.Value();
    }

    method Over(s: real) returns (r: Vec2D)
      requires Valid() && s != 0.0
      ensures r == DivScalar(Value(), s)
    {
      var c := new Vec2DRef.Copy(Value());
      c.DivAssign(s);
      r := c.Value();
    }
  }
}
