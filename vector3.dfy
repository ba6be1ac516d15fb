/**
 * The 3D vector. Its value is the datatype `Vector`, on which the pure
 * operators (including the cross product) are functions; the in-place compound
 * operators act on `VectorRef`, whose storage is the three-slot buffer of the
 * C++ class.
 */
module Vector3 {

  datatype Vector = Vector(x: real, y: real, z: real)

  const Zero: Vector := Vector(0.0, 0.0, 0.0)

  /** The one-value constructor `Vector(c)`. */
  function Fill(c: real): Vector
  {
    Vector(c, c, c)
  }

  /** The array constructor `Vector(Float vec[])`: the first three entries. */
  function FromArray(vec: seq<real>): (r: Vector)
    requires |vec| >= 3
    ensures [r.x, r.y, r.z] == vec[..3]
  {
    Vector(vec[0], vec[1], vec[2])
  }

  // ------------------------------------------------------ binary operators

  function Add(a: Vector, b: Vector): Vector
  {
    Vector(a.x + b.x, a.y + b.y, a.z + b.z)
  }

  /** Vector minus vector; undoes `Add`. */
  function Sub(a: Vector, b: Vector): (r: Vector)
    ensures Add(r, b) == a
  {
    Vector(a.x - b.x, a.y - b.y, a.z - b.z)
  }

  /** Componentwise product, `operator*(const Vector&)`. */
  function Mul(a: Vector, b: Vector): Vector
  {
    Vector(a.x * b.x, a.y * b.y, a.z * b.z)
  }

  function AddScalar(a: Vector, c: real): (r: Vector)
    ensures r == Add(a, Fill(c))
  {
    Vector(a.x + c, a.y + c, a.z + c)
  }

  function SubScalar(a: Vector, c: real): (r: Vector)
    ensures r == Sub(a, Fill(c))
    ensures AddScalar(r, c) == a
  {
    Vector(a.x - c, a.y - c, a.z - c)
  }

  /** Vector times scalar, `operator*(Float)`. */
  function Scale(a: Vector, c: real): (r: Vector)
    ensures r == Mul(a, Fill(c))
  {
    Vector(a.x * c, a.y * c, a.z * c)
  }

  /** Vector over scalar: multiplication by the reciprocal `1/c`. */
  function DivScalar(a: Vector, c: real): (r: Vector)
    requires c != 0.0
    ensures Scale(r, c) == a
  {
    var cInv := 1.0 / c;
    Vector(a.x * cInv, a.y * cInv, a.z * cInv)
  }

  /** Unary minus; cancels the vector it negates. */
  function Neg(a: Vector): (r: Vector)
    ensures Add(r, a) == Zero && Add(a, r) == Zero
  {
    Vector(-a.x, -a.y, -a.z)
  }

  /** Scalar on the left, `operator*(Float, const Vector&)`. */
  function ScalarMul(c: real, a: Vector): (r: Vector)
    ensures r == Scale(a, c)
  {
    Vector(c * a.x, c * a.y, c * a.z)
  }

  /**
   * Scalar on the left of `/`: this scales the vector by `1/c`; it is not
   * the componentwise reciprocal of the vector.
   */
  function ScalarDiv(c: real, a: Vector): (r: Vector)
    requires c != 0.0
    ensures r == DivScalar(a, c)
  {
    var cInv := 1.0 / c;
    Vector(cInv * a.x, cInv * a.y, cInv * a.z)
  }

  /** Member `Dot`; the free function `dot` has the same body. */
  function Dot(a: Vector, b: Vector): real
  {
    a.x * b.x + a.y * b.y + a.z * b.z
  }

  function SquaredLength(a: Vector): (r: real)
    ensures r == Dot(a, a)
    ensures r >= 0.0
  {
    SquarePositive(a.x);
    SquarePositive(a.y);
    SquarePositive(a.z);
    a.x * a.x + a.y * a.y + a.z * a.z
  }

  lemma SquarePositive(p: real)
    ensures p * p >= 0.0
  {
    if p < 0.0 {
      assert p * p == (-p) * (-p);
    }
  }

  /**
   * Member `Cross`; the free function `cross` has the same body. The result
   * is orthogonal to both factors.
   */
  function Cross(a: Vector, b: Vector): (r: Vector)
    ensures Dot(a, r) == 0.0 && Dot(b, r) == 0.0
  {
    var r := Vector(a.y * b.z - a.z * b.y,
                    a.z * b.x - a.x * b.z,
                    a.x * b.y - a.y * b.x);
    assert Dot(a, r) == 0.0 by {
      assert a.x * (a.y * b.z - a.z * b.y) + a.y * (a.z * b.x - a.x * b.z)
        + a.z * (a.x * b.y - a.y * b.x) == 0.0;
    }
    assert Dot(b, r) == 0.0 by {
      assert b.x * (a.y * b.z - a.z * b.y) + b.y * (a.z * b.x - a.x * b.z)
        + b.z * (a.x * b.y - a.y * b.x) == 0.0;
    }
    r
  }

  // --------------------------------------------------------------- laws

  lemma AddCommutes(a: Vector, b: Vector)
    ensures Add(a, b) == Add(b, a)
  {
  }

  lemma DotSymmetric(a: Vector, b: Vector)
    ensures Dot(a, b) == Dot(b, a)
  {
  }

  lemma ScaleCommutes(c: real, a: Vector)
    ensures ScalarMul(c, a) == Scale(a, c)
  {
  }

  lemma CrossAntiCommutes(a: Vector, b: Vector)
    ensures Cross(a, b) == Neg(Cross(b, a))
  {
  }

  lemma CrossSelfIsZero(a: Vector)
    ensures Cross(a, a) == Zero
  {
  }

  // ----------------------------------------------- the in-place vector object

  /** A `Vector` object: the compound operators update its buffer in place. */
  class VectorRef {
    const v: array<real>

    ghost predicate Valid()
      reads this
    {
      v.Length == 3
    }

    function Value(): Vector
      reads this, v
      requires Valid()
    {
      Vector(v[0], v[1], v[2])
    }

    /** The `(x, y, z)` constructor (and the default one for the origin). */
    constructor (x: real, y: real, z: real)
      ensures Valid() && fresh(v)
      ensures Value() == Vector(x, y, z)
    {
      v := new real[3](_ => 0.0);
      new;
      v[0], v[1], v[2] := x, y, z;
    }

    /** The copy constructor. */
    constructor Copy(vi: Vector)
      ensures Valid() && fresh(v)
      ensures Value() == vi
    {
      v := new real[3](_ => 0.0);
      new;
      v[0], v[1], v[2] := vi.x, vi.y, vi.z;
    }

    method Set(x: real, y: real, z: real)
      requires Valid()
      modifies v
      ensures Valid() && Value() == Vector(x, y, z)
    {
      v[0], v[1], v[2] := x, y, z;
    }

    method AddAssign(vi: Vector)
      requires Valid()
      modifies v
      ensures Valid() && Value() == Add(old(Value()), vi)
    {
      v[0] := v[0] + vi.x;
      v[1] := v[1] + vi.y;
      v[2] := v[2] + vi.z;
    }

    method SubAssign(vi: Vector)
      requires Valid()
      modifies v
      ensures Valid() && Value() == Sub(old(Value()), vi)
    {
      v[0] := v[0] - vi.x;
      v[1] := v[1] - vi.y;
      v[2] := v[2] - vi.z;
    }

    method MulAssign(vi: Vector)
      requires Valid()
      modifies v
      ensures Valid() && Value() == Mul(old(Value()), vi)
    {
      v[0] := v[0] * vi.x;
      v[1] := v[1] * vi.y;
      v[2] := v[2] * vi.z;
    }

    method AddScalarAssign(c: real)
      requires Valid()
      modifies v
      ensures Valid() && Value() == AddScalar(old(Value()), c)
    {
      v[0] := v[0] + c;
      v[1] := v[1] + c;
      v[2] := v[2] + c;
    }

    method SubScalarAssign(c: real)
      requires Valid()
      modifies v
      ensures Valid() && Value() == SubScalar(old(Value()), c)
    {
      v[0] := v[0] - c;
      v[1] := v[1] - c;
      v[2] := v[2] - c;
    }

    method ScaleAssign(c: real)
      requires Valid()
      modifies v
      ensures Valid() && Value() == Scale(old(Value()), c)
    {
      v[0] := v[0] * c;
      v[1] := v[1] * c;
      v[2] := v[2] * c;
    }

    /** `/=`: multiplies every component by the reciprocal of c. */
    method DivAssign(c: real)
      requires Valid() && c != 0.0
      modifies v
      ensures Valid() && Value() == DivScalar(old(Value()), c)
    {
      var cInv := 1.0 / c;
      v[0] := v[0] * cInv;
      v[1] := v[1] * cInv;
      v[2] := v[2] * cInv;
    }

    // Each binary operator copies the receiver and applies the compound
    // operator to the copy; the receiver itself is left alone.

    method Plus(vi: Vector) returns (r: Vector)
      requires Valid()
      ensures r == Add(Value(), vi)
    {
      var c := new VectorRef.Copy(Value());
      c.AddAssign(vi);
      r := c.Value();
    }

    method Minus(vi: Vector) returns (r: Vector)
      requires Valid()
      ensures r == Sub(Value(), vi)
    {
      var c := new VectorRef.Copy(Value());
      c.SubAssign(vi);
      r := c.Value();
    }

    method Times(vi: Vector) returns (r: Vector)
      requires Valid()
      ensures r == Mul(Value(), vi)
    {
      var c := new VectorRef.Copy(Value());
      c.MulAssign(vi);
      r := c.Value();
    }

    method PlusScalar(s: real) returns (r: Vector)
      requires Valid()
      ensures r == AddScalar(Value(), s)
    {
      var c := new VectorRef.Copy(Value());
      c.AddScalarAssign(s);
      r := c.Value();
    }

    method MinusScalar(s: real) returns (r: Vector)
      requires Valid()
      ensures r == SubScalar(Value(), s)
    {
      var c := new VectorRef.Copy(Value());
      c.SubScalarAssign(s);
      r := c.Value();
    }

    method TimesScalar(s: real) returns (r: Vector)
      requires Valid()
      ensures r == Scale(Value(), s)
    {
      var c := new VectorRef.Copy(Value());
      c.ScaleAssign(s);
      r := c.Value();
    }

    method Over(s: real) returns (r: Vector)
      requires Valid() && s != 0.0
      ensures r == DivScalar(Value(), s)
    {
      var c := new VectorRef.Copy(Value());
      c.DivAssign(s);
      r := c.Value();
    }
  }
}
