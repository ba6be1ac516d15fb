/**
 * A 3D marker particle of the particle level set method: a position in grid
 * index space, a sign (which side of the interface it was seeded on) and a
 * radius in cell units, clamped to [RADIUS_MIN, RADIUS_MAX].
 */
module Particle3 {
  import opened Numerics
  import opened Vector3

  // ------------------------------------------------------- the pure rules

  /** The sign a particle takes from the level set value it is seeded at. */
  function SignOf(phi: real): (s: int)
    ensures s == -1 || s == 1
    ensures s == -1 <==> phi < 0.0
  {
    if phi < 0.0 then -1 else 1
  }

  /** The radius clamp, in the source's order: the upper bound is tested first. */
  function ClampRadius(r: real): (c: real)
    ensures RADIUS_MIN <= c <= RADIUS_MAX
    ensures RADIUS_MIN <= r <= RADIUS_MAX ==> c == r
    ensures r > RADIUS_MAX ==> c == RADIUS_MAX
    ensures r < RADIUS_MIN ==> c == RADIUS_MIN
  {
    if r > RADIUS_MAX then RADIUS_MAX
    else if r < RADIUS_MIN then RADIUS_MIN
    else r
  }

  /** The radius clamp is `Clamp` into [RADIUS_MIN, RADIUS_MAX]. */
  lemma ClampRadiusIsClamp(r: real)
    ensures ClampRadius(r) == Clamp(r, RADIUS_MIN, RADIUS_MAX)
  {
  }

  /** The radius `SetRadius` gives an accepted particle: |phi| in cells, clamped. */
  function ResetRadius(phi: real, hInv: real): (r: real)
    ensures RADIUS_MIN <= r <= RADIUS_MAX
  {
    ClampRadius(Abs(phi) * hInv)
  }

  /** The radius the constructor gives: |phi| in cells, clamped. */
  function InitialRadius(phi: real, hInv: real): (r: real)
    ensures RADIUS_MIN <= r <= RADIUS_MAX
    ensures hInv >= 0.0 ==> r == ResetRadius(phi, hInv)
  {
    ClampRadius(SignOf(phi) as real * phi * hInv)
  }

  /**
   * `SetRadius` rejects (and the particle is deleted) exactly when the
   * level set value is on the other side of the particle's sign and farther
   * than PARTICLE_DELETE from the interface.
   */
  predicate Rejects(phi: real, sign: int)
  {
    phi * sign as real < 0.0 && Abs(phi) > PARTICLE_DELETE
  }

  /** Rejection needs a value on the opposite side: one of the particle's own side is always accepted. */
  lemma SameSideAccepted(phi: real, sign: int)
    requires sign == SignOf(phi)
    ensures !Rejects(phi, sign)
  {
  }

  /** The level set value the particle defines at a point at distance `dist` from it. */
  function PhiAt(sign: int, radius: real, dist: real, h: real): (r: real)
    ensures dist == 0.0 ==> r == sign as real * radius * h
    ensures dist == radius ==> r == 0.0
  {
    sign as real * (radius - dist) * h
  }

  /** `Length` of a vector with the given square root. */
  function Length(sqrt: real -> real, v: Vector): real
  {
    sqrt(SquaredLength(v))
  }

  /**
   * One RK2 step of `Update`: a half step with the velocity at the start,
   * then the average of the start and the point reached by adding the
   * velocity at the predicted point.
   */
  function Advected(vel: Vector -> Vector, pos: Vector, dt: real, hInv: real): Vector
  {
    var p2 := Add(pos, Scale(Scale(vel(pos), dt), hInv));
    var p3 := Add(p2, Scale(Scale(vel(p2), dt), hInv));
    Scale(Add(pos, p3), 0.5)
  }

  /** With zero velocity the RK2 step leaves the position where it was. */
  lemma AdvectedStill(vel: Vector -> Vector, pos: Vector, dt: real, hInv: real)
    requires forall p {:trigger vel(p)} :: vel(p) == Zero
    ensures Advected(vel, pos, dt, hInv) == pos
  {
    var p2 := Add(pos, Scale(Scale(vel(pos), dt), hInv));
    assert p2 == pos;
  }

  /** A uniform velocity moves the particle by velocity * dt * hInv. */
  lemma AdvectedUniform(vel: Vector -> Vector, u: Vector, pos: Vector, dt: real, hInv: real)
    requires forall p {:trigger vel(p)} :: vel(p) == u
    ensures Advected(vel, pos, dt, hInv) == Add(pos, Scale(Scale(u, dt), hInv))
  {
    var d := Scale(Scale(u, dt), hInv);
    var p2 := Add(pos, d);
    assert Advected(vel, pos, dt, hInv) == Scale(Add(pos, Add(p2, d)), 0.5);
  }

  // --------------------------------------------------------- the particle

  class Particle {
    var position: Vector
    /** The sign is set by the constructor and never changes. */
    const sign: int
    var radius: real

    /** A particle is well formed: sign +-1 and radius within the clamp. */
    ghost predicate Valid()
      reads this
    {
      (sign == -1 || sign == 1) && RADIUS_MIN <= radius <= RADIUS_MAX
    }

    /** Seed a particle at `pos` where the level set value is `phi`. */
    constructor(pos: Vector, phi: real, hInv: real)
      ensures Valid()
      ensures sign == SignOf(phi) && radius == InitialRadius(phi, hInv) && position == pos
    {
      sign := SignOf(phi);
      radius := InitialRadius(phi, hInv);
      position := pos;
    }

    /** `phi(point, h)`: positive inside a positive particle's sphere, negative outside. */
    function Phi(sqrt: real -> real, point: Vector, h: real): real
      reads this
    {
      PhiAt(sign, radius, Length(sqrt, Sub(point, position)), h)
    }

    /** At its own position the particle's value is sign * radius * h. */
    lemma PhiAtPosition(sqrt: real -> real, h: real)
      requires IsSqrt(sqrt)
      ensures Phi(sqrt, position, h) == sign as real * radius * h
    {
      assert Sub(position, position) == Zero;
      SqrtZero(sqrt);
    }

    function Sign(): int
      reads this
    {
      sign
    }

    function Radius(): real
      reads this
    {
      radius
    }

    function GetPosition(): Vector
      reads this
    {
      position
    }

    /**
     * `SetRadius(phi, hInv)`: false, with nothing changed, when the value
     * rejects the particle; otherwise the radius becomes |phi| in cells,
     * clamped.
     */
    method SetRadius(phi: real, hInv: real) returns (kept: bool)
      requires Valid()
      modifies this
      ensures Valid()
      ensures kept <==> !Rejects(phi, sign)
      ensures position == old(position)
      ensures radius == if kept then ResetRadius(phi, hInv) else old(radius)
    {
      if phi * sign as real < 0.0 && Abs(phi) > PARTICLE_DELETE {
        return false;
      }
      radius := Abs(phi) * hInv;
      if radius > RADIUS_MAX {
        radius := RADIUS_MAX;
      } else if radius < RADIUS_MIN {
        radius := RADIUS_MIN;
      }
      return true;
    }

    /** `Update`: move the particle one RK2 step through the velocity field. */
    method Update(vel: Vector -> Vector, dt: real, hInv: real)
      modifies this
      ensures position == Advected(vel, old(position), dt, hInv)
      ensures radius == old(radius)
    {
      var u := vel(position);
      var p2 := Add(position, Scale(Scale(u, dt), hInv));
      u := vel(p2);
      p2 := Add(p2, Scale(Scale(u, dt), hInv));
      position := Scale(Add(position, p2), 0.5);
    }
  }

  /** The particle seeded at phi = -2 with hInv = 1 is negative with the largest radius. */
  lemma DeepNegativeSeed()
    ensures SignOf(-2.0) == -1 && InitialRadius(-2.0, 1.0) == RADIUS_MAX
  {
  }
}
