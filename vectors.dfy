/** Three-component vectors (`vec3`, and its aliases `point3` and `color`),
    over exact reals. Every operation builds a new value and changes nothing. */
module Vectors {
  import opened Scalars

  datatype Vec3 = Vec3(x: real, y: real, z: real)
  {
    /** `__neg__`: the additive inverse. */
    function Neg(): (r: Vec3)
      ensures Add(r) == Zero()
    {
      Vec3(-x, -y, -z)
    }

    /** `__add__`. */
    function Add(other: Vec3): Vec3 {
      Vec3(x + other.x, y + other.y, z + other.z)
    }

    /** `__sub__`: undoes an addition of `other`. */
    function Sub(other: Vec3): (r: Vec3)
      ensures r.Add(other) == this
    {
      Vec3(x - other.x, y - other.y, z - other.z)
    }

    /** `__mul__`, and `__rmul__` which delegates to it: scaling by a scalar. */
    function Mul(s: real): Vec3 {
      Vec3(x * s, y * s, z * s)
    }

    /** `__truediv__`, written in the source as multiplication by `1 / s`;
        multiplying back by `s` restores the vector. */
    function Div(s: real): (r: Vec3)
      requires s != 0.0
      ensures r.Mul(s) == this
    {
      Mul(1.0 / s)
    }

    /** `__dot__`. */
    function Dot(other: Vec3): real {
      x * other.x + y * other.y + z * other.z
    }

    /** `__cross__`: the result is orthogonal to both arguments. */
    function Cross(other: Vec3): (r: Vec3)
      ensures Dot(r) == 0.0 && other.Dot(r) == 0.0
    {
      Vec3(y * other.z - z * other.y,
           z * other.x - x * other.z,
           x * other.y - y * other.x)
    }

    /** `length_squared`: never negative, and the dot product of the vector
        with itself. */
    function LengthSquared(): (r: real)
      ensures 0.0 <= r
      ensures r == Dot(this)
    {
      SqNonNegative(x);
      SqNonNegative(y);
      SqNonNegative(z);
      Sq(x) + Sq(y) + Sq(z)
    }

    /** `length`: the non-negative number whose square is `LengthSquared()`. */
    function Length(sqrt: real -> real): (r: real)
      requires IsSquareRoot(sqrt)
      ensures 0.0 <= r && Sq(r) == LengthSquared()
    {
      sqrt(LengthSquared())
    }

    /** `__unit_vector__`: `this / length()`, defined when the length is not
        zero. The result has length one and points the same way. */
    function UnitVector(sqrt: real -> real): (r: Vec3)
      requires IsSquareRoot(sqrt)
      requires LengthSquared() != 0.0
      ensures r.LengthSquared() == 1.0
      ensures r.Mul(Length(sqrt)) == this
    {
      var len := Length(sqrt);
      assert len != 0.0;
      UnitLength(this, len);
      Div(len)
    }
  }

  function Zero(): Vec3 {
    Vec3(0.0, 0.0, 0.0)
  }

  /** Scaling multiplies the squared length by the square of the factor. */
  lemma ScaleLengthSquared(v: Vec3, s: real)
    ensures v.Mul(s).LengthSquared() == Sq(s) * v.LengthSquared()
  {
  }

  /** Dividing by the length leaves a vector of length one. */
  lemma UnitLength(v: Vec3, len: real)
    requires len != 0.0 && Sq(len) == v.LengthSquared()
    ensures v.Div(len).LengthSquared() == 1.0
  {
    ScaleLengthSquared(v, 1.0 / len);
    assert Sq(1.0 / len) * Sq(len) == 1.0;
  }

  /** The squared length is positive as soon as one component is not zero. */
  lemma LengthSquaredPositive(v: Vec3)
    requires v.x != 0.0 || v.y != 0.0 || v.z != 0.0
    ensures 0.0 < v.LengthSquared()
  {
    SqNonNegative(v.x);
    SqNonNegative(v.y);
    SqNonNegative(v.z);
  }

  /** Each component's square is bounded by the squared length. */
  lemma ComponentBound(v: Vec3)
    ensures Sq(v.x) <= v.LengthSquared()
    ensures Sq(v.y) <= v.LengthSquared()
    ensures Sq(v.z) <= v.LengthSquared()
  {
    SqNonNegative(v.x);
    SqNonNegative(v.y);
    SqNonNegative(v.z);
  }

  /** Every component of a vector of length one lies in `[-1, 1]`. */
  lemma UnitComponents(v: Vec3)
    requires v.LengthSquared() == 1.0
    ensures -1.0 <= v.x <= 1.0 && -1.0 <= v.y <= 1.0 && -1.0 <= v.z <= 1.0
  {
    ComponentBound(v);
    SqAtMostOne(v.x);
    SqAtMostOne(v.y);
    SqAtMostOne(v.z);
  }

  /** A vector of length one is its own unit vector. */
  lemma UnitOfUnit(v: Vec3, sqrt: real -> real)
    requires IsSquareRoot(sqrt)
    requires v.LengthSquared() == 1.0
    ensures v.UnitVector(sqrt) == v
  {
    SqrtOfSq(sqrt, 1.0);
  }

  /** The unit vector depends only on the direction: scaling by a positive
      factor does not change it. */
  lemma UnitVectorScale(v: Vec3, s: real, sqrt: real -> real)
    requires IsSquareRoot(sqrt)
    requires v.LengthSquared() != 0.0
    requires 0.0 < s
    ensures v.Mul(s).LengthSquared() != 0.0
    ensures v.Mul(s).UnitVector(sqrt) == v.UnitVector(sqrt)
  {
    ScaleLengthSquared(v, s);
    SqNonNegative(s);
    ProductSign(Sq(s), v.LengthSquared());
    SqrtScale(sqrt, s, v.LengthSquared());
    var len := v.Length(sqrt);
    assert v.Mul(s).LengthSquared() == Mul(Sq(s), v.LengthSquared());
    assert v.Mul(s).Length(sqrt) == Mul(s, len);
    DivScaled(v, s, len);
  }

  /** Dividing `s * v` by `s * d` is dividing `v` by `d`. */
  lemma DivScaled(v: Vec3, s: real, d: real)
    requires s != 0.0 && d != 0.0
    ensures Mul(s, d) != 0.0
    ensures v.Mul(s).Div(Mul(s, d)) == v.Div(d)
  {
    CancelFactor(v.x, s, d);
    CancelFactor(v.y, s, d);
    CancelFactor(v.z, s, d);
  }

  /** `(a + b) - b == a`. */
  lemma AddSubCancel(a: Vec3, b: Vec3)
    ensures a.Add(b).Sub(b) == a
  {
  }

  /** `-(-a) == a`. */
  lemma NegNeg(a: Vec3)
    ensures a.Neg().Neg() == a
  {
  }

  /** The dot product is symmetric. */
  lemma DotSymmetric(a: Vec3, b: Vec3)
    ensures a.Dot(b) == b.Dot(a)
  {
  }

  /** `a . (a x b) == 0`. */
  lemma DotCross(a: Vec3, b: Vec3)
    ensures a.Dot(a.Cross(b)) == 0.0
  {
  }
}
