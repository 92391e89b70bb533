/** Spheres, the hit record they fill in, and the analytic ray-sphere
    intersection test (`Sphere.hit` and the unused helper `hitSphere`). */
module Spheres {
  import opened Scalars
  import opened Vectors
  import opened Rays
  import opened Options

  /** An upper limit on the ray parameter: a number, or Python's `float("inf")`. */
  datatype Bound = Finite(value: real) | Infinity
  {
    /** The test `t_max < t` is false, i.e. `t` is not beyond the limit. */
    predicate Admits(t: real) {
      Infinity? || t <= value
    }

    /** This limit is no larger than `other`. */
    predicate AtMost(other: Bound) {
      other.Infinity? || (Finite? && value <= other.value)
    }
  }

  /** `hit_record`: the scratch record an intersection test writes into. The
      source creates it with no attributes at all; here its three fields start
      at zero, and nothing reads them before a test has reported a hit. */
  class HitRecord {
    var p: Vec3
    var normal: Vec3
    var t: real

    constructor ()
      ensures p == Zero() && normal == Zero() && t == 0.0
    {
      p := Zero();
      normal := Zero();
      t := 0.0;
    }
  }

  /** The quadratic `a t^2 + 2 half_b t + c` whose roots are the parameters at
      which a ray meets a sphere. */
  datatype Quadratic = Quadratic(a: real, halfB: real, c: real)
  {
    function Discriminant(): real {
      Sq(halfB) - a * c
    }

    function Value(t: real): real {
      a * Sq(t) + 2.0 * halfB * t + c
    }
  }

  /** Whether a near root exists and passes the test `root < t_min or t_max < root`
      of `Sphere.hit`. */
  predicate Accepted(root: Option<real>, tMin: real, tMax: Bound) {
    root.Some? && tMin <= root.value && tMax.Admits(root.value)
  }

  datatype Sphere = Sphere(center: Vec3, radius: real)
  {
    /** The coefficients `a`, `half_b` and `c` of `Sphere.hit`. */
    function Coefficients(r: Ray): Quadratic {
      var oc := r.origin.Sub(center);
      Quadratic(r.direction.LengthSquared(), oc.Dot(r.direction),
                oc.LengthSquared() - Sq(radius))
    }

    /** The near root `(-half_b - sqrt(discriminant)) / a`, or none when the
        discriminant is negative. */
    function NearRoot(r: Ray, sqrt: real -> real): Option<real>
      requires r.direction.LengthSquared() != 0.0
    {
      var q := Coefficients(r);
      if q.Discriminant() < 0.0 then None
      else Some((-q.halfB - sqrt(q.Discriminant())) / q.a)
    }

    /** The far root `(-half_b + sqrt(discriminant)) / a`, where a ray that
        crosses the sphere leaves it; `Sphere.hit` never computes it. */
    function FarRoot(r: Ray, sqrt: real -> real): real
      requires r.direction.LengthSquared() != 0.0
    {
      var q := Coefficients(r);
      (-q.halfB + sqrt(q.Discriminant())) / q.a
    }

    predicate OnSurface(p: Vec3) {
      p.Sub(center).LengthSquared() == Sq(radius)
    }

    /** The normal stored by `Sphere.hit`: `(p - center) / radius`. */
    function NormalAt(p: Vec3): Vec3
      requires radius != 0.0
    {
      p.Sub(center).Div(radius)
    }

    /** `Sphere.hit`: computes the near root; when it exists and lies in
        `[tMin, tMax]` records the parameter, the point and the normal and
        answers true, and otherwise answers false and leaves the record as it
        was. A zero direction or a zero radius would divide by zero in the
        source. */
    method Hit(r: Ray, tMin: real, tMax: Bound, rec: HitRecord, sqrt: real -> real)
      returns (hit: bool)
      requires r.direction.LengthSquared() != 0.0
      requires radius != 0.0
      modifies rec
      ensures hit == Accepted(NearRoot(r, sqrt), tMin, tMax)
      ensures hit ==> tMin <= rec.t && tMax.Admits(rec.t)
      ensures hit ==> rec.t == NearRoot(r, sqrt).value
      ensures hit ==> rec.p == r.At(rec.t) && rec.normal == NormalAt(rec.p)
      ensures !hit ==> rec.p == old(rec.p) && rec.normal == old(rec.normal) && rec.t == old(rec.t)
    {
      var oc := r.origin.Sub(center);
      var a := r.direction.LengthSquared();
      var halfB := oc.Dot(r.direction);
      var c := oc.LengthSquared() - Sq(radius);
      var discriminant := Sq(halfB) - a * c;
      assert Coefficients(r) == Quadratic(a, halfB, c);
      if discriminant < 0.0 {
        return false;
      }
      var sqrtd := sqrt(discriminant);

      var root := (-halfB - sqrtd) / a;
      assert Coefficients(r).Discriminant() == discriminant;
      assert sqrt(Coefficients(r).Discriminant()) == sqrtd;
      assert NearRoot(r, sqrt) == Some(root);
      if root < tMin || (tMax.Finite? && tMax.value < root) {
        return false;
      }

      rec.t := root;
      rec.p := r.At(rec.t);
      rec.normal := rec.p.Sub(center).Div(radius);
      return true;
    }
  }

  /** `hitSphere`, the unused helper: the near root, or `-1` when the
      discriminant is negative. It agrees with the root `Sphere.hit` tests. */
  function HitSphere(center: Vec3, radius: real, r: Ray, sqrt: real -> real): (t: real)
    requires r.direction.LengthSquared() != 0.0
    ensures Sphere(center, radius).NearRoot(r, sqrt).None? ==> t == -1.0
    ensures Sphere(center, radius).NearRoot(r, sqrt).Some? ==>
              t == Sphere(center, radius).NearRoot(r, sqrt).value
  {
    var oc := r.origin.Sub(center);
    var a := r.direction.LengthSquared();
    var halfB := oc.Dot(r.direction);
    var c := oc.LengthSquared() - Sq(radius);
    var discriminant := Sq(halfB) - a * c;
    var q := Sphere(center, radius).Coefficients(r);
    assert q == Quadratic(a, halfB, c);
    assert q.Discriminant() == discriminant;
    if discriminant < 0.0 then -1.0
    else (-halfB - sqrt(discriminant)) / a
  }

  /** Squared distance from the sphere's centre along the ray, less the squared
      radius, is the quadratic of `Sphere.hit`: the ray is on the surface at `t`
      exactly when `t` is a root. */
  lemma SurfaceEquation(s: Sphere, r: Ray, t: real)
    ensures r.At(t).Sub(s.center).LengthSquared() - Sq(s.radius) == s.Coefficients(r).Value(t)
  {
    var oc, d := r.origin.Sub(s.center), r.direction;
    assert r.At(t).Sub(s.center) == oc.Add(d.Mul(t));
    assert oc.Add(d.Mul(t)).LengthSquared()
        == oc.LengthSquared() + 2.0 * t * oc.Dot(d) + Sq(t) * d.LengthSquared();
  }

  /** Multiplying the quadratic by `a` completes the square:
      `a * q(t) == (a t + half_b)^2 - discriminant`. */
  lemma CompletedSquare(q: Quadratic, t: real)
    ensures Mul(q.a, q.Value(t)) == Sq(q.a * t + q.halfB) - q.Discriminant()
  {
  }

  /** The near root is a root of the quadratic. */
  lemma NearRootSolves(s: Sphere, r: Ray, sqrt: real -> real)
    requires IsSquareRoot(sqrt)
    requires r.direction.LengthSquared() != 0.0
    requires s.NearRoot(r, sqrt).Some?
    ensures s.Coefficients(r).Value(s.NearRoot(r, sqrt).value) == 0.0
  {
    var q := s.Coefficients(r);
    var root := s.NearRoot(r, sqrt).value;
    var sd := sqrt(q.Discriminant());
    DivMul(-q.halfB - sd, q.a);
    assert q.a * root + q.halfB == -sd;
    assert Sq(-sd) == Sq(sd);
    CompletedSquare(q, root);
    ZeroProduct(q.a, q.Value(root));
  }

  /** Under exact arithmetic the point `Sphere.hit` records lies on the sphere. */
  lemma NearRootOnSurface(s: Sphere, r: Ray, sqrt: real -> real)
    requires IsSquareRoot(sqrt)
    requires r.direction.LengthSquared() != 0.0
    requires s.NearRoot(r, sqrt).Some?
    ensures s.OnSurface(r.At(s.NearRoot(r, sqrt).value))
  {
    NearRootSolves(s, r, sqrt);
    SurfaceEquation(s, r, s.NearRoot(r, sqrt).value);
  }

  /** The near root is the first crossing: every parameter at which the ray is
      on the sphere is at least the near root. In particular a negative
      discriminant means the ray never meets the sphere. */
  lemma NearRootIsFirst(s: Sphere, r: Ray, t: real, sqrt: real -> real)
    requires IsSquareRoot(sqrt)
    requires r.direction.LengthSquared() != 0.0
    requires s.OnSurface(r.At(t))
    ensures s.NearRoot(r, sqrt).Some?
    ensures s.NearRoot(r, sqrt).value <= t
  {
    var q := s.Coefficients(r);
    SurfaceEquation(s, r, t);
    assert q.Value(t) == 0.0;
    CompletedSquare(q, t);
    assert Sq(q.a * t + q.halfB) == q.Discriminant();
    SqNonNegative(q.a * t + q.halfB);
    var sd := sqrt(q.Discriminant());
    SqEqual(q.a * t + q.halfB, sd);
    var root := s.NearRoot(r, sqrt).value;
    DivMul(-q.halfB - sd, q.a);
    assert Mul(q.a, root) <= Mul(q.a, t);
    MulMonotone(q.a, root, t);
  }

  /** The normal recorded for a point on the sphere has length one. */
  lemma NormalIsUnit(s: Sphere, p: Vec3)
    requires s.radius != 0.0
    requires s.OnSurface(p)
    ensures s.NormalAt(p).LengthSquared() == 1.0
  {
    UnitLength(p.Sub(s.center), s.radius);
  }

  /** A ray of unit direction aimed at the centre of a sphere of positive
      radius, from distance `d`, meets it at `d - radius`. */
  lemma AimedAtCentre(s: Sphere, r: Ray, d: real, sqrt: real -> real)
    requires IsSquareRoot(sqrt)
    requires r.direction.LengthSquared() == 1.0
    requires s.center == r.At(d)
    requires 0.0 < s.radius
    ensures s.NearRoot(r, sqrt) == Some(d - s.radius)
  {
    var q := s.Coefficients(r);
    var oc := r.origin.Sub(s.center);
    assert oc == r.direction.Mul(-d);
    ScaleLengthSquared(r.direction, -d);
    assert q.halfB == -d;
    assert q.c == Sq(d) - Sq(s.radius);
    assert q.Discriminant() == Sq(s.radius);
    SqrtOfSq(sqrt, s.radius);
  }

  /** When `a > 0` and `c < 0` the square root of the discriminant exceeds
      `|half_b|`. */
  lemma RootGap(q: Quadratic, sqrt: real -> real)
    requires IsSquareRoot(sqrt)
    requires 0.0 < q.a && q.c < 0.0
    ensures 0.0 < q.Discriminant()
    ensures -sqrt(q.Discriminant()) < q.halfB < sqrt(q.Discriminant())
  {
    ProductSign(q.a, q.c);
    SqNonNegative(q.halfB);
    var sd := sqrt(q.Discriminant());
    assert Sq(q.halfB) < Sq(sd);
    var ab := if q.halfB < 0.0 then -q.halfB else q.halfB;
    assert Sq(ab) == Sq(q.halfB);
    assert Mul(ab - sd, ab + sd) == Sq(ab) - Sq(sd);
    ProductSign(ab - sd, ab + sd);
  }

  /** The far root `(-half_b + sqrt(disc)) / a` is a root of the quadratic. */
  lemma FarRootSolves(q: Quadratic, sqrt: real -> real)
    requires IsSquareRoot(sqrt)
    requires q.a != 0.0 && 0.0 <= q.Discriminant()
    ensures q.Value((-q.halfB + sqrt(q.Discriminant())) / q.a) == 0.0
  {
    var far := (-q.halfB + sqrt(q.Discriminant())) / q.a;
    DivMul(-q.halfB + sqrt(q.Discriminant()), q.a);
    CompletedSquare(q, far);
    ZeroProduct(q.a, q.Value(far));
  }

  /** A quadratic with `a > 0` and `c < 0` has one negative and one positive
      root: `(-half_b - sqrt(disc)) / a < 0 < (-half_b + sqrt(disc)) / a`. */
  lemma StraddlesZero(q: Quadratic, sqrt: real -> real)
    requires IsSquareRoot(sqrt)
    requires 0.0 < q.a && q.c < 0.0
    ensures 0.0 < q.Discriminant()
    ensures (-q.halfB - sqrt(q.Discriminant())) / q.a < 0.0
    ensures 0.0 < (-q.halfB + sqrt(q.Discriminant())) / q.a
    ensures q.Value((-q.halfB + sqrt(q.Discriminant())) / q.a) == 0.0
  {
    RootGap(q, sqrt);
    var sd := sqrt(q.Discriminant());
    DivSign(-q.halfB - sd, q.a);
    DivSign(-q.halfB + sd, q.a);
    FarRootSolves(q, sqrt);
  }

  /** Only the near root is tested: for any ray whose origin lies strictly
      inside a sphere, the near root is behind the origin, so `Sphere.hit`
      with `t_min = 0` reports no hit, although the far root, where the ray
      leaves the sphere, is ahead of the origin and on the surface. */
  lemma MissFromInside(s: Sphere, r: Ray, sqrt: real -> real)
    requires IsSquareRoot(sqrt)
    requires r.direction.LengthSquared() != 0.0
    requires r.origin.Sub(s.center).LengthSquared() < Sq(s.radius)
    ensures s.NearRoot(r, sqrt).Some? && s.NearRoot(r, sqrt).value < 0.0
    ensures !Accepted(s.NearRoot(r, sqrt), 0.0, Infinity)
    ensures 0.0 < s.FarRoot(r, sqrt) && s.OnSurface(r.At(s.FarRoot(r, sqrt)))
  {
    var q := s.Coefficients(r);
    StraddlesZero(q, sqrt);
    SurfaceEquation(s, r, s.FarRoot(r, sqrt));
  }
}
