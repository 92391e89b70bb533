/** A ray: an origin and a direction that need not be normalised. */
module Rays {
  import opened Vectors

  datatype Ray = Ray(origin: Vec3, direction: Vec3)
  {
    /** `ray.at`: the point reached after travelling `t` times the direction
        from the origin. */
    function At(t: real): (p: Vec3)
      ensures p.Sub(origin) == direction.Mul(t)
    {
      origin.Add(direction.Mul(t))
    }
  }

  /** At parameter zero the ray is at its origin. */
  lemma AtZero(r: Ray)
    ensures r.At(0.0) == r.origin
  {
  }

  /** Moving along the ray is additive in the parameter. */
  lemma AtShift(r: Ray, s: real, t: real)
    ensures r.At(s + t) == r.At(s).Add(r.direction.Mul(t))
  {
  }
}
