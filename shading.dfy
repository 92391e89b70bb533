/** Shading: the colour a ray brings back, either the surface normal of the
    nearest sphere it hits (`ray_color`) or the sky gradient (`getColour`). */
module Shading {
  import opened Scalars
  import opened Vectors
  import opened Rays
  import opened Options
  import opened Spheres
  import opened Scene

  /** The colour at the bottom of the sky gradient. */
  function White(): Vec3 {
    Vec3(1.0, 1.0, 1.0)
  }

  /** The colour at the top of the sky gradient. */
  function SkyBlue(): Vec3 {
    Vec3(0.5, 0.7, 1.0)
  }

  /** The sky gradient at height `y` of the unit direction:
      `(1 - t) * white + t * sky blue` with `t = 0.5 * (y + 1)`. */
  function Gradient(y: real): Vec3 {
    var t := 0.5 * (y + 1.0);
    White().Mul(1.0 - t).Add(SkyBlue().Mul(t))
  }

  /** The gradient runs from white at `y == -1` to sky blue at `y == 1`, and
      in between every channel stays between the two. */
  lemma GradientEnds(y: real)
    ensures y == 1.0 ==> Gradient(y) == SkyBlue()
    ensures y == -1.0 ==> Gradient(y) == White()
    ensures -1.0 <= y <= 1.0 ==>
              var c := Gradient(y);
              0.5 <= c.x <= 1.0 && 0.7 <= c.y <= 1.0 && c.z == 1.0
  {
    var t := 0.5 * (y + 1.0);
    assert Gradient(y) == Vec3(1.0 - 0.5 * t, 1.0 - 0.3 * t, 1.0);
  }

  /** `getColour`: blends white into sky blue by how far the ray points up.
      Every channel stays between the two end colours. */
  function GetColour(r: Ray, sqrt: real -> real): (c: Vec3)
    requires IsSquareRoot(sqrt)
    requires r.direction.LengthSquared() != 0.0
    ensures 0.5 <= c.x <= 1.0 && 0.7 <= c.y <= 1.0 && c.z == 1.0
  {
    var unitDirection := r.direction.UnitVector(sqrt);
    UnitComponents(unitDirection);
    GradientEnds(unitDirection.y);
    Gradient(unitDirection.y)
  }

  /** The sky colour depends only on which way the ray points, not on how
      long its direction vector is or where it starts. */
  lemma GetColourScale(r: Ray, o: Vec3, s: real, sqrt: real -> real)
    requires IsSquareRoot(sqrt)
    requires r.direction.LengthSquared() != 0.0
    requires 0.0 < s
    ensures Ray(o, r.direction.Mul(s)).direction.LengthSquared() != 0.0
    ensures GetColour(Ray(o, r.direction.Mul(s)), sqrt) == GetColour(r, sqrt)
  {
    UnitVectorScale(r.direction, s, sqrt);
  }

  /** The unit vector of `(0, k, 0)` is `(0, 1, 0)` or `(0, -1, 0)` by the sign
      of `k`. */
  lemma VerticalUnit(k: real, sqrt: real -> real)
    requires IsSquareRoot(sqrt)
    requires k != 0.0
    ensures Vec3(0.0, k, 0.0).LengthSquared() != 0.0
    ensures 0.0 < k ==> Vec3(0.0, k, 0.0).UnitVector(sqrt) == Vec3(0.0, 1.0, 0.0)
    ensures k < 0.0 ==> Vec3(0.0, k, 0.0).UnitVector(sqrt) == Vec3(0.0, -1.0, 0.0)
  {
    var v := Vec3(0.0, k, 0.0);
    var a := if k < 0.0 then -k else k;
    assert v.LengthSquared() == Sq(a);
    SqNonNegative(a);
    SqrtOfSq(sqrt, a);
    assert v.Length(sqrt) == a;
    assert k * (1.0 / a) == (if k < 0.0 then -1.0 else 1.0);
  }

  /** Looking straight up shows the top colour of the gradient, looking
      straight down shows white. */
  lemma VerticalSky(r: Ray, k: real, sqrt: real -> real)
    requires IsSquareRoot(sqrt)
    requires r.direction == Vec3(0.0, k, 0.0) && k != 0.0
    ensures r.direction.LengthSquared() != 0.0
    ensures 0.0 < k ==> GetColour(r, sqrt) == SkyBlue()
    ensures k < 0.0 ==> GetColour(r, sqrt) == White()
  {
    VerticalUnit(k, sqrt);
    GradientEnds(r.direction.UnitVector(sqrt).y);
  }

  /** The colour that visualises a normal: `0.5 * (normal + (1, 1, 1))`. */
  function NormalColour(n: Vec3): Vec3 {
    Vec3(n.x + 1.0, n.y + 1.0, n.z + 1.0).Mul(0.5)
  }

  /** Every channel of the colour of a unit normal lies in `[0, 1]`. */
  lemma NormalColourInUnitCube(n: Vec3)
    requires n.LengthSquared() == 1.0
    ensures InUnitCube(NormalColour(n))
  {
    UnitComponents(n);
  }

  /** Every channel lies in `[0, 1]`. */
  predicate InUnitCube(c: Vec3) {
    0.0 <= c.x <= 1.0 && 0.0 <= c.y <= 1.0 && 0.0 <= c.z <= 1.0
  }

  /** Every sphere in the list has a non-zero radius, so that its normal can be
      computed. */
  predicate NonZeroRadii(spheres: seq<Sphere>) {
    forall k :: 0 <= k < |spheres| ==> spheres[k].radius != 0.0
  }

  /** What `ray_color` returns for a scene: the normal colour of the sphere the
      scan chooses with limits `[0, inf]`, or the sky when there is none. */
  function Shade(spheres: seq<Sphere>, r: Ray, sqrt: real -> real): Vec3
    requires IsSquareRoot(sqrt)
    requires r.direction.LengthSquared() != 0.0
    requires NonZeroRadii(spheres)
  {
    match Scan(spheres, r, 0.0, Infinity, sqrt)
    case Some(k) =>
      NormalColour(spheres[k].NormalAt(r.At(RootAt(spheres, k, r, sqrt))))
    case None => GetColour(r, sqrt)
  }

  /** A ray that no sphere accepts in `[0, inf]` shows the sky. */
  lemma ShadeMiss(spheres: seq<Sphere>, r: Ray, sqrt: real -> real)
    requires IsSquareRoot(sqrt)
    requires r.direction.LengthSquared() != 0.0
    requires NonZeroRadii(spheres)
    requires forall k :: 0 <= k < |spheres| ==> !AcceptedAt(spheres, k, r, 0.0, Infinity, sqrt)
    ensures Shade(spheres, r, sqrt) == GetColour(r, sqrt)
  {
    ScanMissIff(spheres, r, 0.0, Infinity, sqrt);
  }

  /** A ray whose nearest hit is sphere `k` shows that sphere's normal at the
      point where the ray first meets it. */
  lemma ShadeHit(spheres: seq<Sphere>, k: nat, r: Ray, sqrt: real -> real)
    requires IsSquareRoot(sqrt)
    requires r.direction.LengthSquared() != 0.0
    requires NonZeroRadii(spheres)
    requires IsNearest(spheres, k, r, 0.0, Infinity, sqrt)
    ensures Shade(spheres, r, sqrt) ==
              NormalColour(spheres[k].NormalAt(r.At(RootAt(spheres, k, r, sqrt))))
  {
    ScanChoosesIff(spheres, k, r, 0.0, Infinity, sqrt);
  }

  /** Under exact arithmetic every colour `ray_color` returns has all its
      channels in `[0, 1]`: a recorded normal has length one, and the sky
      stays between white and sky blue. */
  lemma ShadeInUnitCube(spheres: seq<Sphere>, r: Ray, sqrt: real -> real)
    requires IsSquareRoot(sqrt)
    requires r.direction.LengthSquared() != 0.0
    requires NonZeroRadii(spheres)
    ensures InUnitCube(Shade(spheres, r, sqrt))
  {
    var chosen := Scan(spheres, r, 0.0, Infinity, sqrt);
    if chosen.Some? {
      var s := spheres[chosen.value];
      NearRootOnSurface(s, r, sqrt);
      NormalIsUnit(s, r.At(RootAt(spheres, chosen.value, r, sqrt)));
      NormalColourInUnitCube(s.NormalAt(r.At(RootAt(spheres, chosen.value, r, sqrt))));
    }
  }

  /** `ray_color`: makes a fresh hit record, asks the scene for the nearest
      hit in `[0, inf]`, and colours the ray by it. */
  method RayColor(world: SphereList, r: Ray, sqrt: real -> real) returns (c: Vec3)
    requires IsSquareRoot(sqrt)
    requires r.direction.LengthSquared() != 0.0
    requires NonZeroRadii(world.spheres)
    ensures c == Shade(world.spheres, r, sqrt)
  {
    var hitR := new HitRecord();
    var hit := world.Hit(r, 0.0, Infinity, hitR, sqrt);
    if hit {
      c := Vec3(hitR.normal.x + 1.0, hitR.normal.y + 1.0, hitR.normal.z + 1.0).Mul(0.5);
    } else {
      c := GetColour(r, sqrt);
    }
  }
}
