/** The scene, `Sphere_List`: a list of spheres that a ray is tested against
    one after another, keeping the nearest hit found so far. */
module Scene {
  import opened Vectors
  import opened Rays
  import opened Options
  import opened Spheres

  /** Sphere `k` has a near root inside `[tMin, tMax]`. */
  predicate AcceptedAt(spheres: seq<Sphere>, k: nat, r: Ray, tMin: real, tMax: Bound,
                       sqrt: real -> real)
    requires k < |spheres|
    requires r.direction.LengthSquared() != 0.0
  {
    Accepted(spheres[k].NearRoot(r, sqrt), tMin, tMax)
  }

  /** The near root of sphere `k`. */
  function RootAt(spheres: seq<Sphere>, k: nat, r: Ray, sqrt: real -> real): real
    requires k < |spheres|
    requires r.direction.LengthSquared() != 0.0
    requires spheres[k].NearRoot(r, sqrt).Some?
  {
    spheres[k].NearRoot(r, sqrt).value
  }

  /** The sphere whose hit `Sphere_List.hit` leaves in the record, as the scan
      from the front computes it: each sphere is tested with the upper limit
      lowered to the root kept so far, and replaces it when accepted. The
      chosen sphere is always accepted within the original limits. */
  function Scan(spheres: seq<Sphere>, r: Ray, tMin: real, tMax: Bound,
                sqrt: real -> real): (k: Option<nat>)
    requires r.direction.LengthSquared() != 0.0
    ensures k.Some? ==> k.value < |spheres| && AcceptedAt(spheres, k.value, r, tMin, tMax, sqrt)
    decreases |spheres|
  {
    if |spheres| == 0 then None
    else
      var last := |spheres| - 1;
      var prev := Scan(spheres[..last], r, tMin, tMax, sqrt);
      var bound := if prev.Some? then Finite(RootAt(spheres, prev.value, r, sqrt)) else tMax;
      if Accepted(spheres[last].NearRoot(r, sqrt), tMin, bound) then Some(last) else prev
  }

  /** `closest_so_far` after the scan: the root kept, or the original upper
      limit when nothing was hit. It never exceeds the original limit. */
  function Limit(spheres: seq<Sphere>, r: Ray, tMin: real, tMax: Bound,
                 sqrt: real -> real): (b: Bound)
    requires r.direction.LengthSquared() != 0.0
    ensures b.AtMost(tMax)
  {
    var k := Scan(spheres, r, tMin, tMax, sqrt);
    if k.Some? then Finite(RootAt(spheres, k.value, r, sqrt)) else tMax
  }

  /** Declaratively, sphere `k` is the nearest hit: it is accepted, no accepted
      sphere has a smaller root, and every later accepted sphere has a strictly
      larger one, so that on a tie the last of the tied spheres wins. */
  predicate IsNearest(spheres: seq<Sphere>, k: nat, r: Ray, tMin: real, tMax: Bound,
                      sqrt: real -> real)
    requires r.direction.LengthSquared() != 0.0
  {
    && k < |spheres|
    && AcceptedAt(spheres, k, r, tMin, tMax, sqrt)
    && (forall j :: 0 <= j < |spheres| && AcceptedAt(spheres, j, r, tMin, tMax, sqrt) ==>
          RootAt(spheres, k, r, sqrt) <= RootAt(spheres, j, r, sqrt))
    && (forall j :: k < j < |spheres| && AcceptedAt(spheres, j, r, tMin, tMax, sqrt) ==>
          RootAt(spheres, k, r, sqrt) < RootAt(spheres, j, r, sqrt))
  }

  /** The scan finds nothing exactly when no sphere is accepted. */
  lemma {:induction false} ScanMissIff(spheres: seq<Sphere>, r: Ray, tMin: real, tMax: Bound,
                                       sqrt: real -> real)
    requires r.direction.LengthSquared() != 0.0
    ensures Scan(spheres, r, tMin, tMax, sqrt).None? <==>
              forall k :: 0 <= k < |spheres| ==> !AcceptedAt(spheres, k, r, tMin, tMax, sqrt)
    decreases |spheres|
  {
    if |spheres| != 0 {
      var last := |spheres| - 1;
      var init := spheres[..last];
      ScanMissIff(init, r, tMin, tMax, sqrt);
      assert forall j :: 0 <= j < last ==>
        AcceptedAt(init, j, r, tMin, tMax, sqrt) == AcceptedAt(spheres, j, r, tMin, tMax, sqrt);
    }
  }

  /** Adding one sphere behind the list keeps the nearest hit when the new
      sphere is not accepted below its root. */
  lemma NearestKept(spheres: seq<Sphere>, k: nat, r: Ray, tMin: real, tMax: Bound,
                    sqrt: real -> real)
    requires r.direction.LengthSquared() != 0.0
    requires 0 < |spheres|
    requires IsNearest(spheres[..|spheres| - 1], k, r, tMin, tMax, sqrt)
    requires !Accepted(spheres[|spheres| - 1].NearRoot(r, sqrt), tMin,
                       Finite(RootAt(spheres, k, r, sqrt)))
    ensures IsNearest(spheres, k, r, tMin, tMax, sqrt)
  {
    var last := |spheres| - 1;
    var init := spheres[..last];
    assert forall j :: 0 <= j < last ==>
      AcceptedAt(init, j, r, tMin, tMax, sqrt) == AcceptedAt(spheres, j, r, tMin, tMax, sqrt);
  }

  /** Adding one sphere behind the list makes it the nearest hit when it is
      accepted below the root of the nearest hit so far. */
  lemma NearestReplaced(spheres: seq<Sphere>, k: nat, r: Ray, tMin: real, tMax: Bound,
                        sqrt: real -> real)
    requires r.direction.LengthSquared() != 0.0
    requires 0 < |spheres|
    requires IsNearest(spheres[..|spheres| - 1], k, r, tMin, tMax, sqrt)
    requires Accepted(spheres[|spheres| - 1].NearRoot(r, sqrt), tMin,
                      Finite(RootAt(spheres, k, r, sqrt)))
    ensures IsNearest(spheres, |spheres| - 1, r, tMin, tMax, sqrt)
  {
    var last := |spheres| - 1;
    var init := spheres[..last];
    assert forall j :: 0 <= j < last ==>
      AcceptedAt(init, j, r, tMin, tMax, sqrt) == AcceptedAt(spheres, j, r, tMin, tMax, sqrt);
  }

  /** Adding one sphere behind a list in which the scan finds nothing makes
      the new sphere the nearest hit when it is accepted. */
  lemma NearestFirst(spheres: seq<Sphere>, r: Ray, tMin: real, tMax: Bound, sqrt: real -> real)
    requires r.direction.LengthSquared() != 0.0
    requires 0 < |spheres|
    requires Scan(spheres[..|spheres| - 1], r, tMin, tMax, sqrt).None?
    requires AcceptedAt(spheres, |spheres| - 1, r, tMin, tMax, sqrt)
    ensures IsNearest(spheres, |spheres| - 1, r, tMin, tMax, sqrt)
  {
    var last := |spheres| - 1;
    var init := spheres[..last];
    ScanMissIff(init, r, tMin, tMax, sqrt);
    assert forall j :: 0 <= j < last ==>
      AcceptedAt(init, j, r, tMin, tMax, sqrt) == AcceptedAt(spheres, j, r, tMin, tMax, sqrt);
  }

  /** Whatever the scan chooses is the nearest hit. */
  lemma {:induction false} ScanIsNearest(spheres: seq<Sphere>, r: Ray, tMin: real, tMax: Bound,
                                         sqrt: real -> real)
    requires r.direction.LengthSquared() != 0.0
    ensures Scan(spheres, r, tMin, tMax, sqrt).Some? ==>
              IsNearest(spheres, Scan(spheres, r, tMin, tMax, sqrt).value, r, tMin, tMax, sqrt)
    decreases |spheres|
  {
    if |spheres| != 0 {
      var last := |spheres| - 1;
      var init := spheres[..last];
      var prev := Scan(init, r, tMin, tMax, sqrt);
      ScanIsNearest(init, r, tMin, tMax, sqrt);
      if prev.Some? {
        if Accepted(spheres[last].NearRoot(r, sqrt), tMin, Finite(RootAt(spheres, prev.value, r, sqrt))) {
          NearestReplaced(spheres, prev.value, r, tMin, tMax, sqrt);
        } else {
          NearestKept(spheres, prev.value, r, tMin, tMax, sqrt);
        }
      } else {
        if AcceptedAt(spheres, last, r, tMin, tMax, sqrt) {
          NearestFirst(spheres, r, tMin, tMax, sqrt);
        }
      }
    }
  }

  /** At most one sphere is the nearest hit. */
  lemma NearestUnique(spheres: seq<Sphere>, k: nat, m: nat, r: Ray, tMin: real, tMax: Bound,
                      sqrt: real -> real)
    requires r.direction.LengthSquared() != 0.0
    requires IsNearest(spheres, k, r, tMin, tMax, sqrt)
    requires IsNearest(spheres, m, r, tMin, tMax, sqrt)
    ensures k == m
  {
    assert RootAt(spheres, k, r, sqrt) <= RootAt(spheres, m, r, sqrt);
    assert RootAt(spheres, m, r, sqrt) <= RootAt(spheres, k, r, sqrt);
  }

  /** The scan chooses sphere `k` exactly when `k` is the nearest hit. */
  lemma ScanChoosesIff(spheres: seq<Sphere>, k: nat, r: Ray, tMin: real, tMax: Bound,
                       sqrt: real -> real)
    requires r.direction.LengthSquared() != 0.0
    ensures Scan(spheres, r, tMin, tMax, sqrt) == Some(k) <==>
              IsNearest(spheres, k, r, tMin, tMax, sqrt)
  {
    ScanIsNearest(spheres, r, tMin, tMax, sqrt);
    if IsNearest(spheres, k, r, tMin, tMax, sqrt) {
      ScanMissIff(spheres, r, tMin, tMax, sqrt);
      NearestUnique(spheres, k, Scan(spheres, r, tMin, tMax, sqrt).value, r, tMin, tMax, sqrt);
    }
  }

  /** `closest_so_far` never increases from one sphere to the next. */
  lemma LimitShrinks(spheres: seq<Sphere>, i: nat, r: Ray, tMin: real, tMax: Bound,
                     sqrt: real -> real)
    requires r.direction.LengthSquared() != 0.0
    requires i < |spheres|
    ensures Limit(spheres[..i + 1], r, tMin, tMax, sqrt).AtMost(Limit(spheres[..i], r, tMin, tMax, sqrt))
  {
    assert spheres[..i + 1][..i] == spheres[..i];
  }

  /** One step of the scan over the first `i + 1` spheres: sphere `i` is
      chosen, and its root becomes the limit, when it is accepted below the
      limit kept for the first `i`; otherwise the choice and the limit stay. */
  lemma ScanExtend(spheres: seq<Sphere>, i: nat, r: Ray, tMin: real, tMax: Bound,
                   sqrt: real -> real)
    requires r.direction.LengthSquared() != 0.0
    requires i < |spheres|
    ensures var prev := Scan(spheres[..i], r, tMin, tMax, sqrt);
            && (prev.Some? ==> prev.value < i)
            && Limit(spheres[..i], r, tMin, tMax, sqrt) ==
                 (if prev.Some? then Finite(RootAt(spheres, prev.value, r, sqrt)) else tMax)
    ensures var prev := Scan(spheres[..i], r, tMin, tMax, sqrt);
            if Accepted(spheres[i].NearRoot(r, sqrt), tMin, Limit(spheres[..i], r, tMin, tMax, sqrt))
            then && Scan(spheres[..i + 1], r, tMin, tMax, sqrt) == Some(i)
                 && Limit(spheres[..i + 1], r, tMin, tMax, sqrt) == Finite(RootAt(spheres, i, r, sqrt))
            else && Scan(spheres[..i + 1], r, tMin, tMax, sqrt) == prev
                 && Limit(spheres[..i + 1], r, tMin, tMax, sqrt) == Limit(spheres[..i], r, tMin, tMax, sqrt)
  {
    assert spheres[..i + 1][..i] == spheres[..i];
  }

  /** `Sphere_List`: the spheres of the scene, in the order they were added. */
  class SphereList {
    var spheres: seq<Sphere>

    constructor ()
      ensures spheres == []
    {
      spheres := [];
    }

    /** `Sphere_List.add`: appends one sphere. */
    method Add(s: Sphere)
      modifies this
      ensures spheres == old(spheres) + [s]
    {
      spheres := spheres + [s];
    }

    /** `Sphere_List.hit`: tests every sphere in turn with the upper limit
        lowered to the nearest root found so far. Answers whether the scan
        chose a sphere, and leaves that sphere's hit in the record; with no
        hit the record is as it was. */
    method Hit(r: Ray, tMin: real, tMax: Bound, rec: HitRecord, sqrt: real -> real)
      returns (hitAnything: bool)
      requires r.direction.LengthSquared() != 0.0
      requires forall k :: 0 <= k < |spheres| ==> spheres[k].radius != 0.0
      modifies rec
      ensures hitAnything == Scan(spheres, r, tMin, tMax, sqrt).Some?
      ensures hitAnything ==>
                var k := Scan(spheres, r, tMin, tMax, sqrt).value;
                && rec.t == RootAt(spheres, k, r, sqrt)
                && rec.p == r.At(rec.t)
                && rec.normal == spheres[k].NormalAt(rec.p)
      ensures !hitAnything ==>
                rec.p == old(rec.p) && rec.normal == old(rec.normal) && rec.t == old(rec.t)
    {
      hitAnything := false;
      var closestSoFar := tMax;
      for i := 0 to |spheres|
        invariant hitAnything == Scan(spheres[..i], r, tMin, tMax, sqrt).Some?
        invariant closestSoFar == Limit(spheres[..i], r, tMin, tMax, sqrt)
        invariant hitAnything ==>
                    var k := Scan(spheres[..i], r, tMin, tMax, sqrt).value;
                    && rec.t == RootAt(spheres, k, r, sqrt)
                    && rec.p == r.At(rec.t)
                    && rec.normal == spheres[k].NormalAt(rec.p)
        invariant !hitAnything ==>
                    rec.p == old(rec.p) && rec.normal == old(rec.normal) && rec.t == old(rec.t)
      {
        ScanExtend(spheres, i, r, tMin, tMax, sqrt);
        var h := spheres[i].Hit(r, tMin, closestSoFar, rec, sqrt);
        if h {
          hitAnything := true;
          closestSoFar := Finite(rec.t);
        }
      }
      assert spheres[..|spheres|] == spheres;
    }
  }
}
