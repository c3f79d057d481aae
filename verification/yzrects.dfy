/**
 * yz_rect (src/geometry/yz_rect.h): an axis-aligned rectangle in the plane x = k, spanning
 * [y0, y1] in y and [z0, z1] in z.
 */
module YzRects {

  import opened Vectors
  import opened Rays
  import opened Boxes
  import opened Materials
  import opened Options

  /** The half-thickness by which bounding_box pads the rectangle in x. */
  const Padding: real := 0.0001

  /** The parameter at which the ray crosses the plane x = k. */
  function CrossingTime(k: real, r: Ray): real
    requires r.direction.x != 0.0
  {
    (k - r.origin.x) / r.direction.x
  }

  /** The point where the ray crosses the plane x = k. */
  function CrossingPoint(k: real, r: Ray): Vec3
    requires r.direction.x != 0.0
  {
    At(r, CrossingTime(k, r))
  }

  /** How far `y` lies along [y0, y1]: (y - y0) / (y1 - y0). */
  function Fraction(y: real, y0: real, y1: real): real
    requires y1 != y0
  {
    (y - y0) / (y1 - y0)
  }

  /** yz_rect::hit. None is a `false` return with `rec` untouched. */
  function HitYzRect(y0: real, y1: real, z0: real, z1: real, k: real, mp: Material, r: Ray,
                     tMin: real, tMax: real): (res: Option<HitRecord>)
    requires r.direction.x != 0.0 && y1 != y0 && z1 != z0
    ensures res.Some? <==>
              tMin <= CrossingTime(k, r) <= tMax &&
              y0 <= CrossingPoint(k, r).y <= y1 && z0 <= CrossingPoint(k, r).z <= z1
    ensures res.Some? ==> res.value.t == CrossingTime(k, r) && tMin <= res.value.t <= tMax
    ensures res.Some? ==> res.value.p == At(r, res.value.t) == CrossingPoint(k, r)
    ensures res.Some? ==> y0 <= res.value.p.y <= y1 && z0 <= res.value.p.z <= z1
    ensures res.Some? ==> res.value.mat == mp
  {
    var t := CrossingTime(k, r);
    if t < tMin || t > tMax then None
    else
      // y and z are the crossing point's coordinates, origin + t * direction
      var p := CrossingPoint(k, r);
      if p.y < y0 || p.y > y1 || p.z < z0 || p.z > z1 then None
      else
        var u := Fraction(p.y, y0, y1);
        var v := Fraction(p.z, z0, z1);
        var fn := SetFaceNormal(r, Vec3(1.0, 0.0, 0.0));
        Some(HitRecord(p, fn.1, mp, t, u, v, fn.0))
  }

  /** The rest of what yz_rect::hit writes on a hit: the point is on the plane x = k, (u, v)
      is the crossing point's relative position in the rectangle, which lies in [0, 1] when the
      rectangle's corners are ordered, and the normal is +x turned against the ray. */
  lemma HitYzRectRecord(y0: real, y1: real, z0: real, z1: real, k: real, mp: Material, r: Ray,
                        tMin: real, tMax: real)
    requires r.direction.x != 0.0 && y1 != y0 && z1 != z0
    ensures var res := HitYzRect(y0, y1, z0, z1, k, mp, r, tMin, tMax);
            res.Some? ==>
              res.value.p.x == k &&
              res.value.u == Fraction(res.value.p.y, y0, y1) &&
              res.value.v == Fraction(res.value.p.z, z0, z1) &&
              (y0 < y1 && z0 < z1 ==> 0.0 <= res.value.u <= 1.0 && 0.0 <= res.value.v <= 1.0) &&
              (res.value.frontFace <==> r.direction.x < 0.0) &&
              res.value.normal == (if r.direction.x < 0.0 then Vec3(1.0, 0.0, 0.0) else Vec3(-1.0, 0.0, 0.0))
  {
    var res := HitYzRect(y0, y1, z0, z1, k, mp, r, tMin, tMax);
    if res.Some? {
      var p := CrossingPoint(k, r);
      CrossingOnPlane(k, r);
      FacingPlusX(r);
      if y0 < y1 && z0 < z1 {
        UnitFraction(p.y, y0, y1);
        UnitFraction(p.z, z0, z1);
      }
    }
  }

  /** yz_rect::bounding_box: always present, padded by `Padding` on both sides of x = k. */
  function YzRectBox(y0: real, y1: real, z0: real, z1: real, k: real): (box: Aabb)
    ensures box.max.x - box.min.x == 2.0 * Padding
  {
    Aabb(Vec3(k - Padding, y0, z0), Vec3(k + Padding, y1, z1))
  }

  // ---------------------------------------------------------------------------------------
  // Properties

  lemma CrossingOnPlane(k: real, r: Ray)
    requires r.direction.x != 0.0
    ensures CrossingPoint(k, r).x == k
  {
    var t := CrossingTime(k, r);
    assert t * r.direction.x == k - r.origin.x;
  }

  lemma FacingPlusX(r: Ray)
    ensures SetFaceNormal(r, Vec3(1.0, 0.0, 0.0)).0 <==> r.direction.x < 0.0
    ensures SetFaceNormal(r, Vec3(1.0, 0.0, 0.0)).1 ==
            (if r.direction.x < 0.0 then Vec3(1.0, 0.0, 0.0) else Vec3(-1.0, 0.0, 0.0))
  {
    var d := r.direction;
    assert d.x * 1.0 == d.x && d.y * 0.0 == 0.0 && d.z * 0.0 == 0.0;
    assert Dot(d, Vec3(1.0, 0.0, 0.0)) == d.x;
    assert Neg(Vec3(1.0, 0.0, 0.0)) == Vec3(-1.0, 0.0, 0.0);
  }

  lemma UnitFraction(y: real, y0: real, y1: real)
    requires y1 != y0 && y0 <= y <= y1
    ensures 0.0 <= Fraction(y, y0, y1) <= 1.0
  {
    assert y0 < y1;
    var d := y1 - y0;
    var q := (y - y0) / d;
    assert q * d == y - y0;
    ProductSign(q, d);
    ProductSign(1.0 - q, d);
    assert (1.0 - q) * d == y1 - y;
  }

  lemma ProductSign(q: real, d: real)
    requires 0.0 < d
    ensures q < 0.0 ==> q * d < 0.0
  {
  }

  /** Every point the rectangle reports as hit lies inside its bounding box, and the box has
      positive thickness in x. */
  lemma YzRectBoxContainsHits(y0: real, y1: real, z0: real, z1: real, k: real, mp: Material,
                              r: Ray, tMin: real, tMax: real)
    requires r.direction.x != 0.0 && y1 != y0 && z1 != z0
    ensures var res := HitYzRect(y0, y1, z0, z1, k, mp, r, tMin, tMax);
            res.Some? ==> ContainsPoint(YzRectBox(y0, y1, z0, z1, k), res.value.p)
    ensures YzRectBox(y0, y1, z0, z1, k).min.x < YzRectBox(y0, y1, z0, z1, k).max.x
  {
  }

  /** A crossing outside [t_min, t_max] is a miss, even when the crossing point is inside the
      rectangle: the range test comes first. */
  lemma HitYzRectBeyondRange(y0: real, y1: real, z0: real, z1: real, k: real, mp: Material,
                             r: Ray, tMin: real, tMax: real)
    requires r.direction.x != 0.0 && y1 != y0 && z1 != z0
    ensures CrossingTime(k, r) > tMax || CrossingTime(k, r) < tMin ==>
              HitYzRect(y0, y1, z0, z1, k, mp, r, tMin, tMax).None?
  {
  }
}
