/**
 * sphere (src/geometry/sphere.h): the ray-sphere intersection with its root selection, the
 * bounding box, and the argument handed to get_sphere_uv. `HitSphere` takes the centre already
 * evaluated at the ray's time, which is what the virtual `center(r.time())` supplies: the fixed
 * centre for a sphere, the interpolated one for a moving sphere.
 */
module Spheres {

  import opened Vectors
  import opened Rays
  import opened Boxes
  import opened Materials
  import opened Numerics
  import opened Options

  /** The coefficients a, half_b and c of sphere::hit. */
  datatype Quadratic = Quadratic(a: real, halfB: real, c: real)

  function SphereQuadratic(center: Vec3, radius: real, r: Ray): Quadratic {
    var oc := Sub(r.origin, center);
    Quadratic(LengthSquared(r.direction), Dot(r.direction, oc), LengthSquared(oc) - radius * radius)
  }

  function Discriminant(q: Quadratic): real {
    q.halfB * q.halfB - q.a * q.c
  }

  /** The value of sqrt(discriminant) the hit test works with. */
  function SqrtD(center: Vec3, radius: real, r: Ray, num: Numerics): real {
    num.sqrt(Discriminant(SphereQuadratic(center, radius, r)))
  }

  /** The root tried first, (-half_b - sqrtd) / a. */
  function NearRoot(center: Vec3, radius: real, r: Ray, num: Numerics): real
    requires LengthSquared(r.direction) != 0.0
  {
    var q := SphereQuadratic(center, radius, r);
    (-q.halfB - SqrtD(center, radius, r, num)) / q.a
  }

  /** The root tried second, (-half_b + sqrtd) / a. */
  function FarRoot(center: Vec3, radius: real, r: Ray, num: Numerics): real
    requires LengthSquared(r.direction) != 0.0
  {
    var q := SphereQuadratic(center, radius, r);
    (-q.halfB + SqrtD(center, radius, r, num)) / q.a
  }

  /** The acceptance test of a root: the negation of `root < t_min || root > t_max`. */
  predicate InRange(t: real, tMin: real, tMax: real) {
    !(t < tMin || t > tMax)
  }

  /** The point sphere::hit passes to get_sphere_uv as written: the hit point itself. */
  function UvArgumentAsWritten(p: Vec3, center: Vec3, radius: real): Vec3 {
    p
  }

  /** The point get_sphere_uv expects ("a given point on the sphere of radius one, centered at
      the origin"): the outward normal (p - center) / radius. */
  function UvArgument(p: Vec3, center: Vec3, radius: real): Vec3
    requires radius != 0.0
  {
    Div(Sub(p, center), radius)
  }

  /** sphere::hit. None is a `false` return with `rec` untouched. As in the source, (u, v) are
      get_sphere_uv of the hit point itself. */
  function HitSphere(center: Vec3, radius: real, mat: Material, r: Ray, tMin: real, tMax: real,
                     num: Numerics): (res: Option<HitRecord>)
    requires LengthSquared(r.direction) != 0.0 && radius != 0.0
    ensures Discriminant(SphereQuadratic(center, radius, r)) < 0.0 ==> res.None?
    ensures res.Some? ==> tMin <= res.value.t <= tMax
    ensures res.Some? ==> res.value.p == At(r, res.value.t) && res.value.mat == mat
    ensures res.Some? ==> Dot(r.direction, res.value.normal) <= 0.0
    ensures res.Some? ==>
              var outward := Div(Sub(res.value.p, center), radius);
              (res.value.normal == outward || res.value.normal == Neg(outward)) &&
              (res.value.frontFace <==> Dot(r.direction, outward) < 0.0)
    ensures res.Some? ==> (res.value.u, res.value.v) == num.sphereUv(res.value.p)
    ensures res.Some? ==>
              res.value.t == NearRoot(center, radius, r, num) ||
              res.value.t == FarRoot(center, radius, r, num)
    ensures Discriminant(SphereQuadratic(center, radius, r)) >= 0.0 &&
            InRange(NearRoot(center, radius, r, num), tMin, tMax) ==>
              res.Some? && res.value.t == NearRoot(center, radius, r, num)
    ensures Discriminant(SphereQuadratic(center, radius, r)) >= 0.0 &&
            !InRange(NearRoot(center, radius, r, num), tMin, tMax) ==>
              (res.Some? <==> InRange(FarRoot(center, radius, r, num), tMin, tMax))
  {
    var q := SphereQuadratic(center, radius, r);
    var discriminant := Discriminant(q);
    if discriminant < 0.0 then None
    else
      var root := NearRoot(center, radius, r, num);
      var root := if !InRange(root, tMin, tMax) then FarRoot(center, radius, r, num) else root;
      if !InRange(root, tMin, tMax) then None
      else
        var p := At(r, root);
        var outwardNormal := Div(Sub(p, center), radius);
        var (frontFace, normal) := SetFaceNormal(r, outwardNormal);
        var (u, v) := num.sphereUv(UvArgumentAsWritten(p, center, radius));
        Some(HitRecord(p, normal, mat, root, u, v, frontFace))
  }

  /** sphere::bounding_box: always present, the centre at time 0 plus and minus the radius on
      every axis. */
  function SphereBox(center0: Vec3, radius: real): Aabb {
    Aabb(Sub(center0, Vec3(radius, radius, radius)), Add(center0, Vec3(radius, radius, radius)))
  }

  // ---------------------------------------------------------------------------------------
  // Properties

  lemma AbsBoundFromSquare(a: real, r: real)
    requires 0.0 <= r && a * a <= r * r
    ensures -r <= a <= r
  {
    SquareGrows(a, r);
  }

  lemma SquareGrows(a: real, r: real)
    requires 0.0 <= r
    ensures r < a || a < -r ==> r * r < a * a
  {
    if r < a {
      assert r * r <= r * a < a * a;
    } else if a < -r {
      assert r * r <= r * (-a) < (-a) * (-a) == a * a;
    }
  }

  /** The box of a sphere with non-negative radius is proper and holds every point of the
      ball. */
  lemma SphereBoxContainsBall(center0: Vec3, radius: real, p: Vec3)
    requires 0.0 <= radius
    ensures Proper(SphereBox(center0, radius))
    ensures LengthSquared(Sub(p, center0)) <= radius * radius ==>
              ContainsPoint(SphereBox(center0, radius), p)
  {
    var d := Sub(p, center0);
    if LengthSquared(d) <= radius * radius {
      assert 0.0 <= d.x * d.x && 0.0 <= d.y * d.y && 0.0 <= d.z * d.z;
      AbsBoundFromSquare(d.x, radius);
      AbsBoundFromSquare(d.y, radius);
      AbsBoundFromSquare(d.z, radius);
    }
  }

  lemma LengthSquaredAlongRay(oc: Vec3, d: Vec3, t: real)
    ensures LengthSquared(Add(oc, Scale(t, d)))
         == LengthSquared(oc) + 2.0 * t * Dot(d, oc) + t * t * LengthSquared(d)
  {
  }

  /** A root t = (-half_b +- s) / a of a quadratic with s * s = half_b^2 - a c satisfies
      a t^2 + 2 half_b t + c = 0. */
  lemma QuadraticRoot(a: real, hb: real, c: real, s: real, t: real)
    requires a != 0.0 && s * s == hb * hb - a * c
    requires t == (-hb - s) / a || t == (-hb + s) / a
    ensures a * t * t + 2.0 * hb * t + c == 0.0
  {
    var at := a * t;
    assert at == -hb - s || at == -hb + s;
    assert at * at + 2.0 * hb * at + a * c == s * s - hb * hb + a * c;
    assert a * (a * t * t + 2.0 * hb * t + c) == at * at + 2.0 * hb * at + a * c;
  }

  /** With an exact square root, each root of the quadratic is a point of the sphere's
      surface. */
  lemma RootOnSurface(center: Vec3, radius: real, r: Ray, num: Numerics, t: real)
    requires LengthSquared(r.direction) != 0.0
    requires SqrtExactAt(num, Discriminant(SphereQuadratic(center, radius, r)))
    requires t == NearRoot(center, radius, r, num) || t == FarRoot(center, radius, r, num)
    ensures LengthSquared(Sub(At(r, t), center)) == radius * radius
  {
    var oc := Sub(r.origin, center);
    assert Sub(At(r, t), center) == Add(oc, Scale(t, r.direction));
    RootAlongRay(oc, r.direction, radius * radius, SqrtD(center, radius, r, num), t);
  }

  /** The same on the ray's offset oc from the centre and its direction d: at a root of
      |d|^2 t^2 + 2 (d . oc) t + |oc|^2 - r^2, the point oc + t d is at distance r. */
  lemma RootAlongRay(oc: Vec3, d: Vec3, rr: real, s: real, t: real)
    requires LengthSquared(d) != 0.0
    requires s * s == Dot(d, oc) * Dot(d, oc) - LengthSquared(d) * (LengthSquared(oc) - rr)
    requires t == (-Dot(d, oc) - s) / LengthSquared(d) || t == (-Dot(d, oc) + s) / LengthSquared(d)
    ensures LengthSquared(Add(oc, Scale(t, d))) == rr
  {
    LengthSquaredAlongRay(oc, d, t);
    SurfaceFromRoot(LengthSquared(Add(oc, Scale(t, d))), LengthSquared(oc), rr,
                    LengthSquared(d), Dot(d, oc), s, t);
  }

  /** The quadratic's roots, restated on plain numbers: when the squared distance along the ray
      is |oc|^2 + 2 half_b t + a t^2 and c = |oc|^2 - r^2, it is r^2 at either root. */
  lemma SurfaceFromRoot(ls: real, oc2: real, rr: real, a: real, hb: real, s: real, t: real)
    requires a != 0.0 && s * s == hb * hb - a * (oc2 - rr)
    requires t == (-hb - s) / a || t == (-hb + s) / a
    requires ls == oc2 + 2.0 * t * hb + t * t * a
    ensures ls == rr
  {
    QuadraticRoot(a, hb, oc2 - rr, s, t);
    Rearrange(ls, oc2, hb, a, rr, t);
  }

  /** A squared distance written out along the ray equals r^2 at a root of the quadratic. */
  lemma Rearrange(ls: real, oc2: real, hb: real, a: real, rr: real, t: real)
    requires ls == oc2 + 2.0 * t * hb + t * t * a
    requires a * t * t + 2.0 * hb * t + (oc2 - rr) == 0.0
    ensures ls == rr
  {
    assert t * t * a == a * t * t;
    assert 2.0 * t * hb == 2.0 * hb * t;
  }

  /** With a non-negative square root the first root tried is the smaller one, so a hit is
      always the nearest root inside [t_min, t_max], and a miss means neither root is. */
  lemma HitSphereIsNearest(center: Vec3, radius: real, mat: Material, r: Ray, tMin: real,
                           tMax: real, num: Numerics)
    requires LengthSquared(r.direction) != 0.0 && radius != 0.0
    requires 0.0 <= SqrtD(center, radius, r, num)
    ensures NearRoot(center, radius, r, num) <= FarRoot(center, radius, r, num)
    ensures var res := HitSphere(center, radius, mat, r, tMin, tMax, num);
            res.Some? ==>
              (InRange(NearRoot(center, radius, r, num), tMin, tMax) ==> res.value.t <= NearRoot(center, radius, r, num)) &&
              (InRange(FarRoot(center, radius, r, num), tMin, tMax) ==> res.value.t <= FarRoot(center, radius, r, num))
    ensures var res := HitSphere(center, radius, mat, r, tMin, tMax, num);
            Discriminant(SphereQuadratic(center, radius, r)) >= 0.0 && res.None? ==>
              !InRange(NearRoot(center, radius, r, num), tMin, tMax) &&
              !InRange(FarRoot(center, radius, r, num), tMin, tMax)
  {
    var q := SphereQuadratic(center, radius, r);
    var s := SqrtD(center, radius, r, num);
    assert 0.0 < q.a;
    DivMonotone(-q.halfB - s, -q.halfB + s, q.a);
  }

  lemma DivMonotone(x: real, y: real, a: real)
    requires x <= y && 0.0 < a
    ensures x / a <= y / a
  {
    assert y / a - x / a == (y - x) / a;
  }

  /** A sphere of radius `rad` at the origin, hit by a ray cast from distance d > rad along the
      outward normal back toward the centre, reports t = d - rad. */
  lemma HitAtDistance(rad: real, d: real, mat: Material, time: real, tMin: real, tMax: real,
                      num: Numerics)
    requires 0.0 < rad < d
    requires SqrtExactAt(num, rad * rad)
    requires tMin <= d - rad <= tMax
    ensures var res := HitSphere(Zero, rad, mat, Ray(Vec3(0.0, 0.0, d), Vec3(0.0, 0.0, -1.0), time), tMin, tMax, num);
            res.Some? && res.value.t == d - rad && res.value.p == Vec3(0.0, 0.0, rad)
  {
    var r := Ray(Vec3(0.0, 0.0, d), Vec3(0.0, 0.0, -1.0), time);
    var q := SphereQuadratic(Zero, rad, r);
    assert q == Quadratic(1.0, -d, d * d - rad * rad);
    assert Discriminant(q) == rad * rad;
    var s := num.sqrt(rad * rad);
    SquareRootUnique(s, rad);
    assert NearRoot(Zero, rad, r, num) == d - rad;
  }

  lemma SquareRootUnique(s: real, x: real)
    requires 0.0 <= s && 0.0 <= x && s * s == x * x
    ensures s == x
  {
    assert (s - x) * (s + x) == s * s - x * x;
    if s + x == 0.0 {
      assert s == 0.0 && x == 0.0;
    }
  }

  /** A ray from the origin along -z toward a sphere of radius rad centred at (0, 0, -d),
      d > rad, hits at t = d - rad in the point (0, 0, rad - d), and the record's (u, v) are
      get_sphere_uv of that point. */
  lemma HitTowardCentre(rad: real, d: real, mat: Material, time: real, tMin: real, tMax: real,
                        num: Numerics)
    requires 0.0 < rad < d
    requires SqrtExactAt(num, rad * rad)
    requires tMin <= d - rad <= tMax
    ensures var res := HitSphere(Vec3(0.0, 0.0, -d), rad, mat, Ray(Zero, Vec3(0.0, 0.0, -1.0), time),
                                 tMin, tMax, num);
            res.Some? && res.value.t == d - rad && res.value.p == Vec3(0.0, 0.0, rad - d) &&
            (res.value.u, res.value.v) == num.sphereUv(Vec3(0.0, 0.0, rad - d))
  {
    var center := Vec3(0.0, 0.0, -d);
    var r := Ray(Zero, Vec3(0.0, 0.0, -1.0), time);
    var q := SphereQuadratic(center, rad, r);
    assert q == Quadratic(1.0, -d, d * d - rad * rad);
    assert Discriminant(q) == rad * rad;
    SquareRootUnique(num.sqrt(rad * rad), rad);
    assert NearRoot(center, rad, r, num) == d - rad;
  }

  /** As written, get_sphere_uv receives the hit point. A ray from the origin along -z hits the
      sphere of radius rad centred at (0, 0, -d) at (0, 0, rad - d), and (u, v) are taken at
      that point, of squared length (d - rad)^2: off the unit sphere that get_sphere_uv's angles
      assume unless d - rad = 1 (for the scene's sphere of radius 0.5 at (0, 0, -1) it is 0.25).
      The outward normal there, the argument get_sphere_uv expects, is (0, 0, 1). */
  lemma UvArgumentAsWrittenOffUnitSphere(rad: real, d: real, mat: Material, time: real,
                                         tMin: real, tMax: real, num: Numerics)
    requires 0.0 < rad < d
    requires SqrtExactAt(num, rad * rad)
    requires tMin <= d - rad <= tMax
    ensures var res := HitSphere(Vec3(0.0, 0.0, -d), rad, mat, Ray(Zero, Vec3(0.0, 0.0, -1.0), time),
                                 tMin, tMax, num);
            res.Some? &&
            (res.value.u, res.value.v) == num.sphereUv(res.value.p) &&
            LengthSquared(res.value.p) == (d - rad) * (d - rad) &&
            (d - rad != 1.0 ==> LengthSquared(res.value.p) != 1.0) &&
            UvArgument(res.value.p, Vec3(0.0, 0.0, -d), rad) == Vec3(0.0, 0.0, 1.0)
  {
    HitTowardCentre(rad, d, mat, time, tMin, tMax, num);
    PolePoint(rad, d);
  }

  /** The near pole (0, 0, rad - d) of the sphere of radius rad centred at (0, 0, -d): its
      squared length and its outward normal. */
  lemma PolePoint(rad: real, d: real)
    requires 0.0 < rad < d
    ensures LengthSquared(Vec3(0.0, 0.0, rad - d)) == (d - rad) * (d - rad)
    ensures d - rad != 1.0 ==> LengthSquared(Vec3(0.0, 0.0, rad - d)) != 1.0
    ensures UvArgument(Vec3(0.0, 0.0, rad - d), Vec3(0.0, 0.0, -d), rad) == Vec3(0.0, 0.0, 1.0)
  {
    var p := Vec3(0.0, 0.0, rad - d);
    assert LengthSquared(p) == (d - rad) * (d - rad);
    if d - rad != 1.0 {
      UnitSquare(d - rad);
    }
    assert Sub(p, Vec3(0.0, 0.0, -d)) == Vec3(0.0, 0.0, rad);
    assert (1.0 / rad) * rad == 1.0;
  }

  /** Only 1 is a positive number whose square is 1. */
  lemma UnitSquare(x: real)
    requires 0.0 < x && x != 1.0
    ensures x * x != 1.0
  {
    if x < 1.0 {
      assert x * x < x;
    } else {
      assert x * x > x;
    }
  }

  /** The corrected argument, the outward normal, is on the unit sphere for every point of the
      sphere's surface. */
  lemma UvArgumentOnUnitSphere(p: Vec3, center: Vec3, radius: real)
    requires radius != 0.0
    requires LengthSquared(Sub(p, center)) == radius * radius
    ensures LengthSquared(UvArgument(p, center, radius)) == 1.0
  {
    var d := Sub(p, center);
    var k := 1.0 / radius;
    assert LengthSquared(Scale(k, d)) == k * k * LengthSquared(d);
    assert k * k * (radius * radius) == (k * radius) * (k * radius);
    assert k * radius == 1.0;
  }
}
