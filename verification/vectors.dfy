/**
 * The vec3 class of src/vec3.h (also used as point3 and color), with doubles as reals.
 * Operations that need a square root (length, unit_vector, refract, random_unit_vector) are
 * not part of this module; the rejection samplers take their random draws as a sequence.
 */
module Vectors {

  import opened Options

  datatype Vec3 = Vec3(x: real, y: real, z: real)

  /** vec3::zero() and the default constructor. */
  const Zero: Vec3 := Vec3(0.0, 0.0, 0.0)

  /** vec3::identity(): all ones. */
  const Identity: Vec3 := Vec3(1.0, 1.0, 1.0)

  /** The near_zero threshold. */
  const NearZeroEpsilon: real := 0.00000001

  /** operator[] */
  function Get(v: Vec3, i: int): real
    requires 0 <= i < 3
  {
    if i == 0 then v.x else if i == 1 then v.y else v.z
  }

  /** The three components read through operator[] rebuild the vector, so two vectors that
      agree at every index are equal. */
  lemma GetDeterminesVector(u: Vec3, v: Vec3)
    ensures Vec3(Get(v, 0), Get(v, 1), Get(v, 2)) == v
    ensures (forall i | 0 <= i < 3 :: Get(u, i) == Get(v, i)) ==> u == v
  {
    if forall i | 0 <= i < 3 :: Get(u, i) == Get(v, i) {
      assert Get(u, 0) == Get(v, 0) && Get(u, 1) == Get(v, 1) && Get(u, 2) == Get(v, 2);
    }
  }

  /** Unary operator- */
  function Neg(v: Vec3): Vec3 {
    Vec3(-v.x, -v.y, -v.z)
  }

  /** operator+(vec3, vec3) */
  function Add(u: Vec3, v: Vec3): Vec3 {
    Vec3(u.x + v.x, u.y + v.y, u.z + v.z)
  }

  /** operator+(vec3, double): Eigen's array-style addition of a scalar to every component. */
  function AddScalar(u: Vec3, s: real): Vec3 {
    Vec3(u.x + s, u.y + s, u.z + s)
  }

  /** operator-(vec3, vec3) */
  function Sub(u: Vec3, v: Vec3): Vec3 {
    Vec3(u.x - v.x, u.y - v.y, u.z - v.z)
  }

  /** operator*(vec3, vec3): the component-wise (Hadamard) product. */
  function Mul(u: Vec3, v: Vec3): Vec3 {
    Vec3(u.x * v.x, u.y * v.y, u.z * v.z)
  }

  /** operator*(double, vec3) */
  function Scale(t: real, v: Vec3): Vec3 {
    Vec3(t * v.x, t * v.y, t * v.z)
  }

  /** operator*(vec3, double), defined in the source as `t * u`. */
  function ScaleRight(u: Vec3, t: real): Vec3 {
    Scale(t, u)
  }

  /** operator/(vec3, double), defined in the source as `(1 / t) * u`. */
  function Div(u: Vec3, t: real): Vec3
    requires t != 0.0
  {
    Scale(1.0 / t, u)
  }

  function Dot(u: Vec3, v: Vec3): real {
    u.x * v.x + u.y * v.y + u.z * v.z
  }

  function Cross(u: Vec3, v: Vec3): Vec3 {
    Vec3(u.y * v.z - u.z * v.y, u.z * v.x - u.x * v.z, u.x * v.y - u.y * v.x)
  }

  function LengthSquared(v: Vec3): real {
    Dot(v, v)
  }

  /** reflect(v, n) = v - 2 dot(v, n) n */
  function Reflect(v: Vec3, n: Vec3): Vec3 {
    Sub(v, Scale(2.0 * Dot(v, n), n))
  }

  function Abs(a: real): real {
    if a < 0.0 then -a else a
  }

  /** near_zero: every component is strictly below 1e-8 in absolute value. */
  predicate NearZero(v: Vec3) {
    Abs(v.x) < NearZeroEpsilon && Abs(v.y) < NearZeroEpsilon && Abs(v.z) < NearZeroEpsilon
  }

  // ---------------------------------------------------------------------------------------
  // Algebraic facts about the operators

  lemma SquareBelow(a: real, s: real)
    requires 0.0 < s && Abs(a) < s
    ensures a * a < s * s
  {
    if a >= 0.0 {
      assert a * a <= a * s;
    } else {
      assert a * a == (-a) * (-a);
      assert (-a) * (-a) <= (-a) * s;
    }
  }

  lemma SquareAtLeast(a: real, s: real)
    requires 0.0 < s && s <= Abs(a)
    ensures s * s <= a * a
  {
    if a >= 0.0 {
      assert s * s <= s * a;
    } else {
      assert a * a == (-a) * (-a);
      assert s * s <= s * (-a);
    }
  }

  lemma NearZeroSmall(v: Vec3)
    requires NearZero(v)
    ensures LengthSquared(v) < 3.0 * NearZeroEpsilon * NearZeroEpsilon
  {
    var s := NearZeroEpsilon;
    SquareBelow(v.x, s);
    SquareBelow(v.y, s);
    SquareBelow(v.z, s);
    assert LengthSquared(v) == v.x * v.x + v.y * v.y + v.z * v.z;
    assert s * s == 0.0000000000000001;
  }

  lemma SmallNearZero(v: Vec3)
    requires LengthSquared(v) < NearZeroEpsilon * NearZeroEpsilon
    ensures NearZero(v)
  {
    var s := NearZeroEpsilon;
    assert 0.0 <= v.x * v.x && 0.0 <= v.y * v.y && 0.0 <= v.z * v.z;
    if s <= Abs(v.x) { SquareAtLeast(v.x, s); }
    if s <= Abs(v.y) { SquareAtLeast(v.y, s); }
    if s <= Abs(v.z) { SquareAtLeast(v.z, s); }
  }

  /** A vector that is near zero has squared length below 3e-16, and a vector whose squared
      length is below 1e-16 is near zero. */
  lemma NearZeroLength(v: Vec3)
    ensures NearZero(v) ==> LengthSquared(v) < 3.0 * NearZeroEpsilon * NearZeroEpsilon
    ensures LengthSquared(v) < NearZeroEpsilon * NearZeroEpsilon ==> NearZero(v)
  {
    if NearZero(v) {
      NearZeroSmall(v);
    }
    if LengthSquared(v) < NearZeroEpsilon * NearZeroEpsilon {
      SmallNearZero(v);
    }
  }

  /** Vector addition is undone by subtraction, in both orders, and commutes. */
  lemma AddSubInverse(u: Vec3, v: Vec3)
    ensures Sub(Add(u, v), v) == u
    ensures Add(Sub(u, v), v) == u
    ensures Add(u, v) == Add(v, u)
  {
  }

  /** Negation is the additive inverse: it undoes itself, cancels v, and subtracting is adding
      the negation. */
  lemma NegIsInverse(u: Vec3, v: Vec3)
    ensures Neg(Neg(v)) == v
    ensures Add(v, Neg(v)) == Zero
    ensures Sub(u, v) == Add(u, Neg(v))
  {
  }

  /** Adding a scalar is adding the vector whose components all equal that scalar. */
  lemma AddScalarIsAddSplat(u: Vec3, s: real)
    ensures AddScalar(u, s) == Add(u, Vec3(s, s, s))
    ensures Sub(AddScalar(u, s), u) == Vec3(s, s, s)
  {
  }

  /** The Hadamard product is not the dot product: its components sum to the dot product. */
  lemma HadamardSumsToDot(u: Vec3, v: Vec3)
    ensures Dot(u, v) == Mul(u, v).x + Mul(u, v).y + Mul(u, v).z
    ensures Mul(u, v) == Mul(v, u)
    ensures Mul(u, Identity) == u
  {
  }

  /** `u * t` equals `t * u`, and dividing by t is undone by scaling with t. */
  lemma ScaleAndDivide(u: Vec3, t: real)
    ensures ScaleRight(u, t) == Scale(t, u)
    ensures t != 0.0 ==> Scale(t, Div(u, t)) == u
    ensures t != 0.0 ==> Div(Scale(t, u), t) == u
  {
  }

  lemma DotSymmetric(u: Vec3, v: Vec3)
    ensures Dot(u, v) == Dot(v, u)
  {
  }

  /** The cross product is orthogonal to both of its arguments. */
  lemma CrossOrthogonal(u: Vec3, v: Vec3)
    ensures Dot(Cross(u, v), u) == 0.0
    ensures Dot(Cross(u, v), v) == 0.0
  {
  }

  lemma DotSubScale(a: Vec3, s: real, n: Vec3)
    ensures Dot(Sub(a, Scale(s, n)), n) == Dot(a, n) - s * Dot(n, n)
  {
    assert Dot(Sub(a, Scale(s, n)), n)
        == (a.x - s * n.x) * n.x + (a.y - s * n.y) * n.y + (a.z - s * n.z) * n.z;
  }

  /** For a unit normal, reflection negates the normal component and is an involution. */
  lemma ReflectAboutUnitNormal(v: Vec3, n: Vec3)
    requires Dot(n, n) == 1.0
    ensures Dot(Reflect(v, n), n) == -Dot(v, n)
    ensures Reflect(Reflect(v, n), n) == v
  {
    var d := Dot(v, n);
    DotSubScale(v, 2.0 * d, n);
    assert Dot(Reflect(v, n), n) == -d;
    var w := Reflect(v, n);
    assert Reflect(w, n) == Sub(w, Scale(-2.0 * d, n));
  }

  // ---------------------------------------------------------------------------------------
  // Rejection samplers. Each `vec3::random(-1, 1)` draw of the source is an element of
  // `draws`; the source loops until a draw is accepted, the model until the draws run out.

  /** The first draw strictly inside the unit ball. */
  function FirstInUnitBall(draws: seq<Vec3>): (r: Option<Vec3>)
    ensures r.Some? ==> LengthSquared(r.value) < 1.0 && r.value in draws
    ensures r.None? <==> forall k :: 0 <= k < |draws| ==> LengthSquared(draws[k]) >= 1.0
  {
    if draws == [] then None
    else if LengthSquared(draws[0]) >= 1.0 then FirstInUnitBall(draws[1..])
    else Some(draws[0])
  }

  /** random_in_unit_sphere: returns the first draw whose squared length is below one. */
  method RandomInUnitSphere(draws: seq<Vec3>) returns (p: Option<Vec3>)
    ensures p == FirstInUnitBall(draws)
  {
    var k := 0;
    while k < |draws|
      invariant 0 <= k <= |draws|
      invariant FirstInUnitBall(draws) == FirstInUnitBall(draws[k..])
    {
      var candidate := draws[k];
      if LengthSquared(candidate) >= 1.0 {
        assert draws[k..][1..] == draws[k + 1..];
        k := k + 1;
        continue;
      }
      return Some(candidate);
    }
    return None;
  }

  /** The first planar draw strictly inside the unit disk, lifted to z = 0. */
  function FirstInUnitDisk(draws: seq<(real, real)>): (r: Option<Vec3>)
    ensures r.Some? ==> LengthSquared(r.value) < 1.0 && r.value.z == 0.0
    ensures r.Some? ==> exists k :: 0 <= k < |draws| && r.value == Vec3(draws[k].0, draws[k].1, 0.0)
    ensures r.None? <==> forall k :: 0 <= k < |draws| ==> LengthSquared(Vec3(draws[k].0, draws[k].1, 0.0)) >= 1.0
  {
    if draws == [] then None
    else if LengthSquared(Vec3(draws[0].0, draws[0].1, 0.0)) >= 1.0 then
      var r := FirstInUnitDisk(draws[1..]);
      assert r.Some? ==> exists k :: 0 <= k < |draws| && r.value == Vec3(draws[k].0, draws[k].1, 0.0) by {
        if r.Some? {
          var k :| 0 <= k < |draws[1..]| && r.value == Vec3(draws[1..][k].0, draws[1..][k].1, 0.0);
          assert draws[1..][k] == draws[k + 1];
        }
      }
      r
    else Some(Vec3(draws[0].0, draws[0].1, 0.0))
  }

  /** random_in_unit_disk: the draws are (x, y) pairs; z is always zero. */
  method RandomInUnitDisk(draws: seq<(real, real)>) returns (p: Option<Vec3>)
    ensures p == FirstInUnitDisk(draws)
  {
    var k := 0;
    while k < |draws|
      invariant 0 <= k <= |draws|
      invariant FirstInUnitDisk(draws) == FirstInUnitDisk(draws[k..])
    {
      var candidate := Vec3(draws[k].0, draws[k].1, 0.0);
      if LengthSquared(candidate) >= 1.0 {
        assert draws[k..][1..] == draws[k + 1..];
        k := k + 1;
        continue;
      }
      return Some(candidate);
    }
    return None;
  }

  /** random_in_hemisphere: the unit-sphere sample, flipped when it does not point along the
      normal. */
  function RandomInHemisphere(inUnitSphere: Vec3, normal: Vec3): (r: Vec3)
    ensures Dot(r, normal) >= 0.0
    ensures Dot(inUnitSphere, normal) != 0.0 ==> Dot(r, normal) > 0.0
    ensures r == inUnitSphere || r == Neg(inUnitSphere)
    ensures LengthSquared(r) == LengthSquared(inUnitSphere)
  {
    if Dot(inUnitSphere, normal) > 0.0 then inUnitSphere else Neg(inUnitSphere)
  }

  // ---------------------------------------------------------------------------------------
  // The compound assignments of vec3 change the object in place.

  class MutableVec3 {
    var e: Vec3

    constructor (v: Vec3)
      ensures e == v
    {
      e := v;
    }

    /** operator+= */
    method AddAssign(v: Vec3)
      modifies this
      ensures e == Add(old(e), v)
    {
      e := Add(e, v);
    }

    /** operator*= */
    method ScaleAssign(t: real)
      modifies this
      ensures e == Scale(t, old(e))
    {
      e := Scale(t, e);
    }

    /** operator/=, which the source writes as `*this *= (1 / t)`. */
    method DivAssign(t: real)
      requires t != 0.0
      modifies this
      ensures e == Div(old(e), t)
      ensures Scale(t, e) == old(e)
    {
      ScaleAssign(1.0 / t);
    }
  }
}
