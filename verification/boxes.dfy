/**
 * Axis-aligned bounding boxes. The aabb header is not part of this model; only the obvious
 * contract of `surrounding_box` (component-wise minimum and maximum of the corners) is used.
 */
module Boxes {

  import opened Vectors

  datatype Aabb = Aabb(min: Vec3, max: Vec3)

  /** A default-constructed aabb: both corners are default (zero) vectors. */
  const DefaultBox: Aabb := Aabb(Zero, Zero)

  function Min(a: real, b: real): real {
    if a < b then a else b
  }

  function Max(a: real, b: real): real {
    if a > b then a else b
  }

  /** Every component of `min` is at most the matching component of `max`. */
  predicate Proper(b: Aabb) {
    b.min.x <= b.max.x && b.min.y <= b.max.y && b.min.z <= b.max.z
  }

  predicate ContainsPoint(b: Aabb, p: Vec3) {
    b.min.x <= p.x <= b.max.x && b.min.y <= p.y <= b.max.y && b.min.z <= p.z <= b.max.z
  }

  /** Every point of `inner` is a point of `outer`. */
  predicate Contains(outer: Aabb, inner: Aabb) {
    outer.min.x <= inner.min.x && outer.min.y <= inner.min.y && outer.min.z <= inner.min.z &&
    inner.max.x <= outer.max.x && inner.max.y <= outer.max.y && inner.max.z <= outer.max.z
  }

  /** surrounding_box: the smallest box containing both arguments. */
  function SurroundingBox(a: Aabb, b: Aabb): (r: Aabb)
    ensures Contains(r, a) && Contains(r, b)
    ensures forall c :: Contains(c, a) && Contains(c, b) ==> Contains(c, r)
  {
    Aabb(Vec3(Min(a.min.x, b.min.x), Min(a.min.y, b.min.y), Min(a.min.z, b.min.z)),
         Vec3(Max(a.max.x, b.max.x), Max(a.max.y, b.max.y), Max(a.max.z, b.max.z)))
  }

  lemma ContainsTransitive(a: Aabb, b: Aabb, c: Aabb)
    requires Contains(a, b) && Contains(b, c)
    ensures Contains(a, c)
  {
  }

  lemma ContainsPointTransitive(a: Aabb, b: Aabb, p: Vec3)
    requires Contains(a, b) && ContainsPoint(b, p)
    ensures ContainsPoint(a, p)
  {
  }
}
