/**
 * The comparators the BVH construction sorts with (src/geometry/functions.h): objects are
 * ordered by the minimum corner of their bounding boxes over the time interval [0, 0] on one
 * axis. A missing box is only reported on the error stream; the comparison still goes ahead
 * with whatever the box variables then hold.
 */
module BoxCompare {

  import opened Vectors
  import opened Boxes
  import opened Materials
  import opened Spheres
  import opened Hittables

  /** box_compare(a, b, axis). `b` is asked only when `a` found a box (the `||` short-circuits),
      and each box starts as the default box and keeps what its query wrote. */
  function BoxCompare(a: Hittable, b: Hittable, axis: int): bool
    requires BoxDefined(a) && BoxDefined(b) && 0 <= axis < 3
  {
    var queryA := BoxQuery(a, 0.0, 0.0, DefaultBox);
    var boxB := if queryA.0 then BoxQuery(b, 0.0, 0.0, DefaultBox).1 else DefaultBox;
    Get(queryA.1.min, axis) < Get(boxB.min, axis)
  }

  /** box_x_compare, box_y_compare and box_z_compare fix the axis at 0, 1 and 2. */
  function BoxXCompare(a: Hittable, b: Hittable): (less: bool)
    requires BoxDefined(a) && BoxDefined(b)
    ensures HasBox(a, 0.0, 0.0) && HasBox(b, 0.0, 0.0) ==>
              (less <==> BoxOf(a, 0.0, 0.0).min.x < BoxOf(b, 0.0, 0.0).min.x)
  {
    BoxCompare(a, b, 0)
  }

  function BoxYCompare(a: Hittable, b: Hittable): (less: bool)
    requires BoxDefined(a) && BoxDefined(b)
    ensures HasBox(a, 0.0, 0.0) && HasBox(b, 0.0, 0.0) ==>
              (less <==> BoxOf(a, 0.0, 0.0).min.y < BoxOf(b, 0.0, 0.0).min.y)
  {
    BoxCompare(a, b, 1)
  }

  function BoxZCompare(a: Hittable, b: Hittable): (less: bool)
    requires BoxDefined(a) && BoxDefined(b)
    ensures HasBox(a, 0.0, 0.0) && HasBox(b, 0.0, 0.0) ==>
              (less <==> BoxOf(a, 0.0, 0.0).min.z < BoxOf(b, 0.0, 0.0).min.z)
  {
    BoxCompare(a, b, 2)
  }

  /** The sort key: the minimum corner of an object's box over [0, 0] on one axis. */
  function Key(h: Hittable, axis: int): real
    requires BoxDefined(h) && 0 <= axis < 3
  {
    Get(BoxOf(h, 0.0, 0.0).min, axis)
  }

  // ---------------------------------------------------------------------------------------
  // Properties

  /** When both objects have boxes, the comparator is exactly `<` on their keys. */
  lemma BoxCompareIsKeyOrder(a: Hittable, b: Hittable, axis: int)
    requires BoxDefined(a) && BoxDefined(b) && 0 <= axis < 3
    requires HasBox(a, 0.0, 0.0) && HasBox(b, 0.0, 0.0)
    ensures BoxCompare(a, b, axis) <==> Key(a, axis) < Key(b, axis)
  {
  }

  /** Every primitive has a box, so among primitives the comparator is always the key order. */
  lemma PrimitivesHaveBoxes(h: Hittable, time0: real, time1: real)
    requires BoxDefined(h) && !h.Group?
    ensures HasBox(h, time0, time1)
  {
  }

  /** Among objects that have boxes the comparator is a strict order, as std::sort requires:
      irreflexive, asymmetric and transitive. */
  lemma BoxCompareStrictOrder(a: Hittable, b: Hittable, c: Hittable, axis: int)
    requires BoxDefined(a) && BoxDefined(b) && BoxDefined(c) && 0 <= axis < 3
    requires HasBox(a, 0.0, 0.0) && HasBox(b, 0.0, 0.0) && HasBox(c, 0.0, 0.0)
    ensures !BoxCompare(a, a, axis)
    ensures BoxCompare(a, b, axis) ==> !BoxCompare(b, a, axis)
    ensures BoxCompare(a, b, axis) && BoxCompare(b, c, axis) ==> BoxCompare(a, c, axis)
  {
    BoxCompareIsKeyOrder(a, a, axis);
    BoxCompareIsKeyOrder(a, b, axis);
    BoxCompareIsKeyOrder(b, a, axis);
    BoxCompareIsKeyOrder(b, c, axis);
    BoxCompareIsKeyOrder(a, c, axis);
  }

  /** Incomparability (neither is less) is equality of keys, so it is transitive too: the
      comparator is a strict weak order on objects with boxes. */
  lemma BoxCompareIncomparableIsEqualKeys(a: Hittable, b: Hittable, axis: int)
    requires BoxDefined(a) && BoxDefined(b) && 0 <= axis < 3
    requires HasBox(a, 0.0, 0.0) && HasBox(b, 0.0, 0.0)
    ensures !BoxCompare(a, b, axis) && !BoxCompare(b, a, axis) <==> Key(a, axis) == Key(b, axis)
  {
    BoxCompareIsKeyOrder(a, b, axis);
    BoxCompareIsKeyOrder(b, a, axis);
  }

  /** Without boxes the order breaks: a list whose first object has a box and whose second is an
      empty list leaves the first object's box behind in box_a when its query fails, box_b is
      never asked and stays at the origin, and the list compares less than itself. */
  lemma BoxCompareNotIrreflexiveWithoutBox(m: Material)
    ensures var a := Group([Sphere(Vec3(-5.0, 0.0, 0.0), 1.0, m), Group([])]);
            BoxDefined(a) && !HasBox(a, 0.0, 0.0) && BoxCompare(a, a, 0)
  {
    var s := Sphere(Vec3(-5.0, 0.0, 0.0), 1.0, m);
    var a := Group([s, Group([])]);
    var sb := SphereBox(Vec3(-5.0, 0.0, 0.0), 1.0);
    assert sb.min.x == -6.0;
    assert [s, Group([])][1..] == [Group([])];
    assert BoxQuery(s, 0.0, 0.0, DefaultBox) == (true, sb);
    assert FoldBoxes([Group([])], 0.0, 0.0, sb, sb, false) == (false, sb);
    assert FoldBoxes([s, Group([])], 0.0, 0.0, DefaultBox, DefaultBox, true) == (false, sb);
    assert BoxQuery(a, 0.0, 0.0, DefaultBox) == (false, sb);
  }
}
