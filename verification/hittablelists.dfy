/**
 * hittable_list (src/geometry/hittable_list.h, and the older hittable_list.h without
 * bounding_box): a vector of objects changed in place by `add` and `clear`, whose `hit` scans
 * every object narrowing the bound, and whose `bounding_box` folds `surrounding_box` over the
 * objects' boxes. Both loops are proved against the functions ScanHits and BoxQuery of module
 * Hittables, where the properties of the scan and of the fold are proved.
 */
module HittableLists {

  import opened Vectors
  import opened Rays
  import opened Boxes
  import opened Materials
  import opened Numerics
  import opened Options
  import opened Hittables

  class HittableList {
    var objects: seq<Hittable>

    /** hittable_list() */
    constructor ()
      ensures objects == []
    {
      objects := [];
    }

    /** hittable_list(object): an empty list with `obj` added. */
    constructor Singleton(obj: Hittable)
      ensures objects == [obj]
    {
      objects := [];
      new;
      Add(obj);
    }

    /** add: the object goes at the end, the earlier objects stay in order. */
    method Add(obj: Hittable)
      modifies this
      ensures objects == old(objects) + [obj]
    {
      objects := objects + [obj];
    }

    /** clear */
    method Clear()
      modifies this
      ensures objects == []
    {
      objects := [];
    }

    /** hittable_list::hit. `rec` is the caller's record; `recOut` is its value afterwards,
        which is the closest hit when there is one and `rec` itself when there is none. */
    method Hit(r: Ray, tMin: real, tMax: real, rec: HitRecord, num: Numerics)
      returns (hitAnything: bool, recOut: HitRecord)
      requires AllDefined(objects, r)
      ensures var res := ScanHits(objects, r, tMin, tMax, None, num);
              (hitAnything <==> res.Some?) && (hitAnything ==> recOut == res.value)
      ensures hitAnything ==> tMin <= recOut.t <= tMax
      ensures !hitAnything ==> recOut == rec
    {
      hitAnything := false;
      recOut := rec;
      var closest := tMax;
      var i := 0;
      while i < |objects|
        invariant 0 <= i <= |objects|
        invariant !hitAnything ==> recOut == rec
        invariant ScanHits(objects[i..], r, tMin, closest, if hitAnything then Some(recOut) else None, num)
                  == ScanHits(objects, r, tMin, tMax, None, num)
      {
        assert objects[i..][1..] == objects[i + 1..];
        var tempRec := Hittables.Hit(objects[i], r, tMin, closest, num);
        if tempRec.Some? {
          hitAnything := true;
          closest := tempRec.value.t;
          recOut := tempRec.value;
        }
        i := i + 1;
      }
      assert objects[i..] == [];
    }

    /** hittable_list::bounding_box. `outputBox` is the caller's box; `box` is its value
        afterwards, including the partial fold left behind when some object has no box. */
    method BoundingBox(time0: real, time1: real, outputBox: Aabb) returns (ok: bool, box: Aabb)
      requires AllBoxDefined(objects)
      ensures (ok, box) == BoxQuery(Group(objects), time0, time1, outputBox)
      ensures ok <==> |objects| > 0 && forall i :: 0 <= i < |objects| ==> HasBox(objects[i], time0, time1)
      ensures ok ==> forall i :: 0 <= i < |objects| ==> Contains(box, BoxOf(objects[i], time0, time1))
    {
      GroupBox(objects, time0, time1, outputBox);
      if |objects| == 0 {
        return false, outputBox;
      }
      box := outputBox;
      var tempBox := DefaultBox;
      var firstBox := true;
      var i := 0;
      while i < |objects|
        invariant 0 <= i <= |objects|
        invariant FoldBoxes(objects[i..], time0, time1, box, tempBox, firstBox)
                  == FoldBoxes(objects, time0, time1, outputBox, DefaultBox, true)
      {
        assert objects[i..][1..] == objects[i + 1..];
        var found := BoxQuery(objects[i], time0, time1, tempBox);
        tempBox := found.1;
        if !found.0 {
          return false, box;
        }
        box := if firstBox then tempBox else SurroundingBox(box, tempBox);
        firstBox := false;
        i := i + 1;
      }
      assert objects[i..] == [];
      ok := true;
    }
  }
}
