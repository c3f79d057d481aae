/**
 * The hittable objects of the scene and what every one of them answers: `hit` (the nearest
 * intersection with a ray inside [t_min, t_max]) and `bounding_box`. The closed set of
 * variants replaces the virtual `hittable` interface; `Group` is a hittable_list nested in a
 * scene, whose `hit` is the closest-hit scan of src/geometry/hittable_list.h and whose
 * `bounding_box` is the fold of `surrounding_box` over its objects. The class that owns and
 * mutates such a list is in module HittableLists; the functions here are its specification.
 */
module Hittables {

  import opened Vectors
  import opened Rays
  import opened Boxes
  import opened Materials
  import opened Numerics
  import opened Options
  import opened Spheres
  import opened MovingSpheres
  import opened YzRects

  datatype Hittable =
    | Sphere(center0: Vec3, radius: real, mat: Material)
    | MovingSphere(center0: Vec3, center1: Vec3, time0: real, time1: real, radius: real,
                   mat: Material)
    | YzRect(y0: real, y1: real, z0: real, z1: real, k: real, mp: Material)
    | Group(objects: seq<Hittable>)

  /** The divisions `hit` performs are by non-zero numbers: the ray's squared length and the
      radius for spheres, the two member times for a moving sphere, the ray's x direction and
      the rectangle's extents for a yz_rect. */
  predicate Defined(h: Hittable, r: Ray)
    decreases h
  {
    match h
    case Sphere(_, radius, _) => LengthSquared(r.direction) != 0.0 && radius != 0.0
    case MovingSphere(_, _, time0, time1, radius, _) =>
      time1 != time0 && LengthSquared(r.direction) != 0.0 && radius != 0.0
    case YzRect(y0, y1, z0, z1, _, _) => r.direction.x != 0.0 && y1 != y0 && z1 != z0
    case Group(objects) => forall i :: 0 <= i < |objects| ==> Defined(objects[i], r)
  }

  predicate AllDefined(objects: seq<Hittable>, r: Ray) {
    forall i :: 0 <= i < |objects| ==> Defined(objects[i], r)
  }

  /** The division `bounding_box` performs is the moving sphere's interpolation. */
  predicate BoxDefined(h: Hittable)
    decreases h
  {
    match h
    case MovingSphere(_, _, time0, time1, _, _) => time1 != time0
    case Group(objects) => forall i :: 0 <= i < |objects| ==> BoxDefined(objects[i])
    case _ => true
  }

  predicate AllBoxDefined(objects: seq<Hittable>) {
    forall i :: 0 <= i < |objects| ==> BoxDefined(objects[i])
  }

  /** The virtual `center(time)`: fixed for a sphere, interpolated for a moving sphere. */
  function Center(h: Hittable, time: real): Vec3
    requires h.Sphere? || (h.MovingSphere? && h.time1 != h.time0)
  {
    if h.Sphere? then h.center0 else MovingCenter(h.center0, h.center1, h.time0, h.time1, time)
  }

  // ---------------------------------------------------------------------------------------
  // hit

  /** hittable::hit. None is a `false` return with `rec` untouched. */
  function Hit(h: Hittable, r: Ray, tMin: real, tMax: real, num: Numerics): (res: Option<HitRecord>)
    requires Defined(h, r)
    ensures res.Some? ==> tMin <= res.value.t <= tMax
    decreases h, 1
  {
    match h
    case Sphere(_, radius, mat) => HitSphere(Center(h, r.time), radius, mat, r, tMin, tMax, num)
    case MovingSphere(_, _, _, _, radius, mat) =>
      HitSphere(Center(h, r.time), radius, mat, r, tMin, tMax, num)
    case YzRect(y0, y1, z0, z1, k, mp) => HitYzRect(y0, y1, z0, z1, k, mp, r, tMin, tMax)
    case Group(objects) => ScanHits(objects, r, tMin, tMax, None, num)
  }

  /** The loop of hittable_list::hit from some object on: `closest` is closet_so_far and `best`
      the record copied so far (None while hit_anything is false). Every object is asked with
      the current bound, and a hit narrows the bound to its t. */
  function ScanHits(objects: seq<Hittable>, r: Ray, tMin: real, closest: real,
                    best: Option<HitRecord>, num: Numerics): (res: Option<HitRecord>)
    requires AllDefined(objects, r)
    ensures best.Some? ==> res.Some?
    ensures res.Some? ==> res == best || tMin <= res.value.t <= closest
    decreases objects, 0
  {
    if |objects| == 0 then best
    else
      match Hit(objects[0], r, tMin, closest, num)
      case Some(rec) => ScanHits(objects[1..], r, tMin, rec.t, Some(rec), num)
      case None => ScanHits(objects[1..], r, tMin, closest, best, num)
  }

  /** The bound each object of the scan is asked with: t_max for the first, then the t of the
      latest hit. The bounds never increase. */
  function Bounds(objects: seq<Hittable>, r: Ray, tMin: real, closest: real, num: Numerics)
    : (bs: seq<real>)
    requires AllDefined(objects, r)
    ensures |bs| == |objects|
    ensures forall i :: 0 <= i < |bs| ==> bs[i] <= closest
    ensures forall i, j :: 0 <= i <= j < |bs| ==> bs[j] <= bs[i]
    decreases objects
  {
    if |objects| == 0 then []
    else
      var next := match Hit(objects[0], r, tMin, closest, num)
                  case Some(rec) => rec.t
                  case None => closest;
      var rest := Bounds(objects[1..], r, tMin, next, num);
      assert forall j :: 0 <= j < |rest| ==> rest[j] <= closest;
      [closest] + rest
  }

  // ---------------------------------------------------------------------------------------
  // bounding_box

  /** hittable::bounding_box(time0, time1, output_box): the flag it returns and the value of
      output_box afterwards, given its value before. */
  function BoxQuery(h: Hittable, time0: real, time1: real, box: Aabb): (res: (bool, Aabb))
    requires BoxDefined(h)
    ensures !h.Group? ==> res.0
    ensures h.Group? && |h.objects| == 0 ==> res == (false, box)
    decreases h, 1
  {
    match h
    case Sphere(center0, radius, _) => (true, SphereBox(center0, radius))
    case MovingSphere(center0, center1, t0, t1, radius, _) =>
      (true, MovingSphereBox(center0, center1, t0, t1, radius, time0, time1))
    case YzRect(y0, y1, z0, z1, k, _) => (true, YzRectBox(y0, y1, z0, z1, k))
    case Group(objects) =>
      if |objects| == 0 then (false, box)
      else FoldBoxes(objects, time0, time1, box, DefaultBox, true)
  }

  /** The loop of hittable_list::bounding_box from some object on: `out` is output_box, `temp`
      is temp_box (handed to each object and overwritten by it), `first` is fisrt_box. The
      first object without a box ends the loop with `false` and output_box as far as it got. */
  function FoldBoxes(objects: seq<Hittable>, time0: real, time1: real, out: Aabb, temp: Aabb,
                     first: bool): (res: (bool, Aabb))
    requires AllBoxDefined(objects)
    ensures |objects| == 0 ==> res == (true, out)
    decreases objects, 0
  {
    if |objects| == 0 then (true, out)
    else
      var (ok, b) := BoxQuery(objects[0], time0, time1, temp);
      if !ok then (false, out)
      else FoldBoxes(objects[1..], time0, time1, if first then b else SurroundingBox(out, b), b, false)
  }

  /** Whether an object has a bounding box over [time0, time1]. */
  predicate HasBox(h: Hittable, time0: real, time1: real)
    requires BoxDefined(h)
  {
    BoxQuery(h, time0, time1, DefaultBox).0
  }

  /** The box an object reports over [time0, time1] (meaningful when HasBox). */
  function BoxOf(h: Hittable, time0: real, time1: real): Aabb
    requires BoxDefined(h)
  {
    BoxQuery(h, time0, time1, DefaultBox).1
  }

  // ---------------------------------------------------------------------------------------
  // Properties of hit

  /** Some object, asked with the bound the scan had reached, reports a hit. */
  ghost predicate SomeObjectHit(objects: seq<Hittable>, r: Ray, tMin: real, bs: seq<real>,
                                num: Numerics)
    requires AllDefined(objects, r) && |bs| == |objects|
  {
    exists i :: 0 <= i < |objects| && Hit(objects[i], r, tMin, bs[i], num).Some?
  }

  /** The scan reports a hit exactly when it started with one or some object, asked with the
      bound the scan had reached, reported one. */
  lemma {:induction false} ScanHitsReportsAnyHit(objects: seq<Hittable>, r: Ray, tMin: real,
                                                 closest: real, best: Option<HitRecord>,
                                                 num: Numerics)
    requires AllDefined(objects, r)
    ensures ScanHits(objects, r, tMin, closest, best, num).Some? <==>
              best.Some? || SomeObjectHit(objects, r, tMin, Bounds(objects, r, tMin, closest, num), num)
    decreases objects
  {
    if |objects| > 0 {
      var bs := Bounds(objects, r, tMin, closest, num);
      var h0 := Hit(objects[0], r, tMin, closest, num);
      var next := if h0.Some? then h0.value.t else closest;
      var best' := if h0.Some? then h0 else best;
      var rest := objects[1..];
      ScanHitsReportsAnyHit(rest, r, tMin, next, best', num);
      var bs' := Bounds(rest, r, tMin, next, num);
      assert bs == [closest] + bs';
      SomeObjectHitSplit(objects, r, tMin, bs, num);
    }
  }

  /** Some object of a non-empty list reports a hit exactly when the first one does at the first
      bound or some later one does at its own bound. */
  lemma SomeObjectHitSplit(objects: seq<Hittable>, r: Ray, tMin: real, bs: seq<real>,
                           num: Numerics)
    requires AllDefined(objects, r) && |objects| > 0 && |bs| == |objects|
    ensures AllDefined(objects[1..], r)
    ensures SomeObjectHit(objects, r, tMin, bs, num) <==>
              Hit(objects[0], r, tMin, bs[0], num).Some? ||
              SomeObjectHit(objects[1..], r, tMin, bs[1..], num)
  {
    var rest := objects[1..];
    var bs' := bs[1..];
    if SomeObjectHit(objects, r, tMin, bs, num) && Hit(objects[0], r, tMin, bs[0], num).None? {
      var i :| 0 <= i < |objects| && Hit(objects[i], r, tMin, bs[i], num).Some?;
      assert rest[i - 1] == objects[i] && bs'[i - 1] == bs[i];
    }
    if SomeObjectHit(rest, r, tMin, bs', num) {
      var i :| 0 <= i < |rest| && Hit(rest[i], r, tMin, bs'[i], num).Some?;
      assert rest[i] == objects[i + 1] && bs'[i] == bs[i + 1];
    }
  }

  /** When no object reports a hit, the scan ends with the record it started with: a `false`
      return leaves `rec` untouched. */
  lemma {:induction false} ScanHitsMissKeepsRecord(objects: seq<Hittable>, r: Ray, tMin: real,
                                                   closest: real, best: Option<HitRecord>,
                                                   num: Numerics)
    requires AllDefined(objects, r)
    requires !SomeObjectHit(objects, r, tMin, Bounds(objects, r, tMin, closest, num), num)
    ensures ScanHits(objects, r, tMin, closest, best, num) == best
    decreases objects
  {
    if |objects| > 0 {
      var bs := Bounds(objects, r, tMin, closest, num);
      assert Hit(objects[0], r, tMin, bs[0], num).None?;
      var rest := objects[1..];
      var bs' := Bounds(rest, r, tMin, closest, num);
      assert bs == [closest] + bs';
      forall i | 0 <= i < |rest| ensures Hit(rest[i], r, tMin, bs'[i], num).None? {
        assert rest[i] == objects[i + 1] && bs'[i] == bs[i + 1];
      }
      ScanHitsMissKeepsRecord(rest, r, tMin, closest, best, num);
    }
  }

  /** Every object reports a hit exactly when its own fixed distance `ts[i]` lies in
      [t_min, bound], and then reports that distance. */
  ghost predicate ReportsAt(objects: seq<Hittable>, r: Ray, tMin: real, num: Numerics, ts: seq<real>)
    requires AllDefined(objects, r)
  {
    |ts| == |objects| &&
    forall i, bound :: 0 <= i < |objects| ==>
      (Hit(objects[i], r, tMin, bound, num).Some? <==> tMin <= ts[i] <= bound) &&
      (Hit(objects[i], r, tMin, bound, num).Some? ==> Hit(objects[i], r, tMin, bound, num).value.t == ts[i])
  }

  /** ReportsAt for a non-empty list: the first object hits at `closest` exactly when its
      distance lies in [t_min, closest], at that distance, and the rest of the list reports at
      the rest of the distances. */
  lemma ReportsAtSplit(objects: seq<Hittable>, r: Ray, tMin: real, closest: real, num: Numerics,
                       ts: seq<real>)
    requires AllDefined(objects, r) && ReportsAt(objects, r, tMin, num, ts) && |objects| > 0
    ensures AllDefined(objects[1..], r) && ReportsAt(objects[1..], r, tMin, num, ts[1..])
    ensures Hit(objects[0], r, tMin, closest, num).Some? <==> tMin <= ts[0] <= closest
    ensures Hit(objects[0], r, tMin, closest, num).Some? ==>
              Hit(objects[0], r, tMin, closest, num).value.t == ts[0]
  {
    var rest := objects[1..];
    var ts' := ts[1..];
    forall i, bound | 0 <= i < |rest|
      ensures (Hit(rest[i], r, tMin, bound, num).Some? <==> tMin <= ts'[i] <= bound) &&
              (Hit(rest[i], r, tMin, bound, num).Some? ==> Hit(rest[i], r, tMin, bound, num).value.t == ts'[i])
    {
      assert rest[i] == objects[i + 1] && ts'[i] == ts[i + 1];
    }
  }

  /** The scan from a state whose record, if any, lies at `closest`: it hits exactly when the
      record exists or some distance lies in [t_min, closest], and it ends on the smallest such
      distance. */
  lemma {:induction false} ScanHitsFindsNearest(objects: seq<Hittable>, r: Ray, tMin: real,
                                                closest: real, best: Option<HitRecord>,
                                                num: Numerics, ts: seq<real>)
    requires AllDefined(objects, r) && ReportsAt(objects, r, tMin, num, ts)
    requires best.Some? ==> best.value.t == closest
    ensures var res := ScanHits(objects, r, tMin, closest, best, num);
            (res.Some? <==> best.Some? || exists i :: 0 <= i < |ts| && tMin <= ts[i] <= closest) &&
            (res.Some? ==> res.value.t <= closest) &&
            (forall i :: 0 <= i < |ts| && tMin <= ts[i] <= closest ==> res.Some? && res.value.t <= ts[i]) &&
            (res.Some? && res != best ==>
               exists i :: 0 <= i < |ts| && tMin <= ts[i] <= closest && res.value.t == ts[i])
    decreases objects
  {
    if |objects| > 0 {
      var rest := objects[1..];
      var ts' := ts[1..];
      var h0 := Hit(objects[0], r, tMin, closest, num);
      var next := if h0.Some? then h0.value.t else closest;
      var best' := if h0.Some? then h0 else best;
      ReportsAtSplit(objects, r, tMin, closest, num, ts);
      ScanHitsFindsNearest(rest, r, tMin, next, best', num, ts');
      var res := ScanHits(objects, r, tMin, closest, best, num);
      assert res == ScanHits(rest, r, tMin, next, best', num);
      NearestStep(ts, ts', tMin, closest, h0.Some?, next, best.Some?, res.Some?,
                  if res.Some? then res.value.t else closest, res != best, res != best');
    }
  }

  /** One step of the scan, on the distances alone: the head object hits (`headHits`) or not,
      the rest of the scan then runs from `next`, and what it reports about the tail `ts'` gives
      the same facts about the whole of `ts` from `closest`. `resT` is the final record's t,
      `changed` says it is not the incoming record and `changedTail` that it is not the record
      the tail scan started from. */
  lemma NearestStep(ts: seq<real>, ts': seq<real>, tMin: real, closest: real, headHits: bool,
                    next: real, bestSome: bool, resSome: bool, resT: real, changed: bool,
                    changedTail: bool)
    requires |ts| > 0 && ts' == ts[1..]
    requires headHits <==> tMin <= ts[0] <= closest
    requires next == if headHits then ts[0] else closest
    requires !headHits ==> (changed <==> changedTail)
    requires headHits && resSome && !changedTail ==> resT == ts[0]
    requires resSome <==> (headHits || bestSome) || exists i :: 0 <= i < |ts'| && tMin <= ts'[i] <= next
    requires resSome ==> resT <= next
    requires forall i :: 0 <= i < |ts'| && tMin <= ts'[i] <= next ==> resSome && resT <= ts'[i]
    requires resSome && changedTail ==>
               exists i :: 0 <= i < |ts'| && tMin <= ts'[i] <= next && resT == ts'[i]
    ensures resSome <==> bestSome || exists i :: 0 <= i < |ts| && tMin <= ts[i] <= closest
    ensures resSome ==> resT <= closest
    ensures forall i :: 0 <= i < |ts| && tMin <= ts[i] <= closest ==> resSome && resT <= ts[i]
    ensures resSome && changed ==>
              exists i :: 0 <= i < |ts| && tMin <= ts[i] <= closest && resT == ts[i]
  {
    assert forall i :: 0 <= i < |ts'| ==> ts'[i] == ts[i + 1];
    if resSome && changed {
      if !changedTail {
        assert resT == ts[0];
      } else {
        var i :| 0 <= i < |ts'| && tMin <= ts'[i] <= next && resT == ts'[i];
        assert tMin <= ts[i + 1] <= closest && resT == ts[i + 1];
      }
    }
    if exists i :: 0 <= i < |ts| && tMin <= ts[i] <= closest {
      var i :| 0 <= i < |ts| && tMin <= ts[i] <= closest;
      if i > 0 && ts[i] <= next {
        assert tMin <= ts'[i - 1] <= next;
      }
    }
    if resSome && !(bestSome || headHits) {
      var i :| 0 <= i < |ts'| && tMin <= ts'[i] <= next;
      assert tMin <= ts[i + 1] <= closest;
    }
  }

  /** hittable_list::hit under ReportsAt: a hit exactly when some distance lies in
      [t_min, t_max], and then the record is at the smallest such distance. */
  lemma GroupHitIsNearest(objects: seq<Hittable>, r: Ray, tMin: real, tMax: real, num: Numerics,
                          ts: seq<real>)
    requires AllDefined(objects, r) && ReportsAt(objects, r, tMin, num, ts)
    ensures Defined(Group(objects), r)
    ensures var res := Hit(Group(objects), r, tMin, tMax, num);
            (res.Some? <==> exists i :: 0 <= i < |ts| && tMin <= ts[i] <= tMax) &&
            (res.Some? ==>
               (exists i :: 0 <= i < |ts| && tMin <= ts[i] <= tMax && res.value.t == ts[i]) &&
               (forall i :: 0 <= i < |ts| && tMin <= ts[i] <= tMax ==> res.value.t <= ts[i]))
  {
    ScanHitsFindsNearest(objects, r, tMin, tMax, None, num, ts);
  }

  /** sphere::center ignores the time. */
  lemma SphereCenterIgnoresTime(center0: Vec3, radius: real, mat: Material, time: real)
    ensures Center(Sphere(center0, radius, mat), time) == center0
  {
  }

  /** A moving sphere whose two centres coincide is hit exactly like the fixed sphere. */
  lemma StillMovingSphereIsSphere(c: Vec3, time0: real, time1: real, radius: real, mat: Material,
                                  r: Ray, tMin: real, tMax: real, num: Numerics)
    requires time1 != time0 && LengthSquared(r.direction) != 0.0 && radius != 0.0
    ensures Hit(MovingSphere(c, c, time0, time1, radius, mat), r, tMin, tMax, num) ==
            Hit(Sphere(c, radius, mat), r, tMin, tMax, num)
  {
    var s := (r.time - time0) / (time1 - time0);
    assert Scale(s, Sub(c, c)) == Zero;
    assert MovingCenter(c, c, time0, time1, r.time) == c;
  }

  // ---------------------------------------------------------------------------------------
  // Properties of bounding_box

  /** Whether a box is found, and the box found, do not depend on what output_box held
      before. */
  lemma {:induction false} BoxQueryIgnoresIncomingBox(h: Hittable, time0: real, time1: real,
                                                      box1: Aabb, box2: Aabb)
    requires BoxDefined(h)
    ensures BoxQuery(h, time0, time1, box1).0 == BoxQuery(h, time0, time1, box2).0
    ensures BoxQuery(h, time0, time1, box1).0 ==>
              BoxQuery(h, time0, time1, box1).1 == BoxQuery(h, time0, time1, box2).1
    decreases h, 1
  {
    if h.Group? && |h.objects| > 0 {
      FoldBoxesIgnoresIncomingBoxes(h.objects, time0, time1, box1, box2, DefaultBox, DefaultBox, true);
    }
  }

  lemma {:induction false} FoldBoxesIgnoresIncomingBoxes(objects: seq<Hittable>, time0: real,
                                                         time1: real, out1: Aabb, out2: Aabb,
                                                         temp1: Aabb, temp2: Aabb, first: bool)
    requires AllBoxDefined(objects)
    requires (first && |objects| > 0) || out1 == out2
    ensures FoldBoxes(objects, time0, time1, out1, temp1, first).0 ==
            FoldBoxes(objects, time0, time1, out2, temp2, first).0
    ensures FoldBoxes(objects, time0, time1, out1, temp1, first).0 ==>
              FoldBoxes(objects, time0, time1, out1, temp1, first).1 ==
              FoldBoxes(objects, time0, time1, out2, temp2, first).1
    decreases objects, 0
  {
    if |objects| > 0 {
      BoxQueryIgnoresIncomingBox(objects[0], time0, time1, temp1, temp2);
      var (ok, b) := BoxQuery(objects[0], time0, time1, temp1);
      if ok {
        var b2 := BoxQuery(objects[0], time0, time1, temp2).1;
        FoldBoxesIgnoresIncomingBoxes(objects[1..], time0, time1,
                                      if first then b else SurroundingBox(out1, b),
                                      if first then b2 else SurroundingBox(out2, b2), b, b2, false);
      }
    }
  }

  /** The fold succeeds exactly when every remaining object has a box. */
  lemma {:induction false} FoldBoxesSucceedsIff(objects: seq<Hittable>, time0: real, time1: real,
                                                out: Aabb, temp: Aabb, first: bool)
    requires AllBoxDefined(objects)
    ensures FoldBoxes(objects, time0, time1, out, temp, first).0 <==>
            forall i :: 0 <= i < |objects| ==> HasBox(objects[i], time0, time1)
    decreases objects
  {
    if |objects| > 0 {
      BoxQueryIgnoresIncomingBox(objects[0], time0, time1, temp, DefaultBox);
      var (ok, b) := BoxQuery(objects[0], time0, time1, temp);
      var rest := objects[1..];
      if ok {
        FoldBoxesSucceedsIff(rest, time0, time1, if first then b else SurroundingBox(out, b), b, false);
        assert forall i :: 0 <= i < |rest| ==> rest[i] == objects[i + 1];
        if forall i :: 0 <= i < |rest| ==> HasBox(rest[i], time0, time1) {
          forall i | 0 <= i < |objects| ensures HasBox(objects[i], time0, time1) {
            if i > 0 {
              assert HasBox(rest[i - 1], time0, time1);
            }
          }
        }
      }
    }
  }

  /** On success the fold's box contains every object's box and, once started, the box it
      began with. */
  lemma {:induction false} FoldBoxesContainsAll(objects: seq<Hittable>, time0: real, time1: real,
                                                out: Aabb, temp: Aabb, first: bool)
    requires AllBoxDefined(objects)
    ensures var res := FoldBoxes(objects, time0, time1, out, temp, first);
            res.0 ==>
              (forall i :: 0 <= i < |objects| ==> Contains(res.1, BoxOf(objects[i], time0, time1))) &&
              (!first ==> Contains(res.1, out))
    decreases objects
  {
    if |objects| > 0 {
      BoxQueryIgnoresIncomingBox(objects[0], time0, time1, temp, DefaultBox);
      var (ok, b) := BoxQuery(objects[0], time0, time1, temp);
      var rest := objects[1..];
      if ok {
        var out' := if first then b else SurroundingBox(out, b);
        FoldBoxesContainsAll(rest, time0, time1, out', b, false);
        var res := FoldBoxes(objects, time0, time1, out, temp, first);
        assert res == FoldBoxes(rest, time0, time1, out', b, false);
        if res.0 {
          assert Contains(out', b);
          if !first {
            ContainsTransitive(res.1, out', out);
          }
          forall i | 0 <= i < |objects| ensures Contains(res.1, BoxOf(objects[i], time0, time1)) {
            if i == 0 {
              ContainsTransitive(res.1, out', b);
            } else {
              assert objects[i] == rest[i - 1];
            }
          }
        }
      }
    }
  }

  /** On success the fold's box is inside every box that contains all the object boxes (and,
      once started, the box it began with): it is the smallest such box. */
  lemma {:induction false} FoldBoxesIsLeast(objects: seq<Hittable>, time0: real, time1: real,
                                            out: Aabb, temp: Aabb, first: bool, c: Aabb)
    requires AllBoxDefined(objects)
    requires forall i :: 0 <= i < |objects| ==> Contains(c, BoxOf(objects[i], time0, time1))
    requires !first ==> Contains(c, out)
    requires first ==> |objects| > 0
    ensures var res := FoldBoxes(objects, time0, time1, out, temp, first);
            res.0 ==> Contains(c, res.1)
    decreases objects
  {
    if |objects| > 0 {
      BoxQueryIgnoresIncomingBox(objects[0], time0, time1, temp, DefaultBox);
      var (ok, b) := BoxQuery(objects[0], time0, time1, temp);
      var rest := objects[1..];
      if ok {
        assert Contains(c, b);
        var out' := if first then b else SurroundingBox(out, b);
        assert Contains(c, out');
        assert forall i :: 0 <= i < |rest| ==> rest[i] == objects[i + 1];
        FoldBoxesIsLeast(rest, time0, time1, out', b, false, c);
      }
    }
  }

  /** hittable_list::bounding_box: false for an empty list and false when some object has no
      box; otherwise a box that contains every object's box and lies inside every box that
      does. */
  lemma GroupBox(objects: seq<Hittable>, time0: real, time1: real, box: Aabb)
    requires AllBoxDefined(objects)
    ensures BoxDefined(Group(objects))
    ensures var res := BoxQuery(Group(objects), time0, time1, box);
            (res.0 <==> |objects| > 0 && forall i :: 0 <= i < |objects| ==> HasBox(objects[i], time0, time1)) &&
            (res.0 ==> forall i :: 0 <= i < |objects| ==> Contains(res.1, BoxOf(objects[i], time0, time1)))
  {
    if |objects| > 0 {
      FoldBoxesSucceedsIff(objects, time0, time1, box, DefaultBox, true);
      FoldBoxesContainsAll(objects, time0, time1, box, DefaultBox, true);
    }
  }

  lemma GroupBoxIsLeast(objects: seq<Hittable>, time0: real, time1: real, box: Aabb, c: Aabb)
    requires AllBoxDefined(objects)
    requires forall i :: 0 <= i < |objects| ==> Contains(c, BoxOf(objects[i], time0, time1))
    ensures BoxDefined(Group(objects))
    ensures var res := BoxQuery(Group(objects), time0, time1, box);
            res.0 ==> Contains(c, res.1)
  {
    if |objects| > 0 {
      FoldBoxesIsLeast(objects, time0, time1, box, DefaultBox, true, c);
    }
  }
}
