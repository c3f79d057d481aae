/**
 * moving_sphere (src/geometry/moving_sphere.h): a sphere whose centre moves linearly from
 * `center0` at `time0` to `center1` at `time1`. It inherits sphere::hit, which asks the virtual
 * `center(r.time())`, and overrides `center` and `bounding_box`.
 */
module MovingSpheres {

  import opened Vectors
  import opened Boxes
  import opened Spheres

  /** moving_sphere::center(time): linear interpolation with the member times. The division by
      time1 - time0 is why the two member times must differ. */
  function MovingCenter(center0: Vec3, center1: Vec3, time0: real, time1: real, time: real): Vec3
    requires time1 != time0
  {
    Add(center0, Scale((time - time0) / (time1 - time0), Sub(center1, center0)))
  }

  /** moving_sphere::bounding_box(time0, time1, output_box): always succeeds. The query times
      `queryTime0` and `queryTime1` are the parameters that shadow the members; the centre is
      interpolated with the member times `time0` and `time1`. */
  function MovingSphereBox(center0: Vec3, center1: Vec3, time0: real, time1: real, radius: real,
                           queryTime0: real, queryTime1: real): (box: Aabb)
    requires time1 != time0
    ensures Contains(box, SphereBox(MovingCenter(center0, center1, time0, time1, queryTime0), radius))
    ensures Contains(box, SphereBox(MovingCenter(center0, center1, time0, time1, queryTime1), radius))
    ensures forall c :: Contains(c, SphereBox(MovingCenter(center0, center1, time0, time1, queryTime0), radius)) &&
                        Contains(c, SphereBox(MovingCenter(center0, center1, time0, time1, queryTime1), radius))
                        ==> Contains(c, box)
  {
    var box0 := SphereBox(MovingCenter(center0, center1, time0, time1, queryTime0), radius);
    var box1 := SphereBox(MovingCenter(center0, center1, time0, time1, queryTime1), radius);
    SurroundingBox(box0, box1)
  }

  // ---------------------------------------------------------------------------------------
  // Properties

  /** The interpolation passes through its two endpoints. */
  lemma MovingCenterEndpoints(center0: Vec3, center1: Vec3, time0: real, time1: real)
    requires time1 != time0
    ensures MovingCenter(center0, center1, time0, time1, time0) == center0
    ensures MovingCenter(center0, center1, time0, time1, time1) == center1
  {
    assert (time1 - time0) / (time1 - time0) == 1.0;
  }

  /** One coordinate of the interpolated centre, written as a line through its value at
      time0 with slope `delta / (time1 - time0)`. */
  function Coordinate(c0: real, delta: real, time0: real, time1: real, time: real): real
    requires time1 != time0
  {
    c0 + ((time - time0) / (time1 - time0)) * delta
  }

  /** A point of a line between two times lies between the line's values at those times. */
  lemma CoordinateBetween(c0: real, delta: real, time0: real, time1: real, a: real, b: real, t: real)
    requires time1 != time0 && a <= t <= b
    ensures Min(Coordinate(c0, delta, time0, time1, a), Coordinate(c0, delta, time0, time1, b))
            <= Coordinate(c0, delta, time0, time1, t)
            <= Max(Coordinate(c0, delta, time0, time1, a), Coordinate(c0, delta, time0, time1, b))
  {
    var k := delta / (time1 - time0);
    LineForm(c0, delta, time0, time1, a);
    LineForm(c0, delta, time0, time1, b);
    LineForm(c0, delta, time0, time1, t);
    if k >= 0.0 {
      assert (t - a) * k >= 0.0 && (b - t) * k >= 0.0;
    } else {
      assert (t - a) * k <= 0.0 && (b - t) * k <= 0.0;
    }
  }

  lemma LineForm(c0: real, delta: real, time0: real, time1: real, t: real)
    requires time1 != time0
    ensures Coordinate(c0, delta, time0, time1, t) == c0 + (t - time0) * (delta / (time1 - time0))
  {
  }

  lemma CenterCoordinates(center0: Vec3, center1: Vec3, time0: real, time1: real, t: real)
    requires time1 != time0
    ensures var c := MovingCenter(center0, center1, time0, time1, t);
            c.x == Coordinate(center0.x, center1.x - center0.x, time0, time1, t) &&
            c.y == Coordinate(center0.y, center1.y - center0.y, time0, time1, t) &&
            c.z == Coordinate(center0.z, center1.z - center0.z, time0, time1, t)
  {
  }

  /** Between the two query times the moving sphere stays inside the box bounding_box returns:
      the ball at any intermediate time is a point set of that box. */
  lemma MovingSphereBoxContainsPath(center0: Vec3, center1: Vec3, time0: real, time1: real,
                                    radius: real, queryTime0: real, queryTime1: real, t: real)
    requires time1 != time0 && queryTime0 <= t <= queryTime1
    ensures Contains(MovingSphereBox(center0, center1, time0, time1, radius, queryTime0, queryTime1),
                     SphereBox(MovingCenter(center0, center1, time0, time1, t), radius))
  {
    var d := Sub(center1, center0);
    CenterCoordinates(center0, center1, time0, time1, queryTime0);
    CenterCoordinates(center0, center1, time0, time1, queryTime1);
    CenterCoordinates(center0, center1, time0, time1, t);
    CoordinateBetween(center0.x, d.x, time0, time1, queryTime0, queryTime1, t);
    CoordinateBetween(center0.y, d.y, time0, time1, queryTime0, queryTime1, t);
    CoordinateBetween(center0.z, d.z, time0, time1, queryTime0, queryTime1, t);
  }

  /** Hence every point of the moving ball at a time between the query times is in the box. */
  lemma MovingSphereBoxContainsBall(center0: Vec3, center1: Vec3, time0: real, time1: real,
                                    radius: real, queryTime0: real, queryTime1: real, t: real,
                                    p: Vec3)
    requires time1 != time0 && 0.0 <= radius && queryTime0 <= t <= queryTime1
    requires LengthSquared(Sub(p, MovingCenter(center0, center1, time0, time1, t))) <= radius * radius
    ensures ContainsPoint(MovingSphereBox(center0, center1, time0, time1, radius, queryTime0, queryTime1), p)
  {
    var c := MovingCenter(center0, center1, time0, time1, t);
    SphereBoxContainsBall(c, radius, p);
    MovingSphereBoxContainsPath(center0, center1, time0, time1, radius, queryTime0, queryTime1, t);
    ContainsPointTransitive(MovingSphereBox(center0, center1, time0, time1, radius, queryTime0, queryTime1),
                            SphereBox(c, radius), p);
  }

  /** Because the query times shadow the members, asking for the box over the sphere's own time
      span gives the box around the two end positions. */
  lemma MovingSphereBoxOverOwnSpan(center0: Vec3, center1: Vec3, time0: real, time1: real,
                                   radius: real)
    requires time1 != time0
    ensures var box := MovingSphereBox(center0, center1, time0, time1, radius, time0, time1);
            Contains(box, SphereBox(center0, radius)) && Contains(box, SphereBox(center1, radius))
  {
    MovingCenterEndpoints(center0, center1, time0, time1);
  }
}
