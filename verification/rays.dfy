/**
 * The ray of the renderer: origin, direction (not necessarily of unit length) and the time at
 * which it is cast. The ray header itself is not part of this model; only its obvious
 * contract `at(t) = origin + t * direction` is used.
 */
module Rays {

  import opened Vectors

  datatype Ray = Ray(origin: Vec3, direction: Vec3, time: real)

  function At(r: Ray, t: real): Vec3 {
    Add(r.origin, Scale(t, r.direction))
  }
}
