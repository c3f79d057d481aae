/**
 * The transcendental functions the renderer calls, carried as function values because the
 * model makes no claim about how they are computed or rounded. Properties that a proof needs
 * (a square root that really is one, at one argument) are stated where they are used.
 */
module Numerics {

  import opened Vectors

  datatype Numerics = Numerics(
    sqrt: real -> real,
    sin: real -> real,
    /** get_sphere_uv: (u, v) from acos and atan2 of a point's coordinates. */
    sphereUv: Vec3 -> (real, real))

  /** `num.sqrt` is an exact, non-negative square root at `x`. */
  predicate SqrtExactAt(num: Numerics, x: real) {
    0.0 <= num.sqrt(x) && num.sqrt(x) * num.sqrt(x) == x
  }
}
