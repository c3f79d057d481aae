/**
 * ray_color: the colour a ray brings back, a recursion on the remaining bounce budget
 * `depth`. The world is any hittable's `hit` query at the bounds the renderer uses, given as a
 * function from the ray to the record it reports; the material's scatter is a function too,
 * told the bounce budget so that each bounce can use its own random draws. The sky gradient
 * needs the y component of the ray's unit direction, which needs a square root, so it is
 * given as a function `unitY` as well.
 */
module RayColors {

  import opened Vectors
  import opened Rays
  import opened Materials
  import opened Textures
  import opened Options

  /** The background: t = 0.5 * (unit_direction.y() + 1) blends white into (0.5, 0.7, 1). */
  function Sky(unitY: real): (c: Vec3)
    ensures -1.0 <= unitY <= 1.0 ==> InUnitCube(c)
  {
    var t := 0.5 * (unitY + 1.0);
    Add(Scale(1.0 - t, Identity), Scale(t, Vec3(0.5, 0.7, 1.0)))
  }

  /** ray_color of src/main.cpp:28-50. `world(r)` is world.hit(r, 0.001, infinity, rec), and
      `scatter(r, rec, depth)` is rec.mat_ptr->scatter(r, rec, attenuation, scattered). No
      emitted() term is added on a hit. */
  function RayColor(r: Ray, world: Ray -> Option<HitRecord>,
                    scatter: (Ray, HitRecord, int) -> Option<Scattered>, unitY: Ray -> real,
                    depth: int): Vec3
    decreases depth
  {
    if depth <= 0 then Zero
    else
      match world(r)
      case None => Sky(unitY(r))
      case Some(rec) =>
        match scatter(r, rec, depth)
        case Some(s) => Mul(s.attenuation, RayColor(s.scattered, world, scatter, unitY, depth - 1))
        case None => Zero
  }

  /** How many nested ray_color calls one call makes. */
  function CallDepth(r: Ray, world: Ray -> Option<HitRecord>,
                     scatter: (Ray, HitRecord, int) -> Option<Scattered>, depth: int): (n: nat)
    ensures n <= if depth > 0 then depth else 0
    decreases depth
  {
    if depth <= 0 then 0
    else
      match world(r)
      case None => 0
      case Some(rec) =>
        match scatter(r, rec, depth)
        case Some(s) => 1 + CallDepth(s.scattered, world, scatter, depth - 1)
        case None => 0
  }

  /** The materials of this model as the scatter function: `draw(depth)` is the point
      random_in_unit_sphere gave at that bounce. */
  function MaterialScatter(draw: int -> Vec3, sin: real -> real)
    : (Ray, HitRecord, int) -> Option<Scattered>
  {
    (rIn: Ray, rec: HitRecord, depth: int) =>
      if MaterialWellFormed(rec.mat) then Scatter(rec.mat, rIn, rec, draw(depth), sin) else None
  }

  // ---------------------------------------------------------------------------------------
  // Properties

  /** The sky is white straight down and (0.5, 0.7, 1) straight up. */
  lemma SkyEnds()
    ensures Sky(-1.0) == Identity
    ensures Sky(1.0) == Vec3(0.5, 0.7, 1.0)
  {
    assert Scale(1.0, Identity) == Identity && Scale(0.0, Vec3(0.5, 0.7, 1.0)) == Zero;
    assert Scale(0.0, Identity) == Zero && Scale(1.0, Vec3(0.5, 0.7, 1.0)) == Vec3(0.5, 0.7, 1.0);
  }

  lemma UnitProduct(a: real, b: real)
    requires 0.0 <= a <= 1.0 && 0.0 <= b <= 1.0
    ensures 0.0 <= a * b <= 1.0
  {
    NonNegativeProduct(a, b);
    NonNegativeProduct(a, 1.0 - b);
    NonNegativeProduct(1.0 - a, 1.0);
    assert a * (1.0 - b) == a - a * b;
  }

  lemma NonNegativeProduct(a: real, b: real)
    requires 0.0 <= a && 0.0 <= b
    ensures 0.0 <= a * b
  {
  }

  lemma MulInUnitCube(u: Vec3, v: Vec3)
    requires InUnitCube(u) && InUnitCube(v)
    ensures InUnitCube(Mul(u, v))
  {
    UnitProduct(u.x, v.x);
    UnitProduct(u.y, v.y);
    UnitProduct(u.z, v.z);
  }

  /** With attenuations in [0, 1] and a unit direction's y in [-1, 1], every colour is in the
      unit cube: bounces only take light away. */
  lemma {:induction false} RayColorInUnitCube(r: Ray, world: Ray -> Option<HitRecord>,
                                              scatter: (Ray, HitRecord, int) -> Option<Scattered>,
                                              unitY: Ray -> real, depth: int)
    requires forall q :: -1.0 <= unitY(q) <= 1.0
    requires forall q, rec, d :: scatter(q, rec, d).Some? ==> InUnitCube(scatter(q, rec, d).value.attenuation)
    ensures InUnitCube(RayColor(r, world, scatter, unitY, depth))
    decreases depth
  {
    if depth > 0 && world(r).Some? {
      var rec := world(r).value;
      var sc := scatter(r, rec, depth);
      if sc.Some? {
        RayColorInUnitCube(sc.value.scattered, world, scatter, unitY, depth - 1);
        MulInUnitCube(sc.value.attenuation, RayColor(sc.value.scattered, world, scatter, unitY, depth - 1));
      }
    }
  }

  /** A ray that keeps hitting and scattering never reaches the sky, runs out of budget and
      is black: light comes only from the sky. */
  lemma {:induction false} EndlessBouncesAreBlack(r: Ray, world: Ray -> Option<HitRecord>,
                                                  scatter: (Ray, HitRecord, int) -> Option<Scattered>,
                                                  unitY: Ray -> real, depth: int)
    requires forall q :: world(q).Some?
    requires forall q, rec, d :: scatter(q, rec, d).Some?
    ensures RayColor(r, world, scatter, unitY, depth) == Zero
    ensures CallDepth(r, world, scatter, depth) == if depth > 0 then depth else 0
    decreases depth
  {
    if depth > 0 {
      var rec := world(r).value;
      var sc := scatter(r, rec, depth).value;
      EndlessBouncesAreBlack(sc.scattered, world, scatter, unitY, depth - 1);
      assert Mul(sc.attenuation, Zero) == Zero;
    }
  }

  /** A hit on a diffuse light is black although the light emits its colour there: the
      emitted() term is not part of ray_color, and a light never scatters. */
  lemma LightsLookBlack(r: Ray, world: Ray -> Option<HitRecord>, draw: int -> Vec3,
                        sin: real -> real, unitY: Ray -> real, depth: int, c: Vec3)
    requires depth > 0 && world(r).Some? && world(r).value.mat == DiffuseLightOfColor(c)
    ensures RayColor(r, world, MaterialScatter(draw, sin), unitY, depth) == Zero
    ensures var rec := world(r).value; Emitted(rec.mat, rec.u, rec.v, rec.p, sin) == c
  {
    var rec := world(r).value;
    DiffuseLightBehaviour(SolidColor(c), c, r, rec, draw(depth), rec.u, rec.v, rec.p, sin);
  }

  /** An isotropic medium of colour c in front of the sky tints the sky colour seen through it
      by c. */
  lemma IsotropicTintsSky(r: Ray, world: Ray -> Option<HitRecord>, draw: int -> Vec3,
                          sin: real -> real, unitY: Ray -> real, c: Vec3)
    requires world(r).Some? && world(r).value.mat == IsotropicOfColor(c)
    requires var rec := world(r).value; world(Ray(rec.p, draw(2), r.time)).None?
    ensures var rec := world(r).value;
            RayColor(r, world, MaterialScatter(draw, sin), unitY, 2) ==
            Mul(c, Sky(unitY(Ray(rec.p, draw(2), r.time))))
  {
  }
}

/**
 * ray_color of the older main.cpp:26-43: every hit bounces towards p + normal + a point of the
 * unit ball and keeps half of what comes back; the material is not asked.
 */
module LegacyRayColors {

  import opened Vectors
  import opened Rays
  import opened Materials
  import opened Textures
  import opened Options
  import opened RayColors

  /** ray(rec.p, target - rec.p) with target = rec.p + rec.normal + s. The older ray header is
      not part of this model; its time is taken as 0. */
  function Bounce(rec: HitRecord, s: Vec3): (r: Ray)
    ensures r.origin == rec.p && r.direction == Add(rec.normal, s)
  {
    Ray(rec.p, Sub(Add(Add(rec.p, rec.normal), s), rec.p), 0.0)
  }

  /** `world(r)` is world.hit(r, 0, infinity, rec); `draw(depth)` is random_in_unit_sphere()
      at that bounce. */
  function LegacyRayColor(r: Ray, world: Ray -> Option<HitRecord>, draw: int -> Vec3,
                          unitY: Ray -> real, depth: int): Vec3
    decreases depth
  {
    if depth <= 0 then Zero
    else
      match world(r)
      case None => Sky(unitY(r))
      case Some(rec) =>
        Scale(0.5, LegacyRayColor(Bounce(rec, draw(depth)), world, draw, unitY, depth - 1))
  }

  predicate InHalfCube(c: Vec3) {
    0.0 <= c.x <= 0.5 && 0.0 <= c.y <= 0.5 && 0.0 <= c.z <= 0.5
  }

  /** Every colour is in the unit cube, and after a hit in the lower half of it: each bounce
      halves the light. */
  lemma {:induction false} LegacyRayColorHalves(r: Ray, world: Ray -> Option<HitRecord>,
                                                draw: int -> Vec3, unitY: Ray -> real, depth: int)
    requires forall q :: -1.0 <= unitY(q) <= 1.0
    ensures InUnitCube(LegacyRayColor(r, world, draw, unitY, depth))
    ensures depth > 0 && world(r).Some? ==> InHalfCube(LegacyRayColor(r, world, draw, unitY, depth))
    decreases depth
  {
    if depth > 0 && world(r).Some? {
      LegacyRayColorHalves(Bounce(world(r).value, draw(depth)), world, draw, unitY, depth - 1);
    }
  }

  /** A ray that hits something at every bounce is black. */
  lemma {:induction false} LegacyAllHitsAreBlack(r: Ray, world: Ray -> Option<HitRecord>,
                                                 draw: int -> Vec3, unitY: Ray -> real, depth: int)
    requires forall q :: world(q).Some?
    ensures LegacyRayColor(r, world, draw, unitY, depth) == Zero
    decreases depth
  {
    if depth > 0 {
      LegacyAllHitsAreBlack(Bounce(world(r).value, draw(depth)), world, draw, unitY, depth - 1);
    }
  }

  /** One bounce before the sky gives half the sky colour in the bounce direction. */
  lemma LegacyOneBounce(r: Ray, world: Ray -> Option<HitRecord>, draw: int -> Vec3,
                        unitY: Ray -> real)
    requires world(r).Some?
    requires world(Bounce(world(r).value, draw(2))).None?
    ensures LegacyRayColor(r, world, draw, unitY, 2) ==
            Scale(0.5, Sky(unitY(Bounce(world(r).value, draw(2)))))
  {
  }
}
