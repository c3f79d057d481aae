/**
 * Materials (src/material/material.h, src/material/isotropic.h, src/light/diffuse_light.h) and
 * the hit record they are handed. A material decides whether an incoming ray scatters, with
 * which attenuation, and what light the surface emits. Materials are immutable and shared, so
 * they are values; the closed set of variants replaces the virtual `material` interface, and
 * a `match` without a default case is what makes every variant define `scatter`.
 */
module Materials {

  import opened Vectors
  import opened Rays
  import opened Textures
  import opened Options

  datatype Material =
    | DiffuseLight(emit: Texture)
    | Isotropic(albedo: Texture)

  predicate MaterialWellFormed(m: Material) {
    match m
    case DiffuseLight(emit) => WellFormed(emit)
    case Isotropic(albedo) => WellFormed(albedo)
  }

  /** hit_record: the point, the normal facing against the ray, the material of the surface
      that was hit, the ray parameter t, the surface coordinates and the winding flag. The
      hittable header is not part of this model; its fields are as the renderer uses them. */
  datatype HitRecord = HitRecord(p: Vec3, normal: Vec3, mat: Material, t: real, u: real, v: real,
                                 frontFace: bool)

  /** hit_record::set_face_normal (assumed contract): the stored normal is the outward normal
      when the ray comes from outside, its negation otherwise. */
  function SetFaceNormal(r: Ray, outwardNormal: Vec3): (fn: (bool, Vec3))
    ensures fn.0 <==> Dot(r.direction, outwardNormal) < 0.0
    ensures fn.1 == outwardNormal || fn.1 == Neg(outwardNormal)
    ensures Dot(r.direction, fn.1) <= 0.0
  {
    var frontFace := Dot(r.direction, outwardNormal) < 0.0;
    (frontFace, if frontFace then outwardNormal else Neg(outwardNormal))
  }

  /** The two out-parameters scatter writes when it returns true. */
  datatype Scattered = Scattered(attenuation: Vec3, scattered: Ray)

  /** emitted(u, v, p): a diffuse light returns its texture's value there; every other material
      keeps the base class's default, zero. */
  function Emitted(m: Material, u: real, v: real, p: Vec3, sin: real -> real): Vec3
    requires MaterialWellFormed(m)
  {
    match m
    case DiffuseLight(emit) => TextureValue(emit, u, v, p, sin)
    case Isotropic(_) => Zero
  }

  /** scatter(r_in, rec, attenuation, scattered): None is a `false` return with both
      out-parameters left untouched. `inUnitSphere` is the point random_in_unit_sphere drew. */
  function Scatter(m: Material, rIn: Ray, rec: HitRecord, inUnitSphere: Vec3, sin: real -> real)
    : Option<Scattered>
    requires MaterialWellFormed(m)
  {
    match m
    case DiffuseLight(_) => None
    case Isotropic(albedo) =>
      Some(Scattered(TextureValue(albedo, rec.u, rec.v, rec.p, sin),
                     Ray(rec.p, inUnitSphere, rIn.time)))
  }

  /** diffuse_light(color c) */
  function DiffuseLightOfColor(c: Vec3): Material {
    DiffuseLight(SolidColor(c))
  }

  /** isotropic(color c) */
  function IsotropicOfColor(c: Vec3): Material {
    Isotropic(SolidColor(c))
  }

  // ---------------------------------------------------------------------------------------
  // Properties

  /** The base material's emitted() is zero wherever it is asked. */
  lemma DefaultEmittedIsZero(albedo: Texture, u: real, v: real, p: Vec3, sin: real -> real)
    requires WellFormed(albedo)
    ensures Emitted(Isotropic(albedo), u, v, p, sin) == Zero
  {
  }

  /** A diffuse light never scatters, and emits what its texture has at (u, v, p); built from a
      colour it emits that colour everywhere. */
  lemma DiffuseLightBehaviour(emit: Texture, c: Vec3, rIn: Ray, rec: HitRecord, s: Vec3,
                              u: real, v: real, p: Vec3, sin: real -> real)
    requires WellFormed(emit)
    ensures Scatter(DiffuseLight(emit), rIn, rec, s, sin).None?
    ensures Emitted(DiffuseLight(emit), u, v, p, sin) == TextureValue(emit, u, v, p, sin)
    ensures Emitted(DiffuseLightOfColor(c), u, v, p, sin) == c
  {
  }

  /** An isotropic medium always scatters: the attenuation is the albedo at the hit's (u, v, p),
      the new ray starts at the hit point at the incoming ray's time, and its direction is the
      unit-sphere sample whatever the incoming direction was. */
  lemma IsotropicScatters(albedo: Texture, rIn: Ray, rIn2: Ray, rec: HitRecord, s: Vec3,
                          sin: real -> real)
    requires WellFormed(albedo)
    requires LengthSquared(s) < 1.0
    ensures var sc := Scatter(Isotropic(albedo), rIn, rec, s, sin);
            sc.Some? &&
            sc.value.attenuation == TextureValue(albedo, rec.u, rec.v, rec.p, sin) &&
            sc.value.scattered.origin == rec.p &&
            sc.value.scattered.time == rIn.time &&
            sc.value.scattered.direction == s &&
            sc.value.scattered.direction == Scatter(Isotropic(albedo), rIn2, rec, s, sin).value.scattered.direction
  {
  }

  /** isotropic(color c) attenuates by exactly c. */
  lemma IsotropicOfColorAttenuation(c: Vec3, rIn: Ray, rec: HitRecord, s: Vec3, sin: real -> real)
    ensures Scatter(IsotropicOfColor(c), rIn, rec, s, sin).value.attenuation == c
  {
  }
}
