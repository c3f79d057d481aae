# A verified model of the core of a small C++ ray tracer

This project models the core of a small C++ path tracer (magicafe/raytracer) in Dafny and
proves properties of the model. The renderer shoots rays through the pixels of a 1920 x 1080
image. It finds the nearest object each ray hits: spheres, moving spheres and rectangles in the
plane x = k, grouped in lists. It asks the object's material how the ray scatters and follows
the bounce up to a fixed depth. The rows of the image are split among worker threads, and the
workers' buffers are written out as a plain PPM ("P3") image.

Doubles are modelled as `real`. Square roots, sines and the sphere's (u, v) angles are function
values (module `Numerics`). Random draws are parameters. Nothing here claims anything about
rounding.

Modules, one per source concern:

- `Vectors`: the `vec3` algebra of src/vec3.h.
  - The free operators, `dot`, `cross`, `reflect` and `near_zero`.
  - The rejection samplers as loops over a finite sequence of draws.
  - The in-place `+=`, `*=` and `/=` as methods of a class `MutableVec3`.
- `Rays`, `Boxes`, `Options`, `Numerics`: the ray, the axis-aligned box with `surrounding_box`,
  an option type, and the abstract transcendental functions.
- `Textures`: `solid_color`, `checker_texture` and `image_texture`.
  - Constructors, `value`, and the index clamping and byte lookup.
- `Materials`: the base `material`, `diffuse_light` and `isotropic`, as one closed datatype.
  - The record a hit fills in.
- `Spheres`, `MovingSpheres`, `YzRects`: the hit tests and bounding boxes of the primitives.
- `Hittables`: every hittable as one datatype, including a nested list.
  - `hit` and `bounding_box` as functions.
  - The closest-hit scan and the box fold of hittable_list as their specification.
- `HittableLists`: `hittable_list` as a class whose `objects` the methods change in place.
  - `hit` and `bounding_box` are loops proved against the functions of `Hittables`.
  - The older root copy hittable_list.h has the same `add`, `clear` and `hit` and is modelled
    by the same class.
- `BoxCompare`: the comparators of src/geometry/functions.h.
- `RayColors`: `ray_color` of src/main.cpp.
- `LegacyRayColors`: the older `ray_color` of main.cpp.
- `Image`: the image constants.
- `RowPartition`: how `main` splits the rows among the workers.
  - The loop is the same in src/main.cpp and main.cpp.
- `Ppm`: the output text, as a sequence of lines, with a reader that reads it back.
- `Scan`: the rendering driver.
  - `scan_vertical` and its three nested loops, the shared `progress` counter, and `main`'s
    partition, scan and write phases.
  - The workers run one after the other.
- `CmdOpts`: the command-line option matcher of src/cmd/cmd_opts.h.
  - A class whose option record and callback map the methods update in place.

Where the source and its design description disagree, the model follows the source. In
particular, `ray_color` of src/main.cpp adds no `emitted()` term on a hit, so a light looks
black (`RayColors.LightsLookBlack`). src/light/diffuse_light.h has two compile errors: the type
name `textture` and a missing semicolon after the class. The model gives that class its evident
meaning.

## Model

| member | source | states |
|---|---|---|
| Vectors.Get | src/vec3.h:25-26 | component i of the vector (0 is x, 1 is y, 2 is z); no contract, see `GetDeterminesVector` |
| Vectors.GetDeterminesVector | src/vec3.h:25-26 | the three components read through `operator[]` rebuild the vector, and vectors that agree at every index are equal |
| Vectors.Neg | src/vec3.h:24 | no contract; `NegIsInverse` states what unary `-` is |
| Vectors.NegIsInverse | src/vec3.h:24 | unary `-` undoes itself, `v + (-v)` is zero, and `u - v` is `u + (-v)` |
| Vectors.Add | src/vec3.h:87-90 | no contract; properties in `AddSubInverse` |
| Vectors.AddScalar | src/vec3.h:92-95 | no contract; properties in `AddScalarIsAddSplat` |
| Vectors.Sub | src/vec3.h:97-100 | no contract; properties in `AddSubInverse` and `NegIsInverse` |
| Vectors.Mul | src/vec3.h:102-105 | no contract; properties in `HadamardSumsToDot` |
| Vectors.Scale | src/vec3.h:107-110 | no contract; properties in `ScaleAndDivide` |
| Vectors.Div | src/vec3.h:117-120 | no contract; properties in `ScaleAndDivide` (t ≠ 0 is admitted under Left out) |
| Vectors.Dot | src/vec3.h:122-125 | no contract; properties in `DotSymmetric` and `HadamardSumsToDot` |
| Vectors.Cross | src/vec3.h:127-130 | no contract; properties in `CrossOrthogonal` |
| Vectors.LengthSquared | src/vec3.h:50-53 | no contract; properties in `NearZeroLength` and `Spheres.LengthSquaredAlongRay` |
| Vectors.Reflect | src/vec3.h:132-135 | no contract; properties in `ReflectAboutUnitNormal` |
| Vectors.NearZero | src/vec3.h:55-60 | no contract; properties in `NearZeroLength` |
| Vectors.NearZeroLength | src/vec3.h:55-60 | `near_zero` (every component below 1e-8 in absolute value) implies a squared length below 3e-16; a squared length below 1e-16 implies `near_zero` |
| Vectors.AddSubInverse | src/vec3.h:87-100 | component-wise `+` and `-` undo each other in both orders, and `+` commutes |
| Vectors.AddScalarIsAddSplat | src/vec3.h:92-95 | `vec3 + double` adds the scalar to every component |
| Vectors.HadamardSumsToDot | src/vec3.h:102-105 | `vec3 * vec3` is the component-wise product, not the dot product: its components sum to `dot`, it commutes, and `identity()` is its unit |
| Vectors.ScaleAndDivide | src/vec3.h:107-120 | `u * t == t * u`; for t ≠ 0, dividing by t and scaling by t undo each other |
| Vectors.DotSymmetric | src/vec3.h:122-125 | `dot(u, v) == dot(v, u)` |
| Vectors.CrossOrthogonal | src/vec3.h:127-130 | `cross(u, v)` is orthogonal to u and to v |
| Vectors.ReflectAboutUnitNormal | src/vec3.h:132-135 | for a unit normal n, `reflect` negates the component along n, and reflecting twice gives v back |
| Vectors.FirstInUnitBall | src/vec3.h:150-161 | the accepted draw is one of the draws and has squared length below 1; there is none iff every draw has squared length at least 1 |
| Vectors.RandomInUnitSphere | src/vec3.h:150-161 | the rejection loop returns the first draw strictly inside the unit ball (`FirstInUnitBall`) |
| Vectors.FirstInUnitDisk | src/vec3.h:181-192 | the accepted point is a planar draw with z = 0 and squared length below 1; there is none iff every draw is outside the disk |
| Vectors.RandomInUnitDisk | src/vec3.h:181-192 | the rejection loop returns the first draw strictly inside the unit disk (`FirstInUnitDisk`) |
| Vectors.RandomInHemisphere | src/vec3.h:168-179 | the result is the sample or its negation, has the same length, and has a non-negative dot product with the normal (positive unless the sample is orthogonal to it) |
| Vectors.MutableVec3.constructor | src/vec3.h:16-18 | the new vector holds the given components |
| Vectors.MutableVec3.AddAssign | src/vec3.h:28-32 | `+=` replaces the vector by its sum with v |
| Vectors.MutableVec3.ScaleAssign | src/vec3.h:34-38 | `*=` replaces the vector by its multiple |
| Vectors.MutableVec3.DivAssign | src/vec3.h:40-43 | `/=` is `*= 1/t`, and scaling the result by t gives the old vector back |
| Rays.At | src/geometry/sphere.h:77 | no contract; `r.at(t)` is origin + t · direction (ray.h is not part of this model); used by `HitSphere`, `HitYzRect` and `RootOnSurface` |
| Boxes.SurroundingBox | src/geometry/moving_sphere.h:22 | the box `surrounding_box` returns contains both boxes and lies inside every box that contains both |
| Textures.TextureValue | src/texture/checker_texture.h:18-28 | no contract; the three `value` methods (also solid_color.h:16-18 and image_texture.h:37-63), with properties in `SolidColorIgnoresCoordinates`, `CheckerSelectsBySign` and `ImageValueInUnitCube` |
| Textures.SolidColorDefault | src/texture/solid_color.h:12 | `solid_color()` has the zero colour everywhere |
| Textures.SolidColorRgb | src/texture/solid_color.h:14 | the three-argument constructor stores its arguments in order: the value is (red, blue, green) everywhere, so its y component is the parameter named `blue` |
| Textures.CheckerOfColors | src/texture/checker_texture.h:16 | `checker_texture(c1, c2)` wraps the two colours as solid children, so its value is always c1 or c2 |
| Textures.ImageTextureDefault | src/texture/image_texture.h:19 | `image_texture()` has no data and all sizes zero, and its value is (1, 0, 0) everywhere |
| Textures.ImageTextureLoad | src/texture/image_texture.h:20-31 | a failed load is the default texture; a successful one keeps the decoded bytes and sizes with `bytes_per_scanline = 3 * width` |
| Textures.ImagePixel | src/texture/image_texture.h:44-57 | for width, height ≥ 1 the clamped column and row lie in [0, width - 1] and [0, height - 1] |
| Textures.PixelOffsetInBounds | src/texture/image_texture.h:60 | the last byte read for an in-range pixel, offset `j * bytes_per_scanline + i * 3 + 2`, lies inside the `width * height * 3` bytes |
| Textures.ByteScaleInUnit | src/texture/image_texture.h:59-62 | a byte times 1/255 lies in [0, 1] |
| Textures.SolidColorIgnoresCoordinates | src/texture/solid_color.h:16-18 | `solid_color::value` is the stored colour whatever u, v and p are |
| Textures.CheckerSelectsBySign | src/texture/checker_texture.h:18-29 | `odd` is asked exactly when the sine product is negative (a zero product picks `even`), with the same (u, v, p), and the choice ignores u and v |
| Textures.CheckerOfColorsValue | src/texture/checker_texture.h:16-29 | a checker of two colours returns c1 where the sine product is negative and c2 elsewhere |
| Textures.ImageValueInUnitCube | src/texture/image_texture.h:37-63 | every channel an image texture returns lies in [0, 1]; without data the value is (1, 0, 0) |
| Textures.ImagePixelCorners | src/texture/image_texture.h:44-57 | v is flipped: (u, v) = (0, 0) reads the first pixel of the last row, and (1, 1) reads the last pixel of the first row after clamping |
| Materials.Emitted | src/material/material.h:10-13 | no contract; the base `emitted` and the override at diffuse_light.h:22-25, with properties in `DefaultEmittedIsZero` and `DiffuseLightBehaviour` |
| Materials.Scatter | src/material/isotropic.h:17-22 | no contract; isotropic's `scatter` and diffuse_light's (diffuse_light.h:17-20), with properties in `IsotropicScatters` and `DiffuseLightBehaviour` |
| Materials.DiffuseLightOfColor | src/light/diffuse_light.h:15 | no contract; a light with a solid texture of colour c, whose behaviour `DiffuseLightBehaviour` and `RayColors.LightsLookBlack` state |
| Materials.IsotropicOfColor | src/material/isotropic.h:14 | no contract; an isotropic medium with a solid albedo c, with properties in `IsotropicOfColorAttenuation` |
| Materials.SetFaceNormal | src/geometry/sphere.h:79 | the stored normal is the outward normal or its negation and points against the ray; `front_face` holds iff the ray meets the outward normal head-on |
| Materials.DefaultEmittedIsZero | src/material/material.h:10-13 | the base `emitted` is zero for every u, v and p |
| Materials.DiffuseLightBehaviour | src/light/diffuse_light.h:14-25 | a diffuse light never scatters; it emits its texture's value at (u, v, p), and a light built from colour c emits c everywhere |
| Materials.IsotropicScatters | src/material/isotropic.h:17-22 | an isotropic medium always scatters. The attenuation is the albedo at the hit's (u, v, p). The new ray starts at the hit point at the incoming ray's time, and its direction is the unit-ball sample itself, whatever the incoming direction |
| Materials.IsotropicOfColorAttenuation | src/material/isotropic.h:14 | `isotropic(c)` attenuates by exactly c |
| Spheres.HitSphere | src/geometry/sphere.h:50-83 | no hit when the discriminant is negative. The smaller root is taken when it is in [t_min, t_max]; otherwise there is a hit iff the larger one is. A hit has t in range, p = r.at(t) and the sphere's material. Its normal is ±(p − centre)/radius, turned to face the ray, and front_face holds iff the ray meets the outward normal head-on (dot < 0). Its (u, v) = get_sphere_uv(p) of the hit point itself |
| Spheres.RootOnSurface | src/geometry/sphere.h:52-69 | with an exact square root, both roots are points of the sphere's surface |
| Spheres.RootAlongRay | src/geometry/sphere.h:52-58 | a root t of a·t² + 2·half_b·t + c, with a = d.length_squared(), half_b = dot(d, oc) and c = oc.length_squared() − r², puts oc + t·d at squared distance r² from the centre |
| Spheres.HitSphereIsNearest | src/geometry/sphere.h:65-74 | the root tried first is the smaller one, so a hit is the nearest root in range, and a miss means neither root is in range |
| Spheres.HitAtDistance | src/geometry/sphere.h:50-77 | for the sphere of radius rad centred at the origin and the ray cast from (0, 0, d), d > rad, along the unit direction (0, 0, -1), the hit is at t = d - rad, at the near pole (0, 0, rad) |
| Spheres.SphereBox | src/geometry/sphere.h:21-25 | always a box, `center(0) ± (radius, radius, radius)`; no contract, properties in `SphereBoxContainsBall` and `BoxCompare.PrimitivesHaveBoxes` |
| Spheres.SphereBoxContainsBall | src/geometry/sphere.h:21-25 | for radius ≥ 0 the box `center0 ± (r, r, r)` is proper and contains every point of the ball |
| Spheres.UvArgumentAsWrittenOffUnitSphere | src/geometry/sphere.h:80 | `sphere::hit` takes (u, v) at the hit point itself: a ray from the origin along -z hits the sphere of radius rad at (0, 0, -d) at (0, 0, rad - d), of squared length (d - rad)², off the unit sphere unless d - rad = 1 (0.25 for the scene's sphere of radius 0.5 at (0, 0, -1)), while the outward normal there is (0, 0, 1) |
| Spheres.HitTowardCentre | src/geometry/sphere.h:50-81 | a ray from the origin along -z toward the sphere of radius rad at (0, 0, -d) hits at t = d - rad in (0, 0, rad - d), with (u, v) taken at that point |
| Spheres.UvArgumentOnUnitSphere | src/geometry/sphere.h:33-35 | the outward normal (p - centre) / radius is on the unit sphere for every point of the surface |
| MovingSpheres.MovingCenter | src/geometry/moving_sphere.h:27-30 | no contract; properties in `MovingCenterEndpoints` (time1 ≠ time0 is admitted under Left out) |
| MovingSpheres.MovingSphereBox | src/geometry/moving_sphere.h:17-24 | `bounding_box` contains the sphere's boxes at both query times and is the smallest such box |
| MovingSpheres.MovingCenterEndpoints | src/geometry/moving_sphere.h:27-30 | `center(time0) == center0` and `center(time1) == center1` |
| MovingSpheres.MovingSphereBoxContainsPath | src/geometry/moving_sphere.h:17-30 | at every time between the query times, the sphere's box lies inside the box returned |
| MovingSpheres.MovingSphereBoxContainsBall | src/geometry/moving_sphere.h:17-24 | every point of the moving ball at a time between the query times lies in the box |
| MovingSpheres.MovingSphereBoxOverOwnSpan | src/geometry/moving_sphere.h:17-29 | the query times shadow the members: asked over the sphere's own span, the box contains the balls at center0 and center1 |
| YzRects.HitYzRect | src/geometry/yz_rect.h:32-49 | a hit iff the plane crossing is at a t in [t_min, t_max] and the crossing point is inside [y0, y1] x [z0, z1]; the hit has that t, p = r.at(t) and the rectangle's material |
| YzRects.HitYzRectRecord | src/geometry/yz_rect.h:41-47 | a hit point is on the plane x = k. (u, v) is its relative position, in [0, 1] when y0 < y1 and z0 < z1. The normal is +x turned against the ray |
| YzRects.YzRectBox | src/geometry/yz_rect.h:19-25 | the box is 2 * 0.0001 thick in x |
| YzRects.YzRectBoxContainsHits | src/geometry/yz_rect.h:19-40 | every point reported as hit lies in the box, and the box is never zero-thick in x |
| YzRects.HitYzRectBeyondRange | src/geometry/yz_rect.h:34-36 | for every ray and rectangle, a crossing time outside [t_min, t_max] is a miss, even when the crossing point is inside the rectangle |
| Hittables.Center | src/geometry/sphere.h:28-31 | no contract; the virtual `center(time)` of a sphere and of a moving sphere (moving_sphere.h:27-30), with properties in `SphereCenterIgnoresTime` and `MovingSpheres.MovingCenterEndpoints` |
| Hittables.Hit | src/geometry/hittable_list.h:49-66 | any hittable, a nested list included, reports a hit only at a t in [t_min, t_max] |
| Hittables.ScanHits | src/geometry/hittable_list.h:53-63 | the scan keeps a record once it has one, and a new record has t in [t_min, closest] |
| Hittables.Bounds | src/geometry/hittable_list.h:53-60 | the bound handed to each object is at most t_max, and the bounds never increase |
| Hittables.BoxQuery | src/geometry/hittable_list.h:24-29 | every primitive has a box; an empty list has none and leaves `output_box` untouched |
| Hittables.FoldBoxes | src/geometry/hittable_list.h:31-45 | after the last object the fold succeeds with the box built so far |
| Hittables.ScanHitsReportsAnyHit | src/geometry/hittable_list.h:52-65 | `hit` returns true iff some object reported a hit at the bound it was handed |
| Hittables.ScanHitsMissKeepsRecord | src/geometry/hittable_list.h:57-62 | when no object reports a hit, `rec` is what it was |
| Hittables.ScanHitsFindsNearest | src/geometry/hittable_list.h:53-63 | if each object hits exactly when its distance is within the bound, the scan hits iff some distance is in range, and its record is at the smallest such distance |
| Hittables.GroupHitIsNearest | src/geometry/hittable_list.h:49-66 | under that assumption `hit` succeeds iff some distance lies in [t_min, t_max], and then `rec.t` is the smallest of them |
| Hittables.SphereCenterIgnoresTime | src/geometry/sphere.h:28-31 | `sphere::center` returns center0 at every time |
| Hittables.StillMovingSphereIsSphere | src/geometry/moving_sphere.h:27-30 | a moving sphere whose two centres agree hits exactly like the fixed sphere |
| Hittables.BoxQueryIgnoresIncomingBox | src/geometry/hittable_list.h:34-41 | success does not depend on the incoming `output_box`, and on success neither does the box |
| Hittables.FoldBoxesIgnoresIncomingBoxes | src/geometry/hittable_list.h:34-43 | the fold's outcome does not depend on the incoming boxes once the first box is taken from an object |
| Hittables.FoldBoxesSucceedsIff | src/geometry/hittable_list.h:34-39 | the fold succeeds iff every object has a box |
| Hittables.FoldBoxesContainsAll | src/geometry/hittable_list.h:41 | on success the folded box contains every object's box |
| Hittables.FoldBoxesIsLeast | src/geometry/hittable_list.h:41 | on success the folded box lies inside every box that contains all the objects' boxes |
| Hittables.GroupBox | src/geometry/hittable_list.h:24-46 | `bounding_box` is false for an empty list and when some object has no box; otherwise the box contains every object's box |
| Hittables.GroupBoxIsLeast | src/geometry/hittable_list.h:24-46 | the list's box lies inside every box that contains all its objects' boxes |
| HittableLists.HittableList.constructor | src/geometry/hittable_list.h:16 | a new list is empty |
| HittableLists.HittableList.Singleton | src/geometry/hittable_list.h:17 | the one-object constructor holds exactly that object |
| HittableLists.HittableList.Add | src/geometry/hittable_list.h:19 | `add` appends the object at the end and keeps the earlier ones in order |
| HittableLists.HittableList.Clear | src/geometry/hittable_list.h:20 | `clear` empties the list |
| HittableLists.HittableList.Hit | src/geometry/hittable_list.h:49-66 | the loop computes the closest-hit scan: a hit with t in [t_min, t_max], and `rec` untouched on a miss |
| HittableLists.HittableList.BoundingBox | src/geometry/hittable_list.h:24-46 | the loop computes the fold: true iff the list is non-empty and every object has a box, and then the box contains all of them |
| BoxCompare.BoxCompare | src/geometry/functions.h:5-16 | no contract; properties in `BoxCompareIsKeyOrder`, `BoxCompareStrictOrder` and `BoxCompareNotIrreflexiveWithoutBox` |
| BoxCompare.BoxXCompare | src/geometry/functions.h:18-21 | when both objects have boxes, `box_x_compare` is `<` on the boxes' minimum x |
| BoxCompare.BoxYCompare | src/geometry/functions.h:23-26 | the same on y |
| BoxCompare.BoxZCompare | src/geometry/functions.h:28-31 | the same on z |
| BoxCompare.BoxCompareIsKeyOrder | src/geometry/functions.h:5-16 | with boxes over [0, 0] for both objects, `box_compare` is exactly `box_a.min[axis] < box_b.min[axis]` |
| BoxCompare.PrimitivesHaveBoxes | src/geometry/sphere.h:21-25 | every primitive's `bounding_box` succeeds, so the comparator is the key order on primitives |
| BoxCompare.BoxCompareStrictOrder | src/geometry/functions.h:15 | among objects with boxes the comparator is irreflexive, asymmetric and transitive |
| BoxCompare.BoxCompareIncomparableIsEqualKeys | src/geometry/functions.h:15 | neither comparing less is equality of keys, so incomparability is transitive too |
| BoxCompare.BoxCompareNotIrreflexiveWithoutBox | src/geometry/functions.h:7-15 | a list whose first object has a box and whose second is an empty list has no box, yet compares less than itself |
| RayColors.RayColor | src/main.cpp:28-50 | no contract; properties in `RayColorInUnitCube`, `EndlessBouncesAreBlack`, `LightsLookBlack` and `IsotropicTintsSky` |
| RayColors.Sky | src/main.cpp:47-49 | for a unit direction's y in [-1, 1] the background colour is in the unit cube |
| RayColors.SkyEnds | src/main.cpp:47-49 | the background is white straight down and (0.5, 0.7, 1) straight up |
| RayColors.CallDepth | src/main.cpp:32-43 | the recursion only goes one level deeper with depth - 1, so it is at most max(depth, 0) deep |
| RayColors.RayColorInUnitCube | src/main.cpp:28-50 | with attenuations in [0, 1], every colour `ray_color` returns is in the unit cube |
| RayColors.EndlessBouncesAreBlack | src/main.cpp:32-45 | a ray that hits and scatters at every bounce recurses exactly `depth` times and is black |
| RayColors.LightsLookBlack | src/main.cpp:37-46 | a hit on a diffuse light is black although the light emits its colour there: no `emitted()` term is added and a light does not scatter |
| RayColors.IsotropicTintsSky | src/main.cpp:37-49 | an isotropic medium of colour c in front of the sky tints the sky seen through it by c |
| LegacyRayColors.LegacyRayColor | main.cpp:26-43 | no contract; properties in `LegacyRayColorHalves`, `LegacyAllHitsAreBlack` and `LegacyOneBounce` |
| LegacyRayColors.Bounce | main.cpp:37-38 | the bounce ray starts at the hit point in the direction `normal + sample` |
| LegacyRayColors.LegacyRayColorHalves | main.cpp:26-43 | every colour is in the unit cube, and after a hit in [0, 0.5] per channel: each bounce halves the light |
| LegacyRayColors.LegacyAllHitsAreBlack | main.cpp:30-39 | a ray that hits at every bounce is black |
| LegacyRayColors.LegacyOneBounce | main.cpp:35-42 | one bounce before the sky gives half the sky colour in the bounce direction |
| Image.ImageHeightFromAspectRatio | src/main.cpp:18-20 | `IMAGE_HEIGHT = int(1920 / (16/9))` is 1080 |
| RowPartition.Rows | src/main.cpp:59 | no contract; properties in `RowsShape`, `RowsSplit` and `RowsExactlyOnce` |
| RowPartition.Partition | src/main.cpp:105-118 | no contract; the partition as written, with properties in `SplitRows`, `PartitionCoversRows`, `SingleThreadScansRowMinusOne` and `NoThreadsDividesByZero` |
| RowPartition.PartitionClamped | src/main.cpp:105-118 | no contract; the partition with the first end clamped too, with properties in `PartitionClampedCoversRows` and `PartitionsAgree` |
| RowPartition.RangesFrom | src/main.cpp:109-118 | one range per remaining thread, the first of them the current [start, end] |
| RowPartition.RangesFromShape | src/main.cpp:112-116 | each range starts one row below the previous end, and every end after the first has been clamped to at least 0 |
| RowPartition.SplitRows | src/main.cpp:105-118 | the partition loop produces exactly `Partition`: the ranges in thread order, or a division by zero for no threads |
| RowPartition.RowsShape | src/main.cpp:59 | `for (j = start; j >= end; --j)` visits start - end + 1 rows (none if start < end), in descending order |
| RowPartition.RowsSplit | src/main.cpp:59 | the rows down to `end` are the rows down to a middle row followed by the rest |
| RowPartition.RowsExactlyOnce | src/main.cpp:59 | the rows from top down to 0 are strictly decreasing and are exactly 0 .. top |
| RowPartition.RangesCoverFrom | src/main.cpp:109-118 | enough ranges of step + 1 rows, clamped at 0, concatenate to exactly the rows from their first start down to 0 |
| RowPartition.PartitionCoversRows | src/main.cpp:105-118 | with two threads or more the ranges are pairwise disjoint and cover every row once: their rows in thread order are height - 1 down to 0 |
| RowPartition.RangesAreConsecutive | src/main.cpp:112-113 | each range starts one row below where the previous one ended |
| RowPartition.SingleThreadScansRowMinusOne | src/main.cpp:105-117 | with one thread the first end is -1 and is never clamped, so the one range scans height + 1 rows, row -1 included |
| RowPartition.NoThreadsDividesByZero | src/main.cpp:105 | a thread count of 0 divides by zero |
| RowPartition.PartitionClampedCoversRows | src/main.cpp:105-118 | clamping the first end as well covers every row exactly once for every thread count ≥ 1 |
| RowPartition.PartitionsAgree | main.cpp:92-105 | from two threads on, the clamped and the as-written partitions are the same |
| Ppm.PixelLine | src/main.cpp:147 | no contract; properties in `PixelLineRoundTrip` |
| Ppm.Header | src/main.cpp:141-142 | the header has three lines; their text is stated by `HeaderText` |
| Ppm.PpmText | src/main.cpp:141-149 | no contract; properties in `PpmTextLayout` and `Scan.TopToBottom` |
| Ppm.NatToString | src/main.cpp:142 | a non-negative int is written as a non-empty string of decimal digits |
| Ppm.IntToString | src/main.cpp:147 | the text of an int is non-empty and starts with a minus sign exactly when the int is negative |
| Ppm.IntToStringHasNoSpace | src/main.cpp:147 | the text of an int contains no space, so the spaces of a pixel line separate its three numbers |
| Ppm.PixelLines | src/main.cpp:143-149 | one line per pixel |
| Ppm.NatRoundTrip | src/main.cpp:142 | the decimal digits of n read back as n |
| Ppm.IntRoundTrip | src/main.cpp:147 | the text of any int, negative ones included, reads back as that int |
| Ppm.PixelLineRoundTrip | src/main.cpp:147 | every "r g b" line reads back as the pixel it was written from |
| Ppm.HeaderText | src/main.cpp:141-142 | the header lines are "P3", "1920 1080" and "255" |
| Ppm.PpmTextLayout | src/main.cpp:141-149 | the output has three header lines and then, at line 3 + k, the k-th pixel |
| Ppm.LineAfterHeader | src/main.cpp:143-149 | after any three-line header, line 3 + k is the line of pixel k |
| Ppm.PixelLinesConcat | src/main.cpp:143-149 | writing two runs of pixels one after the other writes their lines one after the other |
| Scan.Sample | src/main.cpp:66-70 | no contract; sample s of pixel (i, j): the jittered (u, v), the camera's ray and its colour; summed by `RenderPixel` |
| Scan.PixelColor | src/main.cpp:64-73 | no contract; the rgb of a pixel's summed samples, which `RenderPixel` computes |
| Scan.PixelsOfRows | src/main.cpp:59-76 | no contract; properties in `PixelsOfRowsLayout`, `PixelsOfRowsConcat` and `ScanVertical` |
| Scan.RowPixels | src/main.cpp:62-74 | a row has exactly IMAGE_WIDTH pixels |
| Scan.Progress.constructor | src/main.cpp:103 | `progress` starts at the given value |
| Scan.Progress.Decrement | src/main.cpp:75 | `progress--` lowers the counter by one |
| Scan.RenderPixel | src/main.cpp:64-73 | the sample loop sums SAMPLES_PER_PIXEL sample colours and writes that sum's rgb |
| Scan.ScanRow | src/main.cpp:62-74 | the pixel loop appends row j's pixels left to right |
| Scan.ScanVertical | src/main.cpp:53-77 | `scan_vertical` appends the pixels of rows start down to end, row after row, and lowers `progress` once per row |
| Scan.ScanFinished | src/main.cpp:59 | when `j >= end` fails, the loop has visited exactly the rows start down to end, none if start < end |
| Scan.ScanRanges | src/main.cpp:109-111 | worker i's buffer holds exactly the pixels of range i, and `progress` drops by the number of rows scanned |
| Scan.WriteBuffer | src/main.cpp:145-148 | one buffer is written as one line per pixel, in order |
| Scan.WriteBuffers | src/main.cpp:143-149 | the buffers are written in thread order |
| Scan.Render | src/main.cpp:95-149 | the output is the header and the lines of the partition's rows in order. From two threads on, that is every row top to bottom and `progress` ends at 0. With one thread there are IMAGE_WIDTH extra lines and `progress` ends at -1. No threads divides by zero |
| Scan.PixelsOfRowsConcat | src/main.cpp:143-149 | scanning two runs of rows in turn gives their pixels in turn |
| Scan.PixelsOfRowsLayout | src/main.cpp:59-74 | a buffer has IMAGE_WIDTH pixels per row, and pixel k * IMAGE_WIDTH + i is pixel i of its k-th row |
| Scan.ScanBufferLength | src/main.cpp:59-74 | a worker's buffer has (start - end + 1) * IMAGE_WIDTH pixels when start ≥ end, none otherwise |
| Scan.RenderFacts | src/main.cpp:103-118 | from two threads on every row is scanned once and `progress` ends at 0; with one thread it ends at -1 and one extra row is written |
| Scan.TopToBottom | src/main.cpp:141-149 | for any height, output line 3 + k * IMAGE_WIDTH + i is pixel i of row height - 1 - k |
| Scan.ImageIsTopToBottom | main.cpp:128-136 | the image is written top row first: line 3 + k * 1920 + i is pixel i of row 1079 - k |
| CmdOpts.ParsePrefix | src/cmd/cmd_opts.h:27-33 | parsing writes only existing members: the record keeps its set of fields |
| CmdOpts.Options.constructor | src/cmd/cmd_opts.h:51 | a new object has the default option record and no callbacks |
| CmdOpts.Options.RegisterCallback | src/cmd/cmd_opts.h:57-76 | `register_callback` sets the callback of `name`, replacing an earlier one, and changes no option |
| CmdOpts.Options.Create | src/cmd/cmd_opts.h:37-45 | `create` returns a fresh object with the default record and the callbacks of the arguments registered in order |
| CmdOpts.Options.Invoke | src/cmd/cmd_opts.h:59-75 | a callback acts only when argv[idx] is exactly its name and a token follows; it then reads argv[idx + 1] into its member |
| CmdOpts.Options.RunCallbacks | src/cmd/cmd_opts.h:29-32 | running every callback at one index, in any order, has the effect of the one registered under argv[idx], if any |
| CmdOpts.Options.Parse | src/cmd/cmd_opts.h:24-35 | `parse` visits every index from 0 upward and returns the resulting record |
| CmdOpts.RegisteredNames | src/cmd/cmd_opts.h:40-43 | the names with a callback are exactly the names of the arguments |
| CmdOpts.LastRegistrationWins | src/cmd/cmd_opts.h:59 | registering a name twice keeps only the last property |
| CmdOpts.UnwrittenFieldKeepsDefault | src/cmd/cmd_opts.h:34 | a member no option writes keeps its default in the returned copy |
| CmdOpts.LaterOptionsKeepField | src/cmd/cmd_opts.h:27-33 | options for other members after the last write of a member leave it alone |
| CmdOpts.LastOccurrenceWins | src/cmd/cmd_opts.h:27-33 | when an option occurs several times, the member holds what was read from the token after its last occurrence |
| CmdOpts.FlagAtEndChangesNothing | src/cmd/cmd_opts.h:66 | an option name in the last position changes nothing |
| CmdOpts.OnlyWrittenFieldsChange | src/cmd/cmd_opts.h:61-71 | a member that changed was written by some option followed by a value token |
| CmdOpts.ProgramNameIsScanned | src/cmd/cmd_opts.h:27 | index 0 is scanned too: a program name equal to an option name reads argv[1] into that option's member |
| CmdOpts.ValueTokenIsScannedAgain | src/cmd/cmd_opts.h:27-33 | a value token is scanned as an option in its turn: in `prog a b v`, a reads the token "b" and b reads v |

## Left out

- Threads: the mutex, the atomics, `runningThreadCount`, the polling loops with their sleeps,
  and `join` are not modelled. The workers run one after the other on the shared `progress`
  counter. This is the order the threads would produce if they did not interleave.
- Diagnostics on standard error are not modelled. These are the "Scan from" lines, the
  progress display, the comparator's "No bounding box" message and the failed-load message.
  Standard output is modelled as its sequence of lines.
- Floating point: doubles are reals, and no rounding, infinity or NaN is modelled.
  - `sqrt`, `sin`, and the `acos`/`atan2` of `get_sphere_uv` are function values.
  - The y component of `unit_vector(r.direction())` in the sky gradient is a function of the
    ray.
  - `length`, `unit_vector`, `random_unit_vector` and `refract` are not modelled.
- Random draws: every `random_double` is a parameter. The rejection loops run over a finite
  sequence of draws and return nothing when none is accepted; termination of the unbounded loop
  is not modelled.
- Vectors.Div: requires t ≠ 0, because real division by zero has no IEEE infinity.
- Spheres.HitSphere: requires a non-zero ray direction and a non-zero radius. The source
  divides by both and would go on with infinities or NaN.
- MovingSpheres.MovingCenter: requires time1 ≠ time0. The source divides by their difference.
- YzRects.HitYzRect: requires a non-zero x direction, y1 ≠ y0 and z1 ≠ z0. The source divides
  by all three.
- Hittables.Hit: requires the conditions above of every object it reaches.
- The ray, camera, colour, aabb, hittable and headers files are not part of this model.
  - The ray is origin, direction and time, with `at(t) = origin + t * direction`.
  - `camera.get_ray` and `write_color` are functions in `Scan.Scene`.
  - `surrounding_box` is the component-wise min and max of the corners.
  - `set_face_normal` turns the outward normal against the ray.
  - `clamp` clamps.
- Scan.Render: the colour of each sample is the free function `Scene.rayColor`, standing for
  `ray_color(r, world, MAX_DEPTH)` together with that sample's own random draws. The rendering
  driver is therefore not connected to `RayColors.RayColor` or to the scene's world, and no
  property of `Render`, `ScanVertical` or `TopToBottom` depends on what the colours are.
- The older ray of main.cpp takes no time. The bounce ray of `LegacyRayColors.Bounce` is given
  time 0.
- The lambertian and metal materials that src/main.cpp builds its scene from are not part of
  this model. The world and the material scatter are parameters of `ray_color`.
- The scene and camera set-up at the start of `main` is not modelled. The world is a parameter.
- src/texture/noise_texture.h is not modelled: it only wraps a Perlin noise generator that is
  not part of this model.
- The default constructors that leave members unset are not modelled. These are `sphere()`,
  `moving_sphere()`, `yz_rect()`, and `checker_texture()` with null children.
- The `stbi_load` decoder is a parameter. The destructor's `delete` of the pixel data is not
  modelled.
- `thread_count` is a `nat`. `hardware_concurrency` returns an unsigned count that may be 0.
- C++ `int` is unbounded here. No integer in the renderer comes near overflow at 1920 x 1080.
- Textures.PixelOffsetInBounds: the byte offset is computed on unbounded integers. For images of
  more than about 700 million pixels the source's `int` product would overflow.
- The `std::stringstream` extraction of an option value is a parameter `convert(kind, token,
  old)`. Its parsing rules for int, double, bool and string are not modelled.
- The std::map order in which `parse` runs the callbacks is not modelled. `RunCallbacks` takes
  them in any order, which is equivalent because at most one name equals argv[idx].

## Findings

| source | as written | input that shows it | evidently intended | confidence | as-written member | corrected member |
|---|---|---|---|---|---|---|
| src/main.cpp:105-117 (and main.cpp:92-104) | the first range's end, `IMAGE_HEIGHT - 1 - vertical_step`, is never clamped at 0 | `thread_count = 1`: the one range is [1079, -1]. Row -1 is scanned, 1920 pixel lines more than the header announces are written, and `progress` ends at -1 | clamp the first end like the later ones, so the ranges cover rows 1079 .. 0 exactly once for every thread count ≥ 1 | high; not executed | RowPartition.SingleThreadScansRowMinusOne | RowPartition.PartitionClampedCoversRows |
| src/geometry/sphere.h:80 | `get_sphere_uv` is handed the hit point `rec.p` | the sphere of radius 0.5 at (0, 0, -1) of src/main.cpp:89, hit by the ray from the origin along -z at (0, 0, -0.5): that point has squared length 0.25, not 1, while the outward normal there is (0, 0, 1) | hand over the outward normal, which the comment at sphere.h:35 describes as "a given point on the sphere of radius one, centered at the origin" | high; not executed | Spheres.UvArgumentAsWrittenOffUnitSphere | Spheres.UvArgumentOnUnitSphere |

Both findings are modelled as written. `Spheres.HitSphere` hands the hit point to
`get_sphere_uv`, as the source does; `Spheres.UvArgument` is the corrected argument, and
`Spheres.UvArgumentOnUnitSphere` proves it lies on the unit sphere for every surface point. The
rendering driver `Scan.Render` keeps the partition as written, because its single-thread result
is the visible effect of the first finding. `RowPartition.PartitionsAgree` shows that every claim it makes for two threads or more
holds for the corrected partition as well.
