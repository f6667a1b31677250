# Ray–solid intersection of the `zadaca2` ray tracer

This project models the intersection layer of the ray tracer in `zadaca2/objects.h`.
There, every solid of a scene answers `ray_intersect(ray, t, normal)`. The call
returns whether the ray hits the solid. On a hit the out-parameter `t` holds the
distance (the hit point is `origin + direction * t`). The out-parameter `normal`
may receive a normal: the sphere test always writes one on a hit, and the box test
writes one only when the ray's origin lies near one of the box's face planes. The
model has one module per part:

- `Geometry` (geometry.dfy): vectors, rays, the dot product and `Normalize`.
  `Outcome(hit, t, normal)` is what a call leaves behind: the returned flag and
  both out-parameters. Each test takes the caller's `t` and `normal` as inputs, so
  the model can state which paths leave them unchanged.
- `SphereHit` (sphere.dfy) models `Sphere::ray_intersect` as a pure function. It
  computes the discriminant of `|d|² t² + 2 (d·L) t + (L·L − r²) = 0`, where
  `L = origin − c`. If the origin is inside or on the sphere it takes the
  `+√disc` root, otherwise the `−√disc` root. It never checks the sign of `t`.
  The normal is the normalised vector from the centre to the hit point.
- `CuboidHit` (cuboid.dfy) models `Cuboid::ray_intersect` with the slab method.
  - The method `Intersect` runs the three unrolled axis blocks of the source as
    one loop over x, y and z, in that order.
  - It narrows `[tmin, tmax]`, starting from `[0, 1e8]`, and stores `tmin` into
    `t` after every block that passes.
  - It then picks the normal from the first face plane, in the order a.x, b.x,
    a.y, b.y, a.z, b.z, that the ray's ORIGIN lies within 0.01 of.
  - The method is proved against the specification functions `Narrow` (the
    interval after k blocks, or None once a block has failed), `LastEntry` (the
    value of `t` after k blocks) and `Result`.
  - Its contract also states the geometric meaning: it hits exactly when some
    distance in `[0, 1e8]` puts the ray inside the box, and the reported `t` is
    the least such distance.
- `Objects` (objects.dfy) turns the abstract class `Object` into the sum type
  `Shape` and its virtual call into a `match`. `Material` is carried along and
  never read.
- `RealArith` (realarith.dfy) holds small facts about products of reals that
  the solver does not find unaided.

Scalars are idealised as `real`. The library square root is a parameter `sqrt`
that obeys `IsSqrt`: for every `x >= 0`, `sqrt(x) >= 0` and `sqrt(x)² = x`.

Three quirks of the code are kept as written and shown by concrete lemmas:

- A sphere behind the ray reports a hit at a negative distance (`SphereHit.ScenarioBehind`).
- The box normal depends on the ray's origin, not on the face that was hit. With
  no face near the origin, the caller's `normal` comes back untouched (`CuboidHit.ScenarioCube`).
- The sign of the box normal follows which corner is `a` and which is `b`. It can
  point into the box (`CuboidHit.CornerOrderFlipsNormal`), as for the top faces
  of the boxes `c1` and `c2` in `zadaca2/raytrace.cpp`.

Three behaviours of the code worth knowing:

- The initial `tmax` is the constant `100000000`, not an unbounded value.
- A box ray starting at (5, 5, 5) along +x misses the unit cube already in the
  x block, because both crossings lie behind the origin.
- A box hit does not always come with a unit outward normal. The normal may be
  the caller's unchanged vector, and it may point inwards.

## Model

| member | source | states |
|---|---|---|
| Geometry.Normalize | zadaca2/objects.h:52 | `normalize()` gives a unit vector, and that vector times the original length is the original vector |
| SphereHit.Intersect | zadaca2/objects.h:26-55 | the sphere test hits iff the discriminant is not negative; a miss leaves `t` and `normal` as the caller passed them; a hit's `t` solves the sphere's quadratic; a hit's normal has unit length |
| SphereHit.Discriminant | zadaca2/objects.h:31 | at every `u`, (\|d\|² u + d·L)² equals \|d\|² times the quadratic at `u` plus `disc`, so the discriminant is the completed square at a solution |
| SphereHit.OriginInside | zadaca2/objects.h:39 | when the origin is inside or on the sphere the discriminant is not negative |
| SphereHit.Root | zadaca2/objects.h:39-48 | the root taken from inside or on the sphere satisfies \|d\|² t + d·L = +√disc, and the root taken from outside satisfies \|d\|² t + d·L = −√disc |
| SphereHit.SolutionOnSphere | zadaca2/objects.h:51 | a solution of the quadratic puts `origin + d t` at distance \|r\| from the centre, a non-zero distance |
| SphereHit.SolutionIsFormulaRoot | zadaca2/objects.h:31 | every solution of the quadratic makes the discriminant non-negative and is one of the two formula roots |
| SphereHit.HitIffLineMeetsSphere | zadaca2/objects.h:31-36 | the test reports a hit exactly when the quadratic has some real solution, so a negative discriminant means the ray's line misses the sphere |
| SphereHit.RootOrder | zadaca2/objects.h:42-47 | the `+√disc` root is the largest solution of the quadratic and the `−√disc` root the smallest |
| SphereHit.InsideTakesFarRoot | zadaca2/objects.h:31-43 | with the origin inside or on the sphere the test always hits, and it reports the larger root, which is not negative |
| SphereHit.OutsideTakesNearRoot | zadaca2/objects.h:45-48 | with the origin outside, a hit reports the smallest solution, with no sign check |
| SphereHit.TangentHitsAtOnlyRoot | zadaca2/objects.h:31-33 | a zero discriminant (tangent ray) is a hit, and its `t` is the only solution of the quadratic |
| SphereHit.NormalIsOutward | zadaca2/objects.h:51-52 | on a hit the point `origin + d t` is at distance \|r\| from the centre, and \|r\| times the normal is the vector from the centre to that point |
| SphereHit.ScenarioFront | zadaca2/objects.h:26-55 | centre (0,0,-5), radius 2, ray from the origin along −z: hit at t = 3 with normal (0,0,1) |
| SphereHit.ScenarioBehind | zadaca2/objects.h:45-48 | the same ray and a sphere at (0,0,5) behind it: a hit is still reported, at t = −7 |
| CuboidHit.Intersect | zadaca2/objects.h:66-167 | the block-by-block test computes `Result`; it hits iff some distance in [0, 1e8] puts the ray in the box; a hit's `t` puts the ray in the box and is the least such distance; a miss leaves `normal` unchanged and leaves `t` either as passed or at some intermediate `tmin` in [0, 1e8] |
| CuboidHit.Crossings | zadaca2/objects.h:81-86 | after the swap the two crossings are in order; for `d > 0` the `min` plane is crossed first, for `d < 0` the `max` plane |
| CuboidHit.AxisStep | zadaca2/objects.h:76-94 | with a zero direction component the block fails exactly when the origin is outside [min, max] and otherwise keeps the interval; a passing block only narrows the interval, and with a non-zero component leaves `0 <= tmax` and `tmin <= tmax` |
| CuboidHit.Narrow | zadaca2/objects.h:67-140 | the interval after any number of blocks that pass satisfies `0 <= tmin <= tmax <= 1e8` |
| CuboidHit.LastEntry | zadaca2/objects.h:96-140 | `t` after any number of blocks is either the caller's value or a `tmin` in [0, 1e8] |
| CuboidHit.FaceNormal | zadaca2/objects.h:142-164 | the normal after a hit is either the caller's own or one of the six axis unit vectors |
| CuboidHit.Result | zadaca2/objects.h:66-167 | a hit's `t` is in [0, 1e8] and its normal is the caller's or an axis unit vector; a miss leaves `normal` unchanged and `t` as passed or at some intermediate `tmin` in [0, 1e8] |
| CuboidHit.CrossingsBoundSlab | zadaca2/objects.h:81-86 | for a non-zero direction component, after the swap the ray is within the slab exactly for distances between `t1` and `t2` |
| CuboidHit.AxisStepExact | zadaca2/objects.h:76-94 | one axis block keeps exactly the distances of the current interval at which the ray is within that slab, and it fails exactly when there are none |
| CuboidHit.NarrowExact | zadaca2/objects.h:67-140 | after k blocks, `0 <= tmin <= tmax <= 1e8`, and `[tmin, tmax]` is exactly the set of distances in [0, 1e8] at which the ray is within the first k slabs; a failed block means there are no such distances |
| CuboidHit.NarrowShrinks | zadaca2/objects.h:88-133 | across the blocks `tmin` never decreases and `tmax` never increases |
| CuboidHit.FailureIsFinal | zadaca2/objects.h:91-137 | once a block returns false the test misses, and `t` keeps the value of the last block that passed |
| CuboidHit.ResultMeaning | zadaca2/objects.h:66-140 | the box test hits exactly when some distance in [0, 1e8] puts the ray in the closed box, and then `t` is the least such distance; a miss leaves `normal` unchanged |
| CuboidHit.ParallelOutsideMisses | zadaca2/objects.h:76-78 | a zero direction component with the origin outside that axis's [min, max] is a miss (likewise lines 98-100 and 120-122) |
| CuboidHit.NarrowCornerOrder | zadaca2/objects.h:69-74 | the interval after every block is the same whichever corner is `a` and which is `b` |
| CuboidHit.LastEntryCornerOrder | zadaca2/objects.h:69-74 | the value written to `t` does not depend on the order of the corners |
| CuboidHit.CornerOrderKeepsDistance | zadaca2/objects.h:69-74 | swapping the corners changes neither the verdict nor the distance |
| CuboidHit.CornerOrderFlipsNormal | zadaca2/objects.h:142-164 | swapping the corners flips the normal: box (5,0,-10)/(12,-5,-7) and a ray leaving its top face downwards get (0,-1,0), and with the corners swapped (0,1,0) |
| CuboidHit.FirstTouched | zadaca2/objects.h:142-166 | the search returns the normal of the first face whose plane the origin touches, or the fallback when it touches none |
| CuboidHit.FaceNormalIsFirstTouched | zadaca2/objects.h:142-166 | the chain of six comparisons is that first-match search over the faces a.x, b.x, a.y, b.y, a.z, b.z |
| CuboidHit.FaceNormalChoice | zadaca2/objects.h:142-166 | after a hit the normal is the caller's own if the origin touches no face plane, and otherwise an axis-aligned unit vector |
| CuboidHit.ScenarioCube | zadaca2/objects.h:66-167 | cube (-1,-1,-1)/(1,1,1), ray from (0,0,-5) along +z: hit at t = 4 with the normal left as passed in |
| CuboidHit.ScenarioParallelMiss | zadaca2/objects.h:76-93 | the same cube and a ray from (5,5,5) along +x: a miss in the x block, with `t` unchanged |
| CuboidHit.ScenarioMissOverwritesT | zadaca2/objects.h:96-100 | a ray from (0,5,0) along +x passes the x block, which sets `t` to 0, then misses in the y block, so a miss can still change `t` |
| Objects.Intersection | zadaca2/objects.h:7-12 | whichever the solid, a miss leaves `normal` unchanged |
| Objects.RayIntersect | zadaca2/objects.h:11 | the virtual `ray_intersect` dispatches to the sphere function or the box method and yields `Intersection` |
| Objects.HitPointInSolid | zadaca2/objects.h:7-12 | for every solid, a reported hit point `origin + d t` lies in the solid: in the closed ball and at distance exactly \|r\| from a sphere's centre, in the closed box for a cuboid |
| Objects.CuboidDistanceNonNegative | zadaca2/objects.h:91 | a box hit is never behind the origin: `0 <= t <= 1e8` |

## Left out

- Floating point is not modelled. All arithmetic is exact `real` arithmetic: there is no rounding, no `pow(x, 2)` versus `x * x` difference and no infinity or NaN.
- An axis with a zero direction component and the origin inside that slab imposes no constraint in the model. The code still divides there. For a component of +0.0 it gets ±inf, or NaN when the origin lies exactly on a face plane. With the argument order of `std::max(tmin, t1)` and `std::min(tmax, t2)`, a NaN leaves the interval as it was, and the infinities never narrow it either, so the outcome is the same.
- CuboidHit.AxisStep: a direction component of −0.0 with the origin exactly on a face plane of a slab of non-zero width is not modelled, because `real` has no signed zero. There the code misses: on the `min` plane it gets `t1 = NaN` and `t2 = −inf`, so `tmax` becomes −inf; on the `max` plane it gets `t1 = +inf`, so `tmin` becomes +inf. The model treats that axis as unconstrained.
- The comparison `abs(origin[i] - corner[i]) < 0.01` is read as the floating-point `abs`.
- The library `sqrt` is not part of this model. Every sphere member takes a `sqrt` parameter that obeys `IsSqrt`.
- `geometry.h`, `ray.h` and `material.h` are not part of this model. `Vec3` keeps only add, subtract, scale and dot, and `Material` is an opaque colour.
- Geometry.Normalize: since `geometry.h` is not available, `normalize()` is modelled as v / \|v\|, dividing by the `sqrt` parameter's root. The model assumes it is applied only to a non-zero vector.
- SphereHit.Intersect requires a non-zero direction and a non-zero radius, which the code does not check. The code divides by `|d|²`. With `r = 0` a hit is the centre itself, whose normal is 0/0. Both give infinities or NaN that `real` cannot represent.
- Objects.Admissible states those same two conditions for spheres.
- The constructors of `Sphere` and `Cuboid` are left out: they only store their arguments.
- `Scene::cast_ray` is left out: it is the nearest-hit selection, shading and lights. `scene.h` and `light.h` are not part of this model.
- `render`, `main` and `ray_to_pixel` in `zadaca2/raytrace.cpp` are left out. They are camera set-up, a pixel loop and image output to a file.
- Calling the same test twice with the same inputs gives the same result. The model states this only implicitly: every test is a function of its inputs.
