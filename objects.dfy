/** The solids of a scene behind the one operation `Object::ray_intersect`: the
    class hierarchy becomes a sum type and the virtual call a `match`. */
module Objects {
  import opened Geometry
  import SphereHit
  import CuboidHit

  /** A surface colour. Materials are carried by every solid and never read by the
      hit tests. */
  datatype Material = Material(colour: Vec3)

  datatype Shape =
    | Sphere(c: Vec3, r: real, material: Material)
    | Cuboid(a: Vec3, b: Vec3, material: Material)

  /** What a hit test needs from its caller: a sphere has a non-zero radius and the
      ray a non-zero direction (the sphere test divides by |d|^2); a box takes any ray. */
  predicate Admissible(shape: Shape, ray: Ray)
  {
    match shape
    case Sphere(_, r, _) => r != 0.0 && 0.0 < Dot(ray.direction, ray.direction)
    case Cuboid(_, _, _) => true
  }

  /** The solid as a closed region of space. */
  predicate InSolid(shape: Shape, p: Vec3)
  {
    match shape
    case Sphere(c, r, _) => Dot(Sub(p, c), Sub(p, c)) <= r * r
    case Cuboid(a, b, _) => CuboidHit.InBox(a, b, p)
  }

  /** The outcome of `shape.ray_intersect(ray, t, normal)`. */
  function Intersection(shape: Shape, ray: Ray, t: real, normal: Vec3, sqrt: real -> real): (res: Outcome)
    requires IsSqrt(sqrt) && Admissible(shape, ray)
    ensures !res.hit ==> res.normal == normal
  {
    match shape
    case Sphere(c, r, _) => SphereHit.Intersect(c, r, ray, t, normal, sqrt)
    case Cuboid(a, b, _) =>
      CuboidHit.ResultMeaning(a, b, ray, t, normal);
      CuboidHit.Result(a, b, ray, t, normal)
  }

  /** The dispatch of `Object::ray_intersect` to the shape's own test. */
  method RayIntersect(shape: Shape, ray: Ray, t: real, normal: Vec3, sqrt: real -> real) returns (res: Outcome)
    requires IsSqrt(sqrt) && Admissible(shape, ray)
    ensures res == Intersection(shape, ray, t, normal, sqrt)
  {
    match shape
    case Sphere(c, r, _) =>
      res := SphereHit.Intersect(c, r, ray, t, normal, sqrt);
    case Cuboid(a, b, _) =>
      res := CuboidHit.Intersect(a, b, ray, t, normal);
  }

  /** Whatever the shape, a reported hit point `origin + d t` belongs to the solid;
      for a sphere it lies on the surface. */
  lemma HitPointInSolid(shape: Shape, ray: Ray, t: real, normal: Vec3, sqrt: real -> real)
    requires IsSqrt(sqrt) && Admissible(shape, ray)
    requires Intersection(shape, ray, t, normal, sqrt).hit
    ensures InSolid(shape, PointAt(ray, Intersection(shape, ray, t, normal, sqrt).t))
    ensures shape.Sphere? ==>
      var v := Sub(PointAt(ray, Intersection(shape, ray, t, normal, sqrt).t), shape.c);
      Dot(v, v) == shape.r * shape.r
  {
    match shape
    case Sphere(c, r, _) =>
      SphereHit.NormalIsOutward(c, r, ray, t, normal, sqrt);
    case Cuboid(a, b, _) =>
      CuboidHit.ResultMeaning(a, b, ray, t, normal);
  }

  /** A box never reports a hit behind the ray's origin; a sphere can (see
      `SphereHit.ScenarioBehind`). */
  lemma CuboidDistanceNonNegative(shape: Shape, ray: Ray, t: real, normal: Vec3, sqrt: real -> real)
    requires IsSqrt(sqrt) && shape.Cuboid?
    requires Intersection(shape, ray, t, normal, sqrt).hit
    ensures 0.0 <= Intersection(shape, ray, t, normal, sqrt).t <= CuboidHit.Far
  {
    CuboidHit.ResultMeaning(shape.a, shape.b, ray, t, normal);
  }
}
