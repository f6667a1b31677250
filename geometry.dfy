/** Vectors, rays and the result of a hit test: the small part of the
    vector library and of the ray type that the intersection layer uses.
    Scalars are idealised as `real` (no rounding, no infinities). */
module Geometry {
  import opened RealArith

  datatype Vec3 = Vec3(x: real, y: real, z: real)

  /** An axis index, as used by `v[0]`, `v[1]`, `v[2]`. */
  type Axis = i: int | 0 <= i < 3

  function Coord(v: Vec3, i: Axis): real
  {
    if i == 0 then v.x else if i == 1 then v.y else v.z
  }

  function Add(u: Vec3, v: Vec3): Vec3
  {
    Vec3(u.x + v.x, u.y + v.y, u.z + v.z)
  }

  function Sub(u: Vec3, v: Vec3): Vec3
  {
    Vec3(u.x - v.x, u.y - v.y, u.z - v.z)
  }

  function Scale(v: Vec3, k: real): Vec3
  {
    Vec3(v.x * k, v.y * k, v.z * k)
  }

  /** The product `u * v` of two vectors, which is their dot product. */
  function Dot(u: Vec3, v: Vec3): real
  {
    u.x * v.x + u.y * v.y + u.z * v.z
  }

  function Abs(x: real): real
  {
    if x < 0.0 then -x else x
  }

  lemma AbsSquare(x: real)
    ensures Abs(x) * Abs(x) == x * x
  {
  }

  /** A ray: the points `origin + direction * t`. The direction need not be a unit vector. */
  datatype Ray = Ray(origin: Vec3, direction: Vec3)

  function PointAt(ray: Ray, t: real): Vec3
  {
    Add(ray.origin, Scale(ray.direction, t))
  }

  /** What a call of `ray_intersect(ray, t, normal)` leaves behind: the returned
      flag and the two out-parameters. */
  datatype Outcome = Outcome(hit: bool, t: real, normal: Vec3)

  predicate NonNegative(x: real)
  {
    0.0 <= x
  }

  /** `sqrt` behaves as the square root on non-negative reals. The library square
      root is not part of this model: every member that needs it takes one as a
      parameter obeying this law. */
  ghost predicate IsSqrt(sqrt: real -> real)
  {
    forall x {:trigger sqrt(x)} :: NonNegative(x) ==> NonNegative(sqrt(x)) && sqrt(x) * sqrt(x) == x
  }

  /** The square `v * v` of a vector is never negative. */
  lemma DotSelfNonNegative(v: Vec3)
    ensures 0.0 <= Dot(v, v)
  {
    SquareNonNegative(v.x, v.x * v.x);
    SquareNonNegative(v.y, v.y * v.y);
    SquareNonNegative(v.z, v.z * v.z);
  }

  /** Squaring a scaled vector scales its square by the square of the factor. */
  lemma DotScale(v: Vec3, k: real)
    ensures Dot(Scale(v, k), Scale(v, k)) == k * k * Dot(v, v)
  {
    calc {
      Dot(Scale(v, k), Scale(v, k));
      (v.x * k) * (v.x * k) + (v.y * k) * (v.y * k) + (v.z * k) * (v.z * k);
      k * k * (v.x * v.x) + k * k * (v.y * v.y) + k * k * (v.z * v.z);
    }
  }

  /** The unit vector along `v`, modelled as `v * (1 / |v|)`. The model assumes that
      a zero vector has no normalisation (it would divide by zero), so a non-zero `v`
      is required. */
  function Normalize(v: Vec3, sqrt: real -> real): (u: Vec3)
    requires IsSqrt(sqrt)
    requires 0.0 < Dot(v, v)
    ensures Dot(u, u) == 1.0
    ensures Scale(u, sqrt(Dot(v, v))) == v
  {
    var len := sqrt(Dot(v, v));
    assert 0.0 <= len && len * len == Dot(v, v);
    assert len != 0.0;
    var u := Scale(v, 1.0 / len);
    DotScale(v, 1.0 / len);
    assert (1.0 / len) * (1.0 / len) * (len * len) == 1.0;
    assert Scale(u, len) == v by {
      assert (1.0 / len) * len == 1.0;
      assert v.x * (1.0 / len) * len == v.x;
      assert v.y * (1.0 / len) * len == v.y;
      assert v.z * (1.0 / len) * len == v.z;
    }
    u
  }
}
