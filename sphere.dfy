/** The sphere hit test `Sphere::ray_intersect`: solve
    |d|^2 t^2 + 2 (d.L) t + (L.L - r^2) = 0 with L = origin - c and pick one root. */
module SphereHit {
  import opened Geometry
  import opened RealArith

  /** The vector from the centre to the ray's origin (`e_minus_c`). */
  function Offset(c: Vec3, ray: Ray): Vec3
  {
    Sub(ray.origin, c)
  }

  /** The left-hand side of the sphere's quadratic at `s`. */
  function Quadratic(c: Vec3, r: real, ray: Ray, s: real): real
  {
    var l := Offset(c, ray);
    Dot(ray.direction, ray.direction) * s * s + 2.0 * Dot(ray.direction, l) * s + (Dot(l, l) - r * r)
  }

  /** The discriminant `(d.L)^2 - |d|^2 (L.L - r^2)` (`disc`): at every `u`,
      (|d|^2 u + d.L)^2 is |d|^2 times the quadratic plus `disc`, so at a solution
      the discriminant is that square. */
  function Discriminant(c: Vec3, r: real, ray: Ray): (disc: real)
    ensures forall u :: (Dot(ray.direction, ray.direction) * u + Dot(ray.direction, Offset(c, ray)))
                        * (Dot(ray.direction, ray.direction) * u + Dot(ray.direction, Offset(c, ray)))
                      == Dot(ray.direction, ray.direction) * Quadratic(c, r, ray, u) + disc
  {
    var l := Offset(c, ray);
    var a, b, q := Dot(ray.direction, ray.direction), Dot(ray.direction, l), Dot(l, l) - r * r;
    assert forall u :: (a * u + b) * (a * u + b) == a * Quadratic(c, r, ray, u) + (b * b - a * q) by {
      forall u
        ensures (a * u + b) * (a * u + b) == a * Quadratic(c, r, ray, u) + (b * b - a * q)
      {
        CompletedSquare(a, b, q, u);
      }
    }
    b * b - a * q
  }

  /** The origin lies inside or on the sphere (`ray_inside_sphere`); then the
      discriminant cannot be negative. */
  function OriginInside(c: Vec3, r: real, ray: Ray): (inside: bool)
    ensures inside ==> 0.0 <= Discriminant(c, r, ray)
  {
    var l := Offset(c, ray);
    if Dot(l, l) <= r * r then
      DotSelfNonNegative(ray.direction);
      DiscriminantAtLeastSquare(Dot(ray.direction, ray.direction), Dot(ray.direction, l), Dot(l, l) - r * r,
        Discriminant(c, r, ray));
      true
    else
      false
  }

  /** Either root of the quadratic formula solves the quadratic. */
  lemma FormulaRootSolves(a: real, b: real, q: real, s: real, t: real)
    requires 0.0 < a && s * s == b * b - a * q
    requires a * t == -b + s || a * t == -b - s
    ensures a * t * t + 2.0 * b * t + q == 0.0
  {
    assert a * (a * t * t + 2.0 * b * t + q) == (a * t) * (a * t + 2.0 * b) + a * q;
    assert (a * t) * (a * t + 2.0 * b) == s * s - b * b;
  }

  /** Completing the square: (a u + b)^2 is `a` times the quadratic plus b^2 - a q. */
  lemma CompletedSquare(a: real, b: real, q: real, u: real)
    ensures (a * u + b) * (a * u + b) == a * (a * u * u + 2.0 * b * u + q) + (b * b - a * q)
  {
  }

  /** A point of the ray lies on the sphere exactly when its parameter solves the quadratic. */
  lemma DistanceFromCentre(c: Vec3, r: real, ray: Ray, s: real)
    ensures Dot(Sub(PointAt(ray, s), c), Sub(PointAt(ray, s), c)) == Quadratic(c, r, ray, s) + r * r
  {
    var d, l := ray.direction, Offset(c, ray);
    assert Sub(PointAt(ray, s), c) == Add(l, Scale(d, s));
    calc {
      Dot(Add(l, Scale(d, s)), Add(l, Scale(d, s)));
      (l.x + d.x * s) * (l.x + d.x * s) + (l.y + d.y * s) * (l.y + d.y * s) + (l.z + d.z * s) * (l.z + d.z * s);
      Dot(d, d) * s * s + 2.0 * Dot(d, l) * s + Dot(l, l);
    }
  }

  /** A solution of the quadratic puts the ray's point at distance `r` from the centre. */
  lemma SolutionOnSphere(c: Vec3, r: real, ray: Ray, s: real)
    requires r != 0.0
    requires Quadratic(c, r, ray, s) == 0.0
    ensures Dot(Sub(PointAt(ray, s), c), Sub(PointAt(ray, s), c)) == r * r
    ensures 0.0 < Dot(Sub(PointAt(ray, s), c), Sub(PointAt(ray, s), c))
  {
    DistanceFromCentre(c, r, ray, s);
    SquarePositive(r, Dot(Sub(PointAt(ray, s), c), Sub(PointAt(ray, s), c)));
  }

  /** The root the test picks when the discriminant is not negative: the one with
      +sqrt(disc) when the origin is inside or on the sphere (`t1`), the one with
      -sqrt(disc) otherwise (`t2`). Stated as |d|^2 t + d.L = +-sqrt(disc). */
  function Root(c: Vec3, r: real, ray: Ray, sqrt: real -> real): (t: real)
    requires IsSqrt(sqrt)
    requires 0.0 < Dot(ray.direction, ray.direction) && 0.0 <= Discriminant(c, r, ray)
    ensures var w := Dot(ray.direction, ray.direction) * t + Dot(ray.direction, Offset(c, ray));
      var s := sqrt(Discriminant(c, r, ray));
      0.0 <= s && (OriginInside(c, r, ray) ==> w == s) && (!OriginInside(c, r, ray) ==> w == -s)
  {
    var l := Offset(c, ray);
    var d2 := Dot(ray.direction, ray.direction);
    var s := sqrt(Discriminant(c, r, ray));
    var b := Dot(ray.direction, l);
    if Dot(l, l) <= r * r then
      DivMul(-b + s, d2, (-b + s) / d2);
      (-b + s) / d2
    else
      DivMul(-b - s, d2, (-b - s) / d2);
      (-b - s) / d2
  }

  /** `Sphere::ray_intersect`. `t` and `normal` are the caller's variables before
      the call; on a miss they come back unchanged. The direction must not be zero
      (the source divides by |d|^2) and the radius must not be zero (a hit would then
      be the centre itself, whose normal is undefined). */
  function Intersect(c: Vec3, r: real, ray: Ray, t: real, normal: Vec3, sqrt: real -> real): (res: Outcome)
    requires IsSqrt(sqrt)
    requires r != 0.0 && 0.0 < Dot(ray.direction, ray.direction)
    ensures res.hit <==> 0.0 <= Discriminant(c, r, ray)
    ensures !res.hit ==> res.t == t && res.normal == normal
    ensures res.hit ==> Quadratic(c, r, ray, res.t) == 0.0
    ensures res.hit ==> Dot(res.normal, res.normal) == 1.0
  {
    if Discriminant(c, r, ray) < 0.0 then
      Outcome(false, t, normal)
    else
      var root := Root(c, r, ray, sqrt);
      FormulaRootSolves(Dot(ray.direction, ray.direction), Dot(ray.direction, Offset(c, ray)),
        Dot(Offset(c, ray), Offset(c, ray)) - r * r, sqrt(Discriminant(c, r, ray)), root);
      SolutionOnSphere(c, r, ray, root);
      Outcome(true, root, Normalize(Sub(PointAt(ray, root), c), sqrt))
  }

  /** Every solution `u` of the quadratic satisfies |d|^2 u + d.L = +-sqrt(disc); in
      particular a solution exists only when the discriminant is not negative. */
  lemma SolutionIsFormulaRoot(c: Vec3, r: real, ray: Ray, u: real, sqrt: real -> real)
    requires IsSqrt(sqrt)
    requires 0.0 < Dot(ray.direction, ray.direction)
    requires Quadratic(c, r, ray, u) == 0.0
    ensures 0.0 <= Discriminant(c, r, ray)
    ensures var w := Dot(ray.direction, ray.direction) * u + Dot(ray.direction, Offset(c, ray));
      w == sqrt(Discriminant(c, r, ray)) || w == -sqrt(Discriminant(c, r, ray))
  {
    var d, l := ray.direction, Offset(c, ray);
    var disc := Discriminant(c, r, ray);
    var w := Dot(d, d) * u + Dot(d, l);
    assert w * w == Dot(d, d) * Quadratic(c, r, ray, u) + disc;
    SquareNonNegative(w, disc);
    var s := sqrt(disc);
    if 0.0 <= w {
      SameSquare(w, s, disc);
    } else {
      SameSquare(-w, s, disc);
    }
  }

  /** The test reports a hit exactly when the ray's line meets the sphere: a miss
      (negative discriminant) means the quadratic has no solution at all. */
  lemma {:induction false} HitIffLineMeetsSphere(c: Vec3, r: real, ray: Ray, t: real, normal: Vec3, sqrt: real -> real)
    requires IsSqrt(sqrt)
    requires r != 0.0 && 0.0 < Dot(ray.direction, ray.direction)
    ensures Intersect(c, r, ray, t, normal, sqrt).hit <==> exists u :: Quadratic(c, r, ray, u) == 0.0
  {
    var res := Intersect(c, r, ray, t, normal, sqrt);
    if res.hit {
      assert Quadratic(c, r, ray, res.t) == 0.0;
    } else {
      forall u | Quadratic(c, r, ray, u) == 0.0
        ensures false
      {
        SolutionIsFormulaRoot(c, r, ray, u, sqrt);
      }
    }
  }

  /** A `t` with |d|^2 t + d.L = +sqrt(disc) is the largest solution of the quadratic,
      one with |d|^2 t + d.L = -sqrt(disc) the smallest. */
  lemma RootOrder(c: Vec3, r: real, ray: Ray, t: real, sqrt: real -> real)
    requires IsSqrt(sqrt)
    requires 0.0 < Dot(ray.direction, ray.direction) && 0.0 <= Discriminant(c, r, ray)
    ensures var w := Dot(ray.direction, ray.direction) * t + Dot(ray.direction, Offset(c, ray));
      var s := sqrt(Discriminant(c, r, ray));
      && (w == s ==> forall u :: Quadratic(c, r, ray, u) == 0.0 ==> u <= t)
      && (w == -s ==> forall u :: Quadratic(c, r, ray, u) == 0.0 ==> t <= u)
  {
    var a, b := Dot(ray.direction, ray.direction), Dot(ray.direction, Offset(c, ray));
    var s := sqrt(Discriminant(c, r, ray));
    forall u | Quadratic(c, r, ray, u) == 0.0
      ensures a * t + b == s ==> u <= t
      ensures a * t + b == -s ==> t <= u
    {
      SolutionIsFormulaRoot(c, r, ray, u, sqrt);
      CompareRoots(a, b, s, u, t);
    }
  }

  /** When the constant term `q` is not positive, the discriminant is at least b^2. */
  lemma DiscriminantAtLeastSquare(a: real, b: real, q: real, disc: real)
    requires 0.0 <= a && q <= 0.0 && disc == b * b - a * q
    ensures b * b <= disc && 0.0 <= disc
  {
    ProductNonPositive(a, q, a * q);
    SquareNonNegative(b, b * b);
  }

  /** ... and then the root with +sqrt(disc) is not negative. */
  lemma LargerRootNonNegative(a: real, b: real, q: real, s: real, t: real)
    requires 0.0 < a && q <= 0.0 && 0.0 <= s && s * s == b * b - a * q
    requires a * t + b == s
    ensures 0.0 <= t
  {
    DiscriminantAtLeastSquare(a, b, q, s * s);
    if s < b {
      ProductLess(s, s, b, b, s * s, b * b);
    }
    ScalePositive(a, 0.0, t, 0.0, a * t);
  }

  /** With the origin inside or on the sphere the discriminant cannot be negative, so
      the test always hits; it takes the larger root, which is not negative. */
  lemma InsideTakesFarRoot(c: Vec3, r: real, ray: Ray, t: real, normal: Vec3, sqrt: real -> real)
    requires IsSqrt(sqrt)
    requires r != 0.0 && 0.0 < Dot(ray.direction, ray.direction)
    requires OriginInside(c, r, ray)
    ensures Intersect(c, r, ray, t, normal, sqrt).hit
    ensures 0.0 <= Intersect(c, r, ray, t, normal, sqrt).t
    ensures forall u :: Quadratic(c, r, ray, u) == 0.0 ==> u <= Intersect(c, r, ray, t, normal, sqrt).t
  {
    var d, l := ray.direction, Offset(c, ray);
    var a, b, q := Dot(d, d), Dot(d, l), Dot(l, l) - r * r;
    var res := Intersect(c, r, ray, t, normal, sqrt);
    assert res.t == Root(c, r, ray, sqrt);
    LargerRootNonNegative(a, b, q, sqrt(Discriminant(c, r, ray)), res.t);
    RootOrder(c, r, ray, res.t, sqrt);
  }

  /** With the origin outside the sphere the test takes the smaller root. */
  lemma OutsideTakesNearRoot(c: Vec3, r: real, ray: Ray, t: real, normal: Vec3, sqrt: real -> real)
    requires IsSqrt(sqrt)
    requires r != 0.0 && 0.0 < Dot(ray.direction, ray.direction)
    requires !OriginInside(c, r, ray)
    requires Intersect(c, r, ray, t, normal, sqrt).hit
    ensures forall u :: Quadratic(c, r, ray, u) == 0.0 ==> Intersect(c, r, ray, t, normal, sqrt).t <= u
  {
    assert Intersect(c, r, ray, t, normal, sqrt).t == Root(c, r, ray, sqrt);
    RootOrder(c, r, ray, Intersect(c, r, ray, t, normal, sqrt).t, sqrt);
  }

  /** A tangent ray (zero discriminant) still hits, and the reported distance is the
      only solution of the quadratic. */
  lemma TangentHitsAtOnlyRoot(c: Vec3, r: real, ray: Ray, t: real, normal: Vec3, sqrt: real -> real)
    requires IsSqrt(sqrt)
    requires r != 0.0 && 0.0 < Dot(ray.direction, ray.direction)
    requires Discriminant(c, r, ray) == 0.0
    ensures Intersect(c, r, ray, t, normal, sqrt).hit
    ensures forall u :: Quadratic(c, r, ray, u) == 0.0 <==> u == Intersect(c, r, ray, t, normal, sqrt).t
  {
    var res := Intersect(c, r, ray, t, normal, sqrt);
    assert res.t == Root(c, r, ray, sqrt);
    SameSquare(sqrt(0.0), 0.0, 0.0);
    RootOrder(c, r, ray, res.t, sqrt);
  }

  /** On a hit the point `origin + d t` lies on the sphere and the normal is the
      outward unit normal there: |r| times the normal is the vector from the centre. */
  lemma NormalIsOutward(c: Vec3, r: real, ray: Ray, t: real, normal: Vec3, sqrt: real -> real)
    requires IsSqrt(sqrt)
    requires r != 0.0 && 0.0 < Dot(ray.direction, ray.direction)
    requires Intersect(c, r, ray, t, normal, sqrt).hit
    ensures var res := Intersect(c, r, ray, t, normal, sqrt);
      var v := Sub(PointAt(ray, res.t), c);
      Dot(v, v) == r * r && Scale(res.normal, Abs(r)) == v
  {
    var res := Intersect(c, r, ray, t, normal, sqrt);
    var v := Sub(PointAt(ray, res.t), c);
    SolutionOnSphere(c, r, ray, res.t);
    var len := sqrt(Dot(v, v));
    AbsSquare(r);
    SameSquare(len, Abs(r), r * r);
    assert res.normal == Normalize(v, sqrt);
  }

  /** The values the test computes for the ray from the origin along -z and a
      sphere of radius 2 centred at (0, 0, -5). */
  lemma FrontValues(c: Vec3, ray: Ray)
    requires c == Vec3(0.0, 0.0, -5.0) && ray == Ray(Vec3(0.0, 0.0, 0.0), Vec3(0.0, 0.0, -1.0))
    ensures Dot(ray.direction, ray.direction) == 1.0
    ensures Dot(ray.direction, Offset(c, ray)) == -5.0
    ensures Discriminant(c, 2.0, ray) == 4.0
    ensures !OriginInside(c, 2.0, ray)
    ensures Sub(PointAt(ray, 3.0), c) == Vec3(0.0, 0.0, 2.0)
  {
  }

  /** The same for the sphere of radius 2 centred at (0, 0, 5), behind the ray. */
  lemma BehindValues(c: Vec3, ray: Ray)
    requires c == Vec3(0.0, 0.0, 5.0) && ray == Ray(Vec3(0.0, 0.0, 0.0), Vec3(0.0, 0.0, -1.0))
    ensures Dot(ray.direction, ray.direction) == 1.0
    ensures Dot(ray.direction, Offset(c, ray)) == 5.0
    ensures Discriminant(c, 2.0, ray) == 4.0
    ensures !OriginInside(c, 2.0, ray)
    ensures Sub(PointAt(ray, -7.0), c) == Vec3(0.0, 0.0, 2.0)
  {
  }

  /** The normal at a point two units above the centre is +z. */
  lemma UpNormal(v: Vec3, sqrt: real -> real)
    requires IsSqrt(sqrt)
    requires v == Vec3(0.0, 0.0, 2.0)
    ensures Normalize(v, sqrt) == Vec3(0.0, 0.0, 1.0)
  {
    assert Dot(v, v) == 4.0;
    SameSquare(sqrt(4.0), 2.0, 4.0);
  }

  /** For that ray and sphere the test takes the root 3. */
  lemma FrontRoot(c: Vec3, ray: Ray, sqrt: real -> real)
    requires IsSqrt(sqrt)
    requires c == Vec3(0.0, 0.0, -5.0) && ray == Ray(Vec3(0.0, 0.0, 0.0), Vec3(0.0, 0.0, -1.0))
    ensures 0.0 <= Discriminant(c, 2.0, ray) && Root(c, 2.0, ray, sqrt) == 3.0
  {
    SameSquare(sqrt(4.0), 2.0, 4.0);
    FrontValues(c, ray);
  }

  /** For the sphere behind the ray the test takes the root -7. */
  lemma BehindRoot(c: Vec3, ray: Ray, sqrt: real -> real)
    requires IsSqrt(sqrt)
    requires c == Vec3(0.0, 0.0, 5.0) && ray == Ray(Vec3(0.0, 0.0, 0.0), Vec3(0.0, 0.0, -1.0))
    ensures 0.0 <= Discriminant(c, 2.0, ray) && Root(c, 2.0, ray, sqrt) == -7.0
  {
    SameSquare(sqrt(4.0), 2.0, 4.0);
    BehindValues(c, ray);
  }

  /** A ray along -z from the origin towards a sphere of radius 2 centred at
      (0, 0, -5) enters it at distance 3, where the normal is +z. */
  lemma ScenarioFront(c: Vec3, ray: Ray, sqrt: real -> real)
    requires IsSqrt(sqrt)
    requires c == Vec3(0.0, 0.0, -5.0) && ray == Ray(Vec3(0.0, 0.0, 0.0), Vec3(0.0, 0.0, -1.0))
    ensures Intersect(c, 2.0, ray, 0.0, Vec3(0.0, 0.0, 0.0), sqrt) == Outcome(true, 3.0, Vec3(0.0, 0.0, 1.0))
  {
    FrontRoot(c, ray, sqrt);
    FrontValues(c, ray);
    var v := Sub(PointAt(ray, Root(c, 2.0, ray, sqrt)), c);
    assert v == Vec3(0.0, 0.0, 2.0);
    UpNormal(v, sqrt);
  }

  /** The distance is not checked for sign: the same ray, with the sphere behind it
      at (0, 0, 5), still reports a hit: at distance -7, the smaller root, which is
      the point (0, 0, 7) on the far side of that sphere. */
  lemma ScenarioBehind(c: Vec3, ray: Ray, sqrt: real -> real)
    requires IsSqrt(sqrt)
    requires c == Vec3(0.0, 0.0, 5.0) && ray == Ray(Vec3(0.0, 0.0, 0.0), Vec3(0.0, 0.0, -1.0))
    ensures Intersect(c, 2.0, ray, 0.0, Vec3(0.0, 0.0, 0.0), sqrt) == Outcome(true, -7.0, Vec3(0.0, 0.0, 1.0))
  {
    BehindRoot(c, ray, sqrt);
    BehindValues(c, ray);
    var v := Sub(PointAt(ray, Root(c, 2.0, ray, sqrt)), c);
    assert v == Vec3(0.0, 0.0, 2.0);
    UpNormal(v, sqrt);
  }
}
