/** The box hit test `Cuboid::ray_intersect`: the slab method over the axes x, y, z
    in turn, followed by the choice of a face normal from the ray's origin. */
module CuboidHit {
  import opened Geometry
  import opened RealArith

  datatype Option<T> = None | Some(value: T)

  /** The initial `tmax`, standing in for an unbounded distance. */
  const Far: real := 100000000.0

  /** How close the origin must be to a face's plane for that face to give the normal. */
  const Tolerance: real := 0.01

  /** `std::min(x, y)`: `y` when `y < x`, else `x`. */
  function Min(x: real, y: real): real
  {
    if y < x then y else x
  }

  /** `std::max(x, y)`: `y` when `x < y`, else `x`. */
  function Max(x: real, y: real): real
  {
    if x < y then y else x
  }

  /** The low and high bound of the box on axis `i`, whichever corner holds it. */
  function Lo(a: Vec3, b: Vec3, i: Axis): real
  {
    Min(Coord(a, i), Coord(b, i))
  }

  function Hi(a: Vec3, b: Vec3, i: Axis): real
  {
    Max(Coord(a, i), Coord(b, i))
  }

  /** The distances `[tmin, tmax]` still open after some of the axes. */
  datatype Interval = Interval(tmin: real, tmax: real)

  // ---------------------------------------------------------------------------
  // What the slab method computes
  // ---------------------------------------------------------------------------

  /** The distances at which the ray crosses the two planes of one slab, smaller first
      (`t1`, `t2` after the swap). For a slab with `lo <= hi` the ray meets the `lo`
      plane first when it travels towards +axis, and the `hi` plane first otherwise. */
  function Crossings(lo: real, hi: real, o: real, d: real): (ts: (real, real))
    requires d != 0.0
    ensures ts.0 <= ts.1
    ensures lo <= hi && 0.0 < d ==> ts == ((lo - o) / d, (hi - o) / d)
    ensures lo <= hi && d < 0.0 ==> ts == ((hi - o) / d, (lo - o) / d)
  {
    var t1, t2 := (lo - o) / d, (hi - o) / d;
    CrossingOrder(lo, hi, o, d);
    if t1 > t2 then (t2, t1) else (t1, t2)
  }

  /** The order of the two crossings follows the sign of the direction component. */
  lemma CrossingOrder(lo: real, hi: real, o: real, d: real)
    requires d != 0.0
    ensures lo <= hi && 0.0 < d ==> (lo - o) / d <= (hi - o) / d
    ensures lo <= hi && d < 0.0 ==> (hi - o) / d <= (lo - o) / d
  {
    var t1, t2 := (lo - o) / d, (hi - o) / d;
    DivMul(lo - o, d, t1);
    DivMul(hi - o, d, t2);
    if 0.0 < d {
      ScalePositive(d, t1, t2, lo - o, hi - o);
    } else {
      ScalePositive(-d, t2, t1, o - hi, o - lo);
    }
  }

  /** One axis block: the interval after narrowing `iv` against the slab `[lo, hi]`,
      or None where the block returns false. A zero direction component with the
      origin inside the slab leaves the interval as it is. */
  function AxisStep(iv: Interval, lo: real, hi: real, o: real, d: real): (next: Option<Interval>)
    ensures d == 0.0 ==> (next.None? <==> o < lo || hi < o)
    ensures d == 0.0 && next.Some? ==> next.value == iv
    ensures next.Some? ==> iv.tmin <= next.value.tmin && next.value.tmax <= iv.tmax
    ensures d != 0.0 && next.Some? ==> 0.0 <= next.value.tmax && next.value.tmin <= next.value.tmax
  {
    if d == 0.0 && (o < lo || o > hi) then
      None
    else if d == 0.0 then
      Some(iv)
    else
      var (t1, t2) := Crossings(lo, hi, o, d);
      var tmin, tmax := Max(iv.tmin, t1), Min(iv.tmax, t2);
      if tmin > tmax || tmax < 0.0 then None else Some(Interval(tmin, tmax))
  }

  /** The interval after the blocks of the first `k` axes, starting from `[0, Far]`;
      None once one of them has returned false. */
  function Narrow(a: Vec3, b: Vec3, ray: Ray, k: nat): (r: Option<Interval>)
    requires k <= 3
    ensures r.Some? ==> 0.0 <= r.value.tmin <= r.value.tmax <= Far
  {
    if k == 0 then
      Some(Interval(0.0, Far))
    else
      match Narrow(a, b, ray, k - 1)
      case None => None
      case Some(iv) =>
        AxisStep(iv, Lo(a, b, k - 1), Hi(a, b, k - 1), Coord(ray.origin, k - 1), Coord(ray.direction, k - 1))
  }

  /** The value of the out-parameter `t` after the blocks of the first `k` axes: it
      receives `tmin` after each block that passes, and keeps the caller's `t` if the
      first block fails. */
  function LastEntry(a: Vec3, b: Vec3, ray: Ray, k: nat, t: real): (r: real)
    requires k <= 3
    ensures r == t || 0.0 <= r <= Far
  {
    if k == 0 then t
    else match Narrow(a, b, ray, k)
      case Some(iv) => iv.tmin
      case None => LastEntry(a, b, ray, k - 1, t)
  }

  /** The origin is within `Tolerance` of the plane `plane` on axis `i`. */
  predicate Touches(o: Vec3, i: Axis, plane: real)
  {
    Abs(Coord(o, i) - plane) < Tolerance
  }

  /** One of the six unit vectors along the axes, the normals the box test reports. */
  predicate AxisNormal(n: Vec3)
  {
    || n == Vec3(-1.0, 0.0, 0.0) || n == Vec3(1.0, 0.0, 0.0)
    || n == Vec3(0.0, -1.0, 0.0) || n == Vec3(0.0, 1.0, 0.0)
    || n == Vec3(0.0, 0.0, -1.0) || n == Vec3(0.0, 0.0, 1.0)
  }

  /** The normal chosen after a hit: the first face plane, in the order a.x, b.x,
      a.y, b.y, a.z, b.z, that the ORIGIN touches, pointing towards -axis for the `a`
      corner and +axis for the `b` corner; the caller's `normal` when none does. */
  function FaceNormal(a: Vec3, b: Vec3, o: Vec3, normal: Vec3): (n: Vec3)
    ensures n == normal || AxisNormal(n)
  {
    if Touches(o, 0, a.x) then Vec3(-1.0, 0.0, 0.0)
    else if Touches(o, 0, b.x) then Vec3(1.0, 0.0, 0.0)
    else if Touches(o, 1, a.y) then Vec3(0.0, -1.0, 0.0)
    else if Touches(o, 1, b.y) then Vec3(0.0, 1.0, 0.0)
    else if Touches(o, 2, a.z) then Vec3(0.0, 0.0, -1.0)
    else if Touches(o, 2, b.z) then Vec3(0.0, 0.0, 1.0)
    else normal
  }

  /** The outcome of `Cuboid::ray_intersect` for the caller's `t` and `normal`. */
  function Result(a: Vec3, b: Vec3, ray: Ray, t: real, normal: Vec3): (res: Outcome)
    ensures res.hit ==> 0.0 <= res.t <= Far
    ensures res.hit ==> res.normal == normal || AxisNormal(res.normal)
    ensures !res.hit ==> res.normal == normal && (res.t == t || 0.0 <= res.t <= Far)
  {
    match Narrow(a, b, ray, 3)
    case Some(iv) => Outcome(true, iv.tmin, FaceNormal(a, b, ray.origin, normal))
    case None => Outcome(false, LastEntry(a, b, ray, 3, t), normal)
  }

  // ---------------------------------------------------------------------------
  // The method
  // ---------------------------------------------------------------------------

  /** `Cuboid::ray_intersect`, block by block as a loop over the axes. */
  method Intersect(a: Vec3, b: Vec3, ray: Ray, t: real, normal: Vec3) returns (res: Outcome)
    ensures res == Result(a, b, ray, t, normal)
    ensures res.hit <==> exists s :: Reaches(a, b, ray, s)
    ensures res.hit ==> Reaches(a, b, ray, res.t) && forall s :: Reaches(a, b, ray, s) ==> res.t <= s
    ensures !res.hit ==> res.normal == normal && (res.t == t || 0.0 <= res.t <= Far)
  {
    var tmin, tmax := 0.0, Far;
    var lo := Vec3(Min(a.x, b.x), Min(a.y, b.y), Min(a.z, b.z));
    var hi := Vec3(Max(a.x, b.x), Max(a.y, b.y), Max(a.z, b.z));
    var tOut := t;
    var i := 0;
    while i < 3
      invariant 0 <= i <= 3
      invariant Narrow(a, b, ray, i) == Some(Interval(tmin, tmax))
      invariant tOut == LastEntry(a, b, ray, i, t)
    {
      var o, d := Coord(ray.origin, i), Coord(ray.direction, i);
      assert Coord(lo, i) == Lo(a, b, i) && Coord(hi, i) == Hi(a, b, i);
      if d == 0.0 && (o < Coord(lo, i) || o > Coord(hi, i)) {
        FailureIsFinal(a, b, ray, i + 1, t);
        res := Outcome(false, tOut, normal);
        ResultMeaning(a, b, ray, t, normal);
        return;
      }
      if d != 0.0 {
        var t1 := (Coord(lo, i) - o) / d;
        var t2 := (Coord(hi, i) - o) / d;
        if t1 > t2 {
          t1, t2 := t2, t1;
        }
        tmin := Max(tmin, t1);
        tmax := Min(tmax, t2);
        if tmin > tmax || tmax < 0.0 {
          FailureIsFinal(a, b, ray, i + 1, t);
          res := Outcome(false, tOut, normal);
          ResultMeaning(a, b, ray, t, normal);
          return;
        }
      }
      tOut := tmin;
      i := i + 1;
    }
    res := Outcome(true, tOut, FaceNormal(a, b, ray.origin, normal));
    ResultMeaning(a, b, ray, t, normal);
  }

  // ---------------------------------------------------------------------------
  // What it means
  // ---------------------------------------------------------------------------

  /** The ray's point at distance `s` lies between the planes `lo` and `hi`. */
  predicate InSlab(lo: real, hi: real, o: real, d: real, s: real)
  {
    lo <= o + d * s <= hi
  }

  /** `s` is in `[0, Far]` and the ray's point at `s` lies within the slabs of the
      first `k` axes. */
  predicate InSlabs(a: Vec3, b: Vec3, ray: Ray, k: nat, s: real)
    requires k <= 3
  {
    if k == 0 then
      0.0 <= s <= Far
    else
      && InSlabs(a, b, ray, k - 1, s)
      && InSlab(Lo(a, b, k - 1), Hi(a, b, k - 1), Coord(ray.origin, k - 1), Coord(ray.direction, k - 1), s)
  }

  /** The point `p` lies in the closed box spanned by corners `a` and `b`. */
  predicate InBox(a: Vec3, b: Vec3, p: Vec3)
  {
    forall i :: 0 <= i < 3 ==> Lo(a, b, i) <= Coord(p, i) <= Hi(a, b, i)
  }

  /** The ray is in the box at distance `s`, and `s` is in `[0, Far]`. */
  predicate Reaches(a: Vec3, b: Vec3, ray: Ray, s: real)
  {
    0.0 <= s <= Far && InBox(a, b, PointAt(ray, s))
  }

  /** Being within the slab of axis `i` is the box's condition on that coordinate. */
  lemma InSlabIsCoordInRange(a: Vec3, b: Vec3, ray: Ray, i: Axis, s: real)
    ensures InSlab(Lo(a, b, i), Hi(a, b, i), Coord(ray.origin, i), Coord(ray.direction, i), s)
        <==> Lo(a, b, i) <= Coord(PointAt(ray, s), i) <= Hi(a, b, i)
  {
    assert Coord(PointAt(ray, s), i) == Coord(ray.origin, i) + Coord(ray.direction, i) * s;
  }

  lemma AllSlabsIsBox(a: Vec3, b: Vec3, ray: Ray, s: real)
    ensures InSlabs(a, b, ray, 3, s) <==> Reaches(a, b, ray, s)
  {
    InSlabIsCoordInRange(a, b, ray, 0, s);
    InSlabIsCoordInRange(a, b, ray, 1, s);
    InSlabIsCoordInRange(a, b, ray, 2, s);
    assert InSlabs(a, b, ray, 1, s) == (InSlabs(a, b, ray, 0, s)
      && InSlab(Lo(a, b, 0), Hi(a, b, 0), Coord(ray.origin, 0), Coord(ray.direction, 0), s));
    assert InSlabs(a, b, ray, 2, s) == (InSlabs(a, b, ray, 1, s)
      && InSlab(Lo(a, b, 1), Hi(a, b, 1), Coord(ray.origin, 1), Coord(ray.direction, 1), s));
    assert InSlabs(a, b, ray, 3, s) == (InSlabs(a, b, ray, 2, s)
      && InSlab(Lo(a, b, 2), Hi(a, b, 2), Coord(ray.origin, 2), Coord(ray.direction, 2), s));
  }

  /** For a non-zero direction component, the ray is within a slab exactly between
      the two crossings. */
  lemma CrossingsBoundSlab(lo: real, hi: real, o: real, d: real, s: real)
    requires lo <= hi && d != 0.0
    ensures InSlab(lo, hi, o, d, s) <==> Crossings(lo, hi, o, d).0 <= s <= Crossings(lo, hi, o, d).1
  {
    var t1, t2 := (lo - o) / d, (hi - o) / d;
    DivMul(lo - o, d, t1);
    DivMul(hi - o, d, t2);
    if 0.0 < d {
      ScalePositive(d, t1, t2, lo - o, hi - o);
      ScalePositive(d, t1, s, lo - o, d * s);
      ScalePositive(d, s, t2, d * s, hi - o);
    } else {
      var e := -d;
      ScalePositive(e, t2, t1, o - hi, o - lo);
      ScalePositive(e, s, t1, -(d * s), o - lo);
      ScalePositive(e, t2, s, o - hi, -(d * s));
    }
  }

  /** One axis block is exact: it keeps precisely the distances of `iv` at which the
      ray is within the slab, and fails precisely when there are none. */
  lemma AxisStepExact(iv: Interval, lo: real, hi: real, o: real, d: real)
    requires 0.0 <= iv.tmin <= iv.tmax && lo <= hi
    ensures match AxisStep(iv, lo, hi, o, d)
      case Some(next) =>
        iv.tmin <= next.tmin <= next.tmax <= iv.tmax
        && forall s :: next.tmin <= s <= next.tmax <==> iv.tmin <= s <= iv.tmax && InSlab(lo, hi, o, d, s)
      case None =>
        forall s :: !(iv.tmin <= s <= iv.tmax && InSlab(lo, hi, o, d, s))
  {
    if d == 0.0 {
      assert forall s :: InSlab(lo, hi, o, d, s) <==> lo <= o <= hi;
    } else {
      forall s {
        CrossingsBoundSlab(lo, hi, o, d, s);
      }
    }
  }

  /** The interval after `k` axes holds exactly the distances in `[0, Far]` at which
      the ray is within the first `k` slabs; None means there are no such distances. */
  lemma {:induction false} NarrowExact(a: Vec3, b: Vec3, ray: Ray, k: nat)
    requires k <= 3
    ensures match Narrow(a, b, ray, k)
      case Some(iv) =>
        0.0 <= iv.tmin <= iv.tmax <= Far
        && forall s :: iv.tmin <= s <= iv.tmax <==> InSlabs(a, b, ray, k, s)
      case None =>
        forall s :: !InSlabs(a, b, ray, k, s)
  {
    if k > 0 {
      NarrowExact(a, b, ray, k - 1);
      match Narrow(a, b, ray, k - 1)
      case None =>
      case Some(iv) =>
        AxisStepExact(iv, Lo(a, b, k - 1), Hi(a, b, k - 1), Coord(ray.origin, k - 1), Coord(ray.direction, k - 1));
    }
  }

  /** Across the blocks `tmin` never decreases and `tmax` never increases. */
  lemma {:induction false} NarrowShrinks(a: Vec3, b: Vec3, ray: Ray, j: nat, k: nat)
    requires j <= k <= 3
    requires Narrow(a, b, ray, k).Some?
    ensures Narrow(a, b, ray, j).Some?
    ensures Narrow(a, b, ray, j).value.tmin <= Narrow(a, b, ray, k).value.tmin
    ensures Narrow(a, b, ray, k).value.tmax <= Narrow(a, b, ray, j).value.tmax
  {
    if j < k {
      NarrowShrinks(a, b, ray, j, k - 1);
      NarrowExact(a, b, ray, k - 1);
      var iv := Narrow(a, b, ray, k - 1).value;
      AxisStepExact(iv, Lo(a, b, k - 1), Hi(a, b, k - 1), Coord(ray.origin, k - 1), Coord(ray.direction, k - 1));
    }
  }

  /** Once a block has failed, the test fails and `t` keeps the value it had then. */
  lemma {:induction false} FailureIsFinal(a: Vec3, b: Vec3, ray: Ray, k: nat, t: real)
    requires 1 <= k <= 3
    requires Narrow(a, b, ray, k).None?
    ensures Narrow(a, b, ray, 3).None?
    ensures LastEntry(a, b, ray, 3, t) == LastEntry(a, b, ray, k - 1, t)
    decreases 3 - k
  {
    if k < 3 {
      FailureIsFinal(a, b, ray, k + 1, t);
    }
  }

  /** The test hits exactly when some distance in `[0, Far]` puts the ray in the box,
      and then reports the smallest such distance; a miss leaves `normal` alone. */
  lemma ResultMeaning(a: Vec3, b: Vec3, ray: Ray, t: real, normal: Vec3)
    ensures var res := Result(a, b, ray, t, normal);
      && (res.hit <==> exists s :: Reaches(a, b, ray, s))
      && (res.hit ==> Reaches(a, b, ray, res.t) && forall s :: Reaches(a, b, ray, s) ==> res.t <= s)
      && (!res.hit ==> res.normal == normal && (res.t == t || 0.0 <= res.t <= Far))
  {
    NarrowExact(a, b, ray, 3);
    forall s {
      AllSlabsIsBox(a, b, ray, s);
    }
    if Narrow(a, b, ray, 3).Some? {
      assert Reaches(a, b, ray, Narrow(a, b, ray, 3).value.tmin);
    }
  }

  /** A ray whose direction component on some axis is zero, and whose origin lies
      outside the box's slab on that axis, misses. */
  lemma ParallelOutsideMisses(a: Vec3, b: Vec3, ray: Ray, t: real, normal: Vec3, i: Axis)
    requires Coord(ray.direction, i) == 0.0
    requires Coord(ray.origin, i) < Lo(a, b, i) || Coord(ray.origin, i) > Hi(a, b, i)
    ensures !Result(a, b, ray, t, normal).hit
  {
    forall s
      ensures !Reaches(a, b, ray, s)
    {
      assert Coord(PointAt(ray, s), i) == Coord(ray.origin, i);
    }
    ResultMeaning(a, b, ray, t, normal);
  }

  // ---------------------------------------------------------------------------
  // Which corner is which
  // ---------------------------------------------------------------------------

  /** The slab bounds, and so every interval, do not depend on the order of the corners. */
  lemma {:induction false} NarrowCornerOrder(a: Vec3, b: Vec3, ray: Ray, k: nat)
    requires k <= 3
    ensures Narrow(a, b, ray, k) == Narrow(b, a, ray, k)
  {
    if k > 0 {
      NarrowCornerOrder(a, b, ray, k - 1);
      assert Lo(a, b, k - 1) == Lo(b, a, k - 1) && Hi(a, b, k - 1) == Hi(b, a, k - 1);
    }
  }

  lemma {:induction false} LastEntryCornerOrder(a: Vec3, b: Vec3, ray: Ray, k: nat, t: real)
    requires k <= 3
    ensures LastEntry(a, b, ray, k, t) == LastEntry(b, a, ray, k, t)
  {
    if k > 0 {
      NarrowCornerOrder(a, b, ray, k);
      LastEntryCornerOrder(a, b, ray, k - 1, t);
    }
  }

  /** Swapping the corners changes neither the verdict nor the distance. */
  lemma CornerOrderKeepsDistance(a: Vec3, b: Vec3, ray: Ray, t: real, normal: Vec3)
    ensures Result(a, b, ray, t, normal).hit == Result(b, a, ray, t, normal).hit
    ensures Result(a, b, ray, t, normal).t == Result(b, a, ray, t, normal).t
  {
    NarrowCornerOrder(a, b, ray, 3);
    LastEntryCornerOrder(a, b, ray, 3, t);
  }

  /** The normal does depend on the order of the corners. The box (5, 0, -10) to
      (12, -5, -7) has its top face at y = 0 = a.y; a ray leaving a point of that face
      downwards gets the normal (0, -1, 0), which points into the box, while the same
      box given as (12, -5, -7) to (5, 0, -10) yields (0, 1, 0). */
  lemma CornerOrderFlipsNormal(t: real, normal: Vec3)
    ensures var a, b := Vec3(5.0, 0.0, -10.0), Vec3(12.0, -5.0, -7.0);
      var ray := Ray(Vec3(8.0, 0.0, -8.5), Vec3(0.0, -1.0, 0.0));
      && Result(a, b, ray, t, normal) == Outcome(true, 0.0, Vec3(0.0, -1.0, 0.0))
      && Result(b, a, ray, t, normal) == Outcome(true, 0.0, Vec3(0.0, 1.0, 0.0))
  {
  }

  // ---------------------------------------------------------------------------
  // The face normal, as a search
  // ---------------------------------------------------------------------------

  /** A face plane of the box and the normal the test reports for it. */
  datatype Face = Face(axis: Axis, plane: real, outward: Vec3)

  /** The faces in the order the test checks them. */
  function Faces(a: Vec3, b: Vec3): seq<Face>
  {
    [ Face(0, a.x, Vec3(-1.0, 0.0, 0.0)), Face(0, b.x, Vec3(1.0, 0.0, 0.0)),
      Face(1, a.y, Vec3(0.0, -1.0, 0.0)), Face(1, b.y, Vec3(0.0, 1.0, 0.0)),
      Face(2, a.z, Vec3(0.0, 0.0, -1.0)), Face(2, b.z, Vec3(0.0, 0.0, 1.0)) ]
  }

  predicate NoneTouched(faces: seq<Face>, o: Vec3)
  {
    forall k :: 0 <= k < |faces| ==> !Touches(o, faces[k].axis, faces[k].plane)
  }

  /** The normal of the first face in `faces` that the origin touches, else `fallback`. */
  function FirstTouched(faces: seq<Face>, o: Vec3, fallback: Vec3): (r: Vec3)
    ensures NoneTouched(faces, o) ==> r == fallback
    ensures forall j :: 0 <= j < |faces| && Touches(o, faces[j].axis, faces[j].plane) && NoneTouched(faces[..j], o)
              ==> r == faces[j].outward
  {
    if faces == [] then
      fallback
    else if Touches(o, faces[0].axis, faces[0].plane) then
      faces[0].outward
    else
      var r := FirstTouched(faces[1..], o, fallback);
      assert forall j :: 1 <= j <= |faces| ==> faces[1..][..j - 1] == faces[..j][1..];
      r
  }

  /** The test's chain of comparisons is the search for the first touched face. */
  lemma FaceNormalIsFirstTouched(a: Vec3, b: Vec3, o: Vec3, normal: Vec3)
    ensures FaceNormal(a, b, o, normal) == FirstTouched(Faces(a, b), o, normal)
  {
    var fs := Faces(a, b);
    var j := if Touches(o, 0, a.x) then 0
      else if Touches(o, 0, b.x) then 1
      else if Touches(o, 1, a.y) then 2
      else if Touches(o, 1, b.y) then 3
      else if Touches(o, 2, a.z) then 4
      else if Touches(o, 2, b.z) then 5
      else 6;
    assert NoneTouched(fs[..j], o);
  }

  /** The normal after a hit is the caller's `normal` if the origin touches no face
      plane, and otherwise the unit vector of the first face it touches. */
  lemma FaceNormalChoice(a: Vec3, b: Vec3, o: Vec3, normal: Vec3)
    ensures var n := FaceNormal(a, b, o, normal);
      && (NoneTouched(Faces(a, b), o) ==> n == normal)
      && (!NoneTouched(Faces(a, b), o) ==> Dot(n, n) == 1.0 && Abs(n.x) + Abs(n.y) + Abs(n.z) == 1.0)
  {
    FaceNormalIsFirstTouched(a, b, o, normal);
  }

  // ---------------------------------------------------------------------------
  // Scenarios
  // ---------------------------------------------------------------------------

  /** The cube (-1, -1, -1) to (1, 1, 1) and a ray from (0, 0, -5) along +z: a hit at
      distance 4; the origin touches no face, so `normal` is left as passed in. */
  lemma ScenarioCube(t: real, normal: Vec3)
    ensures Result(Vec3(-1.0, -1.0, -1.0), Vec3(1.0, 1.0, 1.0),
                   Ray(Vec3(0.0, 0.0, -5.0), Vec3(0.0, 0.0, 1.0)), t, normal)
            == Outcome(true, 4.0, normal)
  {
  }

  /** The same cube and a ray from (5, 5, 5) along +x miss; the x block already fails,
      so `t` keeps the caller's value. */
  lemma ScenarioParallelMiss(t: real, normal: Vec3)
    ensures Result(Vec3(-1.0, -1.0, -1.0), Vec3(1.0, 1.0, 1.0),
                   Ray(Vec3(5.0, 5.0, 5.0), Vec3(1.0, 0.0, 0.0)), t, normal)
            == Outcome(false, t, normal)
  {
    var a, b := Vec3(-1.0, -1.0, -1.0), Vec3(1.0, 1.0, 1.0);
    var ray := Ray(Vec3(5.0, 5.0, 5.0), Vec3(1.0, 0.0, 0.0));
    assert Narrow(a, b, ray, 1) == None;
    FailureIsFinal(a, b, ray, 1, t);
  }

  /** A miss can still overwrite `t`: a ray from (0, 5, 0) along +x passes the x block
      (t becomes 0) and then fails the y block. */
  lemma ScenarioMissOverwritesT(normal: Vec3)
    ensures Result(Vec3(-1.0, -1.0, -1.0), Vec3(1.0, 1.0, 1.0),
                   Ray(Vec3(0.0, 5.0, 0.0), Vec3(1.0, 0.0, 0.0)), 42.0, normal)
            == Outcome(false, 0.0, normal)
  {
  }
}
