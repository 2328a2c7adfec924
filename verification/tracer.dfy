/**
 The demo renderer of main.cpp: its scalar helpers, its own vector
 normalisation, the three intersection tests it uses (which differ from
 the library's), the nearest-hit query `raycast` and the per-pixel
 shading arithmetic. main.cpp's private vec3 class has the same
 components, products and operators as Vector3.Vec3, which is reused.
 The square root is the parameter `sqrt`.
 */
module Tracer {
  import MathFunctions
  import opened Wrappers
  import opened Vector3
  import RayIntersection

  // ==== scalar helpers ==========================================================

  /**
   clamp(min, max, val): note the argument order, value last. It agrees
   with math::clamp(val, min, max).
   */
  function Clamp(lo: real, hi: real, val: real): (r: real)
    ensures lo <= hi ==> lo <= r <= hi
    ensures lo <= val <= hi ==> r == val
    ensures r == MathFunctions.Clamp(val, lo, hi)
  {
    if val < lo then lo else if val > hi then hi else val
  }

  /** max(a, b): the larger argument, `b` on ties; the same as math::max. */
  function Max(a: real, b: real): (r: real)
    ensures r == MathFunctions.Max(a, b)
    ensures a <= r && b <= r
  {
    if a > b then a else b
  }

  /** mix(a, b, coef) = a (1 - coef) + b coef: linear interpolation from a to b. */
  function Mix(a: real, b: real, coef: real): (r: real)
    ensures coef == 0.0 ==> r == a
    ensures coef == 1.0 ==> r == b
    ensures 0.0 <= coef <= 1.0 ==> MathFunctions.Min(a, b) <= r <= MathFunctions.Max(a, b)
  {
    MixBetween(a, b, coef);
    a * (1.0 - coef) + b * coef
  }

  lemma MixBetween(a: real, b: real, coef: real)
    ensures 0.0 <= coef <= 1.0 ==>
      MathFunctions.Min(a, b) <= a * (1.0 - coef) + b * coef <= MathFunctions.Max(a, b)
  {
    if 0.0 <= coef <= 1.0 {
      var r := a * (1.0 - coef) + b * coef;
      if a <= b {
        var m := (b - a) * coef;
        FractionOf(b - a, coef, m);
        assert r == a + m;
      } else {
        var m := (a - b) * coef;
        FractionOf(a - b, coef, m);
        assert r == a - m;
      }
    }
  }

  /** A fraction c in [0, 1] of a non-negative x lies between 0 and x. */
  lemma FractionOf(x: real, c: real, p: real)
    requires 0.0 <= x && 0.0 <= c <= 1.0 && p == x * c
    ensures 0.0 <= p <= x
  {
    assert x - p == x * (1.0 - c);
    if 0.0 < x && c < 1.0 {
      RayIntersection.PositiveProduct(1.0 - c, x);
      assert (1.0 - c) * x == x * (1.0 - c);
    }
    if 0.0 < c {
      RayIntersection.PositiveProduct(x, c);
    }
  }

  /** reflect(direction, normal) = direction - normal * 2 * (direction . normal). */
  function Reflect(d: Vec3, n: Vec3): Vec3 {
    Sub(d, Scale(Scale(n, 2.0), Dot(d, n)))
  }

  /** Reflection moves d by -2 (d . n) along n. */
  lemma ReflectAsShift(d: Vec3, n: Vec3)
    ensures Reflect(d, n) == Add(d, Scale(n, -2.0 * Dot(d, n)))
  {
  }

  /** For a unit normal, reflection flips the normal component. */
  lemma {:induction false} ReflectFlipsNormal(d: Vec3, n: Vec3)
    requires Dot(n, n) == 1.0
    ensures Dot(Reflect(d, n), n) == -Dot(d, n)
  {
    ReflectAsShift(d, n);
    DotAlongRay(d, n, -2.0 * Dot(d, n), n);
  }

  /** For a unit normal, reflection keeps the length. */
  lemma {:induction false} ReflectKeepsLength(d: Vec3, n: Vec3)
    requires Dot(n, n) == 1.0
    ensures Dot(Reflect(d, n), Reflect(d, n)) == Dot(d, d)
  {
    var k := Dot(d, n);
    ReflectAsShift(d, n);
    RayIntersection.DotOfShifted(d, n, -2.0 * k);
    assert 2.0 * (-2.0 * k) * Dot(d, n) + (-2.0 * k) * (-2.0 * k) * Dot(n, n) == 0.0;
  }

  /** For a unit normal, reflecting twice gives the original direction. */
  lemma {:induction false} ReflectInvolution(d: Vec3, n: Vec3)
    requires Dot(n, n) == 1.0
    ensures Reflect(Reflect(d, n), n) == d
  {
    var k := Dot(d, n);
    var r := Reflect(d, n);
    ReflectAsShift(d, n);
    ReflectFlipsNormal(d, n);
    ReflectAsShift(r, n);
    ShiftBack(d, n, -2.0 * k);
  }

  lemma ShiftBack(d: Vec3, n: Vec3, s: real)
    ensures Add(Add(d, Scale(n, s)), Scale(n, -s)) == d
  {
  }

  // ==== normalisation of main.cpp's vec3 ====================================

  /**
   vec3::normalize(): inv = sqrt(1 / sq) with sq = v . v; the vector is
   scaled by inv and inv * sq is returned. The model requires sq != 0
   (the source divides by it).
   */
  function Normalize(v: Vec3, sqrt: real -> real): (r: (Vec3, real))
    requires Dot(v, v) != 0.0
    ensures MathFunctions.IsSqrt(sqrt) ==>
      && Dot(r.0, r.0) == 1.0
      && 0.0 < r.1 && r.1 * r.1 == Dot(v, v)
      && Scale(r.0, r.1) == v
  {
    var sq := Dot(v, v);
    var inv := InverseRoot(sq, sqrt);
    NormalizeFacts(v, sq, sqrt);
    (ScaleAssign(v, inv), RootOf(sq, sqrt))
  }

  lemma {:induction false} NormalizeFacts(v: Vec3, sq: real, sqrt: real -> real)
    requires sq == Dot(v, v) && sq != 0.0
    ensures MathFunctions.IsSqrt(sqrt) ==> Dot(Scale(v, InverseRoot(sq, sqrt)), Scale(v, InverseRoot(sq, sqrt))) == 1.0
    ensures MathFunctions.IsSqrt(sqrt) ==> 0.0 < RootOf(sq, sqrt)
    ensures MathFunctions.IsSqrt(sqrt) ==> RootOf(sq, sqrt) * RootOf(sq, sqrt) == sq
    ensures MathFunctions.IsSqrt(sqrt) ==> Scale(Scale(v, InverseRoot(sq, sqrt)), RootOf(sq, sqrt)) == v
  {
    var inv := InverseRoot(sq, sqrt);
    if MathFunctions.IsSqrt(sqrt) {
      DotSelfNonNegative(v);
      InverseRootFacts(sq, inv);
      ScaledDot(v, inv);
      ScaleTwice(v, inv, inv * sq);
    }
  }

  /** inv * sq, the length vec3::normalize returns. */
  function RootOf(sq: real, sqrt: real -> real): real
    requires sq != 0.0
  {
    InverseRoot(sq, sqrt) * sq
  }

  /** sqrt(1 / sq), the factor vec3::normalize scales by. */
  function InverseRoot(sq: real, sqrt: real -> real): real
    requires sq != 0.0
  {
    sqrt(Reciprocal(sq))
  }

  /** 1 / x, the reciprocal. */
  function Reciprocal(x: real): (r: real)
    requires x != 0.0
    ensures r * x == 1.0
    ensures 0.0 < x ==> 0.0 < r
  {
    1.0 / x
  }

  /** inv^2 == 1 / sq for sq > 0 gives inv^2 sq == 1 and (inv sq)^2 == sq. */
  lemma InverseRootFacts(sq: real, inv: real)
    requires 0.0 < sq && 0.0 <= inv && inv * inv == Reciprocal(sq)
    ensures inv * inv * sq == 1.0
    ensures 0.0 < inv * sq && (inv * sq) * (inv * sq) == sq
    ensures inv * (inv * sq) == 1.0
  {
    assert inv * inv * sq == 1.0;
    assert inv != 0.0;
    assert (inv * sq) * (inv * sq) == (inv * inv * sq) * sq;
  }

  lemma ScaledDot(v: Vec3, s: real)
    ensures Dot(Scale(v, s), Scale(v, s)) == s * s * Dot(v, v)
  {
  }

  lemma ScaleTwice(v: Vec3, s: real, t: real)
    requires s * t == 1.0
    ensures Scale(Scale(v, s), t) == v
  {
    assert v.x * s * t == v.x * (s * t);
    assert v.y * s * t == v.y * (s * t);
    assert v.z * s * t == v.z * (s * t);
  }

  /** vec3::normalize_self(): the same scaling, returning the vector. */
  function NormalizeSelf(v: Vec3, sqrt: real -> real): (r: Vec3)
    requires Dot(v, v) != 0.0
    ensures r == Normalize(v, sqrt).0
    ensures MathFunctions.IsSqrt(sqrt) ==> Dot(r, r) == 1.0
  {
    var sq := Dot(v, v);
    var inv := InverseRoot(sq, sqrt);
    ScaleAssign(v, inv)
  }

  // ==== the tests main.cpp uses ===============================================

  /**
   sphere_intersection_test: no hit when h < 0, otherwise the near root
   -b - sqrt(h), even when it is negative (the ray starts inside or past
   the sphere).
   */
  function SphereTest(origin: Vec3, direction: Vec3, centre: Vec3, radius: real, sqrt: real -> real): (r: Option<real>)
    ensures r.Some? <==> RayIntersection.SphereExists(origin, direction, centre, radius)
  {
    var oc := Sub(origin, centre);
    var b := Dot(oc, direction);
    var h := RayIntersection.Discriminant(b, Dot(oc, oc) - radius * radius);
    if h < 0.0 then None
    else Some(-b - sqrt(h))
  }

  /**
   The test of main.cpp and the library's distance overload agree
   exactly on the non-negative distances: the library rejects what main
   reports behind the origin.
   */
  lemma SphereTestVersusSpan(origin: Vec3, direction: Vec3, centre: Vec3, radius: real, sqrt: real -> real)
    ensures var t := SphereTest(origin, direction, centre, radius, sqrt);
      var span := RayIntersection.SphereSpan(origin, direction, centre, radius, sqrt);
      (span.Some? <==> t.Some? && 0.0 <= t.value)
      && (span.Some? ==> t.value == span.value.near)
  {
  }

  /** From inside the sphere (c < 0) the reported distance is negative. */
  lemma {:induction false} SphereTestBehind(origin: Vec3, direction: Vec3, centre: Vec3, radius: real, sqrt: real -> real)
    requires MathFunctions.IsSqrt(sqrt) && RayIntersection.SphereC(origin, centre, radius) < 0.0
    ensures var t := SphereTest(origin, direction, centre, radius, sqrt);
      t.Some? && t.value < 0.0
  {
    RayIntersection.NegativeRoot(RayIntersection.SphereB(origin, direction, centre),
                                 RayIntersection.SphereC(origin, centre, radius), sqrt);
  }

  /**
   plane_intersection_test: dist = -((origin . n + sqrt(pos . pos)) /
   (direction . n)), a hit when dist > 0. The plane tested is
   {p | p . n == -|pos|}; it contains pos only when pos . n == -|pos|.
   A ray parallel to the plane divides by zero in the source; the model
   reports no hit there, as raycast never accepts the infinite or NaN
   distance that results.
   */
  function PlaneTest(origin: Vec3, direction: Vec3, pos: Vec3, normal: Vec3, sqrt: real -> real): (r: Option<real>)
    ensures Dot(direction, normal) == 0.0 ==> r.None?
    ensures r.Some? ==> 0.0 < r.value
    ensures r.Some? ==> Dot(RayIntersection.At(origin, direction, r.value), normal) == -sqrt(Dot(pos, pos))
  {
    var denom := Dot(direction, normal);
    if denom == 0.0 then None
    else
      var dist := -((Dot(origin, normal) + sqrt(Dot(pos, pos))) / denom);
      DotAlongRay(origin, direction, dist, normal);
      if dist > 0.0 then Some(dist) else None
  }

  /**
   main.cpp's plane test is the library's plane test for w = -|pos|,
   with a hit at distance 0 excluded.
   */
  lemma PlaneTestVersusLibrary(origin: Vec3, direction: Vec3, pos: Vec3, normal: Vec3, sqrt: real -> real)
    ensures var t := PlaneTest(origin, direction, pos, normal, sqrt);
      var lib := RayIntersection.PlaneNear(origin, direction, normal, -sqrt(Dot(pos, pos)));
      t.Some? <==> lib.Some? && 0.0 < lib.value
    ensures var t := PlaneTest(origin, direction, pos, normal, sqrt);
      var lib := RayIntersection.PlaneNear(origin, direction, normal, -sqrt(Dot(pos, pos)));
      t.Some? ==> t == lib
  {
  }

  /**
   The cap part of capsule_intersection_test: the sphere test around the
   cap centre, but a hit only for a strictly positive discriminant.
   */
  function CapTest(origin: Vec3, direction: Vec3, centre: Vec3, radius: real, sqrt: real -> real): (r: Option<real>)
    ensures r.Some? <==> 0.0 < RayIntersection.SphereH(origin, direction, centre, radius)
    ensures r.Some? ==> r == SphereTest(origin, direction, centre, radius, sqrt)
  {
    var oc := Sub(origin, centre);
    var b := Dot(direction, oc);
    DotSymmetric(direction, oc);
    var h := RayIntersection.Discriminant(b, Dot(oc, oc) - radius * radius);
    if h > 0.0 then Some(-b - sqrt(h)) else None
  }

  /**
   capsule_intersection_test: the library's branch structure, but a body
   hit is reported whatever the sign of t, and a cap needs h > 0. The
   model requires a != 0.
   */
  function CapsuleTest(origin: Vec3, direction: Vec3, pa: Vec3, pb: Vec3, radius: real, sqrt: real -> real): (r: Option<real>)
    requires RayIntersection.CapsuleCommon(origin, direction, pa, pb, radius).a != 0.0
    ensures r.Some? ==> 0.0 <= RayIntersection.CapsuleCommon(origin, direction, pa, pb, radius).h
  {
    var k := RayIntersection.CapsuleCommon(origin, direction, pa, pb, radius);
    if k.h >= 0.0 then
      var t := RayIntersection.BodyRoot(k, -sqrt(k.h));
      var y := RayIntersection.AxisCoordinate(k, t);
      if y > 0.0 && y < k.baba then Some(t)
      else CapTest(origin, direction, if y <= 0.0 then pa else pb, radius, sqrt)
    else None
  }

  /**
   A body hit behind the origin: main.cpp reports the negative distance
   t where the library reports no hit.
   */
  lemma CapsuleTestKeepsBehind(origin: Vec3, direction: Vec3, pa: Vec3, pb: Vec3, radius: real, sqrt: real -> real)
    requires RayIntersection.CapsuleCommon(origin, direction, pa, pb, radius).a != 0.0
    ensures var k := RayIntersection.CapsuleCommon(origin, direction, pa, pb, radius);
      var t := RayIntersection.BodyRoot(k, -sqrt(k.h));
      var y := RayIntersection.AxisCoordinate(k, t);
      0.0 <= k.h && 0.0 < y < k.baba && t < 0.0 ==>
        CapsuleTest(origin, direction, pa, pb, radius, sqrt) == Some(t)
        && RayIntersection.CapsuleSpan(origin, direction, pa, pb, radius, sqrt).None?
  {
  }

  /**
   Apart from negative distances, main.cpp's capsule test and the
   library's differ only on grazing cap hits (cap discriminant 0), which
   the library reports with near == far and main.cpp misses.
   */
  lemma {:induction false} CapsuleTestVersusSpan(origin: Vec3, direction: Vec3, pa: Vec3, pb: Vec3, radius: real, sqrt: real -> real)
    requires MathFunctions.IsSqrt(sqrt)
    requires RayIntersection.CapsuleCommon(origin, direction, pa, pb, radius).a != 0.0
    ensures var t := CapsuleTest(origin, direction, pa, pb, radius, sqrt);
      var span := RayIntersection.CapsuleSpan(origin, direction, pa, pb, radius, sqrt);
      && (t.Some? && 0.0 <= t.value ==> span == Some(RayIntersection.Span(t.value, span.value.far)))
      && (span.Some? && t != Some(span.value.near) ==> t.None? && span.value.near == span.value.far)
  {
    var k := RayIntersection.CapsuleCommon(origin, direction, pa, pb, radius);
    if k.h >= 0.0 {
      var t := RayIntersection.BodyRoot(k, -sqrt(k.h));
      var y := RayIntersection.AxisCoordinate(k, t);
      if !(y > 0.0 && y < k.baba) {
        var centre := if y <= 0.0 then pa else pb;
        var h := RayIntersection.SphereH(origin, direction, centre, radius);
        if h == 0.0 {
          MathFunctions.SqrtZero(sqrt);
        }
      }
    }
  }

  /**
   capsule_normal(point, a, b, radius): the library's capsule normal for
   the point relative to a (main's clamp(0, 1, x) is math::clamp(x, 0, 1)).
   */
  function CapsuleNormal(point: Vec3, a: Vec3, b: Vec3, radius: real): (r: Vec3)
    requires Dot(Sub(b, a), Sub(b, a)) != 0.0 && radius != 0.0
    ensures r == RayIntersection.CapsuleNormalAt(Sub(point, a), Sub(b, a), radius)
  {
    var ba := Sub(b, a);
    var pa := Sub(point, a);
    var h := Clamp(0.0, 1.0, Dot(pa, ba) / Dot(ba, ba));
    DivScalar(Sub(pa, ScalarMul(h, ba)), radius)
  }

  // ==== the scene ===============================================================

  datatype Geometry =
    | Plane(position: Vec3, normal: Vec3)
    | Sphere(position: Vec3, radius: real)
    | Capsule(point1: Vec3, point2: Vec3, capRadius: real)

  datatype Primitive = Primitive(geometry: Geometry, color: Vec3)

  datatype Light = Light(position: Vec3, normal: Vec3, radius: real)

  /** The primitive at skipIndex (-1: none) is ignored by raycast. */
  datatype Scene = Scene(skipIndex: int, primitives: seq<Primitive>, lights: seq<Light>)

  /** The initial "no hit yet" distance of raycast, 9e21. */
  const Sentinel: real := 9000000000000000000000.0

  /** The capsule test divides by a; the model requires a != 0 for every capsule. */
  predicate Testable(g: Geometry, origin: Vec3, direction: Vec3) {
    g.Capsule? ==> RayIntersection.CapsuleCommon(origin, direction, g.point1, g.point2, g.capRadius).a != 0.0
  }

  /** The test raycast runs for one primitive. */
  function Test(g: Geometry, origin: Vec3, direction: Vec3, sqrt: real -> real): Option<real>
    requires Testable(g, origin, direction)
  {
    match g
    case Plane(pos, n) => PlaneTest(origin, direction, pos, n, sqrt)
    case Sphere(pos, r) => SphereTest(origin, direction, pos, r, sqrt)
    case Capsule(p1, p2, r) => CapsuleTest(origin, direction, p1, p2, r, sqrt)
  }

  predicate SceneTestable(s: Scene, origin: Vec3, direction: Vec3) {
    forall i :: 0 <= i < |s.primitives| ==> Testable(s.primitives[i].geometry, origin, direction)
  }

  /** The test result of primitive i. */
  function Candidate(s: Scene, origin: Vec3, direction: Vec3, sqrt: real -> real, i: int): Option<real>
    requires SceneTestable(s, origin, direction) && 0 <= i < |s.primitives|
  {
    Test(s.primitives[i].geometry, origin, direction, sqrt)
  }

  /** Primitive i is a candidate raycast may take: not skipped, a hit, at a distance >= 0. */
  predicate Eligible(s: Scene, origin: Vec3, direction: Vec3, sqrt: real -> real, i: int)
    requires SceneTestable(s, origin, direction) && 0 <= i < |s.primitives|
  {
    i != s.skipIndex && Candidate(s, origin, direction, sqrt, i).Some? && 0.0 <= Candidate(s, origin, direction, sqrt, i).value
  }

  /**
   The normal raycast stores for a hit: the plane's normal, the
   normalised offset from the sphere's centre, or the capsule normal.
   None where the source divides by zero (a hit at the centre of a
   sphere, a degenerate capsule, a zero capsule radius).
   */
  function HitNormal(g: Geometry, point: Vec3, sqrt: real -> real): (r: Option<Vec3>)
    ensures g.Plane? ==> r == Some(g.normal)
    ensures g.Sphere? ==> (r.None? <==> Dot(Sub(point, g.position), Sub(point, g.position)) == 0.0)
    ensures g.Sphere? && r.Some? && MathFunctions.IsSqrt(sqrt) ==>
      && Dot(r.value, r.value) == 1.0
      && 0.0 < Normalize(Sub(point, g.position), sqrt).1
      && Scale(r.value, Normalize(Sub(point, g.position), sqrt).1) == Sub(point, g.position)
    ensures g.Capsule? ==>
      (r.None? <==> Dot(Sub(g.point2, g.point1), Sub(g.point2, g.point1)) == 0.0 || g.capRadius == 0.0)
    ensures g.Capsule? && r.Some? ==>
      r.value == RayIntersection.CapsuleNormalAt(Sub(point, g.point1), Sub(g.point2, g.point1), g.capRadius)
  {
    match g
    case Plane(_, n) => Some(n)
    case Sphere(pos, _) =>
      var v := Sub(point, pos);
      if Dot(v, v) == 0.0 then None else Some(NormalizeSelf(v, sqrt))
    case Capsule(p1, p2, r) =>
      if Dot(Sub(p2, p1), Sub(p2, p1)) == 0.0 || r == 0.0 then None
      else Some(CapsuleNormal(point, p1, p2, r))
  }

  /**
   raycast: a linear scan over the primitives, skipping skipIndex, that
   takes a test result when it is a hit, strictly nearer than the best so
   far (initially 9e21) and not negative. It returns the index taken last,
   or -1; on -1 the distance stays 9e21 and the caller's normal and
   intersection are untouched.
   */
  method Raycast(s: Scene, origin: Vec3, direction: Vec3, sqrt: real -> real, normal: Vec3, intersection: Vec3)
    returns (index: int, distance: real, normalOut: Option<Vec3>, intersectionOut: Vec3)
    requires SceneTestable(s, origin, direction)
    ensures index == -1 || (0 <= index < |s.primitives| && index != s.skipIndex)
    ensures index == -1 ==> distance == Sentinel && normalOut == Some(normal) && intersectionOut == intersection
    ensures index != -1 ==>
      && Candidate(s, origin, direction, sqrt, index) == Some(distance)
      && 0.0 <= distance < Sentinel
      && intersectionOut == RayIntersection.At(origin, direction, distance)
      && normalOut == HitNormal(s.primitives[index].geometry, intersectionOut, sqrt)
    ensures forall j :: 0 <= j < |s.primitives| && Eligible(s, origin, direction, sqrt, j) ==>
      distance <= Candidate(s, origin, direction, sqrt, j).value
    ensures forall j :: 0 <= j < index && Eligible(s, origin, direction, sqrt, j) ==>
      distance < Candidate(s, origin, direction, sqrt, j).value
  {
    distance := Sentinel;
    index := -1;
    normalOut := Some(normal);
    intersectionOut := intersection;
    var i := 0;
    while i < |s.primitives|
      invariant 0 <= i <= |s.primitives|
      invariant index == -1 || (0 <= index < i && index != s.skipIndex)
      invariant index == -1 ==> distance == Sentinel && normalOut == Some(normal) && intersectionOut == intersection
      invariant index != -1 ==>
        && Candidate(s, origin, direction, sqrt, index) == Some(distance)
        && 0.0 <= distance < Sentinel
        && intersectionOut == RayIntersection.At(origin, direction, distance)
        && normalOut == HitNormal(s.primitives[index].geometry, intersectionOut, sqrt)
      invariant distance <= Sentinel
      invariant forall j :: 0 <= j < i && Eligible(s, origin, direction, sqrt, j) ==>
        distance <= Candidate(s, origin, direction, sqrt, j).value
      invariant forall j :: 0 <= j < index && Eligible(s, origin, direction, sqrt, j) ==>
        distance < Candidate(s, origin, direction, sqrt, j).value
    {
      if s.skipIndex == i {
        i := i + 1;
        continue;
      }
      var g := s.primitives[i].geometry;
      var test := Test(g, origin, direction, sqrt);
      if test.Some? && test.value < distance && test.value >= 0.0 {
        distance := test.value;
        intersectionOut := Add(origin, Scale(direction, distance));
        normalOut := HitNormal(g, intersectionOut, sqrt);
        index := i;
      }
      i := i + 1;
    }
  }

  // ==== shading =================================================================

  const FogColor: Vec3 := Vec3(0.4, 0.6, 0.4)
  const LightColor: Vec3 := Vec3(0.9, 0.9, 1.0)

  /** A colour before the gamma correction. */
  datatype Rgb = Rgb(r: real, g: real, b: real)

  /** fog_dist = clamp(0, 250, dist) / 250: the fog weight, in [0, 1]. */
  function FogWeight(dist: real): (f: real)
    ensures 0.0 <= f <= 1.0
    ensures dist <= 0.0 ==> f == 0.0
    ensures 250.0 <= dist ==> f == 1.0
  {
    Clamp(0.0, 250.0, dist) / 250.0
  }

  /** The primitive colour mixed towards the fog colour by the fog weight. */
  function Fogged(color: Vec3, dist: real): (c: Vec3)
    ensures var f := FogWeight(dist);
      && MathFunctions.Min(color.x, FogColor.x) <= c.x <= MathFunctions.Max(color.x, FogColor.x)
      && MathFunctions.Min(color.y, FogColor.y) <= c.y <= MathFunctions.Max(color.y, FogColor.y)
      && MathFunctions.Min(color.z, FogColor.z) <= c.z <= MathFunctions.Max(color.z, FogColor.z)
    ensures 250.0 <= dist ==> c == FogColor
  {
    var f := FogWeight(dist);
    Vec3(Mix(color.x, FogColor.x, f), Mix(color.y, FogColor.y, f), Mix(color.z, FogColor.z, f))
  }

  /** diffuse_light = clamp(0, 1, light . norm * 0.5 + 0.5) * 0.5 + 0.1, in [0.1, 0.6]. */
  function Diffuse(light: Vec3, norm: Vec3): (d: real)
    ensures 0.1 <= d <= 0.6
  {
    Clamp(0.0, 1.0, Dot(light, norm) * 0.5 + 0.5) * 0.5 + 0.1
  }

  /** x * x, never negative. */
  function Square(x: real): (r: real)
    ensures 0.0 <= r
    ensures 0.0 <= x <= 1.0 ==> r <= 1.0
  {
    SquareBelowOne(x);
    x * x
  }

  lemma SquareBelowOne(x: real)
    ensures 0.0 <= x * x
    ensures 0.0 <= x <= 1.0 ==> x * x <= 1.0
  {
    if 0.0 <= x <= 1.0 {
      assert x * x <= x * 1.0;
    }
  }

  /**
   specular_light = clamp(0, 0.7, max(0, reflected . light)^16), the
   reflection of the view direction about the normal raised to the 16th
   power by four squarings: in [0, 0.7], and zero when the reflection
   points away from the light.
   */
  function Specular(direction: Vec3, norm: Vec3, light: Vec3): (s: real)
    ensures 0.0 <= s <= 0.7
    ensures Dot(Reflect(direction, norm), light) <= 0.0 ==> s == 0.0
  {
    var s0 := Max(0.0, Dot(Reflect(direction, norm), light));
    Clamp(0.0, 0.7, Square(Square(Square(Square(s0)))))
  }

  /** A primitive in shadow keeps 0.6 of its diffuse and 0.04 of its specular light. */
  function Shadowed(diffuse: real, specular: real, inShadow: bool): (r: (real, real))
    ensures !inShadow ==> r == (diffuse, specular)
    ensures inShadow ==> r == (diffuse * 0.6, specular * 0.04)
    ensures 0.1 <= diffuse <= 0.6 ==> 0.06 <= r.0 <= 0.6
    ensures 0.0 <= specular <= 0.7 ==> 0.0 <= r.1 <= 0.7
  {
    if inShadow then (diffuse * 0.6, specular * 0.04) else (diffuse, specular)
  }

  /**
   The colour of a pixel whose primary ray hit a primitive of colour
   `color` at distance `dist` with normal `norm`; `inShadow` is whether
   the shadow ray towards the light hit anything. Each channel is
   clamp(0, 1, diffuse * colour + specular * light colour).
   */
  function Shade(color: Vec3, dist: real, direction: Vec3, norm: Vec3, light: Vec3, inShadow: bool): (c: Rgb)
    ensures 0.0 <= c.r <= 1.0 && 0.0 <= c.g <= 1.0 && 0.0 <= c.b <= 1.0
  {
    var fogged := Fogged(color, dist);
    var lights := Shadowed(Diffuse(light, norm), Specular(direction, norm, light), inShadow);
    Rgb(Clamp(0.0, 1.0, lights.0 * fogged.x + lights.1 * LightColor.x),
        Clamp(0.0, 1.0, lights.0 * fogged.y + lights.1 * LightColor.y),
        Clamp(0.0, 1.0, lights.0 * fogged.z + lights.1 * LightColor.z))
  }

}
