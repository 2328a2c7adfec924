/**
 The ray-primitive intersection tests of the core library
 (ray_intersection_test.cpp): plane, sphere, axis-aligned box and
 capsule. Each test comes in up to three overloads: existence only, the
 near and far distances, and the distances with surface normals. A ray
 is an origin `ro` and a direction `rd`; distances are multiples of rd.
 The square root is the parameter `sqrt`.
 */
module RayIntersection {
  import MathFunctions
  import opened Wrappers
  import opened Vector3

  /** Entry and exit distances along the ray. */
  datatype Span = Span(near: real, far: real)

  /** Entry and exit distances with the surface normals at both points. */
  datatype SpanNormals = SpanNormals(near: real, far: real, nearNorm: Vec3, farNorm: Vec3)

  /** The point of the ray at distance t. */
  function At(ro: Vec3, rd: Vec3, t: real): Vec3 {
    Add(ro, Scale(rd, t))
  }

  /** The point at distance t, axis by axis. */
  lemma AtComponents(ro: Vec3, rd: Vec3, t: real)
    ensures var p := At(ro, rd, t);
      p.x == ro.x + rd.x * t && p.y == ro.y + rd.y * t && p.z == ro.z + rd.z * t
  {
  }

  // ==== plane: the points p with dot(p, norm) == w =============================

  /**
   The shared part of the plane overloads: no hit when the ray is parallel
   to the plane (rd . norm == 0) or when the plane lies behind the origin;
   otherwise the distance (w - ro . norm) / (rd . norm).
   */
  function PlaneDistance(ro: Vec3, rd: Vec3, norm: Vec3, w: real): (r: Option<real>)
    ensures r.Some? ==> 0.0 <= r.value && Dot(At(ro, rd, r.value), norm) == w
    ensures Dot(rd, norm) == 0.0 ==> r.None?
    ensures forall t :: 0.0 <= t && Dot(rd, norm) != 0.0 && Dot(At(ro, rd, t), norm) == w ==> r == Some(t)
  {
    var b := Dot(rd, norm);
    if b == 0.0 then None
    else
      var a := -Dot(ro, norm) + w;
      var dist := a / b;
      PlaneHitOnPlane(ro, rd, norm, w);
      if dist < 0.0 then None else Some(dist)
  }

  /** The plane distance is the only distance at which the ray meets the plane. */
  lemma PlaneHitOnPlane(ro: Vec3, rd: Vec3, norm: Vec3, w: real)
    requires Dot(rd, norm) != 0.0
    ensures var t := (-Dot(ro, norm) + w) / Dot(rd, norm);
      Dot(At(ro, rd, t), norm) == w
      && forall s :: Dot(At(ro, rd, s), norm) == w ==> s == t
  {
    var b := Dot(rd, norm);
    var t := (-Dot(ro, norm) + w) / b;
    DotAlongRay(ro, rd, t, norm);
    forall s | Dot(At(ro, rd, s), norm) == w
      ensures s == t
    {
      DotAlongRay(ro, rd, s, norm);
      assert s * b == t * b;
      ProductCancel(s, t, b);
    }
  }

  /** ray_pane_intersection_test(ro, rd, norm, w). */
  function PlaneExists(ro: Vec3, rd: Vec3, norm: Vec3, w: real): (r: bool)
    ensures r <==> exists t :: 0.0 <= t && Dot(rd, norm) != 0.0 && Dot(At(ro, rd, t), norm) == w
  {
    var res := PlaneDistance(ro, rd, norm, w);
    assert res.Some? ==> 0.0 <= res.value && Dot(At(ro, rd, res.value), norm) == w;
    res.Some?
  }

  /** ray_pane_intersection_test(ro, rd, norm, w, near). */
  function PlaneNear(ro: Vec3, rd: Vec3, norm: Vec3, w: real): (r: Option<real>)
    ensures r.Some? <==> PlaneExists(ro, rd, norm, w)
    ensures r.Some? ==> 0.0 <= r.value && Dot(At(ro, rd, r.value), norm) == w
  {
    PlaneDistance(ro, rd, norm, w)
  }

  /**
   ray_pane_intersection_test(ro, rd, norm, w, near, near_norm): the
   normal is flipped to -norm when rd . norm < 0, so it always points
   along the ray.
   */
  function PlaneNearNormal(ro: Vec3, rd: Vec3, norm: Vec3, w: real): (r: Option<(real, Vec3)>)
    ensures r.Some? <==> PlaneExists(ro, rd, norm, w)
    ensures r.Some? ==> Some(r.value.0) == PlaneNear(ro, rd, norm, w)
    ensures r.Some? ==> (r.value.1 == norm || r.value.1 == Neg(norm)) && Dot(r.value.1, rd) > 0.0
  {
    var b := Dot(rd, norm);
    match PlaneDistance(ro, rd, norm, w)
    case None => None
    case Some(dist) => Some((dist, if b < 0.0 then Neg(norm) else norm))
  }

  // ==== sphere ===================================================================

  /** The discriminant b^2 - c of the quadratic t^2 + 2 b t + c. */
  function Discriminant(b: real, c: real): real {
    b * b - c
  }

  /** b = oc . rd with oc = ro - centre. */
  function SphereB(ro: Vec3, rd: Vec3, pos: Vec3): real {
    Dot(Sub(ro, pos), rd)
  }

  /** c = oc . oc - r^2 with oc = ro - centre. */
  function SphereC(ro: Vec3, pos: Vec3, r: real): real {
    Dot(Sub(ro, pos), Sub(ro, pos)) - r * r
  }

  /** h = b^2 - c, the quantity every sphere overload tests first. */
  function SphereH(ro: Vec3, rd: Vec3, pos: Vec3, r: real): real {
    Discriminant(SphereB(ro, rd, pos), SphereC(ro, pos, r))
  }

  /** ray_sphere_intersection_test(ro, rd, pos, r): no hit when h < 0. */
  function SphereExists(ro: Vec3, rd: Vec3, pos: Vec3, r: real): (res: bool)
    ensures res <==> 0.0 <= SphereH(ro, rd, pos, r)
  {
    var h := SphereH(ro, rd, pos, r);
    if h < 0.0 then false else true
  }

  /** The point p lies on the sphere. */
  predicate SphereContains(pos: Vec3, r: real, p: Vec3) {
    Dot(Sub(p, pos), Sub(p, pos)) == r * r
  }

  /**
   For a unit direction and a true square root, the existence overload
   answers whether the line through the ray meets the sphere, in front of
   the origin or behind it.
   */
  lemma {:induction false} SphereExistsIffLineMeets(ro: Vec3, rd: Vec3, pos: Vec3, r: real, sqrt: real -> real)
    requires MathFunctions.IsSqrt(sqrt) && Dot(rd, rd) == 1.0
    ensures SphereExists(ro, rd, pos, r) <==> exists t :: SphereContains(pos, r, At(ro, rd, t))
  {
    if SphereExists(ro, rd, pos, r) {
      var t := SphereRoot(ro, rd, pos, r, sqrt);
      assert SphereContains(pos, r, At(ro, rd, t));
    }
    forall t | SphereContains(pos, r, At(ro, rd, t))
      ensures SphereExists(ro, rd, pos, r)
    {
      LineMeetsSphere(ro, rd, pos, r, t);
    }
  }

  /** When h >= 0, the line meets the sphere at distance -b + sqrt(h). */
  lemma {:induction false} SphereRoot(ro: Vec3, rd: Vec3, pos: Vec3, r: real, sqrt: real -> real) returns (t: real)
    requires MathFunctions.IsSqrt(sqrt) && Dot(rd, rd) == 1.0 && 0.0 <= SphereH(ro, rd, pos, r)
    ensures t == -SphereB(ro, rd, pos) + sqrt(SphereH(ro, rd, pos, r))
    ensures SphereContains(pos, r, At(ro, rd, t))
  {
    var b := SphereB(ro, rd, pos);
    var h := SphereH(ro, rd, pos, r);
    var s := sqrt(h);
    t := -b + s;
    assert s * s == h;
    UnitRayQuadratic(ro, rd, pos, r, t);
    assert t + b == s;
  }

  /** A point of the line on the sphere forces h >= 0. */
  lemma {:induction false} LineMeetsSphere(ro: Vec3, rd: Vec3, pos: Vec3, r: real, t: real)
    requires Dot(rd, rd) == 1.0 && SphereContains(pos, r, At(ro, rd, t))
    ensures 0.0 <= SphereH(ro, rd, pos, r)
  {
    var b := SphereB(ro, rd, pos);
    UnitRayQuadratic(ro, rd, pos, r, t);
    SquareBound(t + b, SphereH(ro, rd, pos, r),
                Dot(Sub(At(ro, rd, t), pos), Sub(At(ro, rd, t), pos)) - r * r);
  }

  /** A quantity equal to a square minus h, and equal to zero, forces h >= 0. */
  lemma SquareBound(x: real, h: real, d: real)
    requires d == x * x - h && d == 0.0
    ensures 0.0 <= h
  {
    assert 0.0 <= x * x;
  }

  /**
   For a unit direction, the squared distance from the centre at
   distance t, less r^2, is (t + b)^2 - h; so a point on the sphere needs
   h >= 0.
   */
  lemma UnitRayQuadratic(ro: Vec3, rd: Vec3, pos: Vec3, r: real, t: real)
    requires Dot(rd, rd) == 1.0
    ensures Dot(Sub(At(ro, rd, t), pos), Sub(At(ro, rd, t), pos)) - r * r
      == (t + SphereB(ro, rd, pos)) * (t + SphereB(ro, rd, pos)) - SphereH(ro, rd, pos, r)
  {
    var oc := Sub(ro, pos);
    var q := Sub(At(ro, rd, t), pos);
    assert q == Add(oc, Scale(rd, t));
    DotOfShifted(oc, rd, t);
    QuadraticCompleted(t, Dot(oc, rd), Dot(oc, oc) - r * r);
  }

  /** (oc + t rd) . (oc + t rd) expanded. */
  lemma DotOfShifted(oc: Vec3, rd: Vec3, t: real)
    ensures Dot(Add(oc, Scale(rd, t)), Add(oc, Scale(rd, t)))
      == Dot(oc, oc) + 2.0 * t * Dot(oc, rd) + t * t * Dot(rd, rd)
  {
  }

  /** t^2 + 2 b t + c == (t + b)^2 - (b^2 - c). */
  lemma QuadraticCompleted(t: real, b: real, c: real)
    ensures t * t + 2.0 * t * b + c == (t + b) * (t + b) - Discriminant(b, c)
  {
  }

  /**
   ray_sphere_intersection_test(ro, rd, pos, r, near, far): no hit when
   h < 0 or when the near root -b - sqrt(h) is negative, even if the far
   root is not; otherwise both roots.
   */
  function SphereSpan(ro: Vec3, rd: Vec3, pos: Vec3, r: real, sqrt: real -> real): (res: Option<Span>)
    ensures res.Some? ==> SphereExists(ro, rd, pos, r) && 0.0 <= res.value.near
    ensures res.Some? ==> res.value.far - res.value.near == 2.0 * sqrt(SphereH(ro, rd, pos, r))
    ensures res.Some? ==> res.value.near + res.value.far == -2.0 * SphereB(ro, rd, pos)
  {
    var b := SphereB(ro, rd, pos);
    var h := SphereH(ro, rd, pos, r);
    if h < 0.0 then None
    else
      var s := sqrt(h);
      var n := -b - s;
      if n < 0.0 then None else Some(Span(n, -b + s))
  }

  /** With a true square root the near root never exceeds the far one. */
  lemma SphereSpanOrdered(ro: Vec3, rd: Vec3, pos: Vec3, r: real, sqrt: real -> real)
    requires MathFunctions.IsSqrt(sqrt)
    ensures var res := SphereSpan(ro, rd, pos, r, sqrt);
      res.Some? ==> 0.0 <= res.value.near <= res.value.far
  {
    var h := SphereH(ro, rd, pos, r);
    if 0.0 <= h {
      assert 0.0 <= sqrt(h);
    }
  }

  /** For a unit direction and a true square root, both reported points lie on the sphere. */
  lemma {:induction false} SphereSpanOnSphere(ro: Vec3, rd: Vec3, pos: Vec3, r: real, sqrt: real -> real)
    requires MathFunctions.IsSqrt(sqrt) && Dot(rd, rd) == 1.0
    ensures var res := SphereSpan(ro, rd, pos, r, sqrt);
      res.Some? ==> SphereContains(pos, r, At(ro, rd, res.value.near)) && SphereContains(pos, r, At(ro, rd, res.value.far))
  {
    var res := SphereSpan(ro, rd, pos, r, sqrt);
    if res.Some? {
      var s := sqrt(SphereH(ro, rd, pos, r));
      RootOnSphere(ro, rd, pos, r, res.value.near, -s);
      RootOnSphere(ro, rd, pos, r, res.value.far, s);
    }
  }

  /** A distance t with t + b == e and e^2 == h is a point of the sphere. */
  lemma {:induction false} RootOnSphere(ro: Vec3, rd: Vec3, pos: Vec3, r: real, t: real, e: real)
    requires Dot(rd, rd) == 1.0 && e * e == SphereH(ro, rd, pos, r)
    requires t + SphereB(ro, rd, pos) == e
    ensures SphereContains(pos, r, At(ro, rd, t))
  {
    UnitRayQuadratic(ro, rd, pos, r, t);
  }

  /**
   The existence overload and the distance overloads disagree: a ray that
   starts strictly inside the sphere (c < 0) always meets it (h > 0), but
   its near root -b - sqrt(h) is negative, so the distance overloads
   report no hit.
   */
  lemma {:induction false} InsideExistsWithoutSpan(ro: Vec3, rd: Vec3, pos: Vec3, r: real, sqrt: real -> real)
    requires MathFunctions.IsSqrt(sqrt) && SphereC(ro, pos, r) < 0.0
    ensures SphereExists(ro, rd, pos, r)
    ensures SphereSpan(ro, rd, pos, r, sqrt).None?
  {
    var b := SphereB(ro, rd, pos);
    var c := SphereC(ro, pos, r);
    NegativeRoot(b, c, sqrt);
  }

  /** For c < 0 the smaller root -b - sqrt(b^2 - c) is negative. */
  lemma NegativeRoot(b: real, c: real, sqrt: real -> real)
    requires MathFunctions.IsSqrt(sqrt) && c < 0.0
    ensures 0.0 < Discriminant(b, c)
    ensures -b - sqrt(Discriminant(b, c)) < 0.0
  {
    var h := Discriminant(b, c);
    assert 0.0 <= b * b;
    var s := sqrt(h);
    assert s * s == h;
    if 0.0 <= -b - s {
      MulMonotone(s, -b);
      assert false;
    }
  }

  /** 0 <= x <= y gives x^2 <= y^2. */
  lemma MulMonotone(x: real, y: real)
    requires 0.0 <= x <= y
    ensures x * x <= y * y
  {
    assert x * x <= x * y;
    assert x * y <= y * y;
  }

  /** Both points of a span have a non-zero distance from the centre, so their normals are defined. */
  predicate SphereNormalsDefined(ro: Vec3, rd: Vec3, pos: Vec3, r: real, sqrt: real -> real) {
    var res := SphereSpan(ro, rd, pos, r, sqrt);
    res.Some? ==>
      Length(Sub(At(ro, rd, res.value.near), pos), sqrt) != 0.0
      && Length(Sub(At(ro, rd, res.value.far), pos), sqrt) != 0.0
  }

  /**
   ray_sphere_intersection_test(ro, rd, pos, r, near, far, near_norm,
   far_norm): the span of the distance overload, with the normalised
   vectors from the centre to both points.
   */
  function SphereSpanNormals(ro: Vec3, rd: Vec3, pos: Vec3, r: real, sqrt: real -> real): (res: Option<SpanNormals>)
    requires SphereNormalsDefined(ro, rd, pos, r, sqrt)
    ensures res.Some? <==> SphereSpan(ro, rd, pos, r, sqrt).Some?
    ensures res.Some? ==> SphereSpan(ro, rd, pos, r, sqrt) == Some(Span(res.value.near, res.value.far))
    ensures res.Some? ==>
      && Scale(res.value.nearNorm, Length(Sub(At(ro, rd, res.value.near), pos), sqrt)) == Sub(At(ro, rd, res.value.near), pos)
      && Scale(res.value.farNorm, Length(Sub(At(ro, rd, res.value.far), pos), sqrt)) == Sub(At(ro, rd, res.value.far), pos)
    ensures res.Some? && MathFunctions.IsSqrt(sqrt) ==>
      Dot(res.value.nearNorm, res.value.nearNorm) == 1.0 && Dot(res.value.farNorm, res.value.farNorm) == 1.0
  {
    match SphereSpan(ro, rd, pos, r, sqrt)
    case None => None
    case Some(span) =>
      Some(SpanNormals(span.near, span.far,
                       NormalizeSelf(Sub(Add(ro, Scale(rd, span.near)), pos), sqrt),
                       NormalizeSelf(Sub(Add(ro, Scale(rd, span.far)), pos), sqrt)))
  }

  // ==== axis-aligned box: centre pos, half extents size ===========================

  /** The slab distances shared by the box overloads. */
  datatype Slabs = Slabs(t1: Vec3, t2: Vec3, tN: real, tF: real)

  /**
   m = 1 / rd, n = m * (ro - pos), k = |m| * size; t1 = -n - k and
   t2 = -n + k are the entry and exit distances of each slab, tN the
   largest entry and tF the smallest exit. The model requires every
   component of rd to be non-zero.
   */
  function AabbSlabs(ro: Vec3, rd: Vec3, pos: Vec3, size: Vec3): (s: Slabs)
    requires NonZero(rd)
    ensures s.tN == MaxComponent(s.t1) && s.tF == MinComponent(s.t2)
  {
    var m := ScalarDiv(1.0, rd);
    var n := Mul(m, Sub(ro, pos));
    var k := Mul(Abs(m), size);
    var t1 := Sub(Neg(n), k);
    var t2 := Add(Neg(n), k);
    Slabs(t1, t2, MaxComponent(t1), MinComponent(t2))
  }

  /** The shared rejection: tN > tF, tN < 0 or tF <= 0. */
  predicate AabbRejects(s: Slabs) {
    s.tN > s.tF || s.tN < 0.0 || s.tF <= 0.0
  }

  /** ray_aabb_intersection_test(ro, rd, aabb_pos, aabb_size). */
  function AabbExists(ro: Vec3, rd: Vec3, pos: Vec3, size: Vec3): (r: bool)
    requires NonZero(rd)
    ensures var s := AabbSlabs(ro, rd, pos, size);
      r <==> 0.0 <= s.tN <= s.tF && 0.0 < s.tF
  {
    !AabbRejects(AabbSlabs(ro, rd, pos, size))
  }

  /** ray_aabb_intersection_test(ro, rd, aabb_pos, aabb_size, near, far). */
  function AabbSpan(ro: Vec3, rd: Vec3, pos: Vec3, size: Vec3): (res: Option<Span>)
    requires NonZero(rd)
    ensures res.Some? <==> AabbExists(ro, rd, pos, size)
    ensures res.Some? ==> 0.0 <= res.value.near <= res.value.far && 0.0 < res.value.far
  {
    var s := AabbSlabs(ro, rd, pos, size);
    if AabbRejects(s) then None else Some(Span(s.tN, s.tF))
  }

  /** The point p lies in the box: |p - pos| <= size on every axis. */
  predicate InBox(pos: Vec3, size: Vec3, p: Vec3) {
    MathFunctions.Abs(p.x - pos.x) <= size.x
    && MathFunctions.Abs(p.y - pos.y) <= size.y
    && MathFunctions.Abs(p.z - pos.z) <= size.z
  }

  /**
   The slab method is exact: the ray is in the box at distance t exactly
   when t lies between the largest entry tN and the smallest exit tF.
   */
  lemma {:induction false} SlabsAreBox(ro: Vec3, rd: Vec3, pos: Vec3, size: Vec3, t: real)
    requires NonZero(rd)
    ensures var s := AabbSlabs(ro, rd, pos, size);
      s.tN <= t <= s.tF <==> InBox(pos, size, At(ro, rd, t))
  {
    var s := AabbSlabs(ro, rd, pos, size);
    var p := At(ro, rd, t);
    SlabComponents(ro, rd, pos, size);
    AtComponents(ro, rd, t);
    BoxFromSlabs(ro, rd, pos, size, t, s.t1, s.t2, p);
  }

  /** The three slabs together: t is inside all of them exactly when p is in the box. */
  lemma BoxFromSlabs(ro: Vec3, rd: Vec3, pos: Vec3, size: Vec3, t: real, t1: Vec3, t2: Vec3, p: Vec3)
    requires NonZero(rd)
    requires && t1.x == -((1.0 / rd.x) * (ro.x - pos.x)) - MathFunctions.Abs(1.0 / rd.x) * size.x
             && t2.x == -((1.0 / rd.x) * (ro.x - pos.x)) + MathFunctions.Abs(1.0 / rd.x) * size.x
             && t1.y == -((1.0 / rd.y) * (ro.y - pos.y)) - MathFunctions.Abs(1.0 / rd.y) * size.y
             && t2.y == -((1.0 / rd.y) * (ro.y - pos.y)) + MathFunctions.Abs(1.0 / rd.y) * size.y
             && t1.z == -((1.0 / rd.z) * (ro.z - pos.z)) - MathFunctions.Abs(1.0 / rd.z) * size.z
             && t2.z == -((1.0 / rd.z) * (ro.z - pos.z)) + MathFunctions.Abs(1.0 / rd.z) * size.z
    requires p.x == ro.x + rd.x * t && p.y == ro.y + rd.y * t && p.z == ro.z + rd.z * t
    ensures MaxComponent(t1) <= t <= MinComponent(t2) <==> InBox(pos, size, p)
  {
    SlabOfAxis(ro.x, rd.x, pos.x, size.x, t, t1.x, t2.x, p.x);
    SlabOfAxis(ro.y, rd.y, pos.y, size.y, t, t1.y, t2.y, p.y);
    SlabOfAxis(ro.z, rd.z, pos.z, size.z, t, t1.z, t2.z, p.z);
  }

  /** The per-axis entry and exit distances of AabbSlabs. */
  lemma SlabComponents(ro: Vec3, rd: Vec3, pos: Vec3, size: Vec3)
    requires NonZero(rd)
    ensures var s := AabbSlabs(ro, rd, pos, size);
      && s.t1.x == -((1.0 / rd.x) * (ro.x - pos.x)) - MathFunctions.Abs(1.0 / rd.x) * size.x
      && s.t2.x == -((1.0 / rd.x) * (ro.x - pos.x)) + MathFunctions.Abs(1.0 / rd.x) * size.x
      && s.t1.y == -((1.0 / rd.y) * (ro.y - pos.y)) - MathFunctions.Abs(1.0 / rd.y) * size.y
      && s.t2.y == -((1.0 / rd.y) * (ro.y - pos.y)) + MathFunctions.Abs(1.0 / rd.y) * size.y
      && s.t1.z == -((1.0 / rd.z) * (ro.z - pos.z)) - MathFunctions.Abs(1.0 / rd.z) * size.z
      && s.t2.z == -((1.0 / rd.z) * (ro.z - pos.z)) + MathFunctions.Abs(1.0 / rd.z) * size.z
  {
    var m := ScalarDiv(1.0, rd);
    var n := Mul(m, Sub(ro, pos));
    var k := Mul(Abs(m), size);
    SlabsFromParts(ro, rd, pos, size);
    SlabOffset(ro, rd, pos);
    SlabWidth(rd, size);
  }

  lemma SlabsFromParts(ro: Vec3, rd: Vec3, pos: Vec3, size: Vec3)
    requires NonZero(rd)
    ensures var m := ScalarDiv(1.0, rd);
      var n := Mul(m, Sub(ro, pos));
      var k := Mul(Abs(m), size);
      var s := AabbSlabs(ro, rd, pos, size);
      s.t1 == Sub(Neg(n), k) && s.t2 == Add(Neg(n), k)
  {
  }

  lemma SlabOffset(ro: Vec3, rd: Vec3, pos: Vec3)
    requires NonZero(rd)
    ensures var n := Mul(ScalarDiv(1.0, rd), Sub(ro, pos));
      && n.x == (1.0 / rd.x) * (ro.x - pos.x)
      && n.y == (1.0 / rd.y) * (ro.y - pos.y)
      && n.z == (1.0 / rd.z) * (ro.z - pos.z)
  {
  }

  lemma SlabWidth(rd: Vec3, size: Vec3)
    requires NonZero(rd)
    ensures var k := Mul(Abs(ScalarDiv(1.0, rd)), size);
      && k.x == MathFunctions.Abs(1.0 / rd.x) * size.x
      && k.y == MathFunctions.Abs(1.0 / rd.y) * size.y
      && k.z == MathFunctions.Abs(1.0 / rd.z) * size.z
  {
  }

  /** SlabAxis restated for the entry, exit and point values one axis of AabbSlabs computes. */
  lemma SlabOfAxis(o: real, d: real, c: real, s: real, t: real, t1: real, t2: real, p: real)
    requires d != 0.0
    requires t1 == -((1.0 / d) * (o - c)) - MathFunctions.Abs(1.0 / d) * s
    requires t2 == -((1.0 / d) * (o - c)) + MathFunctions.Abs(1.0 / d) * s
    requires p == o + d * t
    ensures (t1 <= t <= t2) <==> MathFunctions.Abs(p - c) <= s
  {
    SlabAxis(o, d, c, s, t);
  }

  /** On a hit, the span is exactly the set of distances at which the ray is in the box. */
  lemma AabbSpanIsBox(ro: Vec3, rd: Vec3, pos: Vec3, size: Vec3, t: real)
    requires NonZero(rd) && AabbSpan(ro, rd, pos, size).Some?
    ensures var span := AabbSpan(ro, rd, pos, size).value;
      span.near <= t <= span.far <==> InBox(pos, size, At(ro, rd, t))
  {
    SlabsAreBox(ro, rd, pos, size, t);
  }

  /**
   One slab: with m = 1/d, n = m (o - c) and k = |m| s, the point
   o + t d lies within s of c exactly when -n - k <= t <= -n + k.
   */
  lemma {:induction false} SlabAxis(o: real, d: real, c: real, s: real, t: real)
    requires d != 0.0
    ensures var m := 1.0 / d; var n := m * (o - c); var k := MathFunctions.Abs(m) * s;
      (-n - k <= t <= -n + k) <==> MathFunctions.Abs(o + d * t - c) <= s
  {
    var m := 1.0 / d;
    var n := m * (o - c);
    var k := MathFunctions.Abs(m) * s;
    var u := t + n;
    assert d * n == o - c by { assert d * m == 1.0; }
    assert o + d * t - c == d * u;
    AbsOfProduct(d, u);
    var ad := MathFunctions.Abs(d);
    assert 0.0 < ad;
    assert MathFunctions.Abs(m) * ad == 1.0 by { AbsOfProduct(m, d); }
    assert k * ad == s;
    // -k <= u <= k  iff  |u| <= k  iff  |u| * |d| <= k * |d|
    ScaleBoth(MathFunctions.Abs(u), k, ad);
  }

  /** |a b| == |a| |b|. */
  lemma AbsOfProduct(a: real, b: real)
    ensures MathFunctions.Abs(a * b) == MathFunctions.Abs(a) * MathFunctions.Abs(b)
  {
    if a < 0.0 && b < 0.0 {
      assert a * b == (-a) * (-b);
    } else if a < 0.0 {
      assert -(a * b) == (-a) * b;
    } else if b < 0.0 {
      assert -(a * b) == a * (-b);
    }
  }

  /** Multiplying both sides by a positive factor keeps the order. */
  lemma ScaleBoth(x: real, y: real, p: real)
    requires 0.0 < p
    ensures x <= y <==> x * p <= y * p
  {
    if x <= y {
      assert (y - x) * p >= 0.0;
    } else {
      assert (x - y) * p > 0.0;
    }
  }

  /** The lambda `step(edge, a)`: 0 where a < edge, else 1, per component. */
  function Step(edge: Vec3, a: Vec3): (r: Vec3)
    ensures (r.x == 1.0 <==> edge.x <= a.x) && (r.x == 0.0 <==> a.x < edge.x)
    ensures (r.y == 1.0 <==> edge.y <= a.y) && (r.y == 0.0 <==> a.y < edge.y)
    ensures (r.z == 1.0 <==> edge.z <= a.z) && (r.z == 0.0 <==> a.z < edge.z)
  {
    Vec3(if a.x < edge.x then 0.0 else 1.0,
         if a.y < edge.y then 0.0 else 1.0,
         if a.z < edge.z then 0.0 else 1.0)
  }

  /** Every component is -1, 0 or 1. */
  predicate UnitSteps(v: Vec3) {
    v.x in {-1.0, 0.0, 1.0} && v.y in {-1.0, 0.0, 1.0} && v.z in {-1.0, 0.0, 1.0}
  }

  /** Every component is 0 or 1. */
  predicate Indicator(v: Vec3) {
    v.x in {0.0, 1.0} && v.y in {0.0, 1.0} && v.z in {0.0, 1.0}
  }

  /**
   The normals of the box overload with normals: for tN > 0 the near
   normal marks the axes whose entry equals tN and the far normal the axes
   whose exit equals tF; otherwise the two step calls are swapped. The
   near normal is then multiplied by -sign(rd); the far normal is left
   unsigned.
   */
  function BoxNormals(s: Slabs, rd: Vec3): (r: (Vec3, Vec3))
    ensures UnitSteps(r.0) && Indicator(r.1)
  {
    var entry := Step(Broadcast(s.tN), s.t1);
    var exit := Step(s.t2, Broadcast(s.tF));
    var nearStep := if s.tN > 0.0 then entry else exit;
    var farStep := if s.tN > 0.0 then exit else entry;
    (MulAssign(nearStep, Neg(Sign(rd))), farStep)
  }

  /**
   ray_aabb_intersection_test(ro, rd, aabb_pos, aabb_size, near, far,
   near_norm, far_norm): the span of the distance overload with the
   normals of BoxNormals.
   */
  function AabbSpanNormals(ro: Vec3, rd: Vec3, pos: Vec3, size: Vec3): (res: Option<SpanNormals>)
    requires NonZero(rd)
    ensures res.Some? <==> AabbExists(ro, rd, pos, size)
    ensures res.Some? ==> AabbSpan(ro, rd, pos, size) == Some(Span(res.value.near, res.value.far))
    ensures res.Some? ==> UnitSteps(res.value.nearNorm) && Indicator(res.value.farNorm)
  {
    var s := AabbSlabs(ro, rd, pos, size);
    if AabbRejects(s) then None
    else
      var norms := BoxNormals(s, rd);
      Some(SpanNormals(s.tN, s.tF, norms.0, norms.1))
  }

  /**
   When the box is entered in front of the origin (tN > 0), the near
   normal is -sign(rd) on the axes whose slab is entered last and zero on
   the others, so it points against the ray; the far normal marks the axes
   whose slab is left first.
   */
  lemma BoxNormalsMarkFaces(s: Slabs, rd: Vec3)
    requires 0.0 < s.tN && s.tN == MaxComponent(s.t1) && s.tF == MinComponent(s.t2)
    ensures var nearNorm := BoxNormals(s, rd).0;
      && nearNorm.x == (if s.t1.x == s.tN then -MathFunctions.Sign(rd.x) else 0.0)
      && nearNorm.y == (if s.t1.y == s.tN then -MathFunctions.Sign(rd.y) else 0.0)
      && nearNorm.z == (if s.t1.z == s.tN then -MathFunctions.Sign(rd.z) else 0.0)
    ensures var farNorm := BoxNormals(s, rd).1;
      && (farNorm.x == 1.0 <==> s.t2.x == s.tF)
      && (farNorm.y == 1.0 <==> s.t2.y == s.tF)
      && (farNorm.z == 1.0 <==> s.t2.z == s.tF)
  {
    var entry := Step(Broadcast(s.tN), s.t1);
    EntryStep(s.t1, s.tN);
    ExitStep(s.t2, s.tF);
    SignedStep(entry, rd);
  }

  /** A 0/1 step times -sign(rd): -sign(rd) where the step is 1, zero elsewhere. */
  lemma SignedStep(step: Vec3, rd: Vec3)
    requires Indicator(step)
    ensures var n := MulAssign(step, Neg(Sign(rd)));
      && n.x == (if step.x == 1.0 then -MathFunctions.Sign(rd.x) else 0.0)
      && n.y == (if step.y == 1.0 then -MathFunctions.Sign(rd.y) else 0.0)
      && n.z == (if step.z == 1.0 then -MathFunctions.Sign(rd.z) else 0.0)
  {
    SignedComponents(step, rd);
    StepTimes(step.x, -MathFunctions.Sign(rd.x));
    StepTimes(step.y, -MathFunctions.Sign(rd.y));
    StepTimes(step.z, -MathFunctions.Sign(rd.z));
  }

  /** Multiplying by a 0/1 step selects. */
  lemma StepTimes(e: real, c: real)
    requires e in {0.0, 1.0}
    ensures e * c == (if e == 1.0 then c else 0.0)
  {
  }

  /** Against the largest entry, the step is 1 exactly on the axes that reach it. */
  lemma EntryStep(t1: Vec3, tN: real)
    requires tN == MaxComponent(t1)
    ensures var e := Step(Broadcast(tN), t1);
      && (e.x == 1.0 <==> t1.x == tN) && (e.x == 0.0 || e.x == 1.0)
      && (e.y == 1.0 <==> t1.y == tN) && (e.y == 0.0 || e.y == 1.0)
      && (e.z == 1.0 <==> t1.z == tN) && (e.z == 0.0 || e.z == 1.0)
  {
  }

  /** Against the smallest exit, the step is 1 exactly on the axes that reach it. */
  lemma ExitStep(t2: Vec3, tF: real)
    requires tF == MinComponent(t2)
    ensures var e := Step(t2, Broadcast(tF));
      && (e.x == 1.0 <==> t2.x == tF)
      && (e.y == 1.0 <==> t2.y == tF)
      && (e.z == 1.0 <==> t2.z == tF)
  {
  }

  /** The components of step * -sign(rd). */
  lemma SignedComponents(step: Vec3, rd: Vec3)
    ensures var n := MulAssign(step, Neg(Sign(rd)));
      && n.x == step.x * -MathFunctions.Sign(rd.x)
      && n.y == step.y * -MathFunctions.Sign(rd.y)
      && n.z == step.z * -MathFunctions.Sign(rd.z)
  {
    var w := Neg(Sign(rd));
    assert w == Vec3(-MathFunctions.Sign(rd.x), -MathFunctions.Sign(rd.y), -MathFunctions.Sign(rd.z));
    assert MulAssign(step, w) == Vec3(step.x * w.x, step.y * w.y, step.z * w.z);
  }


  /** BoxNormalsMarkFaces for the normals the box overload reports. */
  lemma AabbNormalsMarkFaces(ro: Vec3, rd: Vec3, pos: Vec3, size: Vec3)
    requires NonZero(rd)
    ensures var s := AabbSlabs(ro, rd, pos, size);
      var res := AabbSpanNormals(ro, rd, pos, size);
      res.Some? && 0.0 < res.value.near ==>
        && (res.value.nearNorm.x != 0.0 <==> s.t1.x == s.tN)
        && (res.value.nearNorm.y != 0.0 <==> s.t1.y == s.tN)
        && (res.value.nearNorm.z != 0.0 <==> s.t1.z == s.tN)
        && (res.value.farNorm.x == 1.0 <==> s.t2.x == s.tF)
        && (res.value.farNorm.y == 1.0 <==> s.t2.y == s.tF)
        && (res.value.farNorm.z == 1.0 <==> s.t2.z == s.tF)
  {
    var s := AabbSlabs(ro, rd, pos, size);
    if 0.0 < s.tN {
      BoxNormalsMarkFaces(s, rd);
    }
  }

  // ==== capsule: the points within cap_r of the segment pa..pb ====================

  /** The shared quantities of the capsule overloads. */
  datatype CapsuleTerms = CapsuleTerms(ba: Vec3, oa: Vec3, baba: real, bard: real, baoa: real, a: real, b: real, c: real, h: real)

  /**
   ba = pb - pa, oa = ro - pa and the coefficients a, b, c of the body
   quadratic a t^2 + 2 b t + c with its discriminant h = b^2 - a c.
   */
  function CapsuleCommon(ro: Vec3, rd: Vec3, pa: Vec3, pb: Vec3, r: real): (k: CapsuleTerms)
    ensures k.ba == Sub(pb, pa) && k.oa == Sub(ro, pa)
    ensures k.baba == Dot(k.ba, k.ba) && k.bard == Dot(k.ba, rd) && k.baoa == Dot(k.ba, k.oa)
    ensures k.a == BodyA(k.baba, k.bard) && k.b == BodyB(k.baba, Dot(rd, k.oa), k.baoa, k.bard)
    ensures k.c == BodyC(k.baba, Dot(k.oa, k.oa), k.baoa, r) && k.h == BodyH(k.a, k.b, k.c)
  {
    var ba := Sub(pb, pa);
    var oa := Sub(ro, pa);
    var baba := Dot(ba, ba);
    var bard := Dot(ba, rd);
    var baoa := Dot(ba, oa);
    var a := BodyA(baba, bard);
    var b := BodyB(baba, Dot(rd, oa), baoa, bard);
    var c := BodyC(baba, Dot(oa, oa), baoa, r);
    CapsuleTerms(ba, oa, baba, bard, baoa, a, b, c, BodyH(a, b, c))
  }

  /** a = baba - bard^2. */
  function BodyA(baba: real, bard: real): real {
    baba - bard * bard
  }

  /** b = baba rdoa - baoa bard. */
  function BodyB(baba: real, rdoa: real, baoa: real, bard: real): real {
    baba * rdoa - baoa * bard
  }

  /** c = baba oaoa - baoa^2 - r^2 baba. */
  function BodyC(baba: real, oaoa: real, baoa: real, r: real): real {
    baba * oaoa - baoa * baoa - r * r * baba
  }

  /** h = b^2 - a c. */
  function BodyH(a: real, b: real, c: real): real {
    b * b - a * c
  }

  /** The body root (-b - sqrt(h)) / a or (-b + sqrt(h)) / a. */
  function BodyRoot(k: CapsuleTerms, s: real): real
    requires k.a != 0.0
  {
    (-k.b + s) / k.a
  }

  /** a t^2 + 2 b t + c: the body quadratic at distance t. */
  function BodyValue(k: CapsuleTerms, t: real): real {
    k.a * t * t + 2.0 * k.b * t + k.c
  }

  /** y = baoa + t bard: the axis coordinate of the point at distance t, scaled by baba. */
  function AxisCoordinate(k: CapsuleTerms, t: real): real {
    k.baoa + t * k.bard
  }

  /**
   The cap branch: the sphere of radius r around `centre` (pa or pb),
   tested like the distance overload of the sphere, with b = rd . oc.
   */
  function CapSpan(ro: Vec3, rd: Vec3, centre: Vec3, r: real, sqrt: real -> real): (res: Option<Span>)
    ensures res == SphereSpan(ro, rd, centre, r, sqrt)
  {
    var oc := Sub(ro, centre);
    var b := Dot(rd, oc);
    DotSymmetric(rd, oc);
    var h := Discriminant(b, Dot(oc, oc) - r * r);
    if h < 0.0 then None
    else
      var s := sqrt(h);
      var n := -b - s;
      if n < 0.0 then None else Some(Span(n, -b + s))
  }

  /** The cap branch of the existence overload: the same tests, no distances kept. */
  function CapExists(ro: Vec3, rd: Vec3, centre: Vec3, r: real, sqrt: real -> real): (res: bool)
    ensures res <==> CapSpan(ro, rd, centre, r, sqrt).Some?
  {
    var oc := Sub(ro, centre);
    var b := Dot(rd, oc);
    var h := Discriminant(b, Dot(oc, oc) - r * r);
    if h >= 0.0 then
      var n := -b - sqrt(h);
      if n < 0.0 then false else true
    else false
  }

  /**
   ray_capsule_intersection_test(ro, rd, pa, pb, cap_r): with h >= 0 the
   smaller body root t = (-b - sqrt(h)) / a is tried first; if its axis
   coordinate y = baoa + t bard lies strictly inside (0, baba) the body
   decides (a hit unless t < 0). Otherwise the cap at pa (y <= 0) or at pb
   decides. The model requires a != 0.
   */
  function CapsuleExists(ro: Vec3, rd: Vec3, pa: Vec3, pb: Vec3, r: real, sqrt: real -> real): (res: bool)
    requires CapsuleCommon(ro, rd, pa, pb, r).a != 0.0
    ensures res ==> 0.0 <= CapsuleCommon(ro, rd, pa, pb, r).h
  {
    var k := CapsuleCommon(ro, rd, pa, pb, r);
    if k.h >= 0.0 then
      var sqrth := sqrt(k.h);
      var t := BodyRoot(k, -sqrth);
      var y := AxisCoordinate(k, t);
      if y > 0.0 && y < k.baba then
        if t < 0.0 then false else true
      else
        CapExists(ro, rd, if y <= 0.0 then pa else pb, r, sqrt)
    else false
  }

  /**
   ray_capsule_intersection_test(ro, rd, pa, pb, cap_r, near, far): the
   same branches; a body hit reports both body roots, a cap hit the span of
   that cap's sphere.
   */
  function CapsuleSpan(ro: Vec3, rd: Vec3, pa: Vec3, pb: Vec3, r: real, sqrt: real -> real): (res: Option<Span>)
    requires CapsuleCommon(ro, rd, pa, pb, r).a != 0.0
    ensures res.Some? <==> CapsuleExists(ro, rd, pa, pb, r, sqrt)
    ensures res.Some? ==> 0.0 <= res.value.near
  {
    var k := CapsuleCommon(ro, rd, pa, pb, r);
    if k.h >= 0.0 then
      var sqrth := sqrt(k.h);
      var t := BodyRoot(k, -sqrth);
      var y := AxisCoordinate(k, t);
      if y > 0.0 && y < k.baba then
        if t < 0.0 then None else Some(Span(t, BodyRoot(k, sqrth)))
      else
        CapSpan(ro, rd, if y <= 0.0 then pa else pb, r, sqrt)
    else None
  }

  /**
   With a true square root and a unit direction the capsule span is
   ordered: a cap span is a sphere span, and on the body a > 0 (by
   Cauchy-Schwarz, as a != 0), so the smaller root comes first.
   */
  lemma {:induction false} CapsuleSpanOrdered(ro: Vec3, rd: Vec3, pa: Vec3, pb: Vec3, r: real, sqrt: real -> real)
    requires MathFunctions.IsSqrt(sqrt) && Dot(rd, rd) == 1.0
    requires CapsuleCommon(ro, rd, pa, pb, r).a != 0.0
    ensures var res := CapsuleSpan(ro, rd, pa, pb, r, sqrt);
      res.Some? ==> 0.0 <= res.value.near <= res.value.far
  {
    var k := CapsuleCommon(ro, rd, pa, pb, r);
    if 0.0 <= k.h {
      var sqrth := sqrt(k.h);
      var y := AxisCoordinate(k, BodyRoot(k, -sqrth));
      if y > 0.0 && y < k.baba {
        AxisPositive(k, rd);
        RootsOrdered(k, sqrth);
      } else {
        SphereSpanOrdered(ro, rd, if y <= 0.0 then pa else pb, r, sqrt);
      }
    }
  }

  /** For a unit direction, a = baba - bard^2 >= 0, so a != 0 means a > 0. */
  lemma AxisPositive(k: CapsuleTerms, rd: Vec3)
    requires Dot(rd, rd) == 1.0 && k.a != 0.0
    requires k.baba == Dot(k.ba, k.ba) && k.bard == Dot(k.ba, rd) && k.a == k.baba - k.bard * k.bard
    ensures 0.0 < k.a
  {
    CauchySchwarz(k.ba, rd);
  }

  /** For a > 0 and s >= 0, (-b - s) / a <= (-b + s) / a. */
  lemma RootsOrdered(k: CapsuleTerms, s: real)
    requires 0.0 < k.a && 0.0 <= s
    ensures BodyRoot(k, -s) <= BodyRoot(k, s)
  {
    var lo := BodyRoot(k, -s);
    var hi := BodyRoot(k, s);
    assert lo * k.a == -k.b - s;
    assert hi * k.a == -k.b + s;
    if hi < lo {
      assert (lo - hi) * k.a > 0.0;
    }
  }

  /** Both body roots solve a t^2 + 2 b t + c == 0 when s^2 == h. */
  lemma {:induction false} BodyRootSolves(k: CapsuleTerms, s: real)
    requires k.a != 0.0 && k.h == k.b * k.b - k.a * k.c && s * s == k.h
    ensures BodyValue(k, BodyRoot(k, s)) == 0.0
  {
    var t := BodyRoot(k, s);
    var at := k.a * t;
    assert at == -k.b + s;
    ScaledQuadratic(k.a, k.b, k.c, t, at);
    assert k.a * (k.a * t * t + 2.0 * k.b * t + k.c) == 0.0;
    MathFunctions.ProductZero(k.a, k.a * t * t + 2.0 * k.b * t + k.c);
  }

  /** a (a t^2 + 2 b t + c) == (a t)^2 + 2 b (a t) + a c. */
  lemma ScaledQuadratic(a: real, b: real, c: real, t: real, at: real)
    requires at == a * t
    ensures a * (a * t * t + 2.0 * b * t + c) == at * at + 2.0 * b * at + a * c
  {
  }

  /** AxisCoordinate gives ba . (p - pa) for the point p at distance t. */
  lemma {:induction false} CapsuleAxisCoordinate(ro: Vec3, rd: Vec3, pa: Vec3, pb: Vec3, r: real, t: real)
    ensures var k := CapsuleCommon(ro, rd, pa, pb, r);
      AxisCoordinate(k, t) == Dot(k.ba, Sub(At(ro, rd, t), pa))
  {
    var k := CapsuleCommon(ro, rd, pa, pb, r);
    var q := Sub(At(ro, rd, t), pa);
    assert q == Add(k.oa, Scale(rd, t));
    DotSymmetric(k.ba, q);
    DotAlongRay(k.oa, rd, t, k.ba);
    DotSymmetric(k.oa, k.ba);
    DotSymmetric(rd, k.ba);
  }

  /** The squared length of oa + t rd for a unit rd. */
  lemma OffsetLength(oa: Vec3, rd: Vec3, t: real)
    requires Dot(rd, rd) == 1.0
    ensures Dot(Add(oa, Scale(rd, t)), Add(oa, Scale(rd, t))) == Dot(oa, oa) + 2.0 * t * Dot(rd, oa) + t * t * 1.0
  {
    DotOfShifted(oa, rd, t);
    DotSymmetric(oa, rd);
  }

  /**
   For a unit direction, a t^2 + 2 b t + c is baba times the squared
   distance of the point at t from the axis line, less baba r^2.
   */
  lemma {:induction false} CapsuleQuadratic(ro: Vec3, rd: Vec3, pa: Vec3, pb: Vec3, r: real, t: real)
    requires Dot(rd, rd) == 1.0
    ensures var k := CapsuleCommon(ro, rd, pa, pb, r);
      var q := Sub(At(ro, rd, t), pa);
      BodyValue(k, t) == k.baba * Dot(q, q) - Dot(k.ba, q) * Dot(k.ba, q) - r * r * k.baba
  {
    var k := CapsuleCommon(ro, rd, pa, pb, r);
    var q := Sub(At(ro, rd, t), pa);
    var qq, baq := Dot(q, q), Dot(k.ba, q);
    var rdoa, oaoa := Dot(rd, k.oa), Dot(k.oa, k.oa);
    assert baq == k.baoa + t * k.bard by {
      CapsuleAxisCoordinate(ro, rd, pa, pb, r, t);
    }
    assert qq == oaoa + 2.0 * t * rdoa + t * t * 1.0 by {
      assert q == Add(k.oa, Scale(rd, t));
      OffsetLength(k.oa, rd, t);
    }
    BodyPolynomial(k, rdoa, oaoa, r, t, qq, baq);
  }

  /** The polynomial identity behind CapsuleQuadratic. */
  lemma BodyPolynomial(k: CapsuleTerms, rdoa: real, oaoa: real, r: real, t: real, qq: real, baq: real)
    requires qq == oaoa + 2.0 * t * rdoa + t * t * 1.0 && baq == k.baoa + t * k.bard
    requires k.a == BodyA(k.baba, k.bard) && k.b == BodyB(k.baba, rdoa, k.baoa, k.bard)
    requires k.c == BodyC(k.baba, oaoa, k.baoa, r)
    ensures BodyValue(k, t) == k.baba * qq - baq * baq - r * r * k.baba
  {
  }

  /**
   For a unit direction and a true square root, the near point of a
   capsule hit lies on the capsule's surface: either on the body, at
   distance r from the axis line with its projection strictly between pa
   and pb, or on the sphere of radius r around pa or around pb.
   */
  lemma {:induction false} CapsuleHitOnSurface(ro: Vec3, rd: Vec3, pa: Vec3, pb: Vec3, r: real, sqrt: real -> real)
    requires MathFunctions.IsSqrt(sqrt) && Dot(rd, rd) == 1.0
    requires CapsuleCommon(ro, rd, pa, pb, r).a != 0.0
    ensures var res := CapsuleSpan(ro, rd, pa, pb, r, sqrt);
      var ba := Sub(pb, pa);
      res.Some? ==>
        var q := Sub(At(ro, rd, res.value.near), pa);
        || (0.0 < Dot(ba, q) < Dot(ba, ba)
            && Dot(ba, ba) * Dot(q, q) - Dot(ba, q) * Dot(ba, q) == r * r * Dot(ba, ba))
        || SphereContains(pa, r, At(ro, rd, res.value.near))
        || SphereContains(pb, r, At(ro, rd, res.value.near))
  {
    var k := CapsuleCommon(ro, rd, pa, pb, r);
    var res := CapsuleSpan(ro, rd, pa, pb, r, sqrt);
    if res.Some? {
      var sqrth := sqrt(k.h);
      var t := BodyRoot(k, -sqrth);
      var y := AxisCoordinate(k, t);
      if y > 0.0 && y < k.baba {
        assert res.value.near == t;
        BodyRootSolves(k, -sqrth);
        CapsuleAxisCoordinate(ro, rd, pa, pb, r, t);
        CapsuleQuadratic(ro, rd, pa, pb, r, t);
      } else {
        SphereSpanOnSphere(ro, rd, if y <= 0.0 then pa else pb, r, sqrt);
      }
    }
  }

  /**
   hh = clamp(p . ba / ba . ba, 0, 1): the parameter of the point of the
   segment nearest to p (p relative to pa).
   */
  function SegmentParameter(p: Vec3, ba: Vec3): (hh: real)
    requires Dot(ba, ba) != 0.0
    ensures 0.0 <= hh <= 1.0
    ensures 0.0 <= Dot(p, ba) / Dot(ba, ba) <= 1.0 ==> hh * Dot(ba, ba) == Dot(p, ba)
    ensures Dot(p, ba) <= 0.0 ==> hh == 0.0
    ensures Dot(ba, ba) <= Dot(p, ba) ==> hh == 1.0
  {
    var baba := Dot(ba, ba);
    DotSelfNonNegative(ba);
    QuotientBounds(Dot(p, ba), baba);
    MathFunctions.Clamp(Dot(p, ba) / baba, 0.0, 1.0)
  }

  /** For d > 0, x / d <= 0 iff x <= 0 and x / d >= 1 iff x >= d. */
  lemma QuotientBounds(x: real, d: real)
    requires 0.0 <= d && d != 0.0
    ensures x / d <= 0.0 <==> x <= 0.0
    ensures 1.0 <= x / d <==> d <= x
  {
    var q := x / d;
    assert q * d == x;
    if q <= 0.0 { PositiveProduct(-q, d); }
    if x <= 0.0 && q > 0.0 { PositiveProduct(q, d); }
    QuotientAtLeastOne(x, d);
  }

  lemma QuotientAtLeastOne(x: real, d: real)
    requires 0.0 <= d && d != 0.0
    ensures 1.0 <= x / d <==> d <= x
  {
    var q := x / d;
    assert q * d == x;
    if 1.0 <= q {
      PositiveProduct(q - 1.0, d);
      assert (q - 1.0) * d == x - d;
    }
    if d <= x && q < 1.0 {
      PositiveProduct(1.0 - q, d);
      assert false;
    }
  }

  /** The product of two non-negative numbers is non-negative, of two positive ones positive. */
  lemma PositiveProduct(a: real, b: real)
    requires 0.0 <= a && 0.0 < b
    ensures 0.0 <= a * b
    ensures 0.0 < a ==> 0.0 < a * b
  {
  }

  /**
   The normal at p (relative to pa): (p - hh ba) / cap_r, the offset
   from the nearest point of the segment divided by the radius.
   */
  function CapsuleNormalAt(p: Vec3, ba: Vec3, r: real): (n: Vec3)
    requires Dot(ba, ba) != 0.0 && r != 0.0
    ensures Scale(n, r) == Sub(p, ScalarMul(SegmentParameter(p, ba), ba))
  {
    DivScalar(Sub(p, ScalarMul(SegmentParameter(p, ba), ba)), r)
  }

  /** a != 0 rules out a degenerate segment: ba . ba != 0. */
  lemma AxisNonDegenerate(ro: Vec3, rd: Vec3, pa: Vec3, pb: Vec3, r: real)
    requires CapsuleCommon(ro, rd, pa, pb, r).a != 0.0
    ensures Dot(Sub(pb, pa), Sub(pb, pa)) != 0.0
  {
    var k := CapsuleCommon(ro, rd, pa, pb, r);
    CauchySchwarz(k.ba, rd);
  }

  /**
   ray_capsule_intersection_test(ro, rd, pa, pb, cap_r, near, far,
   near_norm, far_norm): the span of the distance overload, with the
   normals CapsuleNormalAt at both points. The model requires cap_r != 0.
   */
  function CapsuleSpanNormals(ro: Vec3, rd: Vec3, pa: Vec3, pb: Vec3, r: real, sqrt: real -> real): (res: Option<SpanNormals>)
    requires CapsuleCommon(ro, rd, pa, pb, r).a != 0.0 && r != 0.0
    ensures res.Some? <==> CapsuleExists(ro, rd, pa, pb, r, sqrt)
    ensures res.Some? ==> CapsuleSpan(ro, rd, pa, pb, r, sqrt) == Some(Span(res.value.near, res.value.far))
    ensures res.Some? ==>
      var ba := Sub(pb, pa);
      var pn := Sub(At(ro, rd, res.value.near), pa);
      var pf := Sub(At(ro, rd, res.value.far), pa);
      && Dot(ba, ba) != 0.0
      && Scale(res.value.nearNorm, r) == Sub(pn, ScalarMul(SegmentParameter(pn, ba), ba))
      && Scale(res.value.farNorm, r) == Sub(pf, ScalarMul(SegmentParameter(pf, ba), ba))
  {
    var ba := Sub(pb, pa);
    AxisNonDegenerate(ro, rd, pa, pb, r);
    match CapsuleSpan(ro, rd, pa, pb, r, sqrt)
    case None => None
    case Some(span) =>
      Some(SpanNormals(span.near, span.far,
                       CapsuleNormalAt(Sub(Add(ro, Scale(rd, span.near)), pa), ba, r),
                       CapsuleNormalAt(Sub(Add(ro, Scale(rd, span.far)), pa), ba, r)))
  }
}
