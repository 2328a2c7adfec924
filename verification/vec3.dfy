/**
 The three-component vector of the math library (src/core/math/vec3.hpp),
 over reals. The compound operators (`+=`, `-=`, ...) return the updated
 value instead of mutating in place. The same value type also stands for
 the private `vec3` class of main.cpp and for the older vec3.hpp, whose
 arithmetic is written identically (see LegacyVector3 for the members
 whose code differs).
 */
module Vector3 {
  import MathFunctions

  datatype Vec3 = Vec3(x: real, y: real, z: real)

  /** basic_vec3(T x): the one-argument constructor. */
  function Broadcast(s: real): (r: Vec3)
    ensures r.x == s && r.y == s && r.z == s
  {
    Vec3(s, s, s)
  }

  // ---- binary operators -------------------------------------------------

  /** Unary minus. */
  function Neg(v: Vec3): Vec3 {
    Vec3(-v.x, -v.y, -v.z)
  }

  function Add(a: Vec3, b: Vec3): Vec3 {
    Vec3(a.x + b.x, a.y + b.y, a.z + b.z)
  }

  /** `v + s`: the scalar is added to every component. */
  function AddScalar(v: Vec3, s: real): Vec3 {
    Vec3(v.x + s, v.y + s, v.z + s)
  }

  /** `s + v`: written as `v + s`, so it is the same vector. */
  function ScalarAdd(s: real, v: Vec3): (r: Vec3)
    ensures r == AddScalar(v, s)
  {
    Vec3(v.x + s, v.y + s, v.z + s)
  }

  function Sub(a: Vec3, b: Vec3): Vec3 {
    Vec3(a.x - b.x, a.y - b.y, a.z - b.z)
  }

  /** `v - s`: the scalar is subtracted from every component. */
  function SubScalar(v: Vec3, s: real): Vec3 {
    Vec3(v.x - s, v.y - s, v.z - s)
  }

  /**
   `s - v`. The operator is written as `v - s`, so it does NOT compute
   (s - v.x, s - v.y, s - v.z): it is the same vector as `v - s`.
   */
  function ScalarSub(s: real, v: Vec3): (r: Vec3)
    ensures r == SubScalar(v, s)
    ensures r == Neg(Sub(Broadcast(s), v))
  {
    Vec3(v.x - s, v.y - s, v.z - s)
  }

  /** `v * s`. */
  function Scale(v: Vec3, s: real): Vec3 {
    Vec3(v.x * s, v.y * s, v.z * s)
  }

  /** `s * v`: the same vector as `v * s`. */
  function ScalarMul(s: real, v: Vec3): (r: Vec3)
    ensures r == Scale(v, s)
  {
    Vec3(s * v.x, s * v.y, s * v.z)
  }

  /** Componentwise product `a * b`. */
  function Mul(a: Vec3, b: Vec3): Vec3 {
    Vec3(a.x * b.x, a.y * b.y, a.z * b.z)
  }

  /** `v / s`; the model requires a non-zero divisor. */
  function DivScalar(v: Vec3, s: real): (r: Vec3)
    requires s != 0.0
    ensures Scale(r, s) == v
  {
    Vec3(v.x / s, v.y / s, v.z / s)
  }

  /** Componentwise quotient `a / b`; every divisor component must be non-zero. */
  function Div(a: Vec3, b: Vec3): (r: Vec3)
    requires NonZero(b)
    ensures Mul(r, b) == a
  {
    Vec3(a.x / b.x, a.y / b.y, a.z / b.z)
  }

  /** `s / v`, componentwise; every component of v must be non-zero. */
  function ScalarDiv(s: real, v: Vec3): (r: Vec3)
    requires NonZero(v)
    ensures Mul(r, v) == Broadcast(s)
  {
    Vec3(s / v.x, s / v.y, s / v.z)
  }

  /** No component is zero, so componentwise division by the vector is defined. */
  predicate NonZero(v: Vec3) {
    v.x != 0.0 && v.y != 0.0 && v.z != 0.0
  }

  // ---- compound operators -----------------------------------------------

  /** `v += w`, which agrees with `v + w`. */
  function AddAssign(v: Vec3, w: Vec3): (r: Vec3)
    ensures r == Add(v, w)
  {
    v.(x := v.x + w.x).(y := v.y + w.y).(z := v.z + w.z)
  }

  /** `v -= w`, which agrees with `v - w`. */
  function SubAssign(v: Vec3, w: Vec3): (r: Vec3)
    ensures r == Sub(v, w)
  {
    v.(x := v.x - w.x).(y := v.y - w.y).(z := v.z - w.z)
  }

  /** `v *= s`, which agrees with `v * s`. */
  function ScaleAssign(v: Vec3, s: real): (r: Vec3)
    ensures r == Scale(v, s)
  {
    v.(x := v.x * s).(y := v.y * s).(z := v.z * s)
  }

  /** `v *= w` (componentwise), which agrees with `v * w`. */
  function MulAssign(v: Vec3, w: Vec3): (r: Vec3)
    ensures r == Mul(v, w)
  {
    v.(x := v.x * w.x).(y := v.y * w.y).(z := v.z * w.z)
  }

  /** `v /= s`, which agrees with `v / s`. */
  function DivAssign(v: Vec3, s: real): (r: Vec3)
    requires s != 0.0
    ensures r == DivScalar(v, s)
  {
    v.(x := v.x / s).(y := v.y / s).(z := v.z / s)
  }

  // ---- products ---------------------------------------------------------

  /** Dot product. */
  function Dot(a: Vec3, b: Vec3): real {
    a.x * b.x + a.y * b.y + a.z * b.z
  }

  /** The dot product is symmetric. */
  lemma DotSymmetric(a: Vec3, b: Vec3)
    ensures Dot(a, b) == Dot(b, a)
  {
  }

  /** Cross product. */
  function Cross(a: Vec3, b: Vec3): Vec3 {
    Vec3(a.y * b.z - a.z * b.y, a.z * b.x - a.x * b.z, a.x * b.y - a.y * b.x)
  }

  /** The cross product is orthogonal to both factors. */
  lemma CrossOrthogonal(a: Vec3, b: Vec3)
    ensures Dot(Cross(a, b), a) == 0.0 && Dot(Cross(a, b), b) == 0.0
  {
  }

  /** The cross product is anti-commutative. */
  lemma CrossAntiCommutative(a: Vec3, b: Vec3)
    ensures Cross(a, b) == Neg(Cross(b, a))
  {
  }

  /** Lagrange's identity: |a|^2 |b|^2 - (a.b)^2 = |a x b|^2. */
  lemma Lagrange(a: Vec3, b: Vec3)
    ensures Dot(a, a) * Dot(b, b) - Dot(a, b) * Dot(a, b) == Dot(Cross(a, b), Cross(a, b))
  {
  }

  /** A dot product of a vector with itself is never negative. */
  lemma DotSelfNonNegative(v: Vec3)
    ensures 0.0 <= Dot(v, v)
  {
  }

  /** Cauchy-Schwarz inequality, from Lagrange's identity. */
  lemma CauchySchwarz(a: Vec3, b: Vec3)
    ensures Dot(a, b) * Dot(a, b) <= Dot(a, a) * Dot(b, b)
  {
    Lagrange(a, b);
    DotSelfNonNegative(Cross(a, b));
  }

  /** The dot product is linear in its first argument along a ray. */
  lemma DotAlongRay(o: Vec3, d: Vec3, t: real, n: Vec3)
    ensures Dot(Add(o, Scale(d, t)), n) == Dot(o, n) + t * Dot(d, n)
  {
  }

  // ---- normalisation ----------------------------------------------------

  /** The length `sqrt(dot(v, v))` that normalize() divides by. */
  function Length(v: Vec3, sqrt: real -> real): real {
    sqrt(Dot(v, v))
  }

  /**
   normalize(): every component divided by the length. A zero length
   (NaN in the source) is excluded by the precondition.
   */
  function Normalize(v: Vec3, sqrt: real -> real): (r: Vec3)
    requires Length(v, sqrt) != 0.0
    ensures Scale(r, Length(v, sqrt)) == v
    ensures MathFunctions.IsSqrt(sqrt) ==> Dot(r, r) == 1.0
  {
    var len := sqrt(Dot(v, v));
    NormalizedIsUnit(v, sqrt);
    Vec3(v.x / len, v.y / len, v.z / len)
  }

  /** With a true square root, dividing by the length gives a unit vector. */
  lemma NormalizedIsUnit(v: Vec3, sqrt: real -> real)
    requires Length(v, sqrt) != 0.0
    ensures var len := Length(v, sqrt);
      MathFunctions.IsSqrt(sqrt) ==> Dot(Vec3(v.x / len, v.y / len, v.z / len), Vec3(v.x / len, v.y / len, v.z / len)) == 1.0
  {
    if MathFunctions.IsSqrt(sqrt) {
      DotSelfNonNegative(v);
      UnitAfterDivision(v, Length(v, sqrt));
    }
  }

  /** Dividing by the length gives a unit vector. */
  lemma UnitAfterDivision(v: Vec3, len: real)
    requires len != 0.0
    requires len * len == Dot(v, v)
    ensures Dot(Vec3(v.x / len, v.y / len, v.z / len), Vec3(v.x / len, v.y / len, v.z / len)) == 1.0
  {
    var u := Vec3(v.x / len, v.y / len, v.z / len);
    assert u.x * len == v.x && u.y * len == v.y && u.z * len == v.z;
    assert (Dot(u, u) * len) * len == Dot(v, v);
    assert (1.0 * len) * len == Dot(v, v);
    ProductCancel(Dot(u, u) * len, 1.0 * len, len);
    ProductCancel(Dot(u, u), 1.0, len);
  }

  /** Cancellation of a non-zero factor. */
  lemma ProductCancel(a: real, b: real, c: real)
    requires c != 0.0
    requires a * c == b * c
    ensures a == b
  {
    assert (a - b) * c == 0.0;
    MathFunctions.ProductZero(a - b, c);
  }

  /** normalize(len): the normalised vector together with the length. */
  function NormalizeWithLength(v: Vec3, sqrt: real -> real): (r: (Vec3, real))
    requires Length(v, sqrt) != 0.0
    ensures r.0 == Normalize(v, sqrt) && r.1 == Length(v, sqrt)
    ensures MathFunctions.IsSqrt(sqrt) ==> 0.0 < r.1 && r.1 * r.1 == Dot(v, v)
  {
    var len := sqrt(Dot(v, v));
    (Vec3(v.x / len, v.y / len, v.z / len), len)
  }

  /** normalize_self(): `*this /= sqrt(dot(*this))`, the same vector as normalize(). */
  function NormalizeSelf(v: Vec3, sqrt: real -> real): (r: Vec3)
    requires Length(v, sqrt) != 0.0
    ensures r == Normalize(v, sqrt)
  {
    DivAssign(v, sqrt(Dot(v, v)))
  }

  // ---- componentwise helpers ---------------------------------------------

  /** abs(): componentwise magnitude. */
  function Abs(v: Vec3): (r: Vec3)
    ensures 0.0 <= r.x && 0.0 <= r.y && 0.0 <= r.z
    ensures (r.x == v.x || r.x == -v.x) && (r.y == v.y || r.y == -v.y) && (r.z == v.z || r.z == -v.z)
  {
    Vec3(MathFunctions.Abs(v.x), MathFunctions.Abs(v.y), MathFunctions.Abs(v.z))
  }

  /** abs_self(): the same vector as abs(). */
  function AbsSelf(v: Vec3): (r: Vec3)
    ensures r == Abs(v)
  {
    v.(x := MathFunctions.Abs(v.x)).(y := MathFunctions.Abs(v.y)).(z := MathFunctions.Abs(v.z))
  }

  /** clamp(min, max): every component clamped with math::clamp. */
  function Clamp(v: Vec3, lo: real, hi: real): (r: Vec3)
    ensures lo <= hi ==> lo <= r.x <= hi && lo <= r.y <= hi && lo <= r.z <= hi
    ensures lo <= v.x <= hi && lo <= v.y <= hi && lo <= v.z <= hi ==> r == v
  {
    Vec3(MathFunctions.Clamp(v.x, lo, hi), MathFunctions.Clamp(v.y, lo, hi), MathFunctions.Clamp(v.z, lo, hi))
  }

  /** clamp_self(min, max): the same vector as clamp(min, max). */
  function ClampSelf(v: Vec3, lo: real, hi: real): (r: Vec3)
    ensures r == Clamp(v, lo, hi)
  {
    v.(x := MathFunctions.Clamp(v.x, lo, hi))
     .(y := MathFunctions.Clamp(v.y, lo, hi))
     .(z := MathFunctions.Clamp(v.z, lo, hi))
  }

  /** min(): the smallest component. */
  function MinComponent(v: Vec3): (r: real)
    ensures r <= v.x && r <= v.y && r <= v.z
    ensures r == v.x || r == v.y || r == v.z
  {
    MathFunctions.Min(v.x, MathFunctions.Min(v.y, v.z))
  }

  /** max(): the largest component. */
  function MaxComponent(v: Vec3): (r: real)
    ensures v.x <= r && v.y <= r && v.z <= r
    ensures r == v.x || r == v.y || r == v.z
  {
    MathFunctions.Max(v.x, MathFunctions.Max(v.y, v.z))
  }

  /** sign(): componentwise math::sign, each in {-1, 0, 1} and zero exactly for zero. */
  function Sign(v: Vec3): (r: Vec3)
    ensures r.x in {-1.0, 0.0, 1.0} && r.y in {-1.0, 0.0, 1.0} && r.z in {-1.0, 0.0, 1.0}
    ensures (r.x == 0.0 <==> v.x == 0.0) && (r.y == 0.0 <==> v.y == 0.0) && (r.z == 0.0 <==> v.z == 0.0)
  {
    Vec3(MathFunctions.Sign(v.x), MathFunctions.Sign(v.y), MathFunctions.Sign(v.z))
  }

  /** sign() times the vector is abs(). */
  lemma SignTimesVector(v: Vec3)
    ensures Mul(Sign(v), v) == Abs(v)
  {
    MathFunctions.SignTimesValue(v.x);
    MathFunctions.SignTimesValue(v.y);
    MathFunctions.SignTimesValue(v.z);
  }

  // ---- algebraic laws -----------------------------------------------------

  /** Subtracting what was added gives the original vector back. */
  lemma AddSubCancel(a: Vec3, b: Vec3)
    ensures Sub(Add(a, b), b) == a
  {
  }

  /** `s - v` agrees with the mathematical `s - v` only when v is the broadcast of s. */
  lemma ScalarSubIsNotDifference(s: real, v: Vec3)
    ensures ScalarSub(s, v) == Sub(Broadcast(s), v) <==> v == Broadcast(s)
  {
  }

  /** A concrete input on which `s - v` as written differs from s - v. */
  lemma ScalarSubCounterexample()
    ensures ScalarSub(1.0, Vec3(0.0, 0.0, 0.0)) == Vec3(-1.0, -1.0, -1.0)
    ensures ScalarSub(1.0, Vec3(0.0, 0.0, 0.0)) != Vec3(1.0, 1.0, 1.0)
  {
  }

  /**
   The intended `s - v`: every component is s minus the component of v, so
   adding v back restores the broadcast of s.
   */
  function ScalarMinus(s: real, v: Vec3): (r: Vec3)
    ensures Add(r, v) == Broadcast(s)
    ensures r == Neg(SubScalar(v, s))
  {
    Vec3(s - v.x, s - v.y, s - v.z)
  }
}
