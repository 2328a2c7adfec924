/**
 The quaternion of the math library (src/core/math/quat.hpp), with
 components x, y, z (vector part) and w (scalar part), over reals. The
 operations that take a square root receive it as the parameter `sqrt`.
 */
module Quaternion {
  import MathFunctions
  import opened Vector3
  import opened Vector4
  import opened Matrix4

  datatype Quat = Quat(x: real, y: real, z: real, w: real)

  /** The identity quaternion (0, 0, 0, 1). */
  function Identity(): Quat {
    Quat(0.0, 0.0, 0.0, 1.0)
  }

  /** The squared norm x^2 + y^2 + z^2 + w^2. */
  function Norm2(q: Quat): real {
    q.x * q.x + q.y * q.y + q.z * q.z + q.w * q.w
  }

  /** The Hamilton product `a * b`. */
  function Mul(a: Quat, b: Quat): Quat {
    Quat(a.w * b.x + a.x * b.w + a.y * b.z - a.z * b.y,
         a.w * b.y - a.x * b.z + a.y * b.w + a.z * b.x,
         a.w * b.z + a.x * b.y - a.y * b.x + a.z * b.w,
         a.w * b.w - a.x * b.x - a.y * b.y - a.z * b.z)
  }

  /** `q *= p`, written with the fields of `this`; the same quaternion as `q * p`. */
  function MulAssign(q: Quat, p: Quat): (r: Quat)
    ensures r == Mul(q, p)
  {
    var qx := q.w * p.x + q.x * p.w + q.y * p.z - q.z * p.y;
    var qy := q.w * p.y - q.x * p.z + q.y * p.w + q.z * p.x;
    var qz := q.w * p.z + q.x * p.y - q.y * p.x + q.z * p.w;
    var qw := q.w * p.w - q.x * p.x - q.y * p.y - q.z * p.z;
    q.(x := qx).(y := qy).(z := qz).(w := qw)
  }

  /** (0, 0, 0, 1) is a two-sided identity for the product. */
  lemma IdentityIsNeutral(q: Quat)
    ensures Mul(Identity(), q) == q
    ensures Mul(q, Identity()) == q
  {
  }

  /**
   Unary minus: the conjugate, which negates the vector part and keeps w.
   Its product with q on either side has a zero vector part and the
   squared norm as scalar part.
   */
  function Conjugate(q: Quat): (r: Quat)
    ensures r.w == q.w && Norm2(r) == Norm2(q)
    ensures Mul(q, r) == Quat(0.0, 0.0, 0.0, Norm2(q))
    ensures Mul(r, q) == Quat(0.0, 0.0, 0.0, Norm2(q))
  {
    Quat(-q.x, -q.y, -q.z, q.w)
  }

  /** Conjugating twice gives the quaternion back. */
  lemma ConjugateInvolution(q: Quat)
    ensures Conjugate(Conjugate(q)) == q
  {
  }

  // ---- normalisation ----------------------------------------------------

  /** Every component divided by len. */
  function DivideBy(q: Quat, len: real): Quat
    requires len != 0.0
  {
    Quat(q.x / len, q.y / len, q.z / len, q.w / len)
  }

  /**
   normalize(): the quaternion divided by its length, or (0, 0, 0, 1) when
   the length is zero. With a true square root the result always has
   norm 1, the zero fallback included.
   */
  function Normalize(q: Quat, sqrt: real -> real): (r: Quat)
    ensures sqrt(Norm2(q)) == 0.0 ==> r == Identity()
    ensures sqrt(Norm2(q)) != 0.0 ==> DivideBy(r, 1.0 / sqrt(Norm2(q))) == q
    ensures MathFunctions.IsSqrt(sqrt) ==> Norm2(r) == 1.0
  {
    var len := sqrt(Norm2(q));
    NormalizedIsUnit(q, sqrt);
    if len != 0.0 then Quat(q.x / len, q.y / len, q.z / len, q.w / len)
    else Quat(0.0, 0.0, 0.0, 1.0)
  }

  /** With a true square root, dividing by a non-zero length gives norm 1. */
  lemma NormalizedIsUnit(q: Quat, sqrt: real -> real)
    ensures var len := sqrt(Norm2(q));
      MathFunctions.IsSqrt(sqrt) && len != 0.0 ==> Norm2(DivideBy(q, len)) == 1.0
  {
    var len := sqrt(Norm2(q));
    if MathFunctions.IsSqrt(sqrt) && len != 0.0 {
      assert 0.0 <= Norm2(q);
      UnitAfterDivision(q, len);
    }
  }

  /** Dividing by a square root of the squared norm gives norm 1. */
  lemma UnitAfterDivision(q: Quat, len: real)
    requires len != 0.0
    requires len * len == Norm2(q)
    ensures Norm2(DivideBy(q, len)) == 1.0
  {
    var u := DivideBy(q, len);
    assert u.x * len == q.x && u.y * len == q.y && u.z * len == q.z && u.w * len == q.w;
    assert (Norm2(u) * len) * len == Norm2(q);
    assert (1.0 * len) * len == Norm2(q);
    ProductCancel(Norm2(u) * len, 1.0 * len, len);
    ProductCancel(Norm2(u), 1.0, len);
  }

  /**
   normalize_self(): divides in place, and on a zero length only sets w to
   1. With a true square root a zero length means the zero quaternion, so
   both branches agree with normalize().
   */
  function NormalizeSelf(q: Quat, sqrt: real -> real): (r: Quat)
    ensures sqrt(Norm2(q)) == 0.0 ==> r == q.(w := 1.0)
    ensures MathFunctions.IsSqrt(sqrt) ==> r == Normalize(q, sqrt)
  {
    var len := sqrt(Norm2(q));
    ZeroLengthMeansZero(q, sqrt);
    if len != 0.0 then q.(x := q.x / len).(y := q.y / len).(z := q.z / len).(w := q.w / len)
    else q.(w := 1.0)
  }

  /** A true square root is zero only for the zero quaternion. */
  lemma ZeroLengthMeansZero(q: Quat, sqrt: real -> real)
    ensures MathFunctions.IsSqrt(sqrt) && sqrt(Norm2(q)) == 0.0 ==> q == Quat(0.0, 0.0, 0.0, 0.0)
  {
    if MathFunctions.IsSqrt(sqrt) && sqrt(Norm2(q)) == 0.0 {
      var n := Norm2(q);
      SquaresNonNegative(q);
      assert sqrt(n) * sqrt(n) == n;
      SumOfSquaresZero(q);
    }
  }

  lemma SquaresNonNegative(q: Quat)
    ensures 0.0 <= q.x * q.x && 0.0 <= q.y * q.y && 0.0 <= q.z * q.z && 0.0 <= q.w * q.w
  {
  }

  /** Only the zero quaternion has squared norm zero. */
  lemma SumOfSquaresZero(q: Quat)
    requires Norm2(q) == 0.0
    ensures q == Quat(0.0, 0.0, 0.0, 0.0)
  {
    SquaresNonNegative(q);
    NonNegativeSumZero(q.x * q.x, q.y * q.y, q.z * q.z, q.w * q.w);
    SquareZero(q.x);
    SquareZero(q.y);
    SquareZero(q.z);
    SquareZero(q.w);
  }

  lemma NonNegativeSumZero(a: real, b: real, c: real, d: real)
    requires 0.0 <= a && 0.0 <= b && 0.0 <= c && 0.0 <= d
    requires a + b + c + d == 0.0
    ensures a == 0.0 && b == 0.0 && c == 0.0 && d == 0.0
  {
  }

  lemma SquareZero(a: real)
    requires a * a == 0.0
    ensures a == 0.0
  {
    MathFunctions.ProductZero(a, a);
  }

  // ---- matrix and rotation ------------------------------------------------

  /** to_mat4(): the rotation matrix of the quaternion, in homogeneous form. */
  function ToMat4(q: Quat): (r: Mat4)
    ensures r.w == Vec4(0.0, 0.0, 0.0, 1.0)
    ensures r.x.w == 0.0 && r.y.w == 0.0 && r.z.w == 0.0
  {
    var x2 := q.x + q.x;
    var y2 := q.y + q.y;
    var z2 := q.z + q.z;
    var xx := q.x * x2;
    var xy := q.x * y2;
    var xz := q.x * z2;
    var yy := q.y * y2;
    var yz := q.y * z2;
    var zz := q.z * z2;
    var wx := q.w * x2;
    var wy := q.w * y2;
    var wz := q.w * z2;
    FromEntries(1.0 - (yy + zz), xy - wz, xz + wy, 0.0,
                xy + wz, 1.0 - (xx + zz), yz - wx, 0.0,
                xz - wy, yz + wx, 1.0 - (xx + yy), 0.0,
                0.0, 0.0, 0.0, 1.0)
  }

  /** The identity quaternion gives the identity matrix. */
  lemma IdentityToMat4()
    ensures ToMat4(Identity()) == Matrix4.Identity()
  {
    var q := Identity();
    assert q.x == 0.0 && q.y == 0.0 && q.z == 0.0 && q.w == 1.0;
    var m := ToMat4(q);
    assert m.x == Vec4(1.0, 0.0, 0.0, 0.0);
    assert m.y == Vec4(0.0, 1.0, 0.0, 0.0);
    assert m.z == Vec4(0.0, 0.0, 1.0, 0.0);
  }

  /** `q * v`: the vector v rotated by q. */
  function Rotate(q: Quat, v: Vec3): Vec3 {
    var xxzz := q.x * q.x - q.z * q.z;
    var wwyy := q.w * q.w - q.y * q.y;
    var xy2 := q.x * q.y * 2.0;
    var xz2 := q.x * q.z * 2.0;
    var xw2 := q.x * q.w * 2.0;
    var yw2 := q.y * q.w * 2.0;
    var yz2 := q.y * q.z * 2.0;
    var zw2 := q.z * q.w * 2.0;
    Vec3(v.x * (xxzz + wwyy) + v.y * (xy2 + zw2) + v.z * (xz2 - yw2),
         v.x * (xy2 - zw2) + v.y * (q.y * q.y + q.w * q.w - q.x * q.x - q.z * q.z) + v.z * (yz2 + xw2),
         v.x * (xz2 + yw2) + v.y * (yz2 - xw2) + v.z * (wwyy - xxzz))
  }

  /** The identity quaternion leaves every vector unchanged. */
  lemma IdentityRotate(v: Vec3)
    ensures Rotate(Identity(), v) == v
  {
  }

  /** `v * q`: defined as `q * v`. */
  function RotateRight(v: Vec3, q: Quat): (r: Vec3)
    ensures r == Rotate(q, v)
  {
    Rotate(q, v)
  }

  /**
   For a unit quaternion, `q * v` is the point v taken as a row vector
   times to_mat4(q); that is, the transpose of the matrix that to_mat4
   builds for column vectors.
   */
  lemma RotateIsRowTimesMatrix(q: Quat, v: Vec3)
    requires Norm2(q) == 1.0
    ensures Rotate(q, v) == Xyz(Vec4Mul(Point(v), ToMat4(q)))
  {
    var m := ToMat4(q);
    var r := Rotate(q, v);
    var p := Vec4Mul(Point(v), m);
    assert q.x * q.x - q.z * q.z + (q.w * q.w - q.y * q.y) == 1.0 - (q.y * (q.y + q.y) + q.z * (q.z + q.z));
    assert q.y * q.y + q.w * q.w - q.x * q.x - q.z * q.z == 1.0 - (q.x * (q.x + q.x) + q.z * (q.z + q.z));
    assert q.w * q.w - q.y * q.y - (q.x * q.x - q.z * q.z) == 1.0 - (q.x * (q.x + q.x) + q.y * (q.y + q.y));
    assert r.x == p.x;
    assert r.y == p.y;
    assert r.z == p.z;
  }
}
