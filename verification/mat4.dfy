/**
 The 4x4 matrix of the math library (src/core/math/mat4.hpp): four row
 vectors x, y, z, w. Compound operators return the updated value.
 */
module Matrix4 {
  import opened Vector3
  import opened Vector4

  datatype Mat4 = Mat4(x: Vec4, y: Vec4, z: Vec4, w: Vec4)

  /** Row i (0 = x, 1 = y, 2 = z, 3 = w). */
  function Row(m: Mat4, i: int): Vec4
    requires 0 <= i < 4
  {
    if i == 0 then m.x else if i == 1 then m.y else if i == 2 then m.z else m.w
  }

  /** The entry in row i, column j. */
  function Entry(m: Mat4, i: int, j: int): real
    requires 0 <= i < 4 && 0 <= j < 4
  {
    Component(Row(m, i), j)
  }

  /** The 16-entry constructor, entries listed row by row. */
  function FromEntries(xx: real, xy: real, xz: real, xw: real,
                       yx: real, yy: real, yz: real, yw: real,
                       zx: real, zy: real, zz: real, zw: real,
                       wx: real, wy: real, wz: real, ww: real): (r: Mat4)
    ensures r.x.x == xx && r.x.y == xy && r.x.z == xz && r.x.w == xw
    ensures r.y.x == yx && r.y.y == yy && r.y.z == yz && r.y.w == yw
    ensures r.z.x == zx && r.z.y == zy && r.z.z == zz && r.z.w == zw
    ensures r.w.x == wx && r.w.y == wy && r.w.z == wz && r.w.w == ww
  {
    Mat4(Vec4(xx, xy, xz, xw), Vec4(yx, yy, yz, yw), Vec4(zx, zy, zz, zw), Vec4(wx, wy, wz, ww))
  }

  /** basic_mat4(s): s on the diagonal, zero elsewhere. */
  function Diagonal(s: real): (r: Mat4)
    ensures forall i, j :: 0 <= i < 4 && 0 <= j < 4 ==> Entry(r, i, j) == (if i == j then s else 0.0)
  {
    Mat4(Vec4(s, 0.0, 0.0, 0.0), Vec4(0.0, s, 0.0, 0.0), Vec4(0.0, 0.0, s, 0.0), Vec4(0.0, 0.0, 0.0, s))
  }

  /** The identity matrix basic_mat4(1). */
  function Identity(): Mat4 {
    Diagonal(1.0)
  }

  // ---- additive operators -------------------------------------------------

  /** Row-wise sum. */
  function Add(a: Mat4, b: Mat4): Mat4 {
    Mat4(Vector4.Add(a.x, b.x), Vector4.Add(a.y, b.y), Vector4.Add(a.z, b.z), Vector4.Add(a.w, b.w))
  }

  /** Row-wise difference. */
  function Sub(a: Mat4, b: Mat4): Mat4 {
    Mat4(Vector4.Sub(a.x, b.x), Vector4.Sub(a.y, b.y), Vector4.Sub(a.z, b.z), Vector4.Sub(a.w, b.w))
  }

  /** `m += n`: each row updated with the row `+=`; agrees with `m + n`. */
  function AddAssign(m: Mat4, n: Mat4): (r: Mat4)
    ensures r == Add(m, n)
  {
    m.(x := Vector4.AddAssign(m.x, n.x)).(y := Vector4.AddAssign(m.y, n.y))
     .(z := Vector4.AddAssign(m.z, n.z)).(w := Vector4.AddAssign(m.w, n.w))
  }

  /** `m -= n`: each row updated with the row `-=`; agrees with `m - n`. */
  function SubAssign(m: Mat4, n: Mat4): (r: Mat4)
    ensures r == Sub(m, n)
  {
    m.(x := Vector4.SubAssign(m.x, n.x)).(y := Vector4.SubAssign(m.y, n.y))
     .(z := Vector4.SubAssign(m.z, n.z)).(w := Vector4.SubAssign(m.w, n.w))
  }

  /** Subtracting what was added gives the original matrix back. */
  lemma AddSubCancel(a: Mat4, b: Mat4)
    ensures Sub(Add(a, b), b) == a
  {
  }

  // ---- matrix product -----------------------------------------------------

  /** Row i of a times column j of b: the textbook definition of one product entry. */
  function RowTimesColumn(a: Mat4, b: Mat4, i: int, j: int): real
    requires 0 <= i < 4 && 0 <= j < 4
  {
    Entry(a, i, 0) * Entry(b, 0, j) + Entry(a, i, 1) * Entry(b, 1, j)
      + Entry(a, i, 2) * Entry(b, 2, j) + Entry(a, i, 3) * Entry(b, 3, j)
  }

  /** One row of the product, `row * b`, as the source spells it out. */
  function ProductRow(row: Vec4, b: Mat4): Vec4 {
    Vec4(row.x * b.x.x + row.y * b.y.x + row.z * b.z.x + row.w * b.w.x,
         row.x * b.x.y + row.y * b.y.y + row.z * b.z.y + row.w * b.w.y,
         row.x * b.x.z + row.y * b.y.z + row.z * b.z.z + row.w * b.w.z,
         row.x * b.x.w + row.y * b.y.w + row.z * b.z.w + row.w * b.w.w)
  }

  /** `a * b`: row i of the product is row i of a times b. */
  function Mul(a: Mat4, b: Mat4): Mat4 {
    Mat4(ProductRow(a.x, b), ProductRow(a.y, b), ProductRow(a.z, b), ProductRow(a.w, b))
  }

  /** Every entry (i, j) of `a * b` is row i of a times column j of b. */
  lemma MulEntries(a: Mat4, b: Mat4)
    ensures forall i, j :: 0 <= i < 4 && 0 <= j < 4 ==> Entry(Mul(a, b), i, j) == RowTimesColumn(a, b, i, j)
  {
    forall i, j | 0 <= i < 4 && 0 <= j < 4
      ensures Entry(Mul(a, b), i, j) == RowTimesColumn(a, b, i, j)
    {
      ProductRowEntries(Row(a, i), b, j);
    }
  }

  /** Entry j of `row * b` is the row dotted with column j of b. */
  lemma ProductRowEntries(row: Vec4, b: Mat4, j: int)
    requires 0 <= j < 4
    ensures Component(ProductRow(row, b), j)
      == row.x * Entry(b, 0, j) + row.y * Entry(b, 1, j) + row.z * Entry(b, 2, j) + row.w * Entry(b, 3, j)
  {
  }

  /**
   `m *= n`, written out separately in the source with the entries of
   `this` and `val`; it computes the same matrix as `m * n`.
   */
  function MulAssign(m: Mat4, n: Mat4): (r: Mat4)
    ensures r == Mul(m, n)
  {
    var x := m.x;
    var y := m.y;
    var z := m.z;
    var w := m.w;
    var r := Mat4(Vec4(
      x.x * n.x.x + x.y * n.y.x + x.z * n.z.x + x.w * n.w.x,
      x.x * n.x.y + x.y * n.y.y + x.z * n.z.y + x.w * n.w.y,
      x.x * n.x.z + x.y * n.y.z + x.z * n.z.z + x.w * n.w.z,
      x.x * n.x.w + x.y * n.y.w + x.z * n.z.w + x.w * n.w.w), Vec4(
      y.x * n.x.x + y.y * n.y.x + y.z * n.z.x + y.w * n.w.x,
      y.x * n.x.y + y.y * n.y.y + y.z * n.z.y + y.w * n.w.y,
      y.x * n.x.z + y.y * n.y.z + y.z * n.z.z + y.w * n.w.z,
      y.x * n.x.w + y.y * n.y.w + y.z * n.z.w + y.w * n.w.w), Vec4(
      z.x * n.x.x + z.y * n.y.x + z.z * n.z.x + z.w * n.w.x,
      z.x * n.x.y + z.y * n.y.y + z.z * n.z.y + z.w * n.w.y,
      z.x * n.x.z + z.y * n.y.z + z.z * n.z.z + z.w * n.w.z,
      z.x * n.x.w + z.y * n.y.w + z.z * n.z.w + z.w * n.w.w), Vec4(
      w.x * n.x.x + w.y * n.y.x + w.z * n.z.x + w.w * n.w.x,
      w.x * n.x.y + w.y * n.y.y + w.z * n.z.y + w.w * n.w.y,
      w.x * n.x.z + w.y * n.y.z + w.z * n.z.z + w.w * n.w.z,
      w.x * n.x.w + w.y * n.y.w + w.z * n.z.w + w.w * n.w.w));
    assert r.x == ProductRow(m.x, n);
    assert r.y == ProductRow(m.y, n);
    assert r.z == ProductRow(m.z, n);
    assert r.w == ProductRow(m.w, n);
    r
  }

  /** basic_mat4(1) is a two-sided identity for the product. */
  lemma IdentityIsNeutral(m: Mat4)
    ensures Mul(Identity(), m) == m
    ensures Mul(m, Identity()) == m
  {
  }

  // ---- scalar operators ---------------------------------------------------

  /** `m * s`: every row scaled. */
  function Scale(m: Mat4, s: real): Mat4 {
    Mat4(Vector4.Scale(m.x, s), Vector4.Scale(m.y, s), Vector4.Scale(m.z, s), Vector4.Scale(m.w, s))
  }

  /** `s * m`: written with `row * s`, the same matrix as `m * s`. */
  function ScalarMul(s: real, m: Mat4): (r: Mat4)
    ensures r == Scale(m, s)
  {
    Mat4(Vector4.Scale(m.x, s), Vector4.Scale(m.y, s), Vector4.Scale(m.z, s), Vector4.Scale(m.w, s))
  }

  /** `m / s`, computed as `m * (1 / s)`: scaling the result by s gives m back. */
  function DivScalar(m: Mat4, s: real): (r: Mat4)
    requires s != 0.0
    ensures Scale(r, s) == m
  {
    ScaleByInverse(m.x, s);
    ScaleByInverse(m.y, s);
    ScaleByInverse(m.z, s);
    ScaleByInverse(m.w, s);
    Scale(m, 1.0 / s)
  }

  /** Scaling by 1/s and then by s is the identity. */
  lemma ScaleByInverse(v: Vec4, s: real)
    requires s != 0.0
    ensures Vector4.Scale(Vector4.Scale(v, 1.0 / s), s) == v
  {
    InverseCancels(v.x, s);
    InverseCancels(v.y, s);
    InverseCancels(v.z, s);
    InverseCancels(v.w, s);
  }

  lemma InverseCancels(a: real, s: real)
    requires s != 0.0
    ensures a * (1.0 / s) * s == a
  {
    assert (1.0 / s) * s == 1.0;
    assert a * (1.0 / s) * s == a * ((1.0 / s) * s);
  }

  /** Every entry is non-zero, so `s / m` is defined. */
  predicate NonZero(m: Mat4) {
    Vector4.NonZero(m.x) && Vector4.NonZero(m.y) && Vector4.NonZero(m.z) && Vector4.NonZero(m.w)
  }

  /** `s / m`: row-wise `s / row`, so each entry times the matching entry of m is s. */
  function ScalarDiv(s: real, m: Mat4): (r: Mat4)
    requires NonZero(m)
    ensures forall i, j :: 0 <= i < 4 && 0 <= j < 4 ==> Entry(r, i, j) * Entry(m, i, j) == s
  {
    Mat4(Vector4.ScalarDiv(s, m.x), Vector4.ScalarDiv(s, m.y), Vector4.ScalarDiv(s, m.z), Vector4.ScalarDiv(s, m.w))
  }

  /** `m *= s`: each row updated with the row `*=`; agrees with `m * s`. */
  function ScaleAssign(m: Mat4, s: real): (r: Mat4)
    ensures r == Scale(m, s)
  {
    m.(x := Vector4.ScaleAssign(m.x, s)).(y := Vector4.ScaleAssign(m.y, s))
     .(z := Vector4.ScaleAssign(m.z, s)).(w := Vector4.ScaleAssign(m.w, s))
  }

  /** `m /= s`: each row divided by s; over the reals the same matrix as `m / s`. */
  function DivAssign(m: Mat4, s: real): (r: Mat4)
    requires s != 0.0
    ensures r == DivScalar(m, s)
  {
    m.(x := Vector4.DivScalarAssign(m.x, s)).(y := Vector4.DivScalarAssign(m.y, s))
     .(z := Vector4.DivScalarAssign(m.z, s)).(w := Vector4.DivScalarAssign(m.w, s))
  }

  // ---- matrix-vector products ---------------------------------------------

  /** The transpose: entry (i, j) becomes entry (j, i). */
  function Transpose(m: Mat4): Mat4 {
    Mat4(Vec4(m.x.x, m.y.x, m.z.x, m.w.x), Vec4(m.x.y, m.y.y, m.z.y, m.w.y),
         Vec4(m.x.z, m.y.z, m.z.z, m.w.z), Vec4(m.x.w, m.y.w, m.z.w, m.w.w))
  }

  /** Transposing swaps the indices of every entry, so it is an involution. */
  lemma TransposeEntries(m: Mat4)
    ensures forall i, j :: 0 <= i < 4 && 0 <= j < 4 ==> Entry(Transpose(m), i, j) == Entry(m, j, i)
    ensures Transpose(Transpose(m)) == m
  {
  }

  /** Four-component dot product, the model's reference for a row times a column vector. */
  function Dot4(a: Vec4, b: Vec4): real {
    a.x * b.x + a.y * b.y + a.z * b.z + a.w * b.w
  }

  /** `m * v`: component i is row i of m dotted with v. */
  function MulVec4(m: Mat4, v: Vec4): (r: Vec4)
    ensures r.x == Dot4(m.x, v) && r.y == Dot4(m.y, v) && r.z == Dot4(m.z, v) && r.w == Dot4(m.w, v)
  {
    Vec4(v.x * m.x.x + v.y * m.x.y + v.z * m.x.z + v.w * m.x.w,
         v.x * m.y.x + v.y * m.y.y + v.z * m.y.z + v.w * m.y.w,
         v.x * m.z.x + v.y * m.z.y + v.z * m.z.z + v.w * m.z.w,
         v.x * m.w.x + v.y * m.w.y + v.z * m.w.z + v.w * m.w.w)
  }

  /** `v * m`: the row vector times the matrix, the same formula as one product row. */
  function Vec4Mul(v: Vec4, m: Mat4): (r: Vec4)
    ensures r == ProductRow(v, m)
  {
    Vec4(v.x * m.x.x + v.y * m.y.x + v.z * m.z.x + v.w * m.w.x,
         v.x * m.x.y + v.y * m.y.y + v.z * m.z.y + v.w * m.w.y,
         v.x * m.x.z + v.y * m.y.z + v.z * m.z.z + v.w * m.w.z,
         v.x * m.x.w + v.y * m.y.w + v.z * m.z.w + v.w * m.w.w)
  }

  /** `m * v` and `v * m` are related by transposition. */
  lemma ColumnIsTransposedRow(m: Mat4, v: Vec4)
    ensures MulVec4(m, v) == Vec4Mul(v, Transpose(m))
    ensures Vec4Mul(v, m) == MulVec4(Transpose(m), v)
  {
    var t := Transpose(m);
    assert MulVec4(m, v).x == Vec4Mul(v, t).x && MulVec4(m, v).y == Vec4Mul(v, t).y;
    assert MulVec4(m, v).z == Vec4Mul(v, t).z && MulVec4(m, v).w == Vec4Mul(v, t).w;
    assert Vec4Mul(v, m).x == MulVec4(t, v).x && Vec4Mul(v, m).y == MulVec4(t, v).y;
    assert Vec4Mul(v, m).z == MulVec4(t, v).z && Vec4Mul(v, m).w == MulVec4(t, v).w;
  }

  /** The point v in homogeneous coordinates, (x, y, z, 1). */
  function Point(v: Vec3): Vec4 {
    Vec4(v.x, v.y, v.z, 1.0)
  }

  /**
   `m * v` for a three-component point: the homogeneous product
   h = m * (x, y, z, 1). When h.w is 1 the result is the first three
   components of h without a division; when h.w is 0 it is the zero
   vector; otherwise it is the first three components divided by h.w.
   */
  function MulVec3(m: Mat4, v: Vec3): (r: Vec3)
    ensures var h := MulVec4(m, Point(v));
      && (h.w == 1.0 ==> r == Xyz(h))
      && (h.w == 0.0 ==> r == Vector3.Broadcast(0.0))
      && (h.w != 0.0 ==> Vector3.Scale(r, h.w) == Xyz(h))
  {
    var scale := m.w.x * v.x + m.w.y * v.y + m.w.z * v.z + m.w.w;
    var tx := m.x.x * v.x + m.x.y * v.y + m.x.z * v.z + m.x.w;
    var ty := m.y.x * v.x + m.y.y * v.y + m.y.z * v.z + m.y.w;
    var tz := m.z.x * v.x + m.z.y * v.y + m.z.z * v.z + m.z.w;
    if scale == 1.0 then Vec3(tx, ty, tz)
    else if scale == 0.0 then Vector3.Broadcast(0.0)
    else Vec3(tx / scale, ty / scale, tz / scale)
  }

  /** The identity matrix maps every point to itself. */
  lemma IdentityFixesPoints(v: Vec3)
    ensures MulVec3(Identity(), v) == v
  {
  }

  // ---- projection ---------------------------------------------------------

  /**
   perspective(fov, aspect, near, far): the projection matrix built from
   half_tan = tan(fov / 2) and range = near - far. The tangent is the
   parameter `tan`; the divisions require half_tan * aspect != 0 and
   near != far.
   */
  function Perspective(fov: real, aspect: real, near: real, far: real, tan: real -> real): (r: Mat4)
    requires tan(fov / 2.0) * aspect != 0.0 && near != far
    ensures r.x.x * (tan(fov / 2.0) * aspect) == 1.0 && r.y.y * tan(fov / 2.0) == 1.0
    ensures r.x.y == 0.0 && r.x.z == 0.0 && r.x.w == 0.0
    ensures r.y.x == 0.0 && r.y.z == 0.0 && r.y.w == 0.0
    ensures r.z.x == 0.0 && r.z.y == 0.0
    ensures r.w == Vec4(0.0, 0.0, 1.0, 0.0)
  {
    var range := near - far;
    var halfTan := tan(fov / 2.0);
    assert halfTan != 0.0;
    FromEntries(1.0 / (halfTan * aspect), 0.0, 0.0, 0.0,
                0.0, 1.0 / halfTan, 0.0, 0.0,
                0.0, 0.0, (-near - far) / range, 2.0 * far * near / range,
                0.0, 0.0, 1.0, 0.0)
  }

  /**
   The depth row maps the near plane z == near to clip depth -near and
   the far plane z == far to clip depth far, while w takes z; after the
   homogeneous divide they land on -1 and 1.
   */
  lemma {:induction false} PerspectiveDepth(fov: real, aspect: real, near: real, far: real, tan: real -> real, x: real, y: real)
    requires tan(fov / 2.0) * aspect != 0.0 && near != far
    ensures var p := Perspective(fov, aspect, near, far, tan);
      && MulVec4(p, Vec4(x, y, near, 1.0)).z == -near && MulVec4(p, Vec4(x, y, near, 1.0)).w == near
      && MulVec4(p, Vec4(x, y, far, 1.0)).z == far && MulVec4(p, Vec4(x, y, far, 1.0)).w == far
  {
    DepthRow(near, far, near - far);
  }

  lemma DepthRow(near: real, far: real, range: real)
    requires range == near - far && range != 0.0
    ensures near * ((-near - far) / range) + 2.0 * far * near / range == -near
    ensures far * ((-near - far) / range) + 2.0 * far * near / range == far
  {
    var q1 := (-near - far) / range;
    var q2 := 2.0 * far * near / range;
    assert q1 * range == -near - far;
    assert q2 * range == 2.0 * far * near;
    assert (near * q1 + q2) * range == near * (q1 * range) + q2 * range;
    Vector3.ProductCancel(near * q1 + q2, -near, range);
    assert (far * q1 + q2) * range == far * (q1 * range) + q2 * range;
    Vector3.ProductCancel(far * q1 + q2, far, range);
  }
}
