/**
 The four-component vector of the math library (src/core/math/vec4.hpp),
 over reals. Compound operators return the updated value. The `vec3()`
 view, a reinterpret cast of the first three components, is modelled as a
 projection (Xyz) and a write-back (WithXyz).
 */
module Vector4 {
  import opened Vector3

  datatype Vec4 = Vec4(x: real, y: real, z: real, w: real)

  /** basic_vec4(T x): the one-argument constructor. */
  function Broadcast(s: real): (r: Vec4)
    ensures r.x == s && r.y == s && r.z == s && r.w == s
  {
    Vec4(s, s, s, s)
  }

  /** Component i (0 = x, 1 = y, 2 = z, 3 = w). */
  function Component(v: Vec4, i: int): real
    requires 0 <= i < 4
  {
    if i == 0 then v.x else if i == 1 then v.y else if i == 2 then v.z else v.w
  }

  // ---- binary operators -------------------------------------------------

  function Add(a: Vec4, b: Vec4): Vec4 {
    Vec4(a.x + b.x, a.y + b.y, a.z + b.z, a.w + b.w)
  }

  function Sub(a: Vec4, b: Vec4): Vec4 {
    Vec4(a.x - b.x, a.y - b.y, a.z - b.z, a.w - b.w)
  }

  /** Componentwise product `a * b`. */
  function Mul(a: Vec4, b: Vec4): Vec4 {
    Vec4(a.x * b.x, a.y * b.y, a.z * b.z, a.w * b.w)
  }

  /** `v * s`. */
  function Scale(v: Vec4, s: real): Vec4 {
    Vec4(v.x * s, v.y * s, v.z * s, v.w * s)
  }

  /** `s * v`, written as `v * s`: the same vector. */
  function ScalarMul(s: real, v: Vec4): (r: Vec4)
    ensures r == Scale(v, s)
  {
    Vec4(v.x * s, v.y * s, v.z * s, v.w * s)
  }

  /** No component is zero, so componentwise division by the vector is defined. */
  predicate NonZero(v: Vec4) {
    v.x != 0.0 && v.y != 0.0 && v.z != 0.0 && v.w != 0.0
  }

  /** Componentwise quotient `a / b`: the vector that multiplied by b gives a. */
  function Div(a: Vec4, b: Vec4): (r: Vec4)
    requires NonZero(b)
    ensures Mul(r, b) == a
  {
    Vec4(a.x / b.x, a.y / b.y, a.z / b.z, a.w / b.w)
  }

  /** `v / s`: the vector that scaled by s gives v. */
  function DivScalar(v: Vec4, s: real): (r: Vec4)
    requires s != 0.0
    ensures Scale(r, s) == v
  {
    Vec4(v.x / s, v.y / s, v.z / s, v.w / s)
  }

  /** `s / v`: each component is s divided by that component of v. */
  function ScalarDiv(s: real, v: Vec4): (r: Vec4)
    requires NonZero(v)
    ensures Mul(r, v) == Broadcast(s)
  {
    Vec4(s / v.x, s / v.y, s / v.z, s / v.w)
  }

  // ---- compound operators -----------------------------------------------

  /** `v += w`, which agrees with `v + w`. */
  function AddAssign(v: Vec4, w: Vec4): (r: Vec4)
    ensures r == Add(v, w)
  {
    v.(x := v.x + w.x).(y := v.y + w.y).(z := v.z + w.z).(w := v.w + w.w)
  }

  /** `v -= w`, which agrees with `v - w`. */
  function SubAssign(v: Vec4, w: Vec4): (r: Vec4)
    ensures r == Sub(v, w)
  {
    v.(x := v.x - w.x).(y := v.y - w.y).(z := v.z - w.z).(w := v.w - w.w)
  }

  /** `v *= w` (componentwise), which agrees with `v * w`. */
  function MulAssign(v: Vec4, w: Vec4): (r: Vec4)
    ensures r == Mul(v, w)
  {
    v.(x := v.x * w.x).(y := v.y * w.y).(z := v.z * w.z).(w := v.w * w.w)
  }

  /** `v *= s`, which agrees with `v * s`. */
  function ScaleAssign(v: Vec4, s: real): (r: Vec4)
    ensures r == Scale(v, s)
  {
    v.(x := v.x * s).(y := v.y * s).(z := v.z * s).(w := v.w * s)
  }

  /** `v /= w` (componentwise), which agrees with `v / w`. */
  function DivAssign(v: Vec4, w: Vec4): (r: Vec4)
    requires NonZero(w)
    ensures r == Div(v, w)
  {
    v.(x := v.x / w.x).(y := v.y / w.y).(z := v.z / w.z).(w := v.w / w.w)
  }

  /** `v /= s`, which agrees with `v / s`. */
  function DivScalarAssign(v: Vec4, s: real): (r: Vec4)
    requires s != 0.0
    ensures r == DivScalar(v, s)
  {
    v.(x := v.x / s).(y := v.y / s).(z := v.z / s).(w := v.w / s)
  }

  // ---- the vec3() view ----------------------------------------------------

  /** Reading through `vec3()`: the first three components. */
  function Xyz(v: Vec4): Vec3 {
    Vec3(v.x, v.y, v.z)
  }

  /**
   Writing `u` through `vec3()`: x, y and z take u's values and w is left
   untouched, so reading the view back gives u.
   */
  function WithXyz(v: Vec4, u: Vec3): (r: Vec4)
    ensures Xyz(r) == u && r.w == v.w
  {
    v.(x := u.x).(y := u.y).(z := u.z)
  }

  /** Writing back what the view showed before undoes a write through it. */
  lemma WithXyzRestores(v: Vec4, u: Vec3)
    ensures WithXyz(WithXyz(v, u), Xyz(v)) == v
    ensures WithXyz(v, Xyz(v)) == v
  {
  }

  // ---- algebraic laws -----------------------------------------------------

  /** Subtracting what was added gives the original vector back. */
  lemma AddSubCancel(a: Vec4, b: Vec4)
    ensures Sub(Add(a, b), b) == a
  {
  }

  /** Addition is commutative. */
  lemma AddCommutative(a: Vec4, b: Vec4)
    ensures Add(a, b) == Add(b, a)
  {
  }
}
