/**
 The older vector header (vec3.hpp). Its constructors, arithmetic
 operators, compound operators, dot and cross product are written exactly
 like those of src/core/math/vec3.hpp and are modelled once, in Vector3.
 This module models the members whose code is written differently and
 proves they compute the same values.
 */
module LegacyVector3 {
  import MathFunctions
  import opened Vector3

  /** min(): nested ternary `x < y ? (x < z ? x : z) : (y < z ? y : z)`. */
  function MinComponent(v: Vec3): (r: real)
    ensures r <= v.x && r <= v.y && r <= v.z
    ensures r == v.x || r == v.y || r == v.z
    ensures r == Vector3.MinComponent(v)
  {
    if v.x < v.y then (if v.x < v.z then v.x else v.z) else (if v.y < v.z then v.y else v.z)
  }

  /** max(): nested ternary `x > y ? (x > z ? x : z) : (y > z ? y : z)`. */
  function MaxComponent(v: Vec3): (r: real)
    ensures v.x <= r && v.y <= r && v.z <= r
    ensures r == v.x || r == v.y || r == v.z
    ensures r == Vector3.MaxComponent(v)
  {
    if v.x > v.y then (if v.x > v.z then v.x else v.z) else (if v.y > v.z then v.y else v.z)
  }

  /** The sign of one component, tested negative first: `a < 0 ? -1 : (a > 0 ? 1 : 0)`. */
  function ComponentSign(a: real): (r: real)
    ensures r == -1.0 || r == 0.0 || r == 1.0
    ensures r == 0.0 <==> a == 0.0
    ensures r == MathFunctions.Sign(a)
  {
    if a < 0.0 then -1.0 else if a > 0.0 then 1.0 else 0.0
  }

  /** sign(): each component mapped to -1, 0 or 1, with 0 exactly for 0. */
  function Sign(v: Vec3): (r: Vec3)
    ensures r.x in {-1.0, 0.0, 1.0} && r.y in {-1.0, 0.0, 1.0} && r.z in {-1.0, 0.0, 1.0}
    ensures (r.x == 0.0 <==> v.x == 0.0) && (r.y == 0.0 <==> v.y == 0.0) && (r.z == 0.0 <==> v.z == 0.0)
    ensures r == Vector3.Sign(v)
  {
    Vec3(ComponentSign(v.x), ComponentSign(v.y), ComponentSign(v.z))
  }

  /** abs() through std::abs: non-negative components, the same vector as the newer abs(). */
  function Abs(v: Vec3): (r: Vec3)
    ensures 0.0 <= r.x && 0.0 <= r.y && 0.0 <= r.z
    ensures r == Vector3.Abs(v)
  {
    Vec3(if v.x < 0.0 then -v.x else v.x, if v.y < 0.0 then -v.y else v.y, if v.z < 0.0 then -v.z else v.z)
  }
}
