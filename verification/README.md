# A verified model of the tracer's core

This project is a Dafny model of the core of `tracer`, a small CPU ray tracer
written in C++. The model covers seven parts:

- **Scene tests** (`Tracer`, main.cpp): the sphere, plane and capsule tests the
  tracer uses.
- **Nearest-hit query** (`Tracer.Raycast`): a linear scan that skips one
  primitive, starts from a 9e21 sentinel and keeps a hit only if it is strictly
  closer.
- **Per-pixel shading**: fog, diffuse, specular and shadow factors.
- **Intersection library** (`RayIntersection`, ray_intersection_test.cpp): the
  existence, distance and normal overloads for planes, spheres, axis-aligned
  boxes and capsules.
- **Image storage**:
  - the older image matrix (`LegacyMatrix`, matrix.hpp) and the newer one
    (`CoreMatrix`, src/core/matrix.hpp), both with their stride and offset
    arithmetic;
  - the pixel-format channel tables (`PixelFormat`, `LegacyPixelFormat`).
- **BMP writer** (`Bitmap`): a packed 54-byte header followed by the image
  rows, bottom row first and without padding, written to a byte sink whose
  writes may fail.
- **Math library and camera** (src/core/math, src/engine/camera.cpp):
  - the scalar, vector, matrix and quaternion algebra;
  - the camera, whose position is stored negated and whose view-projection
    matrix is recomputed only when a dirty flag is set.

Floating-point quantities are Dafny `real`s. The C++ integer fields that
reach the BMP header are 32-bit; the model writes their wrap-around out as
explicit reductions modulo 2^16 and 2^32. The image matrices keep their
dimensions and strides in `int32_t`. A default stride is computed in `size_t`
and narrowed to `int32_t`, which the model writes out as `Int32.Wrap`. A
signed `int32_t` product that overflows is undefined behaviour in C++, so the
members that state properties of such products require them to stay in range.

Every square root is a parameter `sqrt: real -> real`, because it is a library
routine the model cannot see. A property that depends on its meaning assumes
`MathFunctions.IsSqrt(sqrt)`: for x ≥ 0, `sqrt(x) >= 0` and
`sqrt(x) * sqrt(x) == x`. The tangent used by the perspective projection is a
parameter in the same way.

Each module corresponds to one source file:

| module | file | source |
|---|---|---|
| `Wrappers` | wrappers.dfy | (support) `Option` |
| `Int32` | int32.dfy | (support) the `int32_t` range and the narrowing of a wider value into it |
| `MathFunctions` | math_functions.dfy | src/core/math/math_functions.hpp |
| `Vector3` | vec3.dfy | src/core/math/vec3.hpp, plus the identical code in vec3.hpp and main.cpp's private `vec3` |
| `LegacyVector3` | legacy_vec3.dfy | the members of vec3.hpp written differently |
| `Vector4` | vec4.dfy | src/core/math/vec4.hpp |
| `Matrix4` | mat4.dfy | src/core/math/mat4.hpp |
| `Quaternion` | quat.dfy | src/core/math/quat.hpp |
| `Camera` | camera.dfy | src/engine/camera.cpp |
| `PixelFormat`, `LegacyPixelFormat` | pixel_format.dfy, legacy_pixel_format.dfy | src/core/pixel_format.hpp, pixel_format.hpp |
| `CoreMatrix`, `LegacyMatrix` | core_matrix.dfy, legacy_matrix.dfy | src/core/matrix.hpp, matrix.hpp |
| `Bitmap` | bitmap.dfy | main.cpp (bitmap header and writer) |
| `RayIntersection` | intersection.dfy | ray_intersection_test.cpp |
| `Tracer` | tracer.dfy | main.cpp (scene tests, raycast, shading) |

Three behaviours of the source are kept as written rather than corrected:

- The sphere overloads disagree. The existence overload answers true for a ray
  that starts inside the sphere. The distance overloads answer false for the
  same ray, because its near root is negative (`RayIntersection.InsideExistsWithoutSpan`).
- The capsule test in main.cpp accepts body hits behind the origin
  (`Tracer.CapsuleTestKeepsBehind`). Only the `>= 0` filter in `raycast`
  discards them.
- The BMP writer does not pad rows to a multiple of four bytes. The file has
  the size the format expects exactly when `bytes_per_row` is a multiple of
  four (`Bitmap.MatchesFormatIffAligned`).

## Model

| member | source | states |
|---|---|---|
| MathFunctions.Min | src/core/math/math_functions.hpp:45-49 | the result is one of the arguments and at most both |
| MathFunctions.Max | src/core/math/math_functions.hpp:51-55 | the result is one of the arguments and at least both |
| MathFunctions.Sign | src/core/math/math_functions.hpp:57-62 | the result is -1, 0 or 1; it is 0 exactly for 0, 1 for positive and -1 for negative arguments |
| MathFunctions.SignTimesValue | src/core/math/math_functions.hpp:57-62 | sign(a) * a is non-negative and equals abs(a) |
| MathFunctions.Sqr | src/core/math/math_functions.hpp:64-68 | sqr(a) is non-negative and equals abs(a)^2 |
| MathFunctions.Abs | src/core/math/math_functions.hpp:70-74 | abs(a) is non-negative, is a or -a, and bounds both a and -a |
| MathFunctions.SqrtOfSquare | src/core/math/math_functions.hpp:76-80 | a true square root of a^2 is abs(a) |
| MathFunctions.Deg2Rad | src/core/math/math_functions.hpp:142-146 | rad2deg undoes deg2rad |
| MathFunctions.Rad2Deg | src/core/math/math_functions.hpp:148-152 | r * pi == a * 180 |
| MathFunctions.Floor | src/core/math/math_functions.hpp:154-158 | the result is an integer with r <= a < r + 1 |
| MathFunctions.Frac | src/core/math/math_functions.hpp:166-170 | the result lies in [0, 1) and differs from a by an integer |
| MathFunctions.Round | src/core/math/math_functions.hpp:172-176 | the result is an integer within one half of a (a - 0.5 < r <= a + 0.5) |
| MathFunctions.Clamp | src/core/math/math_functions.hpp:178-188 | with lo <= hi the result is in [lo, hi]; it is val when val is in range, lo when val < lo, and otherwise min(val, hi), which also covers lo > hi |
| MathFunctions.ClampIdempotent | src/core/math/math_functions.hpp:178-188 | clamping twice equals clamping once |
| Vector3.Broadcast | src/core/math/vec3.hpp:63-69 | the one-argument constructor puts the value in x, y and z |
| Vector3.Neg | src/core/math/vec3.hpp:219-223 | no contract of its own; CrossAntiCommutative (cross(a, b) == -cross(b, a)) and ScalarSub (s - v as written is -(broadcast(s) - v)) state it |
| Vector3.Add | src/core/math/vec3.hpp:225-229 | no contract of its own; AddSubCancel ((a + b) - b == a), ScalarAdd and AddAssign state it |
| Vector3.AddScalar | src/core/math/vec3.hpp:231-235 | no contract of its own; ScalarAdd (s + v == v + s) states it |
| Vector3.Sub | src/core/math/vec3.hpp:243-247 | no contract of its own; AddSubCancel ((a + b) - b == a) and SubAssign state it |
| Vector3.SubScalar | src/core/math/vec3.hpp:249-253 | no contract of its own; ScalarSub and ScalarSubIsNotDifference compare it with s - v |
| Vector3.Scale | src/core/math/vec3.hpp:261-265 | no contract of its own; DivScalar ((v / s) * s == v), ScalarMul and ScaleAssign state it |
| Vector3.Mul | src/core/math/vec3.hpp:267-271 | no contract of its own; Div ((a / b) * b == a), SignTimesVector and MulAssign state it |
| Vector3.Dot | src/core/math/vec3.hpp:132-136 | no contract of its own; DotSymmetric, DotSelfNonNegative, CauchySchwarz and Lagrange state it |
| Vector3.Cross | src/core/math/vec3.hpp:126-130 | no contract of its own; CrossOrthogonal, CrossAntiCommutative and Lagrange state it |
| Vector3.ScalarAdd | src/core/math/vec3.hpp:231-241 | s + v equals v + s |
| Vector3.ScalarSub | src/core/math/vec3.hpp:249-259 | s - v as written equals v - s, the negation of the broadcast difference |
| Vector3.ScalarSubIsNotDifference | src/core/math/vec3.hpp:255-259 | s - v as written agrees with the componentwise s - v exactly when v is the broadcast of s |
| Vector3.ScalarSubCounterexample | src/core/math/vec3.hpp:255-259 | 1 - (0,0,0) as written yields (-1,-1,-1), not (1,1,1) |
| Vector3.ScalarMinus | src/core/math/vec3.hpp:255-259 | the intended s - v: adding v back gives the broadcast of s |
| Vector3.ScalarMul | src/core/math/vec3.hpp:261-277 | s * v equals v * s |
| Vector3.DivScalar | src/core/math/vec3.hpp:279-283 | for s != 0, (v / s) * s == v |
| Vector3.Div | src/core/math/vec3.hpp:285-289 | for non-zero components, (a / b) * b == a componentwise |
| Vector3.ScalarDiv | src/core/math/vec3.hpp:291-295 | (s / v) * v is the broadcast of s |
| Vector3.AddAssign | src/core/math/vec3.hpp:79-86 | `+=` agrees with binary `+` |
| Vector3.SubAssign | src/core/math/vec3.hpp:88-95 | `-=` agrees with binary `-` |
| Vector3.ScaleAssign | src/core/math/vec3.hpp:97-105 | `*=` by a scalar agrees with `v * s` |
| Vector3.MulAssign | src/core/math/vec3.hpp:107-114 | `*=` by a vector agrees with the componentwise product |
| Vector3.DivAssign | src/core/math/vec3.hpp:116-124 | `/=` agrees with `v / s` |
| Vector3.DotSymmetric | src/core/math/vec3.hpp:132-136 | dot is symmetric |
| Vector3.CrossOrthogonal | src/core/math/vec3.hpp:126-130 | cross(a, b) is orthogonal to a and to b |
| Vector3.CrossAntiCommutative | src/core/math/vec3.hpp:126-130 | cross(a, b) == -cross(b, a) |
| Vector3.Lagrange | src/core/math/vec3.hpp:126-136 | Lagrange's identity: the squared length of cross(a, b) is (a.a)(b.b) - (a.b)^2 |
| Vector3.CauchySchwarz | src/core/math/vec3.hpp:132-136 | (a.b)^2 <= (a.a)(b.b) |
| Vector3.Normalize | src/core/math/vec3.hpp:138-143 | the result times the length is v again, and it is a unit vector for a true square root |
| Vector3.NormalizeWithLength | src/core/math/vec3.hpp:145-151 | returns the normalised vector and the length, which is positive and squares to v.v |
| Vector3.NormalizeSelf | src/core/math/vec3.hpp:153-158 | the in-place form produces the same vector as normalize() |
| Vector3.Abs | src/core/math/vec3.hpp:169-173 | every component is non-negative and is the original component or its negation |
| Vector3.AbsSelf | src/core/math/vec3.hpp:175-182 | the in-place form produces the same vector as abs() |
| Vector3.Clamp | src/core/math/vec3.hpp:184-188 | with lo <= hi every component lies in [lo, hi]; a vector already in range is unchanged |
| Vector3.ClampSelf | src/core/math/vec3.hpp:190-197 | the in-place form produces the same vector as clamp() |
| Vector3.MinComponent | src/core/math/vec3.hpp:199-203 | min() is at most every component and equals one of them |
| Vector3.MaxComponent | src/core/math/vec3.hpp:205-209 | max() is at least every component and equals one of them |
| Vector3.Sign | src/core/math/vec3.hpp:211-215 | every component is -1, 0 or 1, and 0 exactly where v is 0 |
| Vector3.SignTimesVector | src/core/math/vec3.hpp:169-173 | sign(v) * v == abs(v) componentwise |
| Vector3.AddSubCancel | src/core/math/vec3.hpp:225-247 | (a + b) - b == a |
| LegacyVector3.MinComponent | vec3.hpp:168-172 | the nested-ternary min() is the smallest component, the same value as the newer min() |
| LegacyVector3.MaxComponent | vec3.hpp:174-178 | the nested-ternary max() is the largest component, the same value as the newer max() |
| LegacyVector3.ComponentSign | vec3.hpp:180-187 | one component's sign is -1, 0 or 1, 0 exactly for 0, and agrees with math::sign |
| LegacyVector3.Sign | vec3.hpp:180-187 | sign() maps components to {-1, 0, 1}, 0 exactly for 0, and agrees with the newer sign() |
| LegacyVector3.Abs | vec3.hpp:153-157 | abs() components are non-negative and agree with the newer abs() |
| Vector4.Broadcast | src/core/math/vec4.hpp:52-60 | the one-argument constructor puts the value in x, y, z and w |
| Vector4.Add | src/core/math/vec4.hpp:156-161 | no contract of its own; AddCommutative, AddSubCancel and AddAssign state it |
| Vector4.Sub | src/core/math/vec4.hpp:163-168 | no contract of its own; AddSubCancel ((a + b) - b == a) and SubAssign state it |
| Vector4.Mul | src/core/math/vec4.hpp:170-175 | no contract of its own; Div ((a / b) * b == a) and MulAssign state it |
| Vector4.Scale | src/core/math/vec4.hpp:177-182 | no contract of its own; DivScalar ((v / s) * s == v), ScalarMul and ScaleAssign state it |
| Vector4.Xyz | src/core/math/vec4.hpp:140-152 | no contract of its own; WithXyzRestores (writing back the old vec3() restores the vector) states it |
| Vector4.ScalarMul | src/core/math/vec4.hpp:177-189 | s * v equals v * s |
| Vector4.Div | src/core/math/vec4.hpp:191-196 | (a / b) * b == a componentwise for non-zero b |
| Vector4.DivScalar | src/core/math/vec4.hpp:198-203 | (v / s) * s == v for s != 0 |
| Vector4.ScalarDiv | src/core/math/vec4.hpp:205-210 | (s / v) * v is the broadcast of s |
| Vector4.AddAssign | src/core/math/vec4.hpp:72-81 | `+=` agrees with binary `+` |
| Vector4.SubAssign | src/core/math/vec4.hpp:83-92 | `-=` agrees with binary `-` |
| Vector4.MulAssign | src/core/math/vec4.hpp:94-103 | `*=` by a vector agrees with the componentwise product |
| Vector4.ScaleAssign | src/core/math/vec4.hpp:105-115 | `*=` by a scalar agrees with `v * s` |
| Vector4.DivAssign | src/core/math/vec4.hpp:117-126 | `/=` by a vector agrees with `a / b` |
| Vector4.DivScalarAssign | src/core/math/vec4.hpp:128-138 | `/=` by a scalar agrees with `v / s` |
| Vector4.WithXyz | src/core/math/vec4.hpp:140-152 | writing through vec3() sets x, y, z and leaves w untouched |
| Vector4.WithXyzRestores | src/core/math/vec4.hpp:140-152 | writing back the old vec3() restores the vector; writing its own vec3() changes nothing |
| Vector4.AddSubCancel | src/core/math/vec4.hpp:156-168 | (a + b) - b == a |
| Vector4.AddCommutative | src/core/math/vec4.hpp:156-161 | a + b == b + a |
| Matrix4.FromEntries | src/core/math/mat4.hpp:56-63 | each of the sixteen arguments is the entry at its row and column: xx..xw form row x, yx..yw row y, zx..zw row z and wx..ww row w |
| Matrix4.Diagonal | src/core/math/mat4.hpp:47-54 | basic_mat4(s) has s on the diagonal and 0 elsewhere |
| Matrix4.Identity | src/core/math/mat4.hpp:47-54 | no contract of its own; IdentityIsNeutral, IdentityFixesPoints and Quaternion.IdentityToMat4 state it |
| Matrix4.Add | src/core/math/mat4.hpp:156-161 | no contract of its own; AddSubCancel ((a + b) - b == a) and AddAssign state it |
| Matrix4.Sub | src/core/math/mat4.hpp:163-168 | no contract of its own; AddSubCancel and SubAssign state it |
| Matrix4.Mul | src/core/math/mat4.hpp:170-196 | no contract of its own; MulEntries (entry (i, j) is row i times column j), IdentityIsNeutral and MulAssign state it |
| Matrix4.Scale | src/core/math/mat4.hpp:243-248 | no contract of its own; DivScalar ((m / s) * s == m), ScalarMul and ScaleAssign state it |
| Matrix4.Transpose | src/core/math/mat4.hpp:198-220 | no contract of its own; TransposeEntries (entry (i, j) becomes (j, i)) and ColumnIsTransposedRow (m * v == v * transpose(m)) state it |
| Matrix4.AddAssign | src/core/math/mat4.hpp:65-74 | `+=` agrees with the row-wise `+` |
| Matrix4.SubAssign | src/core/math/mat4.hpp:76-85 | `-=` agrees with the row-wise `-` |
| Matrix4.AddSubCancel | src/core/math/mat4.hpp:156-168 | (a + b) - b == a |
| Matrix4.MulEntries | src/core/math/mat4.hpp:170-196 | entry (i, j) of a * b is row i of a times column j of b |
| Matrix4.MulAssign | src/core/math/mat4.hpp:87-115 | `*=` produces the same matrix as a * b |
| Matrix4.IdentityIsNeutral | src/core/math/mat4.hpp:170-196 | basic_mat4(1) is a two-sided identity for `*` |
| Matrix4.ScalarMul | src/core/math/mat4.hpp:243-255 | s * m equals m * s |
| Matrix4.DivScalar | src/core/math/mat4.hpp:257-262 | m / s, computed as m * (1 / s), times s is m again |
| Matrix4.ScalarDiv | src/core/math/mat4.hpp:264-269 | each entry of s / m times the matching entry of m is s |
| Matrix4.ScaleAssign | src/core/math/mat4.hpp:117-127 | `*=` by a scalar agrees with m * s |
| Matrix4.DivAssign | src/core/math/mat4.hpp:129-139 | `/=` by a scalar agrees with m / s |
| Matrix4.TransposeEntries | src/core/math/mat4.hpp:198-220 | the transpose swaps every entry's indices, so it is an involution |
| Matrix4.MulVec4 | src/core/math/mat4.hpp:210-220 | component i of m * v is row i of m dotted with v |
| Matrix4.Vec4Mul | src/core/math/mat4.hpp:198-208 | v * m is the row vector v times m, row i of a matrix product |
| Matrix4.ColumnIsTransposedRow | src/core/math/mat4.hpp:198-220 | m * v == v * transpose(m), and v * m == transpose(m) * v |
| Matrix4.MulVec3 | src/core/math/mat4.hpp:222-241 | with h = m * (v, 1): the affine image when h.w is 1, the zero vector when h.w is 0, otherwise the image divided by h.w |
| Matrix4.IdentityFixesPoints | src/core/math/mat4.hpp:222-241 | the identity matrix maps every point to itself |
| Matrix4.Perspective | src/core/math/mat4.hpp:141-152 | the x and y scales are the reciprocals of tan(fov/2) * aspect and tan(fov/2); the off-diagonal zeros and the last row (0, 0, 1, 0) |
| Matrix4.PerspectiveDepth | src/core/math/mat4.hpp:141-152 | a point at depth near maps to z == -near, w == near; a point at depth far maps to z == far, w == far |
| Quaternion.Mul | src/core/math/quat.hpp:130-140 | no contract of its own; IdentityIsNeutral, Conjugate (q * (-q) has zero vector part and w the squared norm) and MulAssign state it |
| Quaternion.Rotate | src/core/math/quat.hpp:142-159 | no contract of its own; IdentityRotate, RotateRight and RotateIsRowTimesMatrix (q * v is (v, 1) times to_mat4(q)) state it |
| Quaternion.MulAssign | src/core/math/quat.hpp:59-71 | `*=` produces the same quaternion as a * b |
| Quaternion.IdentityIsNeutral | src/core/math/quat.hpp:130-140 | (0, 0, 0, 1) is a two-sided identity for `*` |
| Quaternion.Conjugate | src/core/math/quat.hpp:123-128 | unary `-` keeps w and the norm; q * (-q) and (-q) * q have zero vector part and w equal to the squared norm |
| Quaternion.ConjugateInvolution | src/core/math/quat.hpp:123-128 | negating twice gives q back |
| Quaternion.Normalize | src/core/math/quat.hpp:73-81 | zero length gives (0, 0, 0, 1); otherwise the result times the length is q, a unit quaternion for a true square root |
| Quaternion.NormalizeSelf | src/core/math/quat.hpp:83-96 | zero length sets only w = 1; with a true square root the result is the same as normalize() |
| Quaternion.ZeroLengthMeansZero | src/core/math/quat.hpp:73-96 | with a true square root, only the zero quaternion has zero length, so both fallbacks give (0, 0, 0, 1) |
| Quaternion.ToMat4 | src/core/math/quat.hpp:98-119 | the last row and the last column are (0, 0, 0, 1) |
| Quaternion.IdentityToMat4 | src/core/math/quat.hpp:98-119 | the identity quaternion gives the identity matrix |
| Quaternion.IdentityRotate | src/core/math/quat.hpp:142-159 | the identity quaternion leaves every vector unchanged |
| Quaternion.RotateRight | src/core/math/quat.hpp:161-166 | v * q == q * v |
| Quaternion.RotateIsRowTimesMatrix | src/core/math/quat.hpp:98-159 | for a unit quaternion, q * v is the row vector (v, 1) times to_mat4(q), restricted to xyz |
| Camera.Right | src/engine/camera.cpp:103-107 | no contract of its own; FrameOrthogonal, RotateKeepsFrameOrthogonal and View state it |
| Camera.Up | src/engine/camera.cpp:97-101 | no contract of its own; FrameOrthogonal, RotateKeepsFrameOrthogonal and View state it |
| Camera.Direction | src/engine/camera.cpp:79-83 | no contract of its own; SetDirection, Rotate, FrameOrthogonal and View state it |
| Camera.GetPosition | src/engine/camera.cpp:116-120 | no contract of its own; SetPosition (returns the position set), Move and MoveBack state it |
| Camera.GetScale | src/engine/camera.cpp:129-133 | no contract of its own; SetScale (returns the scale set) states it |
| Camera.WithFrame | src/engine/camera.hpp:37-45 | writing the right, up and direction rows leaves the position column and every other field unchanged |
| Camera.DefaultProjectionSwaps | src/engine/camera.cpp:7-22 | the default projection swaps the y and z components |
| Camera.Default | src/engine/camera.cpp:7-22 | the default camera is dirty, with identity output, the y/z-swapping projection, a zero frame, position 0 and scale 1 |
| Camera.Make | src/engine/camera.cpp:25-31 | the constructor stores the position, sets the frame from dir and up and marks the camera dirty |
| Camera.MakeKeepsDefaults | src/engine/camera.cpp:25-31 | the constructor keeps the default scale, projection and output |
| Camera.SetPosition | src/engine/camera.cpp:110-120 | stores -p, so get_position() returns p; marks dirty and changes nothing else |
| Camera.Move | src/engine/camera.cpp:34-38 | get_position() grows by delta (m_pos -= delta); marks dirty and changes nothing else |
| Camera.MoveBack | src/engine/camera.cpp:34-38 | moving by delta and then by -delta restores the camera except for the dirty flag |
| Camera.SetScale | src/engine/camera.cpp:123-133 | get_scale() returns s; marks dirty and changes nothing else |
| Camera.SetPerspectiveProjection | src/engine/camera.cpp:49-53 | installs the perspective matrix, marks dirty and changes nothing else |
| Camera.SetDirection | src/engine/camera.cpp:68-77 | stores dir unnormalised; right = dir x up and up = right x dir; marks dirty |
| Camera.SetUp | src/engine/camera.cpp:86-95 | keeps the direction; right = dir x up and up = right x dir; marks dirty |
| Camera.SetOrientation | src/engine/camera.cpp:56-65 | stores dir; right = dir x up and up = right x dir; marks dirty |
| Camera.Rotate | src/engine/camera.cpp:41-46 | the new direction is the quaternion applied to the old one; right and up are rebuilt by cross products from that direction and the rotated up vector that set_direction left; marks dirty |
| Camera.RotateKeepsFrameOrthogonal | src/engine/camera.cpp:41-46 | after a rotation, right, up and direction are pairwise orthogonal |
| Camera.FrameOrthogonal | src/engine/camera.cpp:56-95 | after the frame setters, right, up and direction are pairwise orthogonal, and up == u (d.d) - d (u.d) |
| Camera.SettersLeaveFrame | src/engine/camera.cpp:25-95 | the constructor, set_orientation, set_direction and set_up all leave a frame built from their arguments |
| Camera.View | src/engine/camera.cpp:136-152 | the diagonal is scaled by the camera's scale; the six other entries of the 3x3 block are copied; the fourth column holds right.pos, up.pos and dir.pos; the last row is kept; with unit scale the rows are right, up and direction |
| Camera.ViewCentresCamera | src/engine/camera.cpp:136-152 | with unit scale, the view matrix maps the camera's position to the origin |
| Camera.Evaluate | src/engine/camera.cpp:136-152 | when dirty, recomputes projection * view, caches it and clears the flag; when clean, returns the cached matrix unchanged |
| Camera.EvaluateIdempotent | src/engine/camera.cpp:136-152 | a second evaluation with no mutation in between returns the same camera and matrix |
| Camera.MoveRecomputes | src/engine/camera.cpp:34-38 | after a move, evaluation recomputes the matrix from the new position |
| PixelFormat.RedIndex | src/core/pixel_format.hpp:19-23 | the red index is the position of R in the format's channel layout |
| PixelFormat.GreenIndex | src/core/pixel_format.hpp:25-29 | the green index is the position of G in the layout, or -1 when absent |
| PixelFormat.BlueIndex | src/core/pixel_format.hpp:31-35 | the blue index is the position of B in the layout, or -1 when absent |
| PixelFormat.AlphaIndex | src/core/pixel_format.hpp:37-41 | the alpha index is the position of A in the layout, or -1 when absent |
| PixelFormat.ComponentCount | src/core/pixel_format.hpp:43-47 | the channel count is the length of the layout |
| PixelFormat.ComponentCounts | src/core/pixel_format.hpp:8-17 | red 1, rg 2, rgb and bgr 3, rgba and bgra 4 |
| PixelFormat.IndicesBelowCount | src/core/pixel_format.hpp:19-47 | every index lies between -1 and the channel count minus one |
| PixelFormat.IndicesDistinct | src/core/pixel_format.hpp:19-41 | the non-negative indices of one format are pairwise distinct |
| PixelFormat.MissingChannels | src/core/pixel_format.hpp:25-41 | green is -1 only for red; blue is -1 exactly below three channels; alpha is 3 exactly for four channels, else -1 |
| PixelFormat.BgrSwapsRedAndBlue | src/core/pixel_format.hpp:19-41 | bgr and bgra are rgb and rgba with red and blue swapped, green and alpha kept |
| LegacyPixelFormat.RedIndex | pixel_format.hpp:16-20 | the older red table returns what the newer one returns |
| LegacyPixelFormat.GreenIndex | pixel_format.hpp:22-26 | the older green table returns what the newer one returns |
| LegacyPixelFormat.BlueIndex | pixel_format.hpp:28-32 | the older blue table returns what the newer one returns |
| LegacyPixelFormat.AlphaIndex | pixel_format.hpp:34-38 | the older alpha table returns what the newer one returns |
| LegacyPixelFormat.ComponentCount | pixel_format.hpp:40-44 | the older channel count returns what the newer one returns |
| LegacyPixelFormat.MatchesLayout | pixel_format.hpp:5-44 | the older tables give each channel's position in the format's layout |
| CoreMatrix.Default | src/core/matrix.hpp:60-67 | 0 columns, 0 rows, stride 0 and no storage |
| CoreMatrix.DefaultBytesPerRow | src/core/matrix.hpp:72 | the stride is an int32_t value, and equals columns * sizeof(T) whenever that product fits in int32_t |
| Int32.Wrap | src/core/matrix.hpp:72 | the narrowing to int32_t gives an int32_t value congruent to its argument modulo 2^32, and keeps a value already in range |
| CoreMatrix.Owning | src/core/matrix.hpp:69-78 | keeps columns and rows; the default int32_t stride; null storage exactly when bytes_per_row * rows is negative, with the heap unchanged; otherwise a fresh buffer of bytes_per_row * rows bytes and the earlier buffers untouched |
| CoreMatrix.OwningDenseAllocates | src/core/matrix.hpp:69-78 | for non-negative dimensions whose products fit in int32_t, the stride is columns * sizeof(T) and the buffer has columns * sizeof(T) * rows bytes |
| CoreMatrix.External | src/core/matrix.hpp:80-87 | the given storage; the given stride when non-zero, else columns * sizeof(T) |
| CoreMatrix.AllocationIsAligned | src/core/matrix.hpp:13-14 | with sizeof(T) a multiple of alignof(T) and columns * sizeof(T) within int32_t, the aligned_alloc size is a multiple of the alignment |
| CoreMatrix.StoragePtr | src/core/matrix.hpp:89-93 | no contract of its own; GettersReturnArguments states it |
| CoreMatrix.RowOffset | src/core/matrix.hpp:95-100 | no contract of its own; RowIsFirstCell (the row pointer is the cell pointer at column 0) states it |
| CoreMatrix.CellOffset | src/core/matrix.hpp:102-107 | no contract of its own; RowIsFirstCell (neighbouring cells are sizeof(T) apart) states it |
| CoreMatrix.BytesPerRow | src/core/matrix.hpp:109-113 | no contract of its own; GettersReturnArguments states it |
| CoreMatrix.Columns | src/core/matrix.hpp:115-119 | no contract of its own; GettersReturnArguments states it |
| CoreMatrix.Rows | src/core/matrix.hpp:121-125 | no contract of its own; GettersReturnArguments states it |
| CoreMatrix.RowIsFirstCell | src/core/matrix.hpp:95-107 | the row pointer is the cell pointer at column 0, and neighbouring cells are sizeof(T) apart |
| CoreMatrix.GettersReturnArguments | src/core/matrix.hpp:89-125 | the getters return the constructor's columns, rows, storage and non-zero stride |
| CoreMatrix.Copy | src/core/matrix.hpp:27-35 | a copy shares the original's storage and dimensions |
| CoreMatrix.WriteByte | src/core/matrix.hpp:55 | a byte store keeps the number and sizes of the buffers |
| CoreMatrix.WriteVisibleThroughCopy | src/core/matrix.hpp:27-55 | a byte written through one matrix is read back through its copy, and every other byte keeps its value |
| LegacyMatrix.DefaultBytesPerCell | matrix.hpp:55 | an int32_t value; when both products fit in int32_t, it is max(alignof(T), sizeof(T)) * Amount, one of the two products and at least both |
| LegacyMatrix.Owning | matrix.hpp:50-61 | default cell and row strides, the new block and the delete[] deleter |
| LegacyMatrix.External | matrix.hpp:63-78 | the caller's storage and deleter; each stride as given when non-zero, else its default |
| LegacyMatrix.ExternalDefaultsMatchOwning | matrix.hpp:50-78 | with both strides zero, the external constructor lays cells out like the owning one |
| LegacyMatrix.Destroy | matrix.hpp:80-87 | the deleter is invoked, on the storage, exactly when one is set; the storage becomes null and nothing else changes |
| LegacyMatrix.StoragePtr | matrix.hpp:89-93 | no contract of its own; GettersReturnArguments states it |
| LegacyMatrix.RowOffset | matrix.hpp:95-100 | no contract of its own; RowIsFirstCell states it |
| LegacyMatrix.CellOffset | matrix.hpp:102-107 | no contract of its own; RowIsFirstCell, CellInsideImage and CellOffsetsDistinct state it |
| LegacyMatrix.BytesPerRow | matrix.hpp:109-113 | no contract of its own; GettersReturnArguments states it |
| LegacyMatrix.BytesPerCell | matrix.hpp:115-119 | no contract of its own; GettersReturnArguments states it |
| LegacyMatrix.Columns | matrix.hpp:121-125 | no contract of its own; GettersReturnArguments states it |
| LegacyMatrix.Rows | matrix.hpp:127-131 | no contract of its own; GettersReturnArguments states it |
| LegacyMatrix.RowIsFirstCell | matrix.hpp:95-107 | get_row_ptr(r) is get_cell_ptr(r, 0), and neighbouring cells are bytes_per_cell apart |
| LegacyMatrix.GettersReturnArguments | matrix.hpp:89-131 | the getters return the constructor's columns, rows, storage and non-zero strides |
| LegacyMatrix.CellInsideImage | matrix.hpp:55-57 | with default strides and an image size that fits in int32_t, every cell of the grid lies inside the first bytes_per_row * rows bytes |
| LegacyMatrix.CellOffsetsDistinct | matrix.hpp:102-107 | with default strides and an image size that fits in int32_t, distinct cells start at distinct offsets |
| LegacyMatrix.OwningAllocationCoversCells | matrix.hpp:55-57 | when the strides and the image size fit in int32_t, the owning constructor has the dense layout and its allocation of bytes_per_row * rows elements covers every cell's bytes |
| Bitmap.WrapU16 | main.cpp:127 | the conversion to `word` keeps values below 2^16 and changes others by a multiple of 2^16 |
| Bitmap.WrapU32 | main.cpp:122-128 | the conversion to `dword` keeps values below 2^32 and changes others by a multiple of 2^32 |
| Bitmap.MakeHeader | main.cpp:66-128 | offset 54, info size 40, imageSize = bytes_per_row * rows and size = offset + imageSize (both mod 2^32), width = columns, height = rows, bitCount = bytes_per_cell * 8, signature BM, planes 1, all other fields 0 |
| Bitmap.U16RoundTrip | main.cpp:66-115 | a little-endian word decodes back to its value |
| Bitmap.U32RoundTrip | main.cpp:66-115 | a little-endian dword decodes back to its value |
| Bitmap.I32RoundTrip | main.cpp:66-115 | a two's-complement int decodes back to its value |
| Bitmap.EncodeHeader | main.cpp:66-115 | the packed header is 54 bytes |
| Bitmap.HeaderRoundTrip | main.cpp:66-115 | the first 54 bytes of any file that starts with an encoded header decode to that header |
| Bitmap.StartsWithMagic | main.cpp:64-70 | every file the writer produces starts with 'B', 'M' |
| Bitmap.Write | main.cpp:134-142 | a write succeeds exactly while writes are left; success appends the bytes, failure changes nothing |
| Bitmap.RowBytes | main.cpp:141-142 | a row write emits exactly bytes_per_row bytes |
| Bitmap.WriteRows | main.cpp:140-147 | the row loop succeeds exactly when the sink accepts every row; the file gains rows rows-1, rows-2, ... up to the first failed write |
| Bitmap.SaveToFile | main.cpp:117-148 | succeeds exactly when the header and all rows are written; the file is the header followed by the rows, bottom row first, as far as the writes succeeded |
| Bitmap.BottomUpRows | main.cpp:140-146 | no contract of its own; BottomUpRowsLength, RowPlacement and WriteRows state it |
| Bitmap.BottomUpRowsLength | main.cpp:140-146 | k written rows take exactly k * bytes_per_row bytes, with no padding |
| Bitmap.RowPlacement | main.cpp:140-146 | the i-th row in the file is image row rows-1-i |
| Bitmap.CompleteFileSize | main.cpp:122-128 | a complete file has the length in the header's size field, and its pixel data the length in imageSize |
| Bitmap.PaddedRowSize | main.cpp:142 | the padded row length the BMP format expects is the next multiple of 4 |
| Bitmap.MatchesFormatIffAligned | main.cpp:142 | the file has the length the format expects exactly when bytes_per_row is a multiple of 4 |
| RayIntersection.AtComponents | ray_intersection_test.cpp:6-15 | the ray point ro + rd * t, axis by axis |
| RayIntersection.PlaneDistance | ray_intersection_test.cpp:6-15 | no hit when rd.norm == 0; a hit is at a non-negative distance on the plane, and any such distance is the hit |
| RayIntersection.PlaneHitOnPlane | ray_intersection_test.cpp:6-15 | the computed distance is the only distance at which the ray meets the plane |
| RayIntersection.PlaneExists | ray_intersection_test.cpp:18-22 | true exactly when the ray meets the plane at a non-negative distance |
| RayIntersection.PlaneNear | ray_intersection_test.cpp:25-30 | agrees with the existence overload and reports that distance |
| RayIntersection.PlaneNearNormal | ray_intersection_test.cpp:33-39 | agrees with the other overloads; the normal is norm or -norm and always has a positive dot product with rd |
| RayIntersection.SphereExists | ray_intersection_test.cpp:41-55 | true exactly when h = b^2 - c >= 0 |
| RayIntersection.SphereExistsIffLineMeets | ray_intersection_test.cpp:41-55 | for a unit direction, existence holds exactly when the line through the ray meets the sphere |
| RayIntersection.SphereRoot | ray_intersection_test.cpp:41-69 | when h >= 0, the point at -b + sqrt(h) lies on the sphere |
| RayIntersection.LineMeetsSphere | ray_intersection_test.cpp:41-55 | a point of the line on the sphere forces h >= 0 |
| RayIntersection.SphereSpan | ray_intersection_test.cpp:58-69 | a hit implies existence and near >= 0; far - near == 2 sqrt(h) and near + far == -2b |
| RayIntersection.SphereSpanOrdered | ray_intersection_test.cpp:58-69 | with a true square root, 0 <= near <= far |
| RayIntersection.SphereSpanOnSphere | ray_intersection_test.cpp:58-69 | both reported points lie on the sphere |
| RayIntersection.InsideExistsWithoutSpan | ray_intersection_test.cpp:51-69 | from inside the sphere the existence overload says true and the distance overload says false |
| RayIntersection.NegativeRoot | ray_intersection_test.cpp:58-69 | for c < 0, h > 0 and the near root is negative |
| RayIntersection.SphereSpanNormals | ray_intersection_test.cpp:72-85 | agrees with the distance overload; the normals are the normalised centre-to-point vectors, unit for a true square root |
| RayIntersection.AabbExists | ray_intersection_test.cpp:99-103 | true exactly when none of tN > tF, tN < 0, tF <= 0 holds |
| RayIntersection.AabbSpan | ray_intersection_test.cpp:105-111 | agrees with the existence overload; 0 <= near <= far and far > 0 |
| RayIntersection.SlabsAreBox | ray_intersection_test.cpp:87-97 | the slab method is exact: tN, the largest slab entry, and tF, the smallest slab exit, satisfy tN <= t <= tF exactly when the ray's point at t is in the box |
| RayIntersection.AabbSpanIsBox | ray_intersection_test.cpp:105-111 | on a hit, the span is exactly the set of distances at which the ray is in the box |
| RayIntersection.SlabAxis | ray_intersection_test.cpp:87-97 | one slab: the point is within size of the centre on that axis exactly when t lies between the slab's entry and exit |
| RayIntersection.Step | ray_intersection_test.cpp:118-120 | the step lambda is 1 where edge <= a and 0 where a < edge, per component |
| RayIntersection.BoxNormals | ray_intersection_test.cpp:113-129 | the near normal has components in {-1, 0, 1} and the far normal in {0, 1} |
| RayIntersection.AabbSpanNormals | ray_intersection_test.cpp:113-130 | agrees with the distance overload, with near normal components in {-1, 0, 1} and far normal components in {0, 1} |
| RayIntersection.BoxNormalsMarkFaces | ray_intersection_test.cpp:113-129 | for tN > 0 the near normal is -sign(rd) on the axes entered last and 0 elsewhere; the far normal marks the axes left first |
| RayIntersection.AabbNormalsMarkFaces | ray_intersection_test.cpp:113-130 | the same facts for the normals the overload reports |
| RayIntersection.CapSpan | ray_intersection_test.cpp:193-206 | the cap branch is the sphere distance overload at that cap |
| RayIntersection.CapExists | ray_intersection_test.cpp:160-172 | the cap branch of the existence overload succeeds exactly when the cap span does |
| RayIntersection.CapsuleExists | ray_intersection_test.cpp:145-174 | a hit requires h >= 0 |
| RayIntersection.CapsuleSpan | ray_intersection_test.cpp:176-209 | agrees with the existence overload, and near >= 0 on success |
| RayIntersection.CapsuleSpanOrdered | ray_intersection_test.cpp:176-209 | for a unit direction and a true square root, near <= far |
| RayIntersection.BodyRootSolves | ray_intersection_test.cpp:132-143 | both body roots solve a t^2 + 2 b t + c == 0 |
| RayIntersection.CapsuleAxisCoordinate | ray_intersection_test.cpp:132-143 | baoa + t bard is ba . (p - pa) for the point p at distance t, the quantity the body branch compares with 0 and baba |
| RayIntersection.CapsuleQuadratic | ray_intersection_test.cpp:132-143 | the body quadratic a t^2 + 2 b t + c, built from the capsule terms, is ba.ba times the squared distance from the axis line, less ba.ba r^2 |
| RayIntersection.CapsuleHitOnSurface | ray_intersection_test.cpp:176-209 | the near point of a hit lies on the body (distance r from the axis, between pa and pb) or on one of the cap spheres |
| RayIntersection.SegmentParameter | ray_intersection_test.cpp:245-251 | hh lies in [0, 1]; it is the projection parameter when that is in range, 0 below it and 1 above it |
| RayIntersection.CapsuleNormalAt | ray_intersection_test.cpp:245-251 | the normal times r is the offset from the nearest point of the segment |
| RayIntersection.CapsuleSpanNormals | ray_intersection_test.cpp:211-254 | agrees with the distance overload, with the segment normals at both points |
| Tracer.Clamp | main.cpp:41-51 | with min <= max the result is in range, val when val is already in range; the same value as math::clamp with the arguments reordered |
| Tracer.Max | main.cpp:53-57 | agrees with math::max on every input, so it is at least both arguments |
| Tracer.Mix | main.cpp:491-494 | coef 0 gives a, coef 1 gives b; for coef in [0, 1] the result lies between a and b |
| Tracer.Reflect | main.cpp:434-437 | no contract of its own; ReflectAsShift, ReflectFlipsNormal, ReflectKeepsLength and ReflectInvolution state it |
| Tracer.ReflectAsShift | main.cpp:434-437 | reflect(d, n) is d shifted by -2 (d.n) n |
| Tracer.ReflectFlipsNormal | main.cpp:434-437 | for a unit normal, the reflection flips the component along n |
| Tracer.ReflectKeepsLength | main.cpp:434-437 | for a unit normal, the reflection keeps the length |
| Tracer.ReflectInvolution | main.cpp:434-437 | for a unit normal, reflecting twice gives d back |
| Tracer.Normalize | main.cpp:205-211 | with a true square root the vector becomes unit length, the returned length is positive and squares to v.v, and the unit vector times it is v |
| Tracer.NormalizeSelf | main.cpp:213-219 | the in-place form gives normalize()'s vector, of unit length |
| Tracer.SphereTest | main.cpp:326-338 | a hit exactly when the library's existence overload succeeds |
| Tracer.SphereTestVersusSpan | main.cpp:326-338 | the library's distance overload succeeds exactly when this test succeeds with a non-negative distance, and then reports that distance as near |
| Tracer.SphereTestBehind | main.cpp:326-338 | from inside the sphere the test succeeds with a negative distance |
| Tracer.PlaneTest | main.cpp:340-348 | no hit for a parallel ray; a hit is at a positive distance, at a point p with p.n == -sqrt(plane_pos.plane_pos) |
| Tracer.PlaneTestVersusLibrary | main.cpp:340-348 | a hit exactly when the library overload with w = -sqrt(plane_pos.plane_pos) hits at a positive distance, and then at the same distance |
| Tracer.CapTest | main.cpp:264-280 | a cap hit exactly when h > 0, and then the sphere test's distance |
| Tracer.CapsuleTest | main.cpp:251-283 | a hit requires h >= 0 |
| Tracer.CapsuleTestKeepsBehind | main.cpp:251-283 | a body hit behind the origin is reported, where the library overload rejects it |
| Tracer.CapsuleTestVersusSpan | main.cpp:251-283 | a non-negative hit is the library's near distance; otherwise the two differ only where this test misses a grazing cap hit that the library reports with near == far |
| Tracer.CapsuleNormal | main.cpp:285-292 | the normal is the library's capsule normal at the point |
| Tracer.HitNormal | main.cpp:457-475 | a plane gives its normal; a sphere gives a normal exactly when the hit point is off the centre, and for a true square root it is the unit vector that, scaled by the positive length of point - centre, gives point - centre back (outward); a capsule gives a normal exactly when the axis and the radius are non-zero, and it is the library's capsule normal at the point |
| Tracer.Raycast | main.cpp:439-484 | returns -1 or a valid index that is not the skip index; on -1 the 9e21 sentinel and untouched outputs; on a hit the test's non-negative distance, the hit point and its normal, at most every eligible candidate and strictly below earlier ones |
| Tracer.FogWeight | main.cpp:556 | the fog weight lies in [0, 1], 0 at distance 0 and 1 from distance 250 |
| Tracer.Fogged | main.cpp:556-560 | each channel is mixed towards the fog colour, reaching it from distance 250 |
| Tracer.Diffuse | main.cpp:562 | the diffuse factor lies in [0.1, 0.6] |
| Tracer.Specular | main.cpp:563-570 | the specular factor lies in [0, 0.7] and is 0 when the reflection points away from the light |
| Tracer.Shadowed | main.cpp:576-581 | in shadow the factors are scaled by 0.6 and 0.04, otherwise kept; the bounds [0.06, 0.6] and [0, 0.7] follow |
| Tracer.Shade | main.cpp:556-587 | every channel r, g, b of the shaded colour lies in [0, 1] |

## Left out

- Timers, `frand` and the random scene, the camera-independent primary ray
  set-up in `main` (main.cpp:521-553), and the gamma `pow` with the float
  to byte cast (main.cpp:588-590). They depend on the clock, a global random
  generator or transcendental functions.
- IEEE-754 behaviour: rounding, NaN, infinity and the float rounding of the
  9e21 sentinel. Floats are exact reals.
- The trigonometric wrappers, `ceil` and the quaternion axis-angle
  constructor. They rest on library functions the model cannot see.
- Real file I/O and `#pragma pack`. The output is a byte sink. The header
  layout is written out as a fixed little-endian packed encoding.
- Bitmap.SaveToFile: the `std::cout` error messages of bitmap_save_to_file
  (main.cpp:135, 143) are not modelled; only the returned flag and the
  bytes are.
- Bitmap.Write: a failed write appends nothing. A real stream may have
  written part of the bytes before failing; the model does not represent
  partial writes.
- `new[]`/`delete[]`, `aligned_alloc`, `std::function` deleters and the
  shared-pointer implementation. Buffers are handles in a heap of byte
  sequences, and deleters are tags.
- `get_bytes_per_cell` of src/core/matrix.hpp. It is declared but never
  defined.
- The declaration-only headers ray_intersection_test.hpp and camera.hpp,
  except the camera's fields.
- Vector3.Normalize: requires a non-zero length. The source divides by it.
- Tracer.Normalize: requires v.v != 0. The source divides by it.
- Quaternion.Normalize: the non-zero branch is stated for the length the
  square root returns, with no requires, as in the source.
- RayIntersection.AabbExists, RayIntersection.AabbSpan,
  RayIntersection.SlabsAreBox, RayIntersection.AabbSpanIsBox,
  RayIntersection.AabbSpanNormals and RayIntersection.AabbNormalsMarkFaces:
  require every component of rd to be non-zero, as the slab helper
  RayIntersection.AabbSlabs does. The source computes 1 / rd, which is
  infinite on an axis the ray is parallel to.
- RayIntersection.CapsuleExists, RayIntersection.CapsuleSpan,
  RayIntersection.CapsuleSpanOrdered, RayIntersection.CapsuleHitOnSurface and
  RayIntersection.CapsuleSpanNormals: require a != 0. A ray parallel to the
  capsule's axis gives a == 0; the source then divides by zero and falls
  through NaN or infinity into the cap branch, which reals cannot express.
- RayIntersection.SphereSpanNormals: requires the normals to be defined, that
  is, both hit points lie at a non-zero distance from the centre, because
  the normal divides by that distance.
- RayIntersection.CapsuleSpanNormals: requires cap_r != 0. The normal
  divides by it.
- Tracer.CapsuleTest: requires a != 0. The source divides by a.
- Tracer.Raycast: requires the same a != 0 for every capsule in the scene.
- Tracer.PlaneTest: returns no hit for a parallel ray. The source divides
  by zero there.
- Tracer.HitNormal: reports no normal where the source's normal divides by
  zero.
- Matrix4.Perspective: takes tan as a parameter and requires tan(fov/2) *
  aspect != 0 and near != far.
- Camera.Default: the view matrix `m_mat` is value-initialised, so it is
  modelled as the zero matrix.
- CoreMatrix.Owning: fresh memory has unspecified contents. The model fills
  it with zeros.
- CoreMatrix.Owning: requires bytes_per_row * rows to fit in int32_t, because
  the signed product overflowing is undefined behaviour. Only a negative
  size makes the allocation fail; running out of memory is not modelled.
- CoreMatrix.RowOffset and CoreMatrix.CellOffset: the int32_t products of
  get_row_ptr and get_cell_ptr are computed exactly, without overflow,
  because a signed overflow is undefined behaviour.
- LegacyMatrix.Owning, LegacyMatrix.External, LegacyMatrix.RowOffset and
  LegacyMatrix.CellOffset: the int32_t products columns * bytes_per_cell and
  the offset arithmetic are computed exactly, for the same reason.
- LegacyMatrix.Owning: a negative element count makes `new[]` throw, and the
  noexcept constructor then calls std::terminate. The model does not
  represent this; the block is a handle.
- Camera: the reference members that alias rows of `m_mat` are modelled as
  projections of the matrix.

## Findings

| source | as written | input that shows it | evidently intended | confidence | as-written member | corrected member |
|---|---|---|---|---|---|---|
| src/core/math/vec3.hpp:255-259 | `s - v` returns `(v.x - s, v.y - s, v.z - s)`, the same as `v - s` | s = 1, v = (0, 0, 0) gives (-1, -1, -1) | `(s - v.x, s - v.y, s - v.z)` | high, not executed | Vector3.ScalarSubCounterexample | Vector3.ScalarMinus |
