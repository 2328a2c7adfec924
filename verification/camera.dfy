/**
 The camera of the engine (src/engine/camera.cpp): a transform matrix
 whose first three rows hold the right, up and direction vectors (through
 the vec3() view of each row), a projection matrix, the position stored
 negated, a scale, the cached output matrix and its dirty flag. The class
 mutates itself; the model is an immutable value and every mutator returns
 the updated camera.
 */
module Camera {
  import opened Vector3
  import Vector4
  import Matrix4
  import Quaternion

  datatype Camera = Camera(
    out: Matrix4.Mat4,         // the cached camera matrix
    projection: Matrix4.Mat4,  // the projection matrix
    mat: Matrix4.Mat4,         // right, up and direction in rows x, y, z
    pos: Vec3,                 // the position, negated
    scale: Vec3,
    needUpdate: bool)          // whether `out` is stale

  /** The right vector: the vec3() view of row x of the transform. */
  function Right(c: Camera): Vec3 {
    Vector4.Xyz(c.mat.x)
  }

  /** The up vector: the vec3() view of row y. */
  function Up(c: Camera): Vec3 {
    Vector4.Xyz(c.mat.y)
  }

  /** The direction: the vec3() view of row z. */
  function Direction(c: Camera): Vec3 {
    Vector4.Xyz(c.mat.z)
  }

  /**
   Writes right, up and direction through the vec3() views; the fourth
   column of the transform and every other field are kept.
   */
  function WithFrame(c: Camera, right: Vec3, up: Vec3, dir: Vec3): (r: Camera)
    ensures Right(r) == right && Up(r) == up && Direction(r) == dir
    ensures r.mat.x.w == c.mat.x.w && r.mat.y.w == c.mat.y.w && r.mat.z.w == c.mat.z.w && r.mat.w == c.mat.w
    ensures r.out == c.out && r.projection == c.projection && r.pos == c.pos && r.scale == c.scale
  {
    c.(mat := c.mat.(x := Vector4.WithXyz(c.mat.x, right),
                     y := Vector4.WithXyz(c.mat.y, up),
                     z := Vector4.WithXyz(c.mat.z, dir)))
  }

  /**
   The projection installed by the default constructor: zero except
   x.x, y.z, z.y and w.w, which are 1 (it swaps y and z).
   */
  function DefaultProjection(): Matrix4.Mat4 {
    Matrix4.Mat4(Vector4.Vec4(1.0, 0.0, 0.0, 0.0), Vector4.Vec4(0.0, 0.0, 1.0, 0.0),
                 Vector4.Vec4(0.0, 1.0, 0.0, 0.0), Vector4.Vec4(0.0, 0.0, 0.0, 1.0))
  }

  /** The default projection exchanges the y and z components. */
  lemma DefaultProjectionSwaps(v: Vector4.Vec4)
    ensures Matrix4.MulVec4(DefaultProjection(), v) == Vector4.Vec4(v.x, v.z, v.y, v.w)
  {
  }

  /**
   camera(): output matrix the identity, the projection above, the
   transform value-initialised to zero, position 0, scale 1, and dirty.
   */
  function Default(): (c: Camera)
    ensures c.needUpdate
    ensures c.out == Matrix4.Identity() && c.projection == DefaultProjection()
    ensures Right(c) == Broadcast(0.0) && Up(c) == Broadcast(0.0) && Direction(c) == Broadcast(0.0)
    ensures GetPosition(c) == Broadcast(0.0) && GetScale(c) == Broadcast(1.0)
  {
    Camera(Matrix4.Identity(), DefaultProjection(), Matrix4.Diagonal(0.0), Broadcast(0.0), Broadcast(1.0), true)
  }

  /** camera(pos, dir, up): the default camera, then set_position, set_direction and set_up. */
  function Make(pos: Vec3, dir: Vec3, up: Vec3): (c: Camera)
    ensures GetPosition(c) == pos && c.needUpdate
    ensures FrameOf(c, dir, up)
  {
    var placed := SetPosition(Default(), pos);
    var aimed := SetDirection(placed, dir);
    SetUp(aimed, up)
  }

  /** The constructor keeps the default scale, projection and cached matrix. */
  lemma MakeKeepsDefaults(pos: Vec3, dir: Vec3, up: Vec3)
    ensures var c := Make(pos, dir, up);
      GetScale(c) == Broadcast(1.0) && c.projection == DefaultProjection() && c.out == Matrix4.Identity()
  {
  }

  // ==== position and scale ====================================================

  /** set_position: stores the negated position. */
  function SetPosition(c: Camera, p: Vec3): (r: Camera)
    ensures r.pos == Neg(p) && GetPosition(r) == p
    ensures r.needUpdate
    ensures r.mat == c.mat && r.scale == c.scale && r.projection == c.projection && r.out == c.out
  {
    c.(pos := Neg(p), needUpdate := true)
  }

  /** get_position: the stored position negated back. */
  function GetPosition(c: Camera): Vec3 {
    Neg(c.pos)
  }

  /** move(delta): `pos -= delta` on the negated position, so the camera moves by +delta. */
  function Move(c: Camera, delta: Vec3): (r: Camera)
    ensures GetPosition(r) == Add(GetPosition(c), delta)
    ensures r.needUpdate
    ensures r.mat == c.mat && r.scale == c.scale && r.projection == c.projection && r.out == c.out
  {
    c.(pos := SubAssign(c.pos, delta), needUpdate := true)
  }

  /** Moving by delta and then by -delta restores the position. */
  lemma MoveBack(c: Camera, delta: Vec3)
    ensures GetPosition(Move(Move(c, delta), Neg(delta))) == GetPosition(c)
    ensures Move(Move(c, delta), Neg(delta)) == c.(needUpdate := true)
  {
  }

  /** set_scale. */
  function SetScale(c: Camera, s: Vec3): (r: Camera)
    ensures GetScale(r) == s && r.needUpdate
    ensures r.mat == c.mat && r.pos == c.pos && r.projection == c.projection && r.out == c.out
  {
    c.(scale := s, needUpdate := true)
  }

  /** get_scale. */
  function GetScale(c: Camera): Vec3 {
    c.scale
  }

  /** set_perspective_projection: installs the perspective matrix (tangent as parameter). */
  function SetPerspectiveProjection(c: Camera, fov: real, ratio: real, near: real, far: real, tan: real -> real): (r: Camera)
    requires tan(fov / 2.0) * ratio != 0.0 && near != far
    ensures r.projection == Matrix4.Perspective(fov, ratio, near, far, tan) && r.needUpdate
    ensures r.mat == c.mat && r.pos == c.pos && r.scale == c.scale && r.out == c.out
  {
    c.(projection := Matrix4.Perspective(fov, ratio, near, far, tan), needUpdate := true)
  }

  // ==== orientation ===========================================================

  /**
   set_direction(dir): stores dir, then right = dir x up and
   up = right x dir. The normalize() call there returns a normalised copy
   that is discarded, so dir is stored exactly as given.
   */
  function SetDirection(c: Camera, dir: Vec3): (r: Camera)
    ensures Direction(r) == dir
    ensures Right(r) == Cross(dir, Up(c)) && Up(r) == Cross(Right(r), dir)
    ensures r.needUpdate
    ensures r.pos == c.pos && r.scale == c.scale && r.projection == c.projection && r.out == c.out
  {
    var right := Cross(dir, Up(c));
    WithFrame(c, right, Cross(right, dir), dir).(needUpdate := true)
  }

  /** set_up(up): stores up, then right = dir x up and up = right x dir. */
  function SetUp(c: Camera, up: Vec3): (r: Camera)
    ensures Direction(r) == Direction(c)
    ensures Right(r) == Cross(Direction(c), up) && Up(r) == Cross(Right(r), Direction(c))
    ensures r.needUpdate
    ensures r.pos == c.pos && r.scale == c.scale && r.projection == c.projection && r.out == c.out
  {
    var right := Cross(Direction(c), up);
    WithFrame(c, right, Cross(right, Direction(c)), Direction(c)).(needUpdate := true)
  }

  /** set_orientation(dir, up): both stored, then the same two cross products. */
  function SetOrientation(c: Camera, dir: Vec3, up: Vec3): (r: Camera)
    ensures Direction(r) == dir
    ensures Right(r) == Cross(dir, up) && Up(r) == Cross(Right(r), dir)
    ensures r.needUpdate
    ensures r.pos == c.pos && r.scale == c.scale && r.projection == c.projection && r.out == c.out
  {
    var right := Cross(dir, up);
    WithFrame(c, right, Cross(right, dir), dir).(needUpdate := true)
  }

  /** rotate(q): set_direction(q * direction), then set_up(q * up) with the up set_direction left. */
  function Rotate(c: Camera, q: Quaternion.Quat): (r: Camera)
    ensures Direction(r) == Quaternion.Rotate(q, Direction(c))
    ensures var d := Quaternion.Rotate(q, Direction(c));
      FrameOf(r, d, Quaternion.Rotate(q, Cross(Cross(d, Up(c)), d)))
    ensures r.needUpdate
    ensures r.pos == c.pos && r.scale == c.scale && r.projection == c.projection && r.out == c.out
  {
    var turned := SetDirection(c, Quaternion.Rotate(q, Direction(c)));
    SetUp(turned, Quaternion.Rotate(q, Up(turned)))
  }

  /** The frame d, d x u, (d x u) x d that every orientation setter leaves. */
  predicate FrameOf(c: Camera, d: Vec3, u: Vec3) {
    Direction(c) == d && Right(c) == Cross(d, u) && Up(c) == Cross(Cross(d, u), d)
  }

  /**
   The frame the setters build is orthogonal, and its up vector is the
   part of the given up orthogonal to the direction, scaled by |d|^2.
   */
  lemma {:induction false} FrameOrthogonal(c: Camera, d: Vec3, u: Vec3)
    requires FrameOf(c, d, u)
    ensures Dot(Right(c), Direction(c)) == 0.0
    ensures Dot(Up(c), Direction(c)) == 0.0
    ensures Dot(Right(c), Up(c)) == 0.0
    ensures Up(c) == Sub(Scale(u, Dot(d, d)), Scale(d, Dot(u, d)))
  {
    CrossOrthogonal(d, u);
    CrossOrthogonal(Cross(d, u), d);
    DoubleCross(d, u);
  }

  /** (d x u) x d == u (d . d) - d (u . d). */
  lemma DoubleCross(d: Vec3, u: Vec3)
    ensures Cross(Cross(d, u), d) == Sub(Scale(u, Dot(d, d)), Scale(d, Dot(u, d)))
  {
    var w := Cross(d, u);
    DoubleCrossComponent(d.x, d.y, d.z, u.x, u.y, u.z, w.y * d.z - w.z * d.y, Dot(d, d), Dot(u, d));
    DoubleCrossComponent(d.y, d.z, d.x, u.y, u.z, u.x, w.z * d.x - w.x * d.z, Dot(d, d), Dot(u, d));
    DoubleCrossComponent(d.z, d.x, d.y, u.z, u.x, u.y, w.x * d.y - w.y * d.x, Dot(d, d), Dot(u, d));
  }

  /** One component of the double cross product, in scalars. */
  lemma DoubleCrossComponent(dx: real, dy: real, dz: real, ux: real, uy: real, uz: real, l: real, dd: real, ud: real)
    requires l == (dz * ux - dx * uz) * dz - (dx * uy - dy * ux) * dy
    requires dd == dx * dx + dy * dy + dz * dz && ud == ux * dx + uy * dy + uz * dz
    ensures l == ux * dd - dx * ud
  {
  }

  /** A rotated camera keeps an orthogonal right, up and direction. */
  lemma {:induction false} RotateKeepsFrameOrthogonal(c: Camera, q: Quaternion.Quat)
    ensures var r := Rotate(c, q);
      && Dot(Right(r), Direction(r)) == 0.0
      && Dot(Up(r), Direction(r)) == 0.0
      && Dot(Right(r), Up(r)) == 0.0
  {
    var d := Quaternion.Rotate(q, Direction(c));
    FrameOrthogonal(Rotate(c, q), d, Quaternion.Rotate(q, Cross(Cross(d, Up(c)), d)));
  }

  /** Every orientation setter leaves an orthogonal frame. */
  lemma SettersLeaveFrame(c: Camera, d: Vec3, u: Vec3)
    ensures FrameOf(SetOrientation(c, d, u), d, u)
    ensures FrameOf(SetDirection(c, d), d, Up(c))
    ensures FrameOf(SetUp(c, u), Direction(c), u)
    ensures FrameOf(Make(Broadcast(0.0), d, u), d, u)
  {
  }

  // ==== the camera matrix =====================================================

  /**
   The transform before projection: the rows with x.x, y.y, z.z
   multiplied by the scale and the fourth column set to right . pos,
   up . pos and dir . pos (pos being the stored, negated position).
   */
  function View(c: Camera): (m: Matrix4.Mat4)
    ensures m.w == c.mat.w
    ensures m.x.w == Dot(Right(c), c.pos) && m.y.w == Dot(Up(c), c.pos) && m.z.w == Dot(Direction(c), c.pos)
    ensures m.x.x == c.mat.x.x * c.scale.x && m.y.y == c.mat.y.y * c.scale.y && m.z.z == c.mat.z.z * c.scale.z
    ensures m.x.y == c.mat.x.y && m.x.z == c.mat.x.z && m.y.x == c.mat.y.x
    ensures m.y.z == c.mat.y.z && m.z.x == c.mat.z.x && m.z.y == c.mat.z.y
    ensures c.scale == Broadcast(1.0) ==>
      Vector4.Xyz(m.x) == Right(c) && Vector4.Xyz(m.y) == Up(c) && Vector4.Xyz(m.z) == Direction(c)
  {
    var m := c.mat;
    Matrix4.Mat4(m.x.(x := m.x.x * c.scale.x, w := Dot(Right(c), c.pos)),
                 m.y.(y := m.y.y * c.scale.y, w := Dot(Up(c), c.pos)),
                 m.z.(z := m.z.z * c.scale.z, w := Dot(Direction(c), c.pos)),
                 m.w)
  }

  /**
   With unit scale the view maps the camera's own position to the origin
   of its frame: the first three components of View * (position, 1) are 0.
   */
  lemma {:induction false} ViewCentresCamera(c: Camera)
    requires c.scale == Broadcast(1.0)
    ensures var h := Matrix4.MulVec4(View(c), Matrix4.Point(GetPosition(c)));
      h.x == 0.0 && h.y == 0.0 && h.z == 0.0
  {
    var p := GetPosition(c);
    var h := Matrix4.MulVec4(View(c), Matrix4.Point(p));
    assert h.x == Dot(Right(c), p) + Dot(Right(c), c.pos);
    assert h.y == Dot(Up(c), p) + Dot(Up(c), c.pos);
    assert h.z == Dot(Direction(c), p) + Dot(Direction(c), c.pos);
  }

  /**
   operator(): when dirty, recompute out = projection * View and clear
   the flag; otherwise return the cached matrix untouched.
   */
  function Evaluate(c: Camera): (r: (Camera, Matrix4.Mat4))
    ensures !r.0.needUpdate && r.1 == r.0.out
    ensures c.needUpdate ==> r.1 == Matrix4.Mul(c.projection, View(c))
    ensures !c.needUpdate ==> r.0 == c
    ensures r.0.mat == c.mat && r.0.pos == c.pos && r.0.scale == c.scale && r.0.projection == c.projection
  {
    if c.needUpdate then
      var out := Matrix4.Mul(c.projection, View(c));
      (c.(out := out, needUpdate := false), out)
    else (c, c.out)
  }

  /** Evaluating twice gives the same camera and matrix as evaluating once. */
  lemma EvaluateIdempotent(c: Camera)
    ensures Evaluate(Evaluate(c).0) == Evaluate(c)
  {
  }

  /** A mutator between two evaluations forces a recomputation from the new state. */
  lemma MoveRecomputes(c: Camera, delta: Vec3)
    ensures var moved := Move(Evaluate(c).0, delta);
      Evaluate(moved).1 == Matrix4.Mul(moved.projection, View(moved))
  {
  }
}
