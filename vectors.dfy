/** Unity's Vector2 and Vector3 over exact reals. */
module Vectors {

  /** A world-space position (a Vector3). */
  datatype Vec3 = Vec3(x: real, y: real, z: real)

  /** A point on the ground plane (a Vector2). */
  datatype Vec2 = Vec2(x: real, y: real)

  function Add(a: Vec2, b: Vec2): Vec2 {
    Vec2(a.x + b.x, a.y + b.y)
  }

  /** Componentwise division by a scalar, Vector2's `/` operator. */
  function Divide(a: Vec2, d: real): Vec2
    requires d != 0.0
  {
    Vec2(a.x / d, a.y / d)
  }

  /** The ground-plane projection (x, z) of a world position. */
  function Ground(v: Vec3): Vec2 {
    Vec2(v.x, v.z)
  }
}
