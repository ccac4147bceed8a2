/** Values shared by every part of the model: nullable references and 3-vectors. */
module Common {

  /** Stable identities: frames are indices into the frame arena, bodies and
      system-body descriptors are handles. */
  type FrameId = nat
  type BodyId = nat
  type SBodyId = nat

  /** A reference that may be null (`Frame *`, `Body *`, `SBodyPath *`). */
  datatype Option<+T> = None | Some(value: T)

  /** A double-precision 3-vector (`vector3d`), with the arithmetic the core uses.
      Reals stand for doubles: rounding is not modelled. */
  datatype Vec3 = Vec3(x: real, y: real, z: real)

  const Zero := Vec3(0.0, 0.0, 0.0)

  function Add(a: Vec3, b: Vec3): Vec3
  {
    Vec3(a.x + b.x, a.y + b.y, a.z + b.z)
  }

  function Sub(a: Vec3, b: Vec3): Vec3
  {
    Vec3(a.x - b.x, a.y - b.y, a.z - b.z)
  }

  function Neg(a: Vec3): Vec3
  {
    Vec3(-a.x, -a.y, -a.z)
  }

  function Scale(a: Vec3, k: real): Vec3
  {
    Vec3(a.x * k, a.y * k, a.z * k)
  }

  function Dot(a: Vec3, b: Vec3): real
  {
    a.x * b.x + a.y * b.y + a.z * b.z
  }

  function Cross(a: Vec3, b: Vec3): Vec3
  {
    Vec3(a.y * b.z - a.z * b.y, a.z * b.x - a.x * b.z, a.x * b.y - a.y * b.x)
  }
}
