/** Exact vector arithmetic over `real`, standing in for the framework's
    single-precision Vector2 and Vector3. Only the operations the modelled code
    uses on data it owns are given; trigonometry and normalisation are not. */
module Geometry {

  datatype Vec2 = Vec2(x: real, y: real)

  function Sub2(a: Vec2, b: Vec2): Vec2 {
    Vec2(a.x - b.x, a.y - b.y)
  }

  function Scale2(a: Vec2, k: real): Vec2 {
    Vec2(a.x * k, a.y * k)
  }

  datatype Vec3 = Vec3(x: real, y: real, z: real)

  const Zero3: Vec3 := Vec3(0.0, 0.0, 0.0)

  function Add(a: Vec3, b: Vec3): Vec3 {
    Vec3(a.x + b.x, a.y + b.y, a.z + b.z)
  }

  function Sub(a: Vec3, b: Vec3): Vec3 {
    Vec3(a.x - b.x, a.y - b.y, a.z - b.z)
  }

  function Neg(a: Vec3): Vec3 {
    Vec3(-a.x, -a.y, -a.z)
  }

  function Scale(a: Vec3, k: real): Vec3 {
    Vec3(a.x * k, a.y * k, a.z * k)
  }

  /** Right-handed cross product, used to read the winding of a triangle. */
  function Cross(a: Vec3, b: Vec3): Vec3 {
    Vec3(a.y * b.z - a.z * b.y, a.z * b.x - a.x * b.z, a.x * b.y - a.y * b.x)
  }

  /** The (unnormalised) right-hand-rule normal of the triangle p, q, r. */
  function WindingNormal(p: Vec3, q: Vec3, r: Vec3): Vec3 {
    Cross(Sub(q, p), Sub(r, p))
  }

  datatype Axis = X | Y | Z

  function Coord(p: Vec3, a: Axis): real {
    match a
    case X => p.x
    case Y => p.y
    case Z => p.z
  }

  /** One face of the axis-aligned cube [-1, 1]^3: the plane `axis = side`. */
  datatype Face = Face(axis: Axis, side: real)

  predicate OnFace(p: Vec3, f: Face) {
    Coord(p, f.axis) == f.side
  }

  /** n is perpendicular to the face and points out of the cube: it lies on
      the face's axis, on the side of the face. */
  predicate PointsOut(n: Vec3, f: Face) {
    && (f.axis == X || n.x == 0.0)
    && (f.axis == Y || n.y == 0.0)
    && (f.axis == Z || n.z == 0.0)
    && (if f.side > 0.0 then Coord(n, f.axis) > 0.0 else Coord(n, f.axis) < 0.0)
  }

  /** The face all four points lie on, when there is one; axes are tried in
      the order x, y, z. */
  function SharedFace(p: Vec3, q: Vec3, r: Vec3, s: Vec3): (f: Option<Face>)
    ensures f.Some? ==> OnFace(p, f.value) && OnFace(q, f.value) && OnFace(r, f.value) && OnFace(s, f.value)
    ensures f.None? ==> forall a: Axis :: !(Coord(p, a) == Coord(q, a) == Coord(r, a) == Coord(s, a))
  {
    if p.x == q.x == r.x == s.x then Some(Face(X, p.x))
    else if p.y == q.y == r.y == s.y then Some(Face(Y, p.y))
    else if p.z == q.z == r.z == s.z then Some(Face(Z, p.z))
    else None
  }

  datatype Option<+T> = None | Some(value: T)
}
