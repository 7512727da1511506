/**
 * The four axis-parallel directions of the plane and the rotations between the
 * coordinate system of the graphics and the coordinate system of a line of text, whose
 * first axis points in the writing direction.
 *
 * Coordinates are unbounded integers here; see the README for the overflow checks this
 * leaves out.
 */
module Directions {

  datatype RectDirection = PlusX | PlusY | MinusX | MinusY

  datatype Axis2D = X | Y

  datatype Vec2 = Vec2(x: int, y: int)

  /** The axis a direction lies on. */
  function Axis(d: RectDirection): (a: Axis2D)
    ensures a == X <==> d == PlusX || d == MinusX
  {
    match d
    case PlusX => X
    case PlusY => Y
    case MinusX => X
    case MinusY => Y
  }

  function IsPositive(d: RectDirection): (b: bool)
    ensures b <==> d == PlusX || d == PlusY
  {
    match d
    case PlusX => true
    case PlusY => true
    case MinusX => false
    case MinusY => false
  }

  /** The opposite direction: on the same axis, with the other sign. */
  function Opposite(d: RectDirection): (r: RectDirection)
    ensures Axis(r) == Axis(d) && IsPositive(r) == !IsPositive(d)
  {
    match d
    case PlusX => MinusX
    case PlusY => MinusY
    case MinusX => PlusX
    case MinusY => PlusY
  }

  /** A quarter turn, from x towards y. */
  function Rot90(d: RectDirection): (r: RectDirection)
    ensures Axis(r) != Axis(d)
  {
    match d
    case PlusX => PlusY
    case PlusY => MinusX
    case MinusX => MinusY
    case MinusY => PlusX
  }

  /** `opposite` is an involution, two quarter turns are the opposite direction, and
   *  four are the identity. */
  lemma TurnsCompose(d: RectDirection)
    ensures Opposite(Opposite(d)) == d
    ensures Rot90(Rot90(d)) == Opposite(d)
    ensures Rot90(Rot90(Rot90(Rot90(d)))) == d
    ensures Opposite(d) != d
  {
  }

  /** From line coordinates (writing direction first) to graphics coordinates. */
  function RotateVec(d: RectDirection, v: Vec2): Vec2
  {
    match d
    case PlusX => v
    case PlusY => Vec2(-v.y, v.x)
    case MinusX => Vec2(-v.x, -v.y)
    case MinusY => Vec2(v.y, -v.x)
  }

  /** From graphics coordinates to line coordinates. */
  function UnrotateVec(d: RectDirection, v: Vec2): Vec2
  {
    match d
    case PlusX => v
    case PlusY => Vec2(v.y, -v.x)
    case MinusX => Vec2(-v.x, -v.y)
    case MinusY => Vec2(-v.y, v.x)
  }

  /** `rotate_vec` and `unrotate_vec` are inverse to each other. */
  lemma RotateUnrotate(d: RectDirection, v: Vec2)
    ensures RotateVec(d, UnrotateVec(d, v)) == v
    ensures UnrotateVec(d, RotateVec(d, v)) == v
  {
  }

  /** `rotate_vec` is the rotation whose quarter turns are those of the direction: turning
   *  the direction a quarter turn further rotates every vector a quarter turn further. */
  lemma RotateVecTurns(d: RectDirection, v: Vec2)
    ensures RotateVec(Rot90(d), v) == RotateVec(PlusY, RotateVec(d, v))
    ensures RotateVec(Opposite(d), v) == RotateVec(MinusX, RotateVec(d, v))
  {
  }

  /** A vector of the given length pointing in direction `d`: the rotation of `[length, 0]`
   *  into the direction. */
  function AsVector(d: RectDirection, length: int): (v: Vec2)
    ensures v == RotateVec(d, Vec2(length, 0))
  {
    match d
    case PlusX => Vec2(length, 0)
    case PlusY => Vec2(0, length)
    case MinusX => Vec2(-length, 0)
    case MinusY => Vec2(0, -length)
  }

  /** The coordinate of a vector along an axis. */
  function Component(v: Vec2, a: Axis2D): int
  {
    match a
    case X => v.x
    case Y => v.y
  }

  function OtherAxis(a: Axis2D): Axis2D
  {
    match a
    case X => Y
    case Y => X
  }

  /** `Axis2D::as_vector`: `length` on the axis itself and 0 on the other one, which is
   *  the vector of the positive direction along that axis. */
  function AxisAsVector(a: Axis2D, length: int): (v: Vec2)
    ensures Component(v, a) == length && Component(v, OtherAxis(a)) == 0
    ensures v == AsVector(if a == X then PlusX else PlusY, length)
  {
    match a
    case X => Vec2(length, 0)
    case Y => Vec2(0, length)
  }
}
