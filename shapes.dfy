/**
 * The shapes the collision functions take. Each is a plain record of numbers and
 * `Vec2Like` values with no behaviour of its own.
 */
module Shapes {
  import opened Vec2Algebra

  /** An infinite line through `position` along `direction`. */
  datatype Line = Line(position: Vec2Like, direction: Vec2Like)

  /** The closed segment from `position` to `endPosition`. */
  datatype Segment = Segment(position: Vec2Like, endPosition: Vec2Like)

  /** An axis-aligned box given by its lower-left `min` and upper-right `max` corners. */
  datatype AABB = AABB(min: Vec2Like, max: Vec2Like)

  /** A box of half extents `halfExtend` centred on `position`, turned by `angle` radians. */
  datatype Box = Box(position: Vec2Like, halfExtend: Vec2Like, angle: real)

  /** A disc of `radius` centred on `position`. */
  datatype Circle = Circle(position: Vec2Like, radius: real)

  /** A convex polygon: a reference `position` and the vertices in world coordinates. */
  datatype Polygon = Polygon(position: Vec2Like, vertices: seq<Vec2Like>)

  /** The contact of two circles: a point, the (non-positive) separation and a normal. */
  datatype Contact = Contact(point: Vec2Like, separation: real, normal: Vec2Like)

  /** The point `position + t * direction` of a line or of a segment's supporting line. */
  function PointAt(position: Vec2Like, direction: Vec2Like, t: real): Vec2Like {
    Sum(position, Scaled(direction, t))
  }
}
