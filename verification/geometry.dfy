/**
 * The two MonoGame value types the core relies on: a pointer position and an
 * axis-aligned rectangle with the framework's half-open containment test.
 */
module Geometry {
  datatype Point = Point(x: int, y: int)

  datatype Rectangle = Rectangle(x: int, y: int, width: int, height: int) {
    /** Left and top edges are inside, right and bottom edges are outside. */
    predicate Contains(p: Point) {
      x <= p.x < x + width && y <= p.y < y + height
    }
  }
}
