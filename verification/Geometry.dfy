/**
 * Core Graphics value types as the snapshot code uses them: points, sizes and
 * rectangles with `real` coordinates (CGFloat without its floating-point rounding).
 */
module Geometry {
  datatype Point = Point(x: real, y: real)
  datatype Size = Size(w: real, h: real)
  datatype Rect = Rect(origin: Point, size: Size)

  /** `CGPoint.zero` */
  const Zero := Point(0.0, 0.0)

  /** The rectangle `r` moved down by `dy`. */
  function ShiftedDown(r: Rect, dy: real): Rect {
    Rect(Point(r.origin.x, r.origin.y + dy), r.size)
  }
}
