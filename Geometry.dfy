/**
 * The integer subset of L.Point and L.Bounds that the tile grid uses.
 * Only the operations the tile code calls are given: `contains` and the
 * centre of a rectangle (kept doubled so that it stays an integer).
 */
module Geometry {

  /** A point in pixel or tile-index space. */
  datatype Point = Point(x: int, y: int)

  /** A tile coordinate: a column and row at one zoom level (an L.Point with a `z`). */
  datatype Coords = Coords(x: int, y: int, z: int)

  /** An axis-aligned rectangle, both corners inclusive. */
  datatype Bounds = Bounds(min: Point, max: Point)

  /** L.Bounds.contains on a point: both corners are inclusive. */
  predicate Contains(b: Bounds, p: Point) {
    b.min.x <= p.x <= b.max.x && b.min.y <= p.y <= b.max.y
  }

  /** A rectangle whose corners are ordered; such a rectangle holds at least one point. */
  predicate Ordered(b: Bounds) {
    b.min.x <= b.max.x && b.min.y <= b.max.y
  }

  /**
   * The squared distance between 2p and 2c, where c is getCenter(), the point
   * ((min.x + max.x) / 2, (min.y + max.y) / 2). It equals 4 * |p - c|^2, so it orders
   * points exactly as `distanceTo(center)` does, without leaving the integers.
   */
  function CenterDistance(b: Bounds, p: Point): (d: nat)
    ensures d == 0 <==> 2 * p.x == b.min.x + b.max.x && 2 * p.y == b.min.y + b.max.y
  {
    var dx := 2 * p.x - (b.min.x + b.max.x);
    var dy := 2 * p.y - (b.min.y + b.max.y);
    dx * dx + dy * dy
  }
}
