/**
 * Plane points and the ordering both generators patch onto their vector type:
 * points compare by descending x, then by descending y. The triangle's sorted
 * vertex set, and therefore the order of its vertex list, follows this order.
 */
module Geometry {

  /** A position in the plane (the physics library's 2D vector). */
  datatype Point = Point(x: real, y: real)

  function Add(p: Point, q: Point): Point {
    Point(p.x + q.x, p.y + q.y)
  }

  /** Squared Euclidean distance. */
  function Dist2(p: Point, q: Point): (d: real)
    ensures d >= 0.0
  {
    (p.x - q.x) * (p.x - q.x) + (p.y - q.y) * (p.y - q.y)
  }

  /** Ruby's `<=>` on two numbers. */
  function Spaceship(a: real, b: real): int {
    if a < b then -1 else if a == b then 0 else 1
  }

  /** The patched `Vec2#<=>`: compare `other.x` with `self.x` and, on a tie,
      `other.y` with `self.y`. */
  function Compare(p: Point, q: Point): int {
    if Spaceship(q.x, p.x) != 0 then Spaceship(q.x, p.x) else Spaceship(q.y, p.y)
  }

  /** `p` sorts strictly before `q`. */
  predicate Before(p: Point, q: Point) {
    Compare(p, q) < 0
  }

  /** The comparison is a total order that is descending in x, then in y. */
  lemma CompareIsTotalOrder(p: Point, q: Point, r: Point)
    ensures Compare(p, q) == 0 <==> p == q
    ensures Compare(p, q) == -Compare(q, p)
    ensures Before(p, q) <==> p.x > q.x || (p.x == q.x && p.y > q.y)
    ensures p != q ==> Before(p, q) || Before(q, p)
    ensures Before(p, q) && Before(q, r) ==> Before(p, r)
    ensures !Before(p, p)
  {
  }
}
