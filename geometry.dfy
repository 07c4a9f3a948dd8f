/** Plane geometry used by every collision test of the game: points, axis-aligned
    rectangles given by origin and size (as a CGRect is), rectangles built around a
    centre, and the overlap test. Coordinates are exact reals. */
module Geometry {

  datatype Point = Point(x: real, y: real)

  /** An axis-aligned rectangle: top-left corner and size. */
  datatype Rect = Rect(x: real, y: real, width: real, height: real)

  /** The rectangle of size w×h whose centre is c. */
  function CentredBox(c: Point, w: real, h: real): (r: Rect)
    ensures r.width == w && r.height == h
    ensures r.x + r.width / 2.0 == c.x && r.y + r.height / 2.0 == c.y
  {
    Rect(c.x - w / 2.0, c.y - h / 2.0, w, h)
  }

  /** Strict overlap on both axes. Touching edges and empty rectangles are
      library-defined for CGRect and are not relied upon anywhere. */
  predicate Intersects(a: Rect, b: Rect)
  {
    a.x < b.x + b.width && b.x < a.x + a.width &&
    a.y < b.y + b.height && b.y < a.y + a.height
  }

  /** The rectangle a frame uses when no stroke was latched: 2×2 at (-1000, -1000). */
  const NoStroke: Rect := Rect(-1000.0, -1000.0, 2.0, 2.0)

  function Abs(v: real): (r: real)
    ensures r >= 0.0 && (r == v || r == -v)
  {
    if v < 0.0 then -v else v
  }

  lemma IntersectsSymmetric(a: Rect, b: Rect)
    ensures Intersects(a, b) <==> Intersects(b, a)
  {
  }

  /** Two centred boxes overlap exactly when their centres are closer than half
      the sum of their extents on each axis. */
  lemma CentredBoxesIntersect(c1: Point, w1: real, h1: real, c2: Point, w2: real, h2: real)
    ensures Intersects(CentredBox(c1, w1, h1), CentredBox(c2, w2, h2)) <==>
            Abs(c1.x - c2.x) < (w1 + w2) / 2.0 && Abs(c1.y - c2.y) < (h1 + h2) / 2.0
  {
  }

  /** Two boxes with the same centre and positive sizes always overlap. */
  lemma SameCentreIntersects(c: Point, w1: real, h1: real, w2: real, h2: real)
    requires w1 > 0.0 && h1 > 0.0 && w2 > 0.0 && h2 > 0.0
    ensures Intersects(CentredBox(c, w1, h1), CentredBox(c, w2, h2))
  {
    CentredBoxesIntersect(c, w1, h1, c, w2, h2);
  }
}
