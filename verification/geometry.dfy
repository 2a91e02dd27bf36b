/** The integer `System.Drawing` geometry the canvas relies on: points,
    sizes and rectangles with half-open containment and strict intersection.
 */
module Geometry {

  datatype Point = Point(x: int, y: int)

  datatype Size = Size(width: int, height: int)

  /** A `Rectangle`: origin plus extent. The right and bottom edges are
      exclusive, as `Contains` and `IntersectsWith` treat them. */
  datatype Rect = Rect(x: int, y: int, width: int, height: int) {
    function Right(): int { x + width }
    function Bottom(): int { y + height }
    function Location(): Point { Point(x, y) }
    function Extent(): Size { Size(width, height) }
  }

  const EmptyRect := Rect(0, 0, 0, 0)

  function MakeRect(location: Point, size: Size): Rect {
    Rect(location.x, location.y, size.width, size.height)
  }

  /** `Rectangle.Contains(Point)`: the left and top edges belong to the
      rectangle, the right and bottom edges do not. */
  predicate ContainsPoint(r: Rect, p: Point) {
    r.x <= p.x < r.Right() && r.y <= p.y < r.Bottom()
  }

  /** `Rectangle.Contains(Rectangle)`: `inner` lies within `outer`. */
  predicate ContainsRect(outer: Rect, inner: Rect) {
    outer.x <= inner.x && inner.Right() <= outer.Right()
    && outer.y <= inner.y && inner.Bottom() <= outer.Bottom()
  }

  /** `Rectangle.IntersectsWith`: the two open interiors overlap; touching
      edges do not count. */
  predicate IntersectsWith(a: Rect, b: Rect) {
    b.x < a.Right() && a.x < b.Right() && b.y < a.Bottom() && a.y < b.Bottom()
  }

  /** `Rectangle.Offset(dx, dy)`: translate, keeping the extent. */
  function Offset(r: Rect, dx: int, dy: int): (o: Rect)
    ensures o.Extent() == r.Extent()
    ensures o.Right() - r.Right() == dx && o.Bottom() - r.Bottom() == dy
    ensures o.x - r.x == dx && o.y - r.y == dy
  {
    Rect(r.x + dx, r.y + dy, r.width, r.height)
  }

  /** `Point.Offset(dx, dy)`. */
  function OffsetPoint(p: Point, dx: int, dy: int): (o: Point)
    ensures o.x - p.x == dx && o.y - p.y == dy
  {
    Point(p.x + dx, p.y + dy)
  }

  predicate Positive(r: Rect) {
    r.width > 0 && r.height > 0
  }

  /** Two offsets compose into one; this is why a drag delivered in many
      small moves lands where one large move would. */
  lemma {:induction false} OffsetCompose(r: Rect, dx1: int, dy1: int, dx2: int, dy2: int)
    ensures Offset(Offset(r, dx1, dy1), dx2, dy2) == Offset(r, dx1 + dx2, dy1 + dy2)
  {
  }

  /** Intersection does not depend on the order of its arguments. */
  lemma {:induction false} IntersectsSymmetric(a: Rect, b: Rect)
    ensures IntersectsWith(a, b) <==> IntersectsWith(b, a)
  {
  }

  /** Two rectangles with positive extents intersect exactly when some
      point lies in both. */
  lemma {:induction false} IntersectsIffCommonPoint(a: Rect, b: Rect)
    ensures Positive(a) && Positive(b) ==>
      (IntersectsWith(a, b) <==> exists p :: ContainsPoint(a, p) && ContainsPoint(b, p))
  {
    if Positive(a) && Positive(b) && IntersectsWith(a, b) {
      var p := Point(if a.x < b.x then b.x else a.x, if a.y < b.y then b.y else a.y);
      assert ContainsPoint(a, p) && ContainsPoint(b, p);
    }
  }

  /** A rectangle with a positive extent that lies inside another one also
      intersects it: containment is the stronger relation. */
  lemma {:induction false} ContainsImpliesIntersects(outer: Rect, inner: Rect)
    requires Positive(inner)
    requires ContainsRect(outer, inner)
    ensures IntersectsWith(inner, outer)
  {
  }

  /** An empty rectangle on the left edge of another one is contained in
      it but does not intersect it, so the positivity above is needed. */
  lemma {:induction false} EmptyContainedButNotIntersecting()
    ensures ContainsRect(Rect(0, 0, 10, 10), EmptyRect)
    ensures !IntersectsWith(EmptyRect, Rect(0, 0, 10, 10))
  {
  }
}
