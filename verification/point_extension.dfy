/** The `Point` extension helpers: copy, difference and distance.

    `Distance` is a square root of a sum of squares; the canvas only ever
    compares it with a bound, so the model compares the integer sum of
    squares with the squared bound, and `WithinIffSqrtBelow` shows the two
    comparisons agree.
 */
module PointExtension {
  import opened Geometry

  /** `ToPoint`: a copy equal to its source. */
  function ToPoint(source: Point): (r: Point)
    ensures r == source
  {
    Point(source.x, source.y)
  }

  /** `Subtract`: the size spanned from `pt` to `source`. */
  function Subtract(source: Point, pt: Point): (s: Size)
    ensures OffsetPoint(pt, s.width, s.height) == source
  {
    Size(source.x - pt.x, source.y - pt.y)
  }

  /** The square of `Distance`, computed over the integers. */
  function SquaredDistance(source: Point, pt: Point): (d: int)
    ensures d >= 0
    ensures d == 0 <==> source == pt
  {
    var dx := source.x - pt.x;
    var dy := source.y - pt.y;
    assert dx * dx >= 0 && dy * dy >= 0;
    assert dx != 0 ==> dx * dx > 0;
    assert dy != 0 ==> dy * dy > 0;
    dx * dx + dy * dy
  }

  /** `source.Distance(pt) < limit`. */
  predicate WithinDistance(source: Point, pt: Point, limit: nat) {
    SquaredDistance(source, pt) < limit * limit
  }

  lemma {:induction false} SubtractSelf(a: Point)
    ensures Subtract(a, a) == Size(0, 0)
  {
  }

  lemma {:induction false} DistanceSymmetric(a: Point, b: Point)
    ensures SquaredDistance(a, b) == SquaredDistance(b, a)
    ensures WithinDistance(a, b, 15) <==> WithinDistance(b, a, 15)
  {
    assert (a.x - b.x) * (a.x - b.x) == (b.x - a.x) * (b.x - a.x);
    assert (a.y - b.y) * (a.y - b.y) == (b.y - a.y) * (b.y - a.y);
  }

  /** For any non-negative square root `d` of the squared distance (that
      is, the value `Math.Sqrt` computes), `d < limit` holds exactly when
      the integer comparison does. */
  lemma {:induction false} WithinIffSqrtBelow(a: Point, b: Point, limit: nat, d: real)
    requires d >= 0.0
    requires d * d == SquaredDistance(a, b) as real
    ensures d < limit as real <==> WithinDistance(a, b, limit)
  {
    SqrtBelow(d, SquaredDistance(a, b), limit);
  }

  /** A non-negative square root of `sq` is below `limit` exactly when `sq`
      is below the square of `limit`. */
  lemma {:induction false} SqrtBelow(d: real, sq: int, limit: nat)
    requires d >= 0.0 && d * d == sq as real
    ensures d < limit as real <==> sq < limit * limit
  {
    var l := limit as real;
    CastSquare(limit);
    assert (limit * limit) as real == l * l;
    if d < l {
      MulMonotone(d, l, d);
      MulStrict(d, l, l);
      assert d * d < l * l;
    } else {
      MulMonotone(l, d, d);
      MulMonotone(l, d, l);
      assert l * l <= d * d;
    }
  }

  lemma {:induction false} CastSquare(n: nat)
    ensures (n * n) as real == n as real * n as real
  {
  }

  lemma {:induction false} MulMonotone(a: real, b: real, c: real)
    requires a <= b && c >= 0.0
    ensures a * c <= b * c && c * a <= c * b
  {
  }

  lemma {:induction false} MulStrict(a: real, b: real, c: real)
    requires a < b && c > 0.0
    ensures a * c < b * c && c * a < c * b
  {
  }
}
