/** The viewport transform (`Viewer`): pan offset `zero` (the screen point
    of the document origin), zoom factor, the visible document rectangle,
    and the conversions between document ("local") and screen ("show")
    space.

    The source keeps `Zoom` in a `float`; the model uses an exact real, so
    the 1.25 and 0.8 wheel factors are exact reciprocals here and nothing
    below claims bit-level agreement with single precision. `SetZoom`
    stores any value, so the handlers accept any non-zero zoom, negative
    ones included; only the zoom range is always positive.
 */
module Viewer {
  import opened Geometry
  import opened Numerics
  import opened Input

  datatype ViewerState = ViewerState(
    zero: Point,
    viewport: Rect,
    zoom: real,
    minZoom: real,
    maxZoom: real,
    middleDown: bool,
    oldMousePoint: Point)

  const DefaultMinZoom: real := 0.01
  const DefaultMaxZoom: real := 100.0
  const ZoomInFactor: real := 1.25
  const ZoomOutFactor: real := 0.8

  /** The zoom range is positive and non-empty. Only the constructor and
      `SetFullDisplay` write it, and both establish this. */
  predicate RangeValid(v: ViewerState) {
    0.0 < v.minZoom <= v.maxZoom
  }

  /** A positive zoom and a valid range: the constructor and
      `SetFullDisplay` establish it, and the handlers keep it. */
  predicate Valid(v: ViewerState) {
    v.zoom > 0.0 && RangeValid(v)
  }

  /** The document x and y that the screen point `q` shows, before rounding. */
  function LocalX(v: ViewerState, sx: int): real
    requires v.zoom != 0.0
  {
    Unscale(sx - v.zero.x, v.zoom)
  }

  function LocalY(v: ViewerState, sy: int): real
    requires v.zoom != 0.0
  {
    Unscale(sy - v.zero.y, v.zoom)
  }

  /** The viewport origin as the code recomputes it: the truncated document
      point under the screen origin. */
  function ViewportOrigin(zero: Point, zoom: real): (p: Point)
    requires zoom != 0.0
    ensures -1.0 < p.x as real - Unscale(0 - zero.x, zoom) < 1.0
    ensures -1.0 < p.y as real - Unscale(0 - zero.y, zoom) < 1.0
  {
    TruncTowardZero(Unscale(0 - zero.x, zoom));
    TruncTowardZero(Unscale(0 - zero.y, zoom));
    Point(Trunc(Unscale(0 - zero.x, zoom)), Trunc(Unscale(0 - zero.y, zoom)))
  }

  /** The viewport size as the code recomputes it: the canvas size in
      document units, truncated. */
  function ViewportSize(canvasWidth: int, canvasHeight: int, zoom: real): (s: Size)
    requires zoom != 0.0
    ensures zoom > 0.0 && canvasWidth >= 0 ==>
      s.width >= 0 && s.width as real <= Unscale(canvasWidth, zoom) < s.width as real + 1.0
    ensures zoom > 0.0 && canvasHeight >= 0 ==>
      s.height >= 0 && s.height as real <= Unscale(canvasHeight, zoom) < s.height as real + 1.0
    ensures -1.0 < s.width as real - Unscale(canvasWidth, zoom) < 1.0
    ensures -1.0 < s.height as real - Unscale(canvasHeight, zoom) < 1.0
  {
    TruncTowardZero(Unscale(canvasWidth, zoom));
    TruncTowardZero(Unscale(canvasHeight, zoom));
    Size(Trunc(Unscale(canvasWidth, zoom)), Trunc(Unscale(canvasHeight, zoom)))
  }

  /** The constructor: zoom 1 and the default zoom range, the document
      origin at the canvas centre, the viewport the canvas bounds seen from
      there. */
  function Create(canvasWidth: int, canvasHeight: int): (v: ViewerState)
    ensures Valid(v) && v.zoom == 1.0
    ensures v.minZoom == DefaultMinZoom && v.maxZoom == DefaultMaxZoom
    ensures canvasWidth >= 0 ==> 0 <= canvasWidth - 2 * v.zero.x <= 1
    ensures canvasHeight >= 0 ==> 0 <= canvasHeight - 2 * v.zero.y <= 1
    ensures v.viewport == Rect(0 - v.zero.x, 0 - v.zero.y, canvasWidth, canvasHeight)
    ensures !v.middleDown
  {
    var zero := Point(TruncDiv(canvasWidth, 2), TruncDiv(canvasHeight, 2));
    ViewerState(zero, Rect(0 - zero.x, 0 - zero.y, canvasWidth, canvasHeight),
                1.0, DefaultMinZoom, DefaultMaxZoom, false, Point(0, 0))
  }

  // ---- screen <-> document conversions ----

  /** `LocalToShow(Point)`: scale, truncate, translate by `zero`. The result
      is within one pixel of the exact affine image. */
  function LocalToShowPoint(v: ViewerState, p: Point): (q: Point)
    ensures -1.0 < (q.x - v.zero.x) as real - Scale(p.x, v.zoom) < 1.0
    ensures -1.0 < (q.y - v.zero.y) as real - Scale(p.y, v.zoom) < 1.0
  {
    TruncTowardZero(Scale(p.x, v.zoom));
    TruncTowardZero(Scale(p.y, v.zoom));
    Point(Trunc(Scale(p.x, v.zoom)) + v.zero.x, Trunc(Scale(p.y, v.zoom)) + v.zero.y)
  }

  /** `ToShowX` and `ToShowY`: one coordinate of `LocalToShow(Point)`. */
  function ToShowX(v: ViewerState, x: int): (sx: int)
    ensures forall y :: sx == LocalToShowPoint(v, Point(x, y)).x
  {
    Trunc(Scale(x, v.zoom)) + v.zero.x
  }

  function ToShowY(v: ViewerState, y: int): (sy: int)
    ensures forall x :: sy == LocalToShowPoint(v, Point(x, y)).y
  {
    Trunc(Scale(y, v.zoom)) + v.zero.y
  }

  /** `LocalToShow(Size)`: scale and round to nearest, ties to even; the pan
      offset plays no part. */
  function LocalToShowSize(v: ViewerState, s: Size): (t: Size)
    ensures -0.5 <= t.width as real - Scale(s.width, v.zoom) <= 0.5
    ensures -0.5 <= t.height as real - Scale(s.height, v.zoom) <= 0.5
  {
    Size(RoundHalfEven(Scale(s.width, v.zoom)), RoundHalfEven(Scale(s.height, v.zoom)))
  }

  /** The size conversion does not depend on the pan offset. */
  lemma {:induction false} SizeIgnoresZero(v: ViewerState, s: Size, z: Point)
    ensures LocalToShowSize(v.(zero := z), s) == LocalToShowSize(v, s)
  {
  }

  /** `LocalToShow(Rectangle)`: the origin converts as a point, the extent as
      a size. */
  function LocalToShowRect(v: ViewerState, r: Rect): (t: Rect)
    ensures t.Location() == LocalToShowPoint(v, r.Location())
    ensures t.Extent() == LocalToShowSize(v, r.Extent())
  {
    Rect(Trunc(Scale(r.x, v.zoom)) + v.zero.x, Trunc(Scale(r.y, v.zoom)) + v.zero.y,
         RoundHalfEven(Scale(r.width, v.zoom)), RoundHalfEven(Scale(r.height, v.zoom)))
  }

  /** `LocalToShow(x, y, width, height)`: the rectangle overload spelled out. */
  function LocalToShowXYWH(v: ViewerState, x: int, y: int, width: int, height: int): (t: Rect)
    ensures t == LocalToShowRect(v, Rect(x, y, width, height))
  {
    Rect(Trunc(Scale(x, v.zoom)) + v.zero.x, Trunc(Scale(y, v.zoom)) + v.zero.y,
         RoundHalfEven(Scale(width, v.zoom)), RoundHalfEven(Scale(height, v.zoom)))
  }

  /** `MousePointToLocal`: the document point a screen point shows, rounded
      to nearest (ties to even). */
  function MousePointToLocal(v: ViewerState, q: Point): (p: Point)
    requires v.zoom != 0.0
    ensures -0.5 <= p.x as real - LocalX(v, q.x) <= 0.5
    ensures -0.5 <= p.y as real - LocalY(v, q.y) <= 0.5
  {
    Point(RoundHalfEven(LocalX(v, q.x)), RoundHalfEven(LocalY(v, q.y)))
  }

  /** At zoom 1 the conversions are translations by `zero` and undo each
      other exactly. */
  lemma {:induction false} UnitZoomRoundTrip(v: ViewerState, p: Point, q: Point)
    requires v.zoom == 1.0
    ensures LocalToShowPoint(v, p) == Point(p.x + v.zero.x, p.y + v.zero.y)
    ensures MousePointToLocal(v, q) == Point(q.x - v.zero.x, q.y - v.zero.y)
    ensures MousePointToLocal(v, LocalToShowPoint(v, p)) == p
    ensures LocalToShowPoint(v, MousePointToLocal(v, q)) == q
  {
    TruncOfInt(p.x);
    TruncOfInt(p.y);
    RoundOfInt(q.x - v.zero.x);
    RoundOfInt(q.y - v.zero.y);
    RoundOfInt(p.x);
    RoundOfInt(p.y);
    TruncOfInt(q.x - v.zero.x);
    TruncOfInt(q.y - v.zero.y);
  }

  /** When magnifying (zoom at least 1), converting a document point to the
      screen and back lands within one unit of where it started. */
  lemma {:induction false} MagnifiedRoundTripWithinOne(v: ViewerState, p: Point)
    requires v.zoom >= 1.0
    ensures -1 <= MousePointToLocal(v, LocalToShowPoint(v, p)).x - p.x <= 1
    ensures -1 <= MousePointToLocal(v, LocalToShowPoint(v, p)).y - p.y <= 1
  {
    var q := LocalToShowPoint(v, p);
    CoordinateRoundTrip(p.x, q.x - v.zero.x, v.zoom);
    CoordinateRoundTrip(p.y, q.y - v.zero.y, v.zoom);
  }

  /** One coordinate of the round trip: `t` is the truncated screen offset of
      document coordinate `c`. */
  lemma {:induction false} CoordinateRoundTrip(c: int, t: int, zoom: real)
    requires zoom >= 1.0
    requires t == Trunc(Scale(c, zoom))
    ensures -1 <= RoundHalfEven(Unscale(t, zoom)) - c <= 1
  {
    TruncTowardZero(Scale(c, zoom));
    var e := t as real - c as real * zoom;
    assert -1.0 < e < 1.0;
    assert Unscale(t, zoom) - c as real == e / zoom;
    DivideShrinks(e, zoom);
    RoundWithinOne(Unscale(t, zoom), c);
  }

  lemma {:induction false} DivideShrinks(e: real, zoom: real)
    requires zoom >= 1.0 && -1.0 < e < 1.0
    ensures -1.0 < e / zoom < 1.0
  {
    if e >= 0.0 {
      assert e / zoom <= e;
    } else {
      assert e / zoom >= e;
    }
  }

  // ---- culling ----

  /** `InZone(Rectangle)` and `InZone(Element)`: the rectangle overlaps the
      viewport. For rectangles with a positive extent this says some
      document point is both visible and inside the rectangle. */
  function InZone(v: ViewerState, r: Rect): (b: bool)
    ensures Positive(v.viewport) && Positive(r) ==>
      (b <==> exists p :: ContainsPoint(v.viewport, p) && ContainsPoint(r, p))
  {
    IntersectsIffCommonPoint(v.viewport, r);
    IntersectsWith(v.viewport, r)
  }

  // ---- pan ----

  /** `MouseDown`: a middle press starts a pan; every press records the
      mouse position. */
  function MouseDown(v: ViewerState, e: MouseEvent): (r: ViewerState)
    ensures r.oldMousePoint == e.location
    ensures r.middleDown == (e.button == Middle || v.middleDown)
    ensures r.(oldMousePoint := v.oldMousePoint, middleDown := v.middleDown) == v
  {
    v.(middleDown := if e.button == Middle then true else v.middleDown, oldMousePoint := e.location)
  }

  /** `MouseUp`: releasing the middle button ends the pan. */
  function MouseUp(v: ViewerState, e: MouseEvent): (r: ViewerState)
    ensures r.middleDown == (e.button != Middle && v.middleDown)
    ensures r.(middleDown := v.middleDown) == v
  {
    if e.button == Middle then v.(middleDown := false) else v
  }

  /** `MouseMove`: while the middle button is down, `zero` follows the mouse
      by exactly its movement and the viewport origin is recomputed (its
      size is kept); the last mouse position is always updated. */
  function MouseMove(v: ViewerState, e: MouseEvent): (r: ViewerState)
    requires v.zoom != 0.0
    ensures Valid(v) ==> Valid(r)
    ensures r.oldMousePoint == e.location
    ensures v.middleDown ==>
      r.zero.x - v.zero.x == e.location.x - v.oldMousePoint.x
      && r.zero.y - v.zero.y == e.location.y - v.oldMousePoint.y
    ensures v.middleDown ==> r.viewport.Location() == ViewportOrigin(r.zero, v.zoom)
    ensures r.viewport.Extent() == v.viewport.Extent()
    ensures !v.middleDown ==> r == v.(oldMousePoint := e.location)
    ensures r.zoom == v.zoom && r.minZoom == v.minZoom && r.maxZoom == v.maxZoom
    ensures r.middleDown == v.middleDown
  {
    var loc := e.location;
    if v.middleDown then
      var zero := OffsetPoint(v.zero, loc.x - v.oldMousePoint.x, loc.y - v.oldMousePoint.y);
      var o := ViewportOrigin(zero, v.zoom);
      v.(zero := zero, viewport := v.viewport.(x := o.x, y := o.y), oldMousePoint := loc)
    else
      v.(oldMousePoint := loc)
  }

  /** Panning drags the document with the mouse: the document point under
      the new mouse position is the one that was under the old one. */
  lemma {:induction false} PanKeepsGrabbedPoint(v: ViewerState, e: MouseEvent)
    requires v.zoom != 0.0 && v.middleDown
    ensures MousePointToLocal(MouseMove(v, e), e.location) == MousePointToLocal(v, v.oldMousePoint)
  {
    var r := MouseMove(v, e);
    assert e.location.x - r.zero.x == v.oldMousePoint.x - v.zero.x;
    assert e.location.y - r.zero.y == v.oldMousePoint.y - v.zero.y;
  }

  /** At zoom 1 the recomputed viewport origin is exactly the document point
      shown at the screen origin. */
  lemma {:induction false} UnitZoomViewportOrigin(zero: Point)
    ensures ViewportOrigin(zero, 1.0) == Point(0 - zero.x, 0 - zero.y)
  {
    TruncOfInt(0 - zero.x);
    TruncOfInt(0 - zero.y);
  }

  /** After construction the viewport is exactly the document area the canvas
      shows: its corners are the document points under the canvas corners. */
  lemma {:induction false} CreateViewportIsVisibleArea(canvasWidth: int, canvasHeight: int)
    ensures MousePointToLocal(Create(canvasWidth, canvasHeight), Point(0, 0))
      == Create(canvasWidth, canvasHeight).viewport.Location()
    ensures MousePointToLocal(Create(canvasWidth, canvasHeight), Point(canvasWidth, canvasHeight))
      == Point(Create(canvasWidth, canvasHeight).viewport.Right(), Create(canvasWidth, canvasHeight).viewport.Bottom())
  {
    var v := Create(canvasWidth, canvasHeight);
    UnitZoomRoundTrip(v, Point(0, 0), Point(0, 0));
    UnitZoomRoundTrip(v, Point(0, 0), Point(canvasWidth, canvasHeight));
  }

  // ---- zoom ----

  /** The zoom after one wheel step, clamped to the range. */
  function SteppedZoom(v: ViewerState, zoomIn: bool): real {
    if zoomIn then
      (if v.zoom * ZoomInFactor > v.maxZoom then v.maxZoom else v.zoom * ZoomInFactor)
    else
      (if v.zoom * ZoomOutFactor < v.minZoom then v.minZoom else v.zoom * ZoomOutFactor)
  }

  /** The pan correction for one wheel step at screen offset `d` from
      `zero`, computed with the unclamped factor. */
  function Shift(d: int, factor: real): int {
    Trunc(d as real - d as real * factor)
  }

  /** `MouseWheel`: a positive delta zooms in by 1.25, any other by 0.8,
      each clamped to the zoom range; a step toward a bound already reached
      changes nothing. Otherwise `zero` is shifted so that the point under
      the mouse stays put, and the whole viewport is recomputed. */
  function MouseWheel(v: ViewerState, e: MouseEvent, canvasWidth: int, canvasHeight: int): (r: ViewerState)
    requires v.zoom != 0.0 && RangeValid(v)
    ensures r.zoom != 0.0 && RangeValid(r)
    ensures Valid(v) ==> Valid(r)
    ensures v.minZoom <= v.zoom <= v.maxZoom ==> r.minZoom <= r.zoom <= r.maxZoom
    ensures e.delta > 0 && v.zoom == v.maxZoom ==> r == v
    ensures e.delta <= 0 && v.zoom == v.minZoom ==> r == v
    ensures e.delta > 0 && 0.0 < v.zoom <= v.maxZoom ==> v.zoom <= r.zoom
    ensures e.delta <= 0 && v.minZoom <= v.zoom ==> r.zoom <= v.zoom
    ensures e.delta > 0 && v.zoom < 0.0 ==> r.zoom == v.zoom * ZoomInFactor
    ensures e.delta <= 0 && v.zoom < 0.0 ==> r.zoom == v.minZoom
    ensures r != v ==>
      (r.viewport.Location() == ViewportOrigin(r.zero, r.zoom)
       && r.viewport.Extent() == ViewportSize(canvasWidth, canvasHeight, r.zoom))
    ensures r.minZoom == v.minZoom && r.maxZoom == v.maxZoom
    ensures r.middleDown == v.middleDown && r.oldMousePoint == v.oldMousePoint
  {
    var zoomIn := e.delta > 0;
    if (zoomIn && v.zoom == v.maxZoom) || (!zoomIn && v.zoom == v.minZoom) then v
    else
      var r := Rezoom(v, SteppedZoom(v, zoomIn), if zoomIn then ZoomInFactor else ZoomOutFactor,
                      e.location, canvasWidth, canvasHeight);
      assert r != v ==> r.viewport.Extent() == ViewportSize(canvasWidth, canvasHeight, r.zoom);
      r
  }

  /** The body of a wheel step that is not a no-op: the new zoom, `zero`
      shifted by the pan correction for `factor` at mouse position `q`, and
      the viewport recomputed for both. */
  function Rezoom(v: ViewerState, zoom: real, factor: real, q: Point, canvasWidth: int, canvasHeight: int): (r: ViewerState)
    requires zoom != 0.0
    ensures r.zoom == zoom
    ensures r.zero == OffsetPoint(v.zero, Shift(q.x - v.zero.x, factor), Shift(q.y - v.zero.y, factor))
    ensures r.viewport.Location() == ViewportOrigin(r.zero, zoom)
    ensures r.viewport.Extent() == ViewportSize(canvasWidth, canvasHeight, zoom)
    ensures r.(zoom := v.zoom, zero := v.zero, viewport := v.viewport) == v
  {
    var zero := OffsetPoint(v.zero, Shift(q.x - v.zero.x, factor), Shift(q.y - v.zero.y, factor));
    var o := ViewportOrigin(zero, zoom);
    var s := ViewportSize(canvasWidth, canvasHeight, zoom);
    v.(zoom := zoom, zero := zero, viewport := Rect(o.x, o.y, s.width, s.height))
  }

  /** How far the document x shown at screen x `sx` moves from state `v` to
      state `r`, measured in screen pixels at `r`'s zoom. */
  function DriftX(v: ViewerState, r: ViewerState, sx: int): real
    requires v.zoom != 0.0 && r.zoom != 0.0
  {
    (LocalX(r, sx) - LocalX(v, sx)) * r.zoom
  }

  function DriftY(v: ViewerState, r: ViewerState, sy: int): real
    requires v.zoom != 0.0 && r.zoom != 0.0
  {
    (LocalY(r, sy) - LocalY(v, sy)) * r.zoom
  }

  /** When a wheel step is not clamped, the document point under the mouse
      moves by less than one screen pixel: the pan correction is exact up to
      its truncation. */
  lemma {:induction false} WheelKeepsPointUnderMouse(v: ViewerState, e: MouseEvent, canvasWidth: int, canvasHeight: int)
    requires v.zoom != 0.0 && RangeValid(v)
    requires e.delta > 0 ==> v.zoom != v.maxZoom && v.zoom * ZoomInFactor <= v.maxZoom
    requires e.delta <= 0 ==> v.zoom != v.minZoom && v.zoom * ZoomOutFactor >= v.minZoom
    ensures -1.0 < DriftX(v, MouseWheel(v, e, canvasWidth, canvasHeight), e.location.x) < 1.0
    ensures -1.0 < DriftY(v, MouseWheel(v, e, canvasWidth, canvasHeight), e.location.y) < 1.0
  {
    var factor := if e.delta > 0 then ZoomInFactor else ZoomOutFactor;
    assert SteppedZoom(v, e.delta > 0) == v.zoom * factor;
    var r := Rezoom(v, v.zoom * factor, factor, e.location, canvasWidth, canvasHeight);
    assert MouseWheel(v, e, canvasWidth, canvasHeight) == r;
    AnchorX(v, r, e.location.x, factor);
    AnchorY(v, r, e.location.y, factor);
  }

  /** The anchor along x, for any state `r` the step produced. */
  lemma {:induction false} AnchorX(v: ViewerState, r: ViewerState, sx: int, factor: real)
    requires v.zoom != 0.0 && factor > 0.0
    requires r.zoom == v.zoom * factor
    requires r.zero.x == v.zero.x + Shift(sx - v.zero.x, factor)
    ensures -1.0 < DriftX(v, r, sx) < 1.0
  {
    var d := sx - v.zero.x;
    assert sx - r.zero.x == d - Shift(d, factor);
    AnchorCoordinate(d, v.zoom, factor);
  }

  lemma {:induction false} AnchorY(v: ViewerState, r: ViewerState, sy: int, factor: real)
    requires v.zoom != 0.0 && factor > 0.0
    requires r.zoom == v.zoom * factor
    requires r.zero.y == v.zero.y + Shift(sy - v.zero.y, factor)
    ensures -1.0 < DriftY(v, r, sy) < 1.0
  {
    var d := sy - v.zero.y;
    assert sy - r.zero.y == d - Shift(d, factor);
    AnchorCoordinate(d, v.zoom, factor);
  }

  /** One coordinate of the wheel anchor: `d` is the mouse's screen offset
      from `zero` before the step. */
  lemma {:induction false} AnchorCoordinate(d: int, zoom: real, factor: real)
    requires zoom != 0.0 && factor > 0.0
    ensures -1.0 < (Unscale(d - Shift(d, factor), zoom * factor) - Unscale(d, zoom)) * (zoom * factor) < 1.0
  {
    var t := Shift(d, factor);
    var z1 := zoom * factor;
    TruncTowardZero(d as real - d as real * factor);
    calc {
      (Unscale(d - t, z1) - Unscale(d, zoom)) * z1;
      (d - t) as real / z1 * z1 - d as real / zoom * z1;
      { assert (d - t) as real / z1 * z1 == (d - t) as real; }
      (d - t) as real - d as real / zoom * z1;
      { assert d as real / zoom * z1 == d as real * factor; }
      (d - t) as real - d as real * factor;
      -(t as real - (d as real - d as real * factor));
    }
  }

  /** `SetZoom`: the zoom is set as given, without clamping, and neither the
      origin nor the viewport is recomputed. */
  function SetZoom(v: ViewerState, zoom: real): (r: ViewerState)
    ensures r.zoom == zoom
    ensures r.zero == v.zero && r.viewport == v.viewport
    ensures r.minZoom == v.minZoom && r.maxZoom == v.maxZoom
    ensures r.middleDown == v.middleDown && r.oldMousePoint == v.oldMousePoint
  {
    v.(zoom := zoom)
  }

  /** `SetZero`: `zero` is set exactly, the viewport origin follows it and
      the viewport size is kept. */
  function SetZero(v: ViewerState, x: int, y: int): (r: ViewerState)
    requires v.zoom != 0.0
    ensures Valid(v) ==> Valid(r)
    ensures r.zero == Point(x, y)
    ensures r.viewport.Location() == ViewportOrigin(r.zero, v.zoom)
    ensures r.viewport.Extent() == v.viewport.Extent()
    ensures r.zoom == v.zoom && r.minZoom == v.minZoom && r.maxZoom == v.maxZoom
    ensures r.middleDown == v.middleDown && r.oldMousePoint == v.oldMousePoint
  {
    var o := ViewportOrigin(Point(x, y), v.zoom);
    v.(zero := Point(x, y), viewport := v.viewport.(x := o.x, y := o.y))
  }

  /** The larger of the two zooms at which the background fits the canvas
      along one axis, that is the smaller of the two ratios. */
  function FitZoom(canvasWidth: int, canvasHeight: int, backgroundWidth: int, backgroundHeight: int): (z: real)
    requires canvasWidth > 0 && canvasHeight > 0
    requires backgroundWidth > 0 && backgroundHeight > 0
    ensures z > 0.0
    ensures z <= Unscale(canvasWidth, backgroundWidth as real)
    ensures z <= Unscale(canvasHeight, backgroundHeight as real)
    ensures z == Unscale(canvasWidth, backgroundWidth as real)
         || z == Unscale(canvasHeight, backgroundHeight as real)
  {
    var w := Unscale(canvasWidth, backgroundWidth as real);
    var h := Unscale(canvasHeight, backgroundHeight as real);
    if w < h then w else h
  }

  /** `SetFullDisplay`: the largest zoom at which the whole background fits
      the canvas, a zoom range from that zoom to a hundred times it, the
      document origin at the canvas centre and a recomputed viewport. */
  function SetFullDisplay(v: ViewerState, canvasWidth: int, canvasHeight: int,
                          backgroundWidth: int, backgroundHeight: int): (r: ViewerState)
    requires canvasWidth > 0 && canvasHeight > 0
    requires backgroundWidth > 0 && backgroundHeight > 0
    ensures Valid(r)
    ensures r.zoom <= Unscale(canvasWidth, backgroundWidth as real)
    ensures r.zoom <= Unscale(canvasHeight, backgroundHeight as real)
    ensures r.zoom == Unscale(canvasWidth, backgroundWidth as real)
         || r.zoom == Unscale(canvasHeight, backgroundHeight as real)
    ensures r.minZoom == r.zoom && r.maxZoom == 100.0 * r.zoom
    ensures 0 <= canvasWidth - 2 * r.zero.x <= 1 && 0 <= canvasHeight - 2 * r.zero.y <= 1
    ensures r.viewport.Location() == ViewportOrigin(r.zero, r.zoom)
    ensures r.viewport.Extent() == ViewportSize(canvasWidth, canvasHeight, r.zoom)
    ensures r.middleDown == v.middleDown && r.oldMousePoint == v.oldMousePoint
  {
    var zoom := FitZoom(canvasWidth, canvasHeight, backgroundWidth, backgroundHeight);
    var zero := Point(TruncDiv(canvasWidth, 2), TruncDiv(canvasHeight, 2));
    var o := ViewportOrigin(zero, zoom);
    var s := ViewportSize(canvasWidth, canvasHeight, zoom);
    v.(zoom := zoom, minZoom := zoom, maxZoom := zoom * 100.0, zero := zero,
       viewport := Rect(o.x, o.y, s.width, s.height))
  }

  /** At the zoom `SetFullDisplay` picks, the scaled background fits inside
      the canvas and fills it along at least one axis. */
  lemma {:induction false} FullDisplayFits(v: ViewerState, canvasWidth: int, canvasHeight: int,
                        backgroundWidth: int, backgroundHeight: int)
    requires canvasWidth > 0 && canvasHeight > 0
    requires backgroundWidth > 0 && backgroundHeight > 0
    ensures var z := SetFullDisplay(v, canvasWidth, canvasHeight, backgroundWidth, backgroundHeight).zoom;
      Scale(backgroundWidth, z) <= canvasWidth as real
      && Scale(backgroundHeight, z) <= canvasHeight as real
      && (Scale(backgroundWidth, z) == canvasWidth as real
          || Scale(backgroundHeight, z) == canvasHeight as real)
  {
    var z := SetFullDisplay(v, canvasWidth, canvasHeight, backgroundWidth, backgroundHeight).zoom;
    FitAxis(canvasWidth, backgroundWidth, z);
    FitAxis(canvasHeight, backgroundHeight, z);
  }

  /** Along one axis: a zoom at most the canvas-to-background ratio scales
      the background to at most the canvas, and the ratio itself exactly. */
  lemma {:induction false} FitAxis(canvas: int, background: int, z: real)
    requires background > 0 && z >= 0.0
    ensures z <= Unscale(canvas, background as real) ==> Scale(background, z) <= canvas as real
    ensures z == Unscale(canvas, background as real) ==> Scale(background, z) == canvas as real
  {
    var b := background as real;
    assert b * (canvas as real / b) == canvas as real;
    if z <= canvas as real / b {
      assert b * z <= b * (canvas as real / b);
    }
  }
}
