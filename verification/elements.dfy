/** Selectable diagram elements (`ObjElement`): a rectangle in document
    space, the owning layer, the selection and current flags, the derived
    handle ("joystick") size and the geometry of the handle squares.
 */
module Elements {
  import opened Geometry
  import opened Numerics

  /** The element's payload. Only its identifier matters to the editor. */
  datatype ElementData = ElementData(id: string)

  /** `layer` is the index of the owning layer in the canvas layer list: the
      element's non-owning back-reference. */
  datatype ObjElement = ObjElement(
    id: string,
    data: ElementData,
    rect: Rect,
    layer: nat,
    isSelected: bool,
    isCurrent: bool)

  /** The generic element's constructor: the identifier comes from the data,
      the data is kept, both flags start cleared. The rectangle is the one
      the concrete element's constructor sets. */
  function NewElement(layer: nat, data: ElementData, rect: Rect): (e: ObjElement)
    ensures e.id == data.id && e.data == data
    ensures e.layer == layer && e.rect == rect
    ensures !e.isSelected && !e.isCurrent
  {
    ObjElement(data.id, data, rect, layer, false, false)
  }

  /** `JoystickSize`: one unit of handle side per twenty units of
      width + height, plus one, with C#'s truncating division. */
  function JoystickSize(r: Rect): (s: int)
    ensures r.width + r.height >= 0 ==> 20 * (s - 1) <= r.width + r.height < 20 * s
    ensures r.width + r.height < 0 ==> 20 * (s - 1) - 20 < r.width + r.height <= 20 * (s - 1)
  {
    TruncDiv(r.width + r.height, 20) + 1
  }

  /** Handles are at least one unit wide on any element with a non-negative
      extent. */
  lemma {:induction false} JoystickSizePositive(r: Rect)
    requires r.width >= 0 && r.height >= 0
    ensures JoystickSize(r) >= 1
  {
  }

  function Selected(e: ObjElement): (r: ObjElement)
    ensures r.isSelected
    ensures r.(isSelected := e.isSelected) == e
  {
    e.(isSelected := true)
  }

  function UnSelected(e: ObjElement): (r: ObjElement)
    ensures !r.isSelected
    ensures r.(isSelected := e.isSelected) == e
  {
    e.(isSelected := false)
  }

  function Current(e: ObjElement): (r: ObjElement)
    ensures r.isCurrent
    ensures r.(isCurrent := e.isCurrent) == e
  {
    e.(isCurrent := true)
  }

  function UnCurrent(e: ObjElement): (r: ObjElement)
    ensures !r.isCurrent
    ensures r.(isCurrent := e.isCurrent) == e
  {
    e.(isCurrent := false)
  }

  /** The open interior of a rectangle: all four edges excluded. */
  predicate InInterior(r: Rect, p: Point) {
    r.x < p.x < r.Right() && r.y < p.y < r.Bottom()
  }

  /** The editor's hit zones for the three resize handles it implements,
      for a handle side `s`; every bound is strict. */
  predicate InRightBottomZone(r: Rect, s: int, p: Point) {
    p.x > r.Right() - s && p.y > r.Bottom() - s && p.x < r.Right() && p.y < r.Bottom()
  }

  predicate InRightZone(r: Rect, s: int, p: Point) {
    p.x > r.Right() - s && p.y > r.y + TruncDiv(r.height, 2) - TruncDiv(s, 2)
    && p.x < r.Right() && p.y < r.y + TruncDiv(r.height, 2) + TruncDiv(s, 2)
  }

  predicate InBottomZone(r: Rect, s: int, p: Point) {
    p.x > r.x + TruncDiv(r.width, 2) - TruncDiv(s, 2) && p.y > r.Bottom() - s
    && p.x < r.x + TruncDiv(r.width, 2) + TruncDiv(s, 2) && p.y < r.Bottom()
  }

  /** The eight handle squares of side `JoystickSize` drawn around a
      selected element, in drawing order: top-left, top, top-right, right,
      bottom-right, bottom, bottom-left, left. */
  function HandleSquares(r: Rect): (q: seq<Rect>)
    ensures |q| == 8
    ensures forall i :: 0 <= i < 8 ==> q[i].width == JoystickSize(r) && q[i].height == JoystickSize(r)
    // the corner squares sit in the rectangle's corners
    ensures q[0].Location() == r.Location()
    ensures q[2].Right() == r.Right() && q[2].y == r.y
    ensures q[4].Right() == r.Right() && q[4].Bottom() == r.Bottom()
    ensures q[6].x == r.x && q[6].Bottom() == r.Bottom()
    // the edge squares touch their edge; top and bottom share a column,
    // left and right share a row
    ensures q[1].y == r.y && q[5].Bottom() == r.Bottom() && q[1].x == q[5].x
    ensures q[7].x == r.x && q[3].Right() == r.Right() && q[3].y == q[7].y
    // and the middle squares are centred on their edge to within one unit
    ensures r.width >= 0 && r.height >= 0 ==>
      -1 <= 2 * q[1].x + q[1].width - (2 * r.x + r.width) <= 1
      && -1 <= 2 * q[7].y + q[7].height - (2 * r.y + r.height) <= 1
    // a rectangle at least as large as its handles holds all of them
    ensures r.width >= JoystickSize(r) && r.height >= JoystickSize(r) && JoystickSize(r) >= 0 ==>
      forall i :: 0 <= i < 8 ==> ContainsRect(r, q[i])
  {
    var s := JoystickSize(r);
    var cx := TruncDiv(r.width, 2);
    var cy := TruncDiv(r.height, 2);
    var left := r.x;
    var midX := r.x + (cx - TruncDiv(s, 2));
    var right := r.x + (r.width - s);
    var top := r.y;
    var midY := r.y + (cy - TruncDiv(s, 2));
    var bottom := r.y + (r.height - s);
    [ Rect(left, top, s, s), Rect(midX, top, s, s), Rect(right, top, s, s),
      Rect(right, midY, s, s), Rect(right, bottom, s, s), Rect(midX, bottom, s, s),
      Rect(left, bottom, s, s), Rect(left, midY, s, s) ]
  }

  /** `DrawingJoystick` as geometry: nothing for an unselected element,
      otherwise the eight handle squares (the current flag only picks the
      brush). */
  function JoystickSquares(e: ObjElement): (q: seq<Rect>)
    ensures e.isSelected <==> |q| == 8
    ensures !e.isSelected <==> q == []
  {
    if e.isSelected then HandleSquares(e.rect) else []
  }

  /** The editor's bottom-right hit zone is exactly the open interior of the
      bottom-right square that is drawn. */
  lemma {:induction false} RightBottomZoneIsSquareInterior(r: Rect, p: Point)
    ensures InRightBottomZone(r, JoystickSize(r), p) <==> InInterior(HandleSquares(r)[4], p)
  {
  }

  /** The right and bottom hit zones lie inside the open interiors of the
      right and bottom squares, and fill them when the handle side is even;
      for an odd side they are one unit shorter. */
  lemma {:induction false} EdgeZonesWithinSquares(r: Rect, p: Point)
    ensures InRightZone(r, JoystickSize(r), p) ==> InInterior(HandleSquares(r)[3], p)
    ensures InBottomZone(r, JoystickSize(r), p) ==> InInterior(HandleSquares(r)[5], p)
    ensures JoystickSize(r) % 2 == 0 ==>
      (InRightZone(r, JoystickSize(r), p) <==> InInterior(HandleSquares(r)[3], p))
    ensures JoystickSize(r) % 2 == 0 ==>
      (InBottomZone(r, JoystickSize(r), p) <==> InInterior(HandleSquares(r)[5], p))
  {
    var s := JoystickSize(r);
    var h := TruncDiv(s, 2);
    if s >= 0 {
      assert h + h <= s;
      assert s % 2 == 0 ==> h + h == s;
    } else {
      assert !InRightZone(r, s, p) && !InBottomZone(r, s, p);
      assert !InInterior(HandleSquares(r)[3], p) && !InInterior(HandleSquares(r)[5], p);
    }
  }
}
