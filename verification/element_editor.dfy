/** The `ElementEditor`: the mouse-driven state machine that selects,
    moves and resizes elements, and the removal of the selection into the
    recycle bin.

    A press on a selected element makes it current and, unless the canvas
    is locked, starts a resize when the press is on one of the three
    implemented handles (bottom-right, right, bottom) and a move
    otherwise. A press anywhere else starts a marquee. Moves and resizes
    follow the mouse relative to the last recorded point; a release ends
    every gesture, and ends a marquee by selecting.
 */
module ElementEditor {
  import opened Options
  import opened Geometry
  import opened Input
  import opened Elements
  import opened Store
  import opened Layers
  import opened SelectionSet
  import opened Removal
  import opened PointExtension
  import SelectionBox
  import Viewer

  datatype EditorState = Idle | Selecting | Moving | Transforming

  datatype TransformState = NoHandle | RightBottomHandle | RightHandle | BottomHandle

  /** The editor's own fields: the last recorded document point, the
      gesture and handle in progress, the marquee, and the recycle bin
      keyed by element identifier. */
  datatype Editor = Editor(
    anchor: Point,
    state: EditorState,
    handle: TransformState,
    box: SelectionBox.Box,
    deleted: map<string, nat>)

  const InitialEditor := Editor(Point(0, 0), Idle, NoHandle, SelectionBox.InitialBox, map[])

  /** Everything the editor reads and writes: the layer list, the element
      store with the selection, and the editor. */
  datatype Canvas = Canvas(layers: seq<Layer>, marks: Marks, editor: Editor)

  /** Resizing never makes a side shorter than this. */
  const MinSide: int := 10

  /** Every handle the editor and the layers hold indexes the store, and
      every element's layer exists. */
  predicate Valid(c: Canvas) {
    ValidSelection(c.marks) && HandlesBelow(c.layers, |c.marks.elems|)
    && LayersExist(c.layers, c.marks.elems)
  }

  /** The invariant the editor keeps: valid handles, element flags that
      agree with the selection, and a current element inside any non-empty
      selection. */
  ghost predicate Consistent(c: Canvas) {
    Valid(c) && FlagsAgree(c.marks) && CurrentInSelection(c.marks.sel)
  }

  // ---- press ----

  /** The gesture a press at `p` starts on an element with rectangle `r`:
      the bottom-right handle wins over the right one, which wins over the
      bottom one; anywhere else is a move, which keeps the last handle. */
  function PressGesture(r: Rect, p: Point, last: TransformState): (g: (EditorState, TransformState))
    ensures var s := JoystickSize(r);
      && (g.0 == Transforming <==> InRightBottomZone(r, s, p) || InRightZone(r, s, p) || InBottomZone(r, s, p))
      && (g.0 != Transforming ==> g == (Moving, last))
      && (InRightBottomZone(r, s, p) ==> g.1 == RightBottomHandle)
      && (!InRightBottomZone(r, s, p) && InRightZone(r, s, p) ==> g.1 == RightHandle)
      && (!InRightBottomZone(r, s, p) && !InRightZone(r, s, p) && InBottomZone(r, s, p) ==> g.1 == BottomHandle)
  {
    var s := JoystickSize(r);
    if InRightBottomZone(r, s, p) then (Transforming, RightBottomHandle)
    else if InRightZone(r, s, p) then (Transforming, RightHandle)
    else if InBottomZone(r, s, p) then (Transforming, BottomHandle)
    else (Moving, last)
  }

  /** `MouseDown`. Only the left button acts. The document point is
      recorded; the first selected element containing it becomes current,
      and, unless the canvas is locked, the press starts that element's
      gesture. A press on no selected element starts a marquee. */
  function MouseDown(c: Canvas, v: Viewer.ViewerState, e: MouseEvent, locked: bool): (r: Canvas)
    requires v.zoom != 0.0 && Valid(c)
    ensures Valid(r) && r.layers == c.layers && |r.marks.elems| == |c.marks.elems|
    ensures r.editor.deleted == c.editor.deleted
    ensures e.button != Left ==> r == c
    ensures e.button == Left ==> r.editor.anchor == Viewer.MousePointToLocal(v, e.location)
    ensures e.button == Left ==>
      var p := Viewer.MousePointToLocal(v, e.location);
      var sel := c.marks.sel.selected;
      var k := SelectionBox.FirstContaining(c.marks.elems, sel, p);
      && (k < |sel| ==>
            && ContainsPoint(c.marks.elems[sel[k]].rect, p)
            && r.marks == SetCurrent(c.marks, Some(sel[k]))
            && r.editor.box == c.editor.box
            && (locked ==> r.editor.state == c.editor.state && r.editor.handle == c.editor.handle)
            && (!locked ==> (r.editor.state, r.editor.handle)
                              == PressGesture(c.marks.elems[sel[k]].rect, p, c.editor.handle)))
      && (k == |sel| ==>
            && (forall j :: 0 <= j < |sel| ==> !ContainsPoint(c.marks.elems[sel[j]].rect, p))
            && r.marks == c.marks
            && r.editor.state == Selecting && r.editor.handle == c.editor.handle
            && r.editor.box == SelectionBox.MouseDown(c.editor.box, v, e))
  {
    if e.button != Left then c
    else
      var p := Viewer.MousePointToLocal(v, e.location);
      var ed := c.editor.(anchor := p);
      var sel := c.marks.sel.selected;
      var k := SelectionBox.FirstContaining(c.marks.elems, sel, p);
      if k < |sel| then
        var h := sel[k];
        var m := SetCurrent(c.marks, Some(h));
        if locked then Canvas(c.layers, m, ed)
        else
          var g := PressGesture(c.marks.elems[h].rect, p, c.editor.handle);
          Canvas(c.layers, m, ed.(state := g.0, handle := g.1))
      else
        Canvas(c.layers, c.marks, ed.(state := Selecting, box := SelectionBox.MouseDown(c.editor.box, v, e)))
  }

  /** A press inside the drawn bottom-right handle square of the element it
      lands on starts a bottom-right resize. */
  lemma {:induction false} PressOnCornerHandleResizes(c: Canvas, v: Viewer.ViewerState, e: MouseEvent)
    requires v.zoom != 0.0 && Valid(c) && e.button == Left
    requires var p := Viewer.MousePointToLocal(v, e.location);
      var sel := c.marks.sel.selected;
      var k := SelectionBox.FirstContaining(c.marks.elems, sel, p);
      k < |sel| && InInterior(HandleSquares(c.marks.elems[sel[k]].rect)[4], p)
    ensures MouseDown(c, v, e, false).editor.state == Transforming
    ensures MouseDown(c, v, e, false).editor.handle == RightBottomHandle
  {
    var p := Viewer.MousePointToLocal(v, e.location);
    var sel := c.marks.sel.selected;
    var k := SelectionBox.FirstContaining(c.marks.elems, sel, p);
    RightBottomZoneIsSquareInterior(c.marks.elems[sel[k]].rect, p);
  }

  /** A press keeps the editor consistent; a press on a selected element
      leaves it current. */
  lemma {:induction false} MouseDownKeepsConsistent(c: Canvas, v: Viewer.ViewerState, e: MouseEvent, locked: bool)
    requires v.zoom != 0.0 && Consistent(c)
    ensures Consistent(MouseDown(c, v, e, locked))
  {
    if e.button == Left {
      var p := Viewer.MousePointToLocal(v, e.location);
      var sel := c.marks.sel.selected;
      var k := SelectionBox.FirstContaining(c.marks.elems, sel, p);
      if k < |sel| {
        SetCurrentKeepsFlagsAgree(c.marks, Some(sel[k]));
      }
    }
  }

  // ---- move and resize ----

  /** One element moved by the mouse delta. */
  function MoveBy(dx: int, dy: int): ObjElement -> ObjElement {
    (e: ObjElement) => e.(rect := Offset(e.rect, dx, dy))
  }

  /** Moving `n` times by a delta is one move by `n` times the delta. */
  lemma {:induction false} IterateMove(dx: int, dy: int, n: nat, e: ObjElement)
    ensures Iterate(MoveBy(dx, dy), n, e) == e.(rect := Offset(e.rect, n * dx, n * dy))
    decreases n
  {
    if n > 0 {
      var f := MoveBy(dx, dy);
      IterateMove(dx, dy, n - 1, f(e));
      assert (n - 1) * dx + dx == n * dx && (n - 1) * dy + dy == n * dy;
      OffsetCompose(e.rect, dx, dy, (n - 1) * dx, (n - 1) * dy);
    }
  }

  /** The extent after a resize by the mouse delta through `handle`: the
      bottom-right handle moves both far edges, the right handle only the
      right edge, the bottom handle only the bottom edge; either side is
      then raised to `MinSide` if it fell below it. The location never
      changes. */
  function Resize(handle: TransformState, dx: int, dy: int, r: Rect): (o: Rect)
    ensures o.Location() == r.Location()
    ensures var w := if handle == RightBottomHandle || handle == RightHandle then r.width + dx else r.width;
      o.width >= MinSide && o.width >= w && (o.width == MinSide || o.width == w)
    ensures var h := if handle == RightBottomHandle || handle == BottomHandle then r.height + dy else r.height;
      o.height >= MinSide && o.height >= h && (o.height == MinSide || o.height == h)
  {
    var w := if handle == RightBottomHandle || handle == RightHandle then r.width + dx else r.width;
    var h := if handle == RightBottomHandle || handle == BottomHandle then r.height + dy else r.height;
    Rect(r.x, r.y, if w < MinSide then MinSide else w, if h < MinSide then MinSide else h)
  }

  function ResizeBy(handle: TransformState, dx: int, dy: int): ObjElement -> ObjElement {
    (e: ObjElement) => e.(rect := Resize(handle, dx, dy, e.rect))
  }

  /** A resize that stays clear of the minimum is undone by the opposite
      drag. */
  lemma {:induction false} ResizeUndo(handle: TransformState, dx: int, dy: int, r: Rect)
    requires r.width >= MinSide && r.height >= MinSide
    requires r.width + dx >= MinSide && r.height + dy >= MinSide
    ensures Resize(handle, -dx, -dy, Resize(handle, dx, dy, r)) == r
  {
  }

  /** The clamp: a side dragged below `MinSide` stops exactly there, in
      place; a side the handle does not drag is still raised to `MinSide`
      when it was smaller; and shrinking an element already at the minimum
      changes nothing. */
  lemma {:induction false} ResizeStopsAtMinimum(handle: TransformState, dx: int, dy: int, r: Rect)
    ensures var o := Resize(handle, dx, dy, r);
      && o.Location() == r.Location()
      && ((handle == RightBottomHandle || handle == RightHandle) && r.width + dx < MinSide ==> o.width == MinSide)
      && ((handle == RightBottomHandle || handle == BottomHandle) && r.height + dy < MinSide ==> o.height == MinSide)
      && ((handle == BottomHandle || handle == NoHandle) ==>
            o.width == if r.width < MinSide then MinSide else r.width)
      && ((handle == RightHandle || handle == NoHandle) ==>
            o.height == if r.height < MinSide then MinSide else r.height)
    ensures r.width == MinSide && r.height == MinSide && dx <= 0 && dy <= 0 ==>
      Resize(handle, dx, dy, r) == r
  {
  }

  /** Resizing one or more times keeps the location and leaves both sides
      at least `MinSide`; everything but the rectangle is untouched. */
  lemma {:induction false} IterateResize(handle: TransformState, dx: int, dy: int, n: nat, e: ObjElement)
    requires n >= 1
    ensures var o := Iterate(ResizeBy(handle, dx, dy), n, e);
      o.rect.Location() == e.rect.Location() && o.rect.width >= MinSide && o.rect.height >= MinSide
      && o.(rect := e.rect) == e
    ensures n == 1 ==> Iterate(ResizeBy(handle, dx, dy), n, e) == e.(rect := Resize(handle, dx, dy, e.rect))
    decreases n
  {
    var f := ResizeBy(handle, dx, dy);
    if n > 1 {
      IterateResize(handle, dx, dy, n - 1, f(e));
    } else {
      assert Iterate(f, 0, f(e)) == f(e);
    }
  }

  /** The selected elements moved by a delta, each once per time it is
      listed. */
  function MoveSelection(m: Marks, dx: int, dy: int): (r: Marks)
    requires ValidSelection(m)
    ensures r.sel == m.sel && |r.elems| == |m.elems|
    ensures forall h :: 0 <= h < |m.elems| ==>
      var n := multiset(m.sel.selected)[h];
      r.elems[h] == m.elems[h].(rect := Offset(m.elems[h].rect, n * dx, n * dy))
  {
    var sel := m.sel.selected;
    var elems := ApplyEach(m.elems, sel, MoveBy(dx, dy));
    assert forall h :: 0 <= h < |m.elems| ==>
      elems[h] == m.elems[h].(rect := Offset(m.elems[h].rect, multiset(sel)[h] * dx, multiset(sel)[h] * dy))
    by {
      forall h | 0 <= h < |m.elems| {
        IterateMove(dx, dy, multiset(sel)[h], m.elems[h]);
      }
    }
    m.(elems := elems)
  }

  /** Two moves of the selection are one move by the summed delta, however
      often an element is listed. */
  lemma {:induction false} MoveSelectionCompose(m: Marks, dx1: int, dy1: int, dx2: int, dy2: int, dx: int, dy: int)
    requires ValidSelection(m) && dx == dx1 + dx2 && dy == dy1 + dy2
    ensures MoveSelection(MoveSelection(m, dx1, dy1), dx2, dy2) == MoveSelection(m, dx, dy)
  {
    var a := MoveSelection(MoveSelection(m, dx1, dy1), dx2, dy2);
    var b := MoveSelection(m, dx, dy);
    var counts: multiset<nat> := multiset(m.sel.selected);
    forall h: nat | h < |m.elems|
      ensures a.elems[h] == b.elems[h]
    {
      var n: int := counts[h];
      Distribute(n, dx1, dx2, dx);
      Distribute(n, dy1, dy2, dy);
      OffsetCompose(m.elems[h].rect, n * dx1, n * dy1, n * dx2, n * dy2);
    }
  }

  /** Two elements selected once each move together: the offset between
      them and both extents are kept. */
  lemma {:induction false} MoveKeepsRelativePositions(m: Marks, dx: int, dy: int, a: nat, b: nat)
    requires ValidSelection(m) && a < |m.elems| && b < |m.elems|
    requires multiset(m.sel.selected)[a] == 1 && multiset(m.sel.selected)[b] == 1
    ensures var r := MoveSelection(m, dx, dy).elems;
      && r[a].rect.x - r[b].rect.x == m.elems[a].rect.x - m.elems[b].rect.x
      && r[a].rect.y - r[b].rect.y == m.elems[a].rect.y - m.elems[b].rect.y
      && r[a].rect.Extent() == m.elems[a].rect.Extent() && r[b].rect.Extent() == m.elems[b].rect.Extent()
  {
  }

  /** Multiplication distributes over a sum. */
  lemma {:induction false} Distribute(n: int, a: int, b: int, s: int)
    requires s == a + b
    ensures n * s == n * a + n * b
  {
  }

  /** The selected elements resized through `handle` by a delta, each once
      per time it is listed. */
  function ResizeSelection(m: Marks, handle: TransformState, dx: int, dy: int): (r: Marks)
    requires ValidSelection(m)
    ensures r.sel == m.sel && |r.elems| == |m.elems|
    ensures forall h :: 0 <= h < |m.elems| ==>
      var n := multiset(m.sel.selected)[h];
      var o := r.elems[h];
      && o.(rect := m.elems[h].rect) == m.elems[h]
      && (n == 0 ==> o == m.elems[h])
      && (n == 1 ==> o.rect == Resize(handle, dx, dy, m.elems[h].rect))
      && (n >= 1 ==> o.rect.Location() == m.elems[h].rect.Location()
                     && o.rect.width >= MinSide && o.rect.height >= MinSide)
  {
    var sel := m.sel.selected;
    var elems := ApplyEach(m.elems, sel, ResizeBy(handle, dx, dy));
    assert forall h :: 0 <= h < |m.elems| && multiset(sel)[h] >= 1 ==>
      var o := elems[h];
      && o.(rect := m.elems[h].rect) == m.elems[h]
      && (multiset(sel)[h] == 1 ==> o.rect == Resize(handle, dx, dy, m.elems[h].rect))
      && o.rect.Location() == m.elems[h].rect.Location()
      && o.rect.width >= MinSide && o.rect.height >= MinSide
    by {
      forall h | 0 <= h < |m.elems| && multiset(sel)[h] >= 1 {
        IterateResize(handle, dx, dy, multiset(sel)[h], m.elems[h]);
      }
    }
    m.(elems := elems)
  }

  /** Elements whose layer fields are unchanged still have existing layers. */
  lemma {:induction false} LayersStillExist(layers: seq<Layer>, a: seq<ObjElement>, b: seq<ObjElement>)
    requires LayersExist(layers, b) && |a| == |b|
    requires forall h :: 0 <= h < |a| ==> a[h].layer == b[h].layer
    ensures LayersExist(layers, a)
  {
  }

  /** The mouse delta since the recorded point. */
  function Delta(c: Canvas, v: Viewer.ViewerState, e: MouseEvent): (d: (int, int))
    requires v.zoom != 0.0
    ensures OffsetPoint(c.editor.anchor, d.0, d.1) == Viewer.MousePointToLocal(v, e.location)
  {
    var p := Viewer.MousePointToLocal(v, e.location);
    (p.x - c.editor.anchor.x, p.y - c.editor.anchor.y)
  }

  /** `MouseMove`. Moving: the selection follows the mouse by the delta
      since the recorded point, and the point is recorded again. Resizing:
      likewise through the handle. Selecting: the marquee follows the
      mouse. Idle: nothing. */
  function MouseMove(c: Canvas, v: Viewer.ViewerState, e: MouseEvent): (r: Canvas)
    requires v.zoom != 0.0 && Valid(c)
    ensures Valid(r) && r.layers == c.layers
    ensures r.marks.sel == c.marks.sel
    ensures r.editor.(anchor := c.editor.anchor, box := c.editor.box) == c.editor
    ensures c.editor.state == Idle ==> r == c
    ensures c.editor.state == Selecting ==>
      r.marks == c.marks && r.editor.anchor == c.editor.anchor
      && r.editor.box == SelectionBox.MouseMove(c.editor.box, v, e)
    ensures c.editor.state == Moving || c.editor.state == Transforming ==>
      r.editor.anchor == Viewer.MousePointToLocal(v, e.location) && r.editor.box == c.editor.box
    ensures c.editor.state == Moving ==>
      r.marks == MoveSelection(c.marks, Delta(c, v, e).0, Delta(c, v, e).1)
    ensures c.editor.state == Transforming ==>
      r.marks == ResizeSelection(c.marks, c.editor.handle, Delta(c, v, e).0, Delta(c, v, e).1)
  {
    match c.editor.state
    case Idle => c
    case Selecting => c.(editor := c.editor.(box := SelectionBox.MouseMove(c.editor.box, v, e)))
    case Moving =>
      var d := Delta(c, v, e);
      var m := MoveSelection(c.marks, d.0, d.1);
      LayersStillExist(c.layers, m.elems, c.marks.elems);
      Canvas(c.layers, m, c.editor.(anchor := Viewer.MousePointToLocal(v, e.location)))
    case Transforming =>
      var d := Delta(c, v, e);
      var m := ResizeSelection(c.marks, c.editor.handle, d.0, d.1);
      assert forall h :: 0 <= h < |m.elems| ==> m.elems[h].layer == c.marks.elems[h].layer by {
        forall h | 0 <= h < |m.elems|
          ensures m.elems[h].layer == c.marks.elems[h].layer
        {
          assert m.elems[h].(rect := c.marks.elems[h].rect) == c.marks.elems[h];
        }
      }
      LayersStillExist(c.layers, m.elems, c.marks.elems);
      Canvas(c.layers, m, c.editor.(anchor := Viewer.MousePointToLocal(v, e.location)))
  }

  /** A drag delivered as two moves lands where a single move to the final
      point would have: each move is measured from the point the previous
      one recorded. */
  lemma {:induction false} DragComposes(c: Canvas, v: Viewer.ViewerState, e1: MouseEvent, e2: MouseEvent)
    requires v.zoom != 0.0 && Valid(c) && c.editor.state == Moving
    ensures MouseMove(MouseMove(c, v, e1), v, e2) == MouseMove(c, v, e2)
  {
    var p1 := Viewer.MousePointToLocal(v, e1.location);
    var p2 := Viewer.MousePointToLocal(v, e2.location);
    var d1 := Delta(c, v, e1);
    var m1 := MoveSelection(c.marks, d1.0, d1.1);
    var c1 := MouseMove(c, v, e1);
    MoveStep(c, v, e1);
    assert c1 == Canvas(c.layers, m1, c.editor.(anchor := p1));
    MoveStep(c1, v, e2);
    MoveStep(c, v, e2);
    var d2 := Delta(c1, v, e2);
    var d := Delta(c, v, e2);
    MoveSelectionCompose(c.marks, d1.0, d1.1, d2.0, d2.1, d.0, d.1);
    assert c1.editor.(anchor := p2) == c.editor.(anchor := p2);
  }

  /** One move while dragging, spelled out. */
  lemma {:induction false} MoveStep(c: Canvas, v: Viewer.ViewerState, e: MouseEvent)
    requires v.zoom != 0.0 && Valid(c) && c.editor.state == Moving
    ensures var d := Delta(c, v, e);
      var p := Viewer.MousePointToLocal(v, e.location);
      && d == (p.x - c.editor.anchor.x, p.y - c.editor.anchor.y)
      && MouseMove(c, v, e) == Canvas(c.layers, MoveSelection(c.marks, d.0, d.1), c.editor.(anchor := p))
  {
  }

  /** Moves and resizes change rectangles only, so they keep the editor
      consistent. */
  lemma {:induction false} MouseMoveKeepsConsistent(c: Canvas, v: Viewer.ViewerState, e: MouseEvent)
    requires v.zoom != 0.0 && Consistent(c)
    ensures Consistent(MouseMove(c, v, e))
  {
    var r := MouseMove(c, v, e);
    if c.editor.state == Transforming {
      forall h | 0 <= h < |c.marks.elems|
        ensures r.marks.elems[h].isSelected == c.marks.elems[h].isSelected
        && r.marks.elems[h].isCurrent == c.marks.elems[h].isCurrent
      {
        assert r.marks.elems[h].(rect := c.marks.elems[h].rect) == c.marks.elems[h];
      }
    }
  }

  // ---- release ----

  /** `MouseUp`: a marquee in progress hands the release to the marquee,
      which selects; every release returns the editor to idle. */
  function MouseUp(c: Canvas, v: Viewer.ViewerState, e: MouseEvent, controlOnly: bool): (r: Canvas)
    requires v.zoom != 0.0 && Valid(c)
    ensures Valid(r) && r.layers == c.layers && |r.marks.elems| == |c.marks.elems|
    ensures r.editor.state == Idle
    ensures r.editor.(state := c.editor.state, box := c.editor.box) == c.editor
    ensures c.editor.state != Selecting ==> r.marks == c.marks && r.editor.box == c.editor.box
    ensures c.editor.state == Selecting ==>
      (r.editor.box, r.marks) == SelectionBox.MouseUp(c.editor.box, c.layers, c.marks, v, e, controlOnly)
  {
    if c.editor.state == Selecting then
      var up := SelectionBox.MouseUp(c.editor.box, c.layers, c.marks, v, e, controlOnly);
      SelectionBox.MouseUpChangesFlagsOnly(c.editor.box, c.layers, c.marks, v, e, controlOnly);
      SameButFlagsFields(up.1.elems, c.marks.elems);
      LayersStillExist(c.layers, up.1.elems, c.marks.elems);
      Canvas(c.layers, up.1, c.editor.(box := up.0, state := Idle))
    else
      c.(editor := c.editor.(state := Idle))
  }

  /** A release keeps the editor consistent. */
  lemma {:induction false} MouseUpKeepsConsistent(c: Canvas, v: Viewer.ViewerState, e: MouseEvent, controlOnly: bool)
    requires v.zoom != 0.0 && Consistent(c)
    ensures Consistent(MouseUp(c, v, e, controlOnly))
  {
    if c.editor.state == Selecting && e.button == Left {
      var end := Viewer.MousePointToLocal(v, e.location);
      if WithinDistance(end, c.editor.box.start, SelectionBox.ClickDistance) {
        SelectionBox.PointSelectKeepsFlagsAgree(c.layers, c.marks, controlOnly, end);
      } else {
        SelectionBox.BoxSelectKeepsFlagsAgree(c.layers, c.marks, controlOnly, c.editor.box.rect, c.editor.box.leftToRight);
      }
    }
  }

  // ---- removal ----

  /** How `RemoveSelectElements` ends: normally, or with the exception
      `Dictionary.Add` throws for an identifier already in the bin; the
      exception leaves the removals made before it, the selection is then
      not cleared. */
  datatype RemoveOutcome = Removed(canvas: Canvas) | DuplicateId(canvas: Canvas, id: string)

  /** `RemoveSelectElements`: each selected element is taken out of its
      layer and filed in the recycle bin, then the selection is cleared.
      The current element is left as it was. */
  function RemoveSelectElements(c: Canvas): (r: RemoveOutcome)
    requires Valid(c)
    ensures Valid(r.canvas) && |r.canvas.layers| == |c.layers| && |r.canvas.marks.elems| == |c.marks.elems|
    ensures r.canvas.editor.(deleted := c.editor.deleted) == c.editor
    ensures r.Removed? ==> r.canvas.marks == ClearSelected(c.marks)
    ensures r.DuplicateId? ==> r.canvas.marks == c.marks
  {
    var sel := c.marks.sel.selected;
    var run := RemoveLoop(Bin(c.layers, c.editor.deleted), c.marks.elems, sel, 0);
    RemoveLoopKeepsHandles(Bin(c.layers, c.editor.deleted), c.marks.elems, sel, 0);
    var c1 := Canvas(run.0.layers, c.marks, c.editor.(deleted := run.0.deleted));
    match run.1
    case Finished => Removed(c1.(marks := ClearSelected(c.marks)))
    case Clash(_, id) => DuplicateId(c1, id)
  }

  /** The outcome's layers, bin and failing id are those of the loop run. */
  lemma {:induction false} RemoveRun(c: Canvas)
    requires Valid(c)
    ensures var run := RemoveLoop(Bin(c.layers, c.editor.deleted), c.marks.elems, c.marks.sel.selected, 0);
      var r := RemoveSelectElements(c);
      && r.canvas.layers == run.0.layers
      && r.canvas.editor.deleted == run.0.deleted
      && (r.Removed? <==> run.1 == Finished)
      && (r.DuplicateId? ==> r.id == run.1.id)
  {
  }

  /** Unlisting only removes handles, so every remaining one still indexes
      the store. */
  lemma {:induction false} RemoveLoopKeepsHandles(b: Bin, elems: seq<ObjElement>, items: seq<nat>, from: nat)
    requires LayersExist(b.layers, elems) && HandlesBelow(b.layers, |elems|)
    requires forall i :: 0 <= i < |items| ==> items[i] < |elems|
    ensures HandlesBelow(RemoveLoop(b, elems, items, from).0.layers, |elems|)
    decreases |items|
  {
    if |items| > 0 {
      var h := items[0];
      var l := elems[h].layer;
      var layers := Unlist(b.layers, elems, h);
      UnlistEffect(b.layers, elems, h);
      assert HandlesBelow(layers, |elems|) by {
        forall i, k | 0 <= i < |layers| && 0 <= k < |layers[i].elements|
          ensures layers[i].elements[k] < |elems|
        {
          if i == l {
            var s := b.layers[l].elements;
            assert layers[i].elements[k] == if k < FirstIndex(s, h) then s[k] else s[k + 1];
          }
        }
      }
      var id := elems[h].id;
      if id !in b.deleted {
        RemoveLoopKeepsHandles(Bin(layers, b.deleted[id := h]), elems, items[1..], from + 1);
      }
    }
  }

  /** The selected identifiers are all new to the bin and pairwise
      distinct. */
  ghost predicate FreshIds(c: Canvas)
    requires Valid(c)
  {
    var sel := c.marks.sel.selected;
    (forall i :: 0 <= i < |sel| ==> c.marks.elems[sel[i]].id !in c.editor.deleted)
    && (forall i, j :: 0 <= i < j < |sel| ==> c.marks.elems[sel[i]].id != c.marks.elems[sel[j]].id)
  }

  /** Removal completes exactly when the selected identifiers are fresh and
      distinct; an element listed twice always makes it throw. */
  lemma {:induction false} RemoveSucceedsIffFresh(c: Canvas)
    requires Valid(c)
    ensures RemoveSelectElements(c).Removed? <==> FreshIds(c)
  {
    var sel := c.marks.sel.selected;
    var b := Bin(c.layers, c.editor.deleted);
    RemoveLoopFilesAlone(b, c.marks.elems, sel, 0);
    if RemoveLoop(b, c.marks.elems, sel, 0).1 == Finished {
      FileLoopFresh(c.editor.deleted, c.marks.elems, sel, 0);
    }
    FileLoopClash(c.editor.deleted, c.marks.elems, sel, 0);
  }

  /** A completed removal files every selected element under its
      identifier and keeps what the bin held; the selection is emptied and
      the current element kept. */
  lemma {:induction false} RemoveCompletedFiles(c: Canvas)
    requires Valid(c)
    requires RemoveSelectElements(c).Removed?
    ensures var r := RemoveSelectElements(c).canvas;
      var sel := c.marks.sel.selected;
      && r.editor.deleted.Keys == c.editor.deleted.Keys + Ids(c.marks.elems, sel)
      && (forall i :: 0 <= i < |sel| ==> r.editor.deleted[c.marks.elems[sel[i]].id] == sel[i])
      && (forall k :: k in c.editor.deleted ==> r.editor.deleted[k] == c.editor.deleted[k])
      && r.marks.sel == Selection([], c.marks.sel.current)
  {
    var sel := c.marks.sel.selected;
    var b := Bin(c.layers, c.editor.deleted);
    var run := RemoveLoop(b, c.marks.elems, sel, 0);
    RemoveLoopFilesAlone(b, c.marks.elems, sel, 0);
    assert run.1 == Finished;
    FileLoopFiles(c.editor.deleted, c.marks.elems, sel, 0);
    FileLoopKeys(c.editor.deleted, c.marks.elems, sel, 0);
  }

  /** A completed removal has unlisted every selected element. */
  lemma {:induction false} RemoveCompletedUnlists(c: Canvas)
    requires Valid(c)
    requires RemoveSelectElements(c).Removed?
    ensures RemoveSelectElements(c).canvas.layers == UnlistAll(c.layers, c.marks.elems, c.marks.sel.selected)
    ensures SameButFlags(RemoveSelectElements(c).canvas.marks.elems, c.marks.elems)
  {
    var sel := c.marks.sel.selected;
    var b := Bin(c.layers, c.editor.deleted);
    var run := RemoveLoop(b, c.marks.elems, sel, 0);
    RemoveLoopLayers(b, c.marks.elems, sel, 0);
    assert run.1 == Finished;
    assert sel[..|sel|] == sel;
    ClearSelectedChangesFlagsOnly(c.marks);
  }

  /** In a well-formed store, a completed removal leaves the store well
      formed. */
  lemma {:induction false} RemoveCompletedWellFormed(c: Canvas)
    requires Valid(c) && WellFormed(Scene(c.layers, c.marks.elems))
    requires RemoveSelectElements(c).Removed?
    ensures var r := RemoveSelectElements(c).canvas;
      WellFormed(Scene(r.layers, r.marks.elems))
  {
    var r := RemoveSelectElements(c).canvas;
    RemoveCompletedUnlists(c);
    UnlistAllWellFormed(c.layers, c.marks.elems, c.marks.sel.selected);
    SameButFlagsFields(r.marks.elems, c.marks.elems);
    WellFormedByLayers(r.layers, r.marks.elems, c.marks.elems);
  }

  /** In a well-formed store, a completed removal leaves each layer with
      exactly its unselected elements. */
  lemma {:induction false} RemoveCompletedLayers(c: Canvas)
    requires Valid(c) && WellFormed(Scene(c.layers, c.marks.elems))
    requires RemoveSelectElements(c).Removed?
    ensures var r := RemoveSelectElements(c).canvas;
      forall i: nat, y: nat :: i < |c.layers| ==>
        (y in r.layers[i].elements <==> y in c.layers[i].elements && y !in c.marks.sel.selected)
  {
    var sel := c.marks.sel.selected;
    var r := RemoveSelectElements(c).canvas;
    RemoveCompletedUnlists(c);
    UnlistAllLeavesRest(c.layers, c.marks.elems, sel);
  }

  /** A removal that throws reports the identifier of the selected element
      it stopped at, which was already filed; the elements up to and
      including that one are out of their layers, those before it are
      filed, and the selection is kept. */
  lemma {:induction false} RemoveInterrupted(c: Canvas)
    requires Valid(c)
    requires RemoveSelectElements(c).DuplicateId?
    ensures var r := RemoveSelectElements(c);
      var sel := c.marks.sel.selected;
      exists at :: 0 <= at < |sel|
        && r.id == c.marks.elems[sel[at]].id
        && (r.id in c.editor.deleted || exists i :: 0 <= i < at && c.marks.elems[sel[i]].id == r.id)
        && r.canvas.layers == UnlistAll(c.layers, c.marks.elems, sel[..at + 1])
        && (forall i :: 0 <= i < at ==>
              c.marks.elems[sel[i]].id in r.canvas.editor.deleted
              && r.canvas.editor.deleted[c.marks.elems[sel[i]].id] == sel[i])
  {
    var sel := c.marks.sel.selected;
    var b := Bin(c.layers, c.editor.deleted);
    var run := RemoveLoop(b, c.marks.elems, sel, 0);
    RemoveRun(c);
    RemoveLoopInterrupted(b, c.marks.elems, sel);
    var r := RemoveSelectElements(c);
    StoppedAt(c.layers, c.editor.deleted, c.marks.elems, sel, r.id, r.canvas.layers, r.canvas.editor.deleted, run.1.at);
  }

  /** The clash position is a witness of the interrupted-removal outcome. */
  lemma {:induction false} StoppedAt(layers: seq<Layer>, deleted: map<string, nat>, elems: seq<ObjElement>,
                                     sel: seq<nat>, id: string, after: seq<Layer>, filed: map<string, nat>, at: nat)
    requires forall i :: 0 <= i < |sel| ==> sel[i] < |elems|
    requires at < |sel| && id == elems[sel[at]].id
    requires id in deleted || exists i :: 0 <= i < at && elems[sel[i]].id == id
    requires LayersExist(layers, elems) && after == UnlistAll(layers, elems, sel[..at + 1])
    requires forall i :: 0 <= i < at ==> elems[sel[i]].id in filed && filed[elems[sel[i]].id] == sel[i]
    ensures exists at ::
      && 0 <= at < |sel|
      && id == elems[sel[at]].id
      && (id in deleted || exists i :: 0 <= i < at && elems[sel[i]].id == id)
      && after == UnlistAll(layers, elems, sel[..at + 1])
      && (forall i :: 0 <= i < at ==> elems[sel[i]].id in filed && filed[elems[sel[i]].id] == sel[i])
  {
  }
}
