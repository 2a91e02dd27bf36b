/** The marquee (`SelectionBox`): a left-button drag in empty space draws
    a rectangle; releasing it selects either the element under the mouse
    (a short drag, a click) or the elements the rectangle covers.

    The box keeps the rectangle of its last drag: a press resets only the
    rectangle's size, so a release with no move in between sees the old
    corner and direction.
 */
module SelectionBox {
  import opened Options
  import opened Geometry
  import opened Input
  import opened PointExtension
  import opened Elements
  import opened Store
  import opened Layers
  import opened SelectionSet
  import Viewer

  datatype Box = Box(rect: Rect, leftToRight: bool, isShow: bool, start: Point, leftDown: bool)

  const InitialBox := Box(EmptyRect, false, false, Point(0, 0), false)

  /** A release closer to the start than this, in document units, is a
      click. */
  const ClickDistance: nat := 15

  /** `MouseDown`: only the left button starts a drag. It records the
      document start point, empties the rectangle's size and shows the box. */
  function MouseDown(b: Box, v: Viewer.ViewerState, e: MouseEvent): (r: Box)
    requires v.zoom != 0.0
    ensures e.button != Left ==> r == b
    ensures e.button == Left ==>
      r.leftDown && r.isShow && r.start == Viewer.MousePointToLocal(v, e.location)
      && r.rect.width == 0 && r.rect.height == 0
      && r.rect.Location() == b.rect.Location() && r.leftToRight == b.leftToRight
  {
    if e.button != Left then b
    else b.(leftDown := true, start := Viewer.MousePointToLocal(v, e.location),
            rect := b.rect.(width := 0, height := 0), isShow := true)
  }

  /** The rectangle spanned by two corner points: the smallest one whose
      closed extent holds both. */
  function Span(a: Point, b: Point): (r: Rect)
    ensures r.width >= 0 && r.height >= 0
    ensures r.x <= a.x && r.x <= b.x && (r.x == a.x || r.x == b.x)
    ensures r.y <= a.y && r.y <= b.y && (r.y == a.y || r.y == b.y)
    ensures r.Right() >= a.x && r.Right() >= b.x && (r.Right() == a.x || r.Right() == b.x)
    ensures r.Bottom() >= a.y && r.Bottom() >= b.y && (r.Bottom() == a.y || r.Bottom() == b.y)
  {
    Rect(if a.x < b.x then a.x else b.x, if a.y < b.y then a.y else b.y,
         if a.x - b.x < 0 then b.x - a.x else a.x - b.x,
         if a.y - b.y < 0 then b.y - a.y else a.y - b.y)
  }

  /** Dragging from `a` to `b` or from `b` to `a` spans the same rectangle. */
  lemma {:induction false} SpanSymmetric(a: Point, b: Point)
    ensures Span(a, b) == Span(b, a)
  {
  }

  /** `MouseMove`: while the left button is down the rectangle is the span
      of the start and the current document point, and the drag counts as
      left-to-right exactly when the start is strictly left of that point. */
  function MouseMove(b: Box, v: Viewer.ViewerState, e: MouseEvent): (r: Box)
    requires v.zoom != 0.0
    ensures !b.leftDown ==> r == b
    ensures b.leftDown ==>
      r.rect == Span(b.start, Viewer.MousePointToLocal(v, e.location))
      && (r.leftToRight <==> b.start.x < Viewer.MousePointToLocal(v, e.location).x)
      && r.(rect := b.rect, leftToRight := b.leftToRight) == b
  {
    if !b.leftDown then b
    else
      var end := Viewer.MousePointToLocal(v, e.location);
      b.(leftToRight := b.start.x < end.x, rect := Span(b.start, end))
  }

  // ---- point select ----

  /** `FirstOrDefault(x => x.Rect.Contains(p))` over one layer: the position
      of the first listed element containing `p`, or `|hs|` for none. */
  function FirstContaining(elems: seq<ObjElement>, hs: seq<nat>, p: Point): (k: nat)
    requires ValidHandles(elems, hs)
    ensures k <= |hs|
    ensures k < |hs| ==> ContainsPoint(elems[hs[k]].rect, p)
    ensures forall j :: 0 <= j < k ==> !ContainsPoint(elems[hs[j]].rect, p)
    decreases |hs|
  {
    if |hs| == 0 then 0
    else if ContainsPoint(elems[hs[0]].rect, p) then 0
    else 1 + FirstContaining(elems, hs[1..], p)
  }

  /** The first active layer, in layer-list order, that has an element
      containing `p`, or `|layers|` for none. Inactive layers are skipped
      whatever they hold; visibility plays no part. */
  function FirstHitLayer(layers: seq<Layer>, elems: seq<ObjElement>, p: Point): (li: nat)
    requires HandlesBelow(layers, |elems|)
    ensures li <= |layers|
    ensures li < |layers| ==>
      layers[li].isActive && FirstContaining(elems, layers[li].elements, p) < |layers[li].elements|
    ensures forall j, k :: 0 <= j < li && layers[j].isActive && 0 <= k < |layers[j].elements| ==>
      !ContainsPoint(elems[layers[j].elements[k]].rect, p)
    decreases |layers|
  {
    if |layers| == 0 then 0
    else if layers[0].isActive && FirstContaining(elems, layers[0].elements, p) < |layers[0].elements| then 0
    else
      var rest := FirstHitLayer(layers[1..], elems, p);
      assert forall j :: 1 <= j < |layers| ==> layers[j] == layers[1..][j - 1];
      1 + rest
  }

  /** The selection before a click or box select: cleared unless exactly
      the Control modifier is held. */
  function Base(m: Marks, controlOnly: bool): (r: Marks)
    requires ValidSelection(m)
    ensures ValidSelection(r)
    ensures controlOnly ==> r == m
    ensures !controlOnly ==> r == ClearSelected(m)
  {
    if controlOnly then m else ClearSelected(m)
  }

  /** The element a click at `p` picks: the first listed element
      containing `p` in the first active layer that has one. */
  function Hit(layers: seq<Layer>, elems: seq<ObjElement>, p: Point): (h: Option<nat>)
    requires HandlesBelow(layers, |elems|)
    ensures h.Some? ==> h.value < |elems|
  {
    var li := FirstHitLayer(layers, elems, p);
    if li == |layers| then None
    else Some(layers[li].elements[FirstContaining(elems, layers[li].elements, p)])
  }

  /** A click hits an element that contains the point, listed in an active
      layer before which no active layer has an element containing it; it
      hits nothing exactly when no element of an active layer contains the
      point. */
  lemma {:induction false} HitMeaning(layers: seq<Layer>, elems: seq<ObjElement>, p: Point)
    requires HandlesBelow(layers, |elems|)
    ensures var h := Hit(layers, elems, p);
      h.Some? ==> ContainsPoint(elems[h.value].rect, p)
    ensures var h := Hit(layers, elems, p);
      h.Some? ==> exists li ::
        && 0 <= li < |layers|
        && layers[li].isActive
        && h.value in layers[li].elements
        && forall j, k :: 0 <= j < li && layers[j].isActive && 0 <= k < |layers[j].elements| ==>
             !ContainsPoint(elems[layers[j].elements[k]].rect, p)
    ensures Hit(layers, elems, p).None? <==>
      forall i, k :: 0 <= i < |layers| && layers[i].isActive && 0 <= k < |layers[i].elements| ==>
        !ContainsPoint(elems[layers[i].elements[k]].rect, p)
  {
    var li := FirstHitLayer(layers, elems, p);
    if li < |layers| {
      var k := FirstContaining(elems, layers[li].elements, p);
      assert layers[li].elements[k] in layers[li].elements;
    }
  }

  /** `PointSelectOver`: at most one element is added, the one the click
      hits, and it becomes the current element; a click on nothing leaves
      the current element as it was. */
  function PointSelectOver(layers: seq<Layer>, m: Marks, controlOnly: bool, p: Point): (r: Marks)
    requires ValidSelection(m) && HandlesBelow(layers, |m.elems|)
    ensures ValidSelection(r) && |r.elems| == |m.elems|
    ensures Hit(layers, m.elems, p).None? ==> r == Base(m, controlOnly)
    ensures Hit(layers, m.elems, p).Some? ==>
      var h := Hit(layers, m.elems, p).value;
      && r.sel.selected == Base(m, controlOnly).sel.selected + [h]
      && r.sel.current == Some(h)
      && r == ClickOn(Base(m, controlOnly), h)
  {
    var base := Base(m, controlOnly);
    match Hit(layers, m.elems, p)
    case None => base
    case Some(h) => ClickOn(base, h)
  }

  /** A click keeps the flags in step with the selection, and leaves a
      non-empty selection with a current member when it hits. */
  lemma {:induction false} PointSelectKeepsFlagsAgree(layers: seq<Layer>, m: Marks, controlOnly: bool, p: Point)
    requires ValidSelection(m) && HandlesBelow(layers, |m.elems|)
    requires FlagsAgree(m) && CurrentInSelection(m.sel)
    ensures FlagsAgree(PointSelectOver(layers, m, controlOnly, p))
    ensures CurrentInSelection(PointSelectOver(layers, m, controlOnly, p).sel)
  {
    var base := Base(m, controlOnly);
    if !controlOnly {
      ClearSelectedKeepsFlagsAgree(m);
    }
    var hit := Hit(layers, m.elems, p);
    if hit.Some? {
      ClickOnFlagsOnly(base, hit.value);
    }
  }

  // ---- box select ----

  /** Whether the box picks an element rectangle: full containment for a
      left-to-right drag, any overlap for a right-to-left one. */
  predicate Picks(leftToRight: bool, box: Rect, r: Rect) {
    if leftToRight then ContainsRect(box, r) else IntersectsWith(r, box)
  }

  /** One layer's matches, in layer order. */
  function Matches(elems: seq<ObjElement>, hs: seq<nat>, box: Rect, leftToRight: bool): (r: seq<nat>)
    requires ValidHandles(elems, hs)
    ensures ValidHandles(elems, r)
    ensures forall h {:trigger h in r} :: h in r <==> h in hs && Picks(leftToRight, box, elems[h].rect)
    decreases |hs|
  {
    if |hs| == 0 then []
    else
      var rest := Matches(elems, hs[1..], box, leftToRight);
      assert forall h :: h in hs <==> h == hs[0] || h in hs[1..];
      if Picks(leftToRight, box, elems[hs[0]].rect) then [hs[0]] + rest else rest
  }

  /** An element is listed by some active layer. */
  ghost predicate InActiveLayer(layers: seq<Layer>, h: nat) {
    exists i :: 0 <= i < |layers| && layers[i].isActive && h in layers[i].elements
  }

  /** What one layer contributes: its matches when it is active, nothing
      otherwise. */
  function LayerMatches(l: Layer, elems: seq<ObjElement>, box: Rect, leftToRight: bool): (r: seq<nat>)
    requires ValidHandles(elems, l.elements)
    ensures ValidHandles(elems, r)
    ensures forall h {:trigger h in r} :: h in r <==> l.isActive && h in l.elements && Picks(leftToRight, box, elems[h].rect)
  {
    if l.isActive then Matches(elems, l.elements, box, leftToRight) else []
  }

  lemma {:induction false} HandlesBelowTail(layers: seq<Layer>, count: nat)
    requires |layers| > 0 && HandlesBelow(layers, count)
    ensures HandlesBelow(layers[1..], count)
    ensures forall h :: h in layers[0].elements ==> h < count
  {
    assert forall i :: 0 <= i < |layers| - 1 ==> layers[1..][i] == layers[i + 1];
  }

  lemma {:induction false} InActiveLayerCons(layers: seq<Layer>, h: nat)
    requires |layers| > 0
    ensures InActiveLayer(layers, h) <==>
      (layers[0].isActive && h in layers[0].elements) || InActiveLayer(layers[1..], h)
  {
    if InActiveLayer(layers, h) {
      var i :| 0 <= i < |layers| && layers[i].isActive && h in layers[i].elements;
      if i > 0 {
        assert layers[1..][i - 1] == layers[i];
      }
    }
    if InActiveLayer(layers[1..], h) {
      var i :| 0 <= i < |layers[1..]| && layers[1..][i].isActive && h in layers[1..][i].elements;
      assert layers[i + 1] == layers[1..][i];
    }
  }

  /** The matches of every active layer, in layer-list order. */
  function Gather(layers: seq<Layer>, elems: seq<ObjElement>, box: Rect, leftToRight: bool): (r: seq<nat>)
    requires HandlesBelow(layers, |elems|)
    ensures ValidHandles(elems, r)
    ensures forall h: nat {:trigger h in r} :: h in r <==> h < |elems| && InActiveLayer(layers, h) && Picks(leftToRight, box, elems[h].rect)
    decreases |layers|
  {
    if |layers| == 0 then []
    else
      HandlesBelowTail(layers, |elems|);
      var here := LayerMatches(layers[0], elems, box, leftToRight);
      var rest := Gather(layers[1..], elems, box, leftToRight);
      ValidHandlesConcat(elems, here, rest);
      assert forall h: nat :: InActiveLayer(layers, h) <==>
        (layers[0].isActive && h in layers[0].elements) || InActiveLayer(layers[1..], h)
      by {
        forall h: nat
          ensures InActiveLayer(layers, h) <==>
            (layers[0].isActive && h in layers[0].elements) || InActiveLayer(layers[1..], h)
        {
          InActiveLayerCons(layers, h);
        }
      }
      here + rest
  }

  /** The loop of `BoxSelectOver`: one `AddSelected` call per active
      layer, in layer-list order. Together they append `Gather` and flag
      exactly the gathered elements. */
  function AddLayers(layers: seq<Layer>, m: Marks, box: Rect, leftToRight: bool): (r: Marks)
    requires ValidSelection(m) && HandlesBelow(layers, |m.elems|)
    ensures ValidSelection(r) && |r.elems| == |m.elems|
    ensures r.sel.selected == m.sel.selected + Gather(layers, m.elems, box, leftToRight)
    ensures r.sel.current == m.sel.current
    ensures forall h :: 0 <= h < |m.elems| ==>
      r.elems[h] == if h in Gather(layers, m.elems, box, leftToRight) then Selected(m.elems[h]) else m.elems[h]
    decreases |layers|
  {
    if |layers| == 0 then m
    else
      HandlesBelowTail(layers, |m.elems|);
      var here := LayerMatches(layers[0], m.elems, box, leftToRight);
      var m1 := AddSelected(m, here);
      var r := AddLayers(layers[1..], m1, box, leftToRight);
      AddSelectedKeepsGather(layers[1..], m, here, box, leftToRight);
      GatherCons(layers, m.elems, box, leftToRight);
      AddLayersStep(m, m1, r, here, Gather(layers[1..], m.elems, box, leftToRight));
      r
  }

  /** `Gather` over a non-empty layer list: the first layer's matches, then
      the rest's. */
  lemma {:induction false} GatherCons(layers: seq<Layer>, elems: seq<ObjElement>, box: Rect, leftToRight: bool)
    requires HandlesBelow(layers, |elems|) && |layers| > 0
    ensures HandlesBelow(layers[1..], |elems|)
    ensures Gather(layers, elems, box, leftToRight)
      == LayerMatches(layers[0], elems, box, leftToRight) + Gather(layers[1..], elems, box, leftToRight)
  {
    HandlesBelowTail(layers, |elems|);
  }

  /** One iteration of `AddLayers`, over the sequences involved: adding
      `here` and then `rest` selects and flags what adding `here + rest`
      does at once. */
  lemma {:induction false} AddLayersStep(m: Marks, m1: Marks, r: Marks, here: seq<nat>, rest: seq<nat>)
    requires |m1.elems| == |m.elems| && |r.elems| == |m.elems|
    requires m1.sel.selected == m.sel.selected + here
    requires forall h :: 0 <= h < |m.elems| ==>
      m1.elems[h] == if h in here then Selected(m.elems[h]) else m.elems[h]
    requires r.sel.selected == m1.sel.selected + rest
    requires forall h :: 0 <= h < |m.elems| ==>
      r.elems[h] == if h in rest then Selected(m1.elems[h]) else m1.elems[h]
    ensures r.sel.selected == m.sel.selected + (here + rest)
    ensures forall h :: 0 <= h < |m.elems| ==>
      r.elems[h] == if h in here + rest then Selected(m.elems[h]) else m.elems[h]
  {
    assert m.sel.selected + here + rest == m.sel.selected + (here + rest);
  }

  /** Flagging elements selected leaves every rectangle, and so the rest of
      the layers' matches, as they were. */
  lemma {:induction false} AddSelectedKeepsGather(layers: seq<Layer>, m: Marks, here: seq<nat>, box: Rect, leftToRight: bool)
    requires ValidSelection(m) && ValidHandles(m.elems, here) && HandlesBelow(layers, |m.elems|)
    ensures Gather(layers, AddSelected(m, here).elems, box, leftToRight) == Gather(layers, m.elems, box, leftToRight)
  {
    var m1 := AddSelected(m, here);
    assert forall h :: 0 <= h < |m.elems| ==> m1.elems[h].rect == m.elems[h].rect;
    SameRectsSameGather(layers, m1.elems, m.elems, box, leftToRight);
  }

  /** Gathering reads only the elements' rectangles. */
  lemma {:induction false} SameRectsSameGather(layers: seq<Layer>, a: seq<ObjElement>, b: seq<ObjElement>,
                                               box: Rect, leftToRight: bool)
    requires |a| == |b| && HandlesBelow(layers, |a|)
    requires forall h :: 0 <= h < |a| ==> a[h].rect == b[h].rect
    ensures Gather(layers, a, box, leftToRight) == Gather(layers, b, box, leftToRight)
    decreases |layers|
  {
    if |layers| > 0 {
      HandlesBelowTail(layers, |a|);
      SameRectsSameMatches(a, b, layers[0].elements, box, leftToRight);
      SameRectsSameGather(layers[1..], a, b, box, leftToRight);
    }
  }

  lemma {:induction false} SameRectsSameMatches(a: seq<ObjElement>, b: seq<ObjElement>, hs: seq<nat>,
                                                box: Rect, leftToRight: bool)
    requires |a| == |b| && ValidHandles(a, hs)
    requires forall h :: 0 <= h < |a| ==> a[h].rect == b[h].rect
    ensures Matches(a, hs, box, leftToRight) == Matches(b, hs, box, leftToRight)
    decreases |hs|
  {
    if |hs| > 0 {
      SameRectsSameMatches(a, b, hs[1..], box, leftToRight);
    }
  }

  /** `BoxSelectOver`: the prior selection is cleared unless exactly
      Control is held; the elements of active layers the box picks are
      appended and flagged; the first selected element (or none) becomes
      current. */
  function BoxSelectOver(layers: seq<Layer>, m: Marks, controlOnly: bool, box: Rect, leftToRight: bool): (r: Marks)
    requires ValidSelection(m) && HandlesBelow(layers, |m.elems|)
    ensures ValidSelection(r) && |r.elems| == |m.elems|
    ensures r.sel.selected == Base(m, controlOnly).sel.selected + Gather(layers, m.elems, box, leftToRight)
    ensures r.sel.current == if |r.sel.selected| > 0 then Some(r.sel.selected[0]) else None
    ensures forall h :: 0 <= h < |m.elems| ==> r.elems[h].rect == m.elems[h].rect
  {
    var base := Base(m, controlOnly);
    BaseKeepsRects(m, controlOnly);
    SameRectsSameGather(layers, base.elems, m.elems, box, leftToRight);
    var added := AddLayers(layers, base, box, leftToRight);
    AddLayersKeepsRects(layers, base, box, leftToRight);
    var r := SetCurrent(added, if |added.sel.selected| > 0 then Some(added.sel.selected[0]) else None);
    SetCurrentKeepsRects(added, if |added.sel.selected| > 0 then Some(added.sel.selected[0]) else None);
    r
  }

  lemma {:induction false} AddLayersKeepsRects(layers: seq<Layer>, m: Marks, box: Rect, leftToRight: bool)
    requires ValidSelection(m) && HandlesBelow(layers, |m.elems|)
    ensures SameButFlags(AddLayers(layers, m, box, leftToRight).elems, m.elems)
    ensures forall h :: 0 <= h < |m.elems| ==> AddLayers(layers, m, box, leftToRight).elems[h].rect == m.elems[h].rect
  {
    var r := AddLayers(layers, m, box, leftToRight).elems;
    var g := Gather(layers, m.elems, box, leftToRight);
    forall h | 0 <= h < |m.elems|
      ensures r[h].(isSelected := m.elems[h].isSelected, isCurrent := m.elems[h].isCurrent) == m.elems[h]
      ensures r[h].rect == m.elems[h].rect
    {
      assert r[h] == if h in g then Selected(m.elems[h]) else m.elems[h];
    }
  }

  lemma {:induction false} SetCurrentKeepsRects(m: Marks, target: Option<nat>)
    requires ValidSelection(m)
    requires target.Some? ==> target.value < |m.elems|
    ensures forall h :: 0 <= h < |m.elems| ==> SetCurrent(m, target).elems[h].rect == m.elems[h].rect
  {
  }

  /** Clearing the selection touches only flags. */
  lemma {:induction false} BaseKeepsRects(m: Marks, controlOnly: bool)
    requires ValidSelection(m)
    ensures |Base(m, controlOnly).elems| == |m.elems|
    ensures SameButFlags(Base(m, controlOnly).elems, m.elems)
    ensures forall h :: 0 <= h < |m.elems| ==> Base(m, controlOnly).elems[h].rect == m.elems[h].rect
  {
    ClearSelectedChangesFlagsOnly(m);
  }

  /** A click changes nothing about the elements but their flags. */
  lemma {:induction false} PointSelectChangesFlagsOnly(layers: seq<Layer>, m: Marks, controlOnly: bool, p: Point)
    requires ValidSelection(m) && HandlesBelow(layers, |m.elems|)
    ensures SameButFlags(PointSelectOver(layers, m, controlOnly, p).elems, m.elems)
  {
    var base := Base(m, controlOnly);
    BaseKeepsRects(m, controlOnly);
    var hit := Hit(layers, m.elems, p);
    if hit.Some? {
      ClickOnFlagsOnly(base, hit.value);
      SameButFlagsTransitive(ClickOn(base, hit.value).elems, base.elems, m.elems);
    }
  }

  /** A box select changes nothing about the elements but their flags. */
  lemma {:induction false} BoxSelectChangesFlagsOnly(layers: seq<Layer>, m: Marks, controlOnly: bool, box: Rect, leftToRight: bool)
    requires ValidSelection(m) && HandlesBelow(layers, |m.elems|)
    ensures SameButFlags(BoxSelectOver(layers, m, controlOnly, box, leftToRight).elems, m.elems)
  {
    var base := Base(m, controlOnly);
    BaseKeepsRects(m, controlOnly);
    var added := AddLayers(layers, base, box, leftToRight);
    AddLayersKeepsRects(layers, base, box, leftToRight);
    var target := if |added.sel.selected| > 0 then Some(added.sel.selected[0]) else None;
    SetCurrentChangesFlagsOnly(added, target);
    SameButFlagsTransitive(added.elems, base.elems, m.elems);
    SameButFlagsTransitive(SetCurrent(added, target).elems, added.elems, m.elems);
  }

  /** A release changes nothing about the elements but their flags. */
  lemma {:induction false} MouseUpChangesFlagsOnly(b: Box, layers: seq<Layer>, m: Marks, v: Viewer.ViewerState, e: MouseEvent, controlOnly: bool)
    requires v.zoom != 0.0
    requires ValidSelection(m) && HandlesBelow(layers, |m.elems|)
    ensures SameButFlags(MouseUp(b, layers, m, v, e, controlOnly).1.elems, m.elems)
  {
    if e.button == Left {
      var end := Viewer.MousePointToLocal(v, e.location);
      if WithinDistance(end, b.start, ClickDistance) {
        PointSelectChangesFlagsOnly(layers, m, controlOnly, end);
      } else {
        BoxSelectChangesFlagsOnly(layers, m, controlOnly, b.rect, b.leftToRight);
      }
    } else {
      assert MouseUp(b, layers, m, v, e, controlOnly).1 == m;
    }
  }

  /** A box select keeps the flags in step with the selection and leaves a
      current member in any non-empty selection. */
  lemma {:induction false} BoxSelectKeepsFlagsAgree(layers: seq<Layer>, m: Marks, controlOnly: bool, box: Rect, leftToRight: bool)
    requires ValidSelection(m) && HandlesBelow(layers, |m.elems|)
    requires FlagsAgree(m)
    ensures FlagsAgree(BoxSelectOver(layers, m, controlOnly, box, leftToRight))
    ensures CurrentInSelection(BoxSelectOver(layers, m, controlOnly, box, leftToRight).sel)
  {
    var base := Base(m, controlOnly);
    if !controlOnly {
      ClearSelectedKeepsFlagsAgree(m);
    }
    var added := AddLayers(layers, base, box, leftToRight);
    var g := Gather(layers, base.elems, box, leftToRight);
    forall h | 0 <= h < |added.elems|
      ensures (added.elems[h].isSelected <==> h in added.sel.selected)
      && (added.elems[h].isCurrent <==> added.sel.current == Some(h))
    {
      assert h in added.sel.selected <==> h in base.sel.selected || h in g;
    }
    SetCurrentKeepsFlagsAgree(added, if |added.sel.selected| > 0 then Some(added.sel.selected[0]) else None);
  }

  /** For elements with a positive extent, whatever a left-to-right drag
      picks a right-to-left drag over the same rectangle picks too. */
  lemma {:induction false} LeftToRightWithinRightToLeft(layers: seq<Layer>, elems: seq<ObjElement>, box: Rect)
    requires HandlesBelow(layers, |elems|)
    ensures forall h :: h in Gather(layers, elems, box, true) && Positive(elems[h].rect) ==>
      h in Gather(layers, elems, box, false)
  {
    forall h | h in Gather(layers, elems, box, true) && Positive(elems[h].rect)
      ensures h in Gather(layers, elems, box, false)
    {
      ContainsImpliesIntersects(box, elems[h].rect);
      IntersectsSymmetric(box, elems[h].rect);
    }
  }

  /** Without a positive extent the inclusion fails: an empty rectangle on
      the left edge of the box is contained in it but does not intersect
      it. */
  lemma {:induction false} EmptyElementOnlyLeftToRight()
    ensures Picks(true, Rect(0, 0, 10, 10), EmptyRect)
    ensures !Picks(false, Rect(0, 0, 10, 10), EmptyRect)
  {
    EmptyContainedButNotIntersecting();
  }

  /** `MouseUp`: only the left button ends a drag. The box is hidden and the
      button released; a release within `ClickDistance` of the start is a
      click at the release point, anything else selects with the box's
      rectangle and direction. */
  function MouseUp(b: Box, layers: seq<Layer>, m: Marks, v: Viewer.ViewerState, e: MouseEvent, controlOnly: bool)
    : (r: (Box, Marks))
    requires v.zoom != 0.0
    requires ValidSelection(m) && HandlesBelow(layers, |m.elems|)
    ensures e.button != Left ==> r == (b, m)
    ensures e.button == Left ==>
      !r.0.leftDown && !r.0.isShow && r.0.(leftDown := b.leftDown, isShow := b.isShow) == b
    ensures e.button == Left ==>
      var end := Viewer.MousePointToLocal(v, e.location);
      r.1 == if WithinDistance(end, b.start, ClickDistance) then PointSelectOver(layers, m, controlOnly, end)
             else BoxSelectOver(layers, m, controlOnly, b.rect, b.leftToRight)
  {
    if e.button != Left then (b, m)
    else
      var b1 := b.(leftDown := false, isShow := false);
      var end := Viewer.MousePointToLocal(v, e.location);
      if WithinDistance(end, b.start, ClickDistance) then (b1, PointSelectOver(layers, m, controlOnly, end))
      else (b1, BoxSelectOver(layers, m, controlOnly, b1.rect, b1.leftToRight))
  }
}
