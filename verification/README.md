# Canvas interaction core, modelled in Dafny

This project models the interaction core of a WinForms diagram canvas:

- the element editor's mouse state machine (press, move, resize, release), its selection bookkeeping, the removal of the selection into the recycle bin, and the batch layout commands (six alignments, three same-size commands, even horizontal and vertical spacing);
- the marquee (`SelectionBox`), with point select and box select;
- the viewport transform (`Viewer`): pan, wheel zoom, `SetZoom`, `SetZero`, `SetFullDisplay`, the local/show conversions and the culling test;
- the data model: `ObjElement` with its flags, `JoystickSize` and handle squares, `Layer` registration, and the `Point` helpers.

Elements are shared by reference in the source: a layer's `Elements` list, the editor's `SelectedElements` and its `DeletedElems` bin all point at the same objects. The model keeps every element in one sequence and calls an element's index its handle. Layers, the selection, the current element and the bin hold handles. A `list.ForEach(x => x.Update())` becomes `Store.ApplyEach`, which updates an element once per occurrence of its handle. A handle listed twice is therefore updated twice, exactly as in the source.

C# arithmetic is written out:

- `/` on `int` truncates toward zero (`Numerics.TruncDiv`);
- an `(int)` cast of a floating value truncates toward zero (`Numerics.Trunc`);
- `Math.Round(x, 0)` rounds half to even (`Numerics.RoundHalfEven`).

The zoom factor is an exact real, not a single-precision float. `SetZoom` stores any value, so the handlers accept any non-zero zoom, negative ones included. The zoom range is always positive: only the constructor and `SetFullDisplay` write it.

Events from the surrounding control are parameters:

- the mouse event (button, location, wheel delta);
- `controlOnly`, for "exactly the Control modifier is held";
- `locked`, for `Canvas.IsLocked`;
- the canvas and background sizes.

The modules follow the source's classes and the library types they use:

- `Elements`, `Layers`, `SelectionBox`, `Viewer` and `PointExtension` follow the classes of the same names;
- `ElementEditor` is split: `SelectionSet` holds its selection bookkeeping, `Layout` its Align/Same/Space commands, `Removal` the loop of `RemoveSelectElements`, and `ElementEditor` its mouse handlers and `RemoveSelectElements` itself;
- `Geometry` follows System.Drawing's `Point`, `Size` and `Rectangle`; `Numerics` follows C#'s integer division, casts and `Math.Round`; `Sorting` follows LINQ's `OrderBy`; `Store` follows `List.ForEach` over shared elements.

Where a source operation can fail, it returns an outcome datatype:

- a layout command with no current element fails with a null dereference (`Layout.LayoutOutcome.NullCurrent`);
- `Dictionary.Add` throws on an identifier already in the bin (`ElementEditor.RemoveOutcome.DuplicateId`).

The source draws eight handle squares around a selected element, but a press resizes only through three of them: bottom-right, right and bottom. The zone tests use strict comparisons and truncating division, and they are checked in the order bottom-right, right, bottom (`ElementEditor.PressGesture`). A press anywhere else on a selected element starts a move.

## Model

| member | source | states |
|---|---|---|
| Geometry.Offset | CanvasDemo/CanvasDemo/Canvas/ElementEditor.cs:106 | `Rectangle.Offset` translates by exactly the delta on both axes, moves the right and bottom edges by the same amount, and keeps the extent |
| Geometry.OffsetPoint | CanvasDemo/CanvasDemo/Canvas/Viewer.cs:102 | `Point.Offset` moves the point by exactly the delta |
| Geometry.OffsetCompose | CanvasDemo/CanvasDemo/Canvas/ElementEditor.cs:106-107 | two successive offsets equal one offset by the summed delta |
| Geometry.IntersectsSymmetric | CanvasDemo/CanvasDemo/Canvas/SelectionBox.cs:165 | `IntersectsWith` does not depend on argument order |
| Geometry.IntersectsIffCommonPoint | CanvasDemo/CanvasDemo/Canvas/Viewer.cs:220-224 | for rectangles of positive extent, strict intersection holds exactly when some point is contained (half-open) in both |
| Geometry.ContainsImpliesIntersects | CanvasDemo/CanvasDemo/Canvas/SelectionBox.cs:164-165 | a positive rectangle contained in another one also intersects it |
| Geometry.EmptyContainedButNotIntersecting | CanvasDemo/CanvasDemo/Canvas/SelectionBox.cs:164-165 | counterexample: an empty rectangle on the box edge is contained but does not intersect, so positivity is needed above |
| Numerics.TruncDiv | CanvasDemo/CanvasDemo/Canvas/ObjectElement.cs:50 | C# integer division by a positive divisor: the remainder has the dividend's sign and is smaller than the divisor |
| Numerics.Trunc | CanvasDemo/CanvasDemo/Canvas/Viewer.cs:241-242 | an `(int)` cast lands within one unit of the value, on the zero side |
| Numerics.RoundHalfEven | CanvasDemo/CanvasDemo/Canvas/Viewer.cs:316 | `Math.Round(x, 0)` is within one half of `x`, and an exact tie goes to the even neighbour |
| Numerics.TruncMonotone | CanvasDemo/CanvasDemo/Canvas/ElementEditor.cs:394 | truncation keeps the order of its arguments |
| PointExtension.ToPoint | CanvasDemo/CanvasDemo/Extension/PointExtension.cs:16-21 | the copy equals its source |
| PointExtension.Subtract | CanvasDemo/CanvasDemo/Extension/PointExtension.cs:29-32 | offsetting `pt` by the difference gives back `source` |
| PointExtension.SubtractSelf | CanvasDemo/CanvasDemo/Extension/PointExtension.cs:29-32 | a point minus itself is the zero size |
| PointExtension.SquaredDistance | CanvasDemo/CanvasDemo/Extension/PointExtension.cs:40-43 | the squared distance is non-negative and is zero exactly on identical points |
| PointExtension.DistanceSymmetric | CanvasDemo/CanvasDemo/Extension/PointExtension.cs:40-43 | the distance, and the click test at 15 units, do not depend on argument order |
| PointExtension.WithinIffSqrtBelow | CanvasDemo/CanvasDemo/Extension/PointExtension.cs:42 | for the non-negative square root `Math.Sqrt` computes, `Distance < limit` holds exactly when `dx² + dy² < limit²` over the integers |
| Elements.NewElement | CanvasDemo/CanvasDemo/Canvas/ObjectElement.cs:18-21 | a new element takes its Id from the data, keeps the data and its layer, and starts neither selected nor current |
| Elements.JoystickSize | CanvasDemo/CanvasDemo/Canvas/ObjectElement.cs:50 | the handle side grows by one for each full twenty units of width plus height, starting at one (truncating for negative sums) |
| Elements.JoystickSizePositive | CanvasDemo/CanvasDemo/Canvas/ObjectElement.cs:50 | an element with non-negative extent has a handle side of at least 1 |
| Elements.Selected | CanvasDemo/CanvasDemo/Canvas/ObjectElement.cs:61-65 | sets the selected flag and changes nothing else |
| Elements.UnSelected | CanvasDemo/CanvasDemo/Canvas/ObjectElement.cs:74-78 | clears the selected flag and changes nothing else |
| Elements.Current | CanvasDemo/CanvasDemo/Canvas/ObjectElement.cs:84-88 | sets the current flag and changes nothing else |
| Elements.UnCurrent | CanvasDemo/CanvasDemo/Canvas/ObjectElement.cs:94-98 | clears the current flag and changes nothing else |
| Elements.HandleSquares | CanvasDemo/CanvasDemo/Canvas/ObjectElement.cs:113-127 | eight squares of side `JoystickSize`: the four corner squares sit in the rectangle's corners; the edge squares touch their edge and are centred on it to within one unit; a rectangle at least as large as its handle side contains all eight |
| Elements.JoystickSquares | CanvasDemo/CanvasDemo/Canvas/ObjectElement.cs:109-127 | nothing is drawn for an unselected element; a selected one gets all eight squares |
| Elements.RightBottomZoneIsSquareInterior | CanvasDemo/CanvasDemo/Canvas/ElementEditor.cs:68 | the editor's bottom-right hit zone is exactly the open interior of the drawn bottom-right square (ObjectElement.cs line 124) |
| Elements.EdgeZonesWithinSquares | CanvasDemo/CanvasDemo/Canvas/ElementEditor.cs:73-80 | the right and bottom hit zones lie inside the interiors of the drawn right and bottom squares, and equal them when the handle side is even |
| Layers.NewLayer | CanvasDemo/CanvasDemo/Canvas/Layer.cs:22-37 | a new layer has its name, no elements, is inactive, visible and not an interaction layer |
| Layers.RegisterLayer | CanvasDemo/CanvasDemo/Canvas/Layer.cs:44-49 | the constructor appends the new layer to the layer list and keeps every earlier layer and element |
| Layers.RegistrationOrder | CanvasDemo/CanvasDemo/Canvas/Layer.cs:44-49 | constructing layers in turn (`Layers.RegisterLayers`, one `Layer` constructor per name) leaves them in construction order after the existing ones, and keeps the elements |
| Layers.AddElement | CanvasDemo/CanvasDemo/Canvas/ObjectElement.cs:52-56 | the element constructor records the layer and appends the new handle to that layer's list only |
| Layers.AddElementWellFormed | CanvasDemo/CanvasDemo/Canvas/ObjectElement.cs:52-56 | construction keeps the store well formed, and the new element is listed exactly once in its own layer and in no other |
| Layers.WellFormedByLayers | CanvasDemo/CanvasDemo/Canvas/ObjectElement.cs:35 | well-formedness depends only on each element's layer back-reference |
| Store.ApplyEach | CanvasDemo/CanvasDemo/Canvas/ElementEditor.cs:106 | `ForEach` over a handle list updates each element as many times as its handle is listed and leaves unlisted elements alone |
| Store.IterateIdempotent | CanvasDemo/CanvasDemo/Canvas/ElementEditor.cs:170 | an idempotent update has the same effect however many times (at least once) it is applied |
| Store.ApplyEachConcat | CanvasDemo/CanvasDemo/Canvas/SelectionBox.cs:161-166 | two `ForEach` loops in a row are one loop over the concatenated list |
| SelectionSet.ClearSelected | CanvasDemo/CanvasDemo/Canvas/ElementEditor.cs:168-172 | every element that was in the list is unflagged, the list is empty, the current element is kept, and nothing else changes |
| SelectionSet.AddSelected | CanvasDemo/CanvasDemo/Canvas/ElementEditor.cs:189-195 | the handles are appended as given, duplicates included; each added element is flagged and nothing else changes |
| SelectionSet.SetCurrent | CanvasDemo/CanvasDemo/Canvas/ElementEditor.cs:178-183 | the old current element loses its flag and the new one gains it; "none" is allowed on either side; nothing else changes |
| SelectionSet.ClearSelectedKeepsFlagsAgree | CanvasDemo/CanvasDemo/Canvas/ElementEditor.cs:168-172 | if the flags agreed with the selection before, they still agree, and the empty selection trivially holds its current element |
| SelectionSet.AddSelectedKeepsFlagsAgree | CanvasDemo/CanvasDemo/Canvas/ElementEditor.cs:189-192 | adding keeps the flags in step with the list |
| SelectionSet.SetCurrentKeepsFlagsAgree | CanvasDemo/CanvasDemo/Canvas/ElementEditor.cs:178-183 | changing the current element keeps exactly one element (or none) flagged current |
| SelectionSet.SameButFlagsTransitive | CanvasDemo/CanvasDemo/Canvas/SelectionBox.cs:147-148 | "differs only in the flags" composes across successive selection steps |
| SelectionSet.SameButFlagsFields | CanvasDemo/CanvasDemo/Canvas/SelectionBox.cs:147-148 | stores that differ only in the flags have the same rectangles, layers and Ids |
| SelectionSet.ClearSelectedChangesFlagsOnly | CanvasDemo/CanvasDemo/Canvas/ElementEditor.cs:168-172 | clearing never moves, resizes or re-parents an element |
| SelectionSet.AddSelectedChangesFlagsOnly | CanvasDemo/CanvasDemo/Canvas/ElementEditor.cs:189-192 | adding never moves, resizes or re-parents an element |
| SelectionSet.SetCurrentChangesFlagsOnly | CanvasDemo/CanvasDemo/Canvas/ElementEditor.cs:178-183 | setting the current element never moves, resizes or re-parents an element |
| SelectionSet.ClickOn | CanvasDemo/CanvasDemo/Canvas/SelectionBox.cs:147-148 | a click on an element appends it to the selection and makes it current |
| SelectionSet.ClickOnFlagsOnly | CanvasDemo/CanvasDemo/Canvas/SelectionBox.cs:147-148 | a click changes only flags, and keeps the flags in step with the selection |
| SelectionBox.MouseDown | CanvasDemo/CanvasDemo/Canvas/SelectionBox.cs:69-78 | a non-left press changes nothing; a left press records the document start point, zeroes the rectangle's size and keeps its corner, and shows the box with the button down |
| SelectionBox.Span | CanvasDemo/CanvasDemo/Canvas/SelectionBox.cs:95-99 | the drag rectangle is the smallest one whose edges reach both corner points |
| SelectionBox.SpanSymmetric | CanvasDemo/CanvasDemo/Canvas/SelectionBox.cs:95-99 | dragging either way between two points spans the same rectangle |
| SelectionBox.MouseMove | CanvasDemo/CanvasDemo/Canvas/SelectionBox.cs:84-100 | nothing happens unless the left button is down; otherwise the rectangle spans start and current point, and the drag is left-to-right exactly when `start.X < end.X` |
| SelectionBox.FirstContaining | CanvasDemo/CanvasDemo/Canvas/SelectionBox.cs:142 | `FirstOrDefault(Contains)`: the position of an element containing the point with no earlier one containing it, or none |
| SelectionBox.FirstHitLayer | CanvasDemo/CanvasDemo/Canvas/SelectionBox.cs:140-145 | the first active layer holding an element that contains the point; no earlier active layer holds one; inactive layers never count |
| SelectionBox.Base | CanvasDemo/CanvasDemo/Canvas/SelectionBox.cs:136 | the prior selection is cleared unless exactly Control is held |
| SelectionBox.HitMeaning | CanvasDemo/CanvasDemo/Canvas/SelectionBox.cs:140-145 | the clicked element contains the point and is listed by an active layer before which no active layer holds one; nothing is hit exactly when no element of an active layer contains the point |
| SelectionBox.PointSelectOver | CanvasDemo/CanvasDemo/Canvas/SelectionBox.cs:133-151 | at most one element is added, the one hit, and it becomes current; a click on nothing only applies the Control rule |
| SelectionBox.PointSelectKeepsFlagsAgree | CanvasDemo/CanvasDemo/Canvas/SelectionBox.cs:133-151 | a click keeps the flags in step and keeps the current element inside a non-empty selection |
| SelectionBox.PointSelectChangesFlagsOnly | CanvasDemo/CanvasDemo/Canvas/SelectionBox.cs:133-151 | a click never moves, resizes or re-parents an element |
| SelectionBox.Matches | CanvasDemo/CanvasDemo/Canvas/SelectionBox.cs:164-165 | a layer's matches are exactly its elements that the box contains (left-to-right) or that intersect the box (right-to-left) |
| SelectionBox.LayerMatches | CanvasDemo/CanvasDemo/Canvas/SelectionBox.cs:161-165 | an inactive layer contributes nothing; an active one contributes its matches |
| SelectionBox.Gather | CanvasDemo/CanvasDemo/Canvas/SelectionBox.cs:161-165 | a handle is gathered exactly when some active layer lists it and the box picks its rectangle; visibility plays no part |
| SelectionBox.GatherCons | CanvasDemo/CanvasDemo/Canvas/SelectionBox.cs:161-165 | the gathered list is the first layer's contribution followed by the rest's |
| SelectionBox.AddLayers | CanvasDemo/CanvasDemo/Canvas/SelectionBox.cs:161-166 | one `AddSelected` per layer appends the gathered handles and flags exactly the gathered elements |
| SelectionBox.AddLayersStep | CanvasDemo/CanvasDemo/Canvas/SelectionBox.cs:163-165 | adding one layer's matches, then the rest's, is adding both at once |
| SelectionBox.AddSelectedKeepsGather | CanvasDemo/CanvasDemo/Canvas/SelectionBox.cs:163-165 | flagging one layer's matches does not change what the later layers match |
| SelectionBox.SameRectsSameGather | CanvasDemo/CanvasDemo/Canvas/SelectionBox.cs:161-165 | gathering reads only the element rectangles |
| SelectionBox.SameRectsSameMatches | CanvasDemo/CanvasDemo/Canvas/SelectionBox.cs:164-165 | a layer's matches read only the element rectangles |
| SelectionBox.BoxSelectOver | CanvasDemo/CanvasDemo/Canvas/SelectionBox.cs:156-169 | after the Control rule, the gathered handles are appended; the first selected element (or none) becomes current; no rectangle changes |
| SelectionBox.AddLayersKeepsRects | CanvasDemo/CanvasDemo/Canvas/SelectionBox.cs:161-166 | the per-layer loop changes only flags |
| SelectionBox.SetCurrentKeepsRects | CanvasDemo/CanvasDemo/Canvas/SelectionBox.cs:168 | setting the current element keeps every rectangle |
| SelectionBox.BaseKeepsRects | CanvasDemo/CanvasDemo/Canvas/SelectionBox.cs:159 | the Control rule changes only flags |
| SelectionBox.BoxSelectChangesFlagsOnly | CanvasDemo/CanvasDemo/Canvas/SelectionBox.cs:156-169 | a box select never moves, resizes or re-parents an element |
| SelectionBox.BoxSelectKeepsFlagsAgree | CanvasDemo/CanvasDemo/Canvas/SelectionBox.cs:156-169 | a box select keeps the flags in step and leaves a current member in any non-empty selection |
| SelectionBox.LeftToRightWithinRightToLeft | CanvasDemo/CanvasDemo/Canvas/SelectionBox.cs:163-165 | among elements of positive extent, whatever a left-to-right drag selects, a right-to-left drag over the same rectangle selects too |
| SelectionBox.EmptyElementOnlyLeftToRight | CanvasDemo/CanvasDemo/Canvas/SelectionBox.cs:163-165 | counterexample: an empty element on the box edge is picked left-to-right but not right-to-left |
| SelectionBox.MouseUp | CanvasDemo/CanvasDemo/Canvas/SelectionBox.cs:106-119 | a non-left release changes nothing; a left release hides the box and releases the button, then clicks at the release point when it is closer than 15 units to the start and box-selects otherwise |
| SelectionBox.MouseUpChangesFlagsOnly | CanvasDemo/CanvasDemo/Canvas/SelectionBox.cs:106-119 | a release never moves, resizes or re-parents an element |
| Viewer.ViewportOrigin | CanvasDemo/CanvasDemo/Canvas/Viewer.cs:104-105 | the recomputed viewport origin is within one unit of the exact document point under the screen origin |
| Viewer.ViewportSize | CanvasDemo/CanvasDemo/Canvas/Viewer.cs:149-150 | the recomputed viewport size is the canvas size in document units, rounded down |
| Viewer.Create | CanvasDemo/CanvasDemo/Canvas/Viewer.cs:57-64 | zoom 1, the default zoom range, `zero` at the canvas centre (rounded down), the viewport `(−zero, canvas size)`, and no pan in progress |
| Viewer.CreateViewportIsVisibleArea | CanvasDemo/CanvasDemo/Canvas/Viewer.cs:62-63 | after construction the viewport corners are the document points under the canvas corners |
| Viewer.LocalToShowPoint | CanvasDemo/CanvasDemo/Canvas/Viewer.cs:256-259 | the screen point is within one pixel of `zero + zoom·p` |
| Viewer.ToShowX | CanvasDemo/CanvasDemo/Canvas/Viewer.cs:284-287 | the x of `LocalToShow(Point)`, whatever the y |
| Viewer.ToShowY | CanvasDemo/CanvasDemo/Canvas/Viewer.cs:294-297 | the y of `LocalToShow(Point)`, whatever the x |
| Viewer.LocalToShowSize | CanvasDemo/CanvasDemo/Canvas/Viewer.cs:304-307 | each side is within one half of `zoom·side` |
| Viewer.SizeIgnoresZero | CanvasDemo/CanvasDemo/Canvas/Viewer.cs:304-307 | the size conversion does not depend on the pan offset |
| Viewer.LocalToShowRect | CanvasDemo/CanvasDemo/Canvas/Viewer.cs:235-249 | the rectangle's origin converts as a point and its extent as a size |
| Viewer.LocalToShowXYWH | CanvasDemo/CanvasDemo/Canvas/Viewer.cs:269-277 | the four-integer overload agrees with the rectangle overload |
| Viewer.MousePointToLocal | CanvasDemo/CanvasDemo/Canvas/Viewer.cs:314-317 | the document point is within one half of `(q − zero) / zoom` on each axis |
| Viewer.UnitZoomRoundTrip | CanvasDemo/CanvasDemo/Canvas/Viewer.cs:258 | at zoom 1 the conversions are `p + zero` and `q − zero`, and each undoes the other exactly |
| Viewer.MagnifiedRoundTripWithinOne | CanvasDemo/CanvasDemo/Canvas/Viewer.cs:258 | at zoom at least 1, document → screen → document lands within one unit of the start |
| Viewer.CoordinateRoundTrip | CanvasDemo/CanvasDemo/Canvas/Viewer.cs:258 | at zoom at least 1, truncating `c·zoom` and rounding it back divided by the zoom returns within one unit of `c` |
| Viewer.InZone | CanvasDemo/CanvasDemo/Canvas/Viewer.cs:209-224 | for positive rectangles and viewport, the culling test holds exactly when some document point is both visible and inside the rectangle |
| Viewer.MouseDown | CanvasDemo/CanvasDemo/Canvas/Viewer.cs:73-77 | a middle press starts a pan; every press records the mouse position; nothing else changes |
| Viewer.MouseUp | CanvasDemo/CanvasDemo/Canvas/Viewer.cs:83-86 | a middle release ends the pan; nothing else changes |
| Viewer.MouseMove | CanvasDemo/CanvasDemo/Canvas/Viewer.cs:92-109 | for any non-zero zoom: while panning, `zero` moves by exactly the mouse delta and only the viewport origin is recomputed; otherwise only the last mouse point changes; a positive zoom and valid range stay so |
| Viewer.PanKeepsGrabbedPoint | CanvasDemo/CanvasDemo/Canvas/Viewer.cs:99-102 | while panning, the document point under the new mouse position is the one that was under the old position |
| Viewer.UnitZoomViewportOrigin | CanvasDemo/CanvasDemo/Canvas/Viewer.cs:104-105 | at zoom 1 the recomputed viewport origin is exactly `−zero` |
| Viewer.MouseWheel | CanvasDemo/CanvasDemo/Canvas/Viewer.cs:115-151 | for any non-zero zoom and a positive range: the clamped step (`Viewer.SteppedZoom`, lines 124-125 and 135-136) keeps an in-range zoom in range and moves it in the wheel's direction; a step toward a bound already reached changes nothing; a negative zoom is multiplied by 1.25 on zoom-in and jumps to `minZoom` on zoom-out; a step that changes the view recomputes the whole viewport; the range and the pan state are kept |
| Viewer.Rezoom | CanvasDemo/CanvasDemo/Canvas/Viewer.cs:128-150 | a wheel step sets the zoom, shifts `zero` by the truncated anchor correction `Viewer.Shift`, computed with the unclamped factor (lines 128-129 and 139-140), and recomputes the viewport; the range and the pan state are kept |
| Viewer.WheelKeepsPointUnderMouse | CanvasDemo/CanvasDemo/Canvas/Viewer.cs:127-129 | for any non-zero zoom, negative ones included, and a step the range does not clamp, the document point under the mouse moves by less than one screen pixel at the new zoom |
| Viewer.AnchorCoordinate | CanvasDemo/CanvasDemo/Canvas/Viewer.cs:128-129 | for any non-zero zoom and any offset from `zero`, the truncated correction `(int)(d − d·factor)` keeps the document coordinate under the mouse within one pixel at the new zoom |
| Viewer.SetZoom | CanvasDemo/CanvasDemo/Canvas/Viewer.cs:157-161 | the zoom is set as given, without clamping; `zero`, the viewport and the range are untouched |
| Viewer.SetZero | CanvasDemo/CanvasDemo/Canvas/Viewer.cs:168-175 | for any non-zero zoom: `zero` is set exactly, the viewport origin follows it, and the viewport size and zoom are kept |
| Viewer.FitZoom | CanvasDemo/CanvasDemo/Canvas/Viewer.cs:183-185 | the zoom is the smaller of the two canvas-to-background ratios |
| Viewer.SetFullDisplay | CanvasDemo/CanvasDemo/Canvas/Viewer.cs:181-198 | the smaller ratio becomes the zoom and the range runs from it to a hundred times it; `zero` is the canvas centre; the viewport is recomputed |
| Viewer.FullDisplayFits | CanvasDemo/CanvasDemo/Canvas/Viewer.cs:183-185 | at that zoom the scaled background fits the canvas and fills it along at least one axis |
| Sorting.SortByKey | CanvasDemo/CanvasDemo/Canvas/ElementEditor.cs:387 | `OrderBy` returns its input sorted by key, with the same length |
| Sorting.SortPermutes | CanvasDemo/CanvasDemo/Canvas/ElementEditor.cs:387 | sorting keeps every entry, as often as it occurs |
| Sorting.SortStable | CanvasDemo/CanvasDemo/Canvas/ElementEditor.cs:407 | for every key, entries with that key stay in their input order |
| Layout.Target | CanvasDemo/CanvasDemo/Canvas/ElementEditor.cs:235-378 | each command writes only its own field: alignments match the current element's edge or centre on one axis, and same-size commands copy the named extent |
| Layout.TargetFixedAndIdempotent | CanvasDemo/CanvasDemo/Canvas/ElementEditor.cs:235-378 | the current element already sits where its own command puts it, and a command applied twice places a rectangle where one application did |
| Layout.AlignEach | CanvasDemo/CanvasDemo/Canvas/ElementEditor.cs:239-242 | the loop that re-reads the current rectangle on every iteration still gives every listed element its target for the rectangle the current element had before the loop; unlisted elements are untouched |
| Layout.AlignEachReadsOnce | CanvasDemo/CanvasDemo/Canvas/ElementEditor.cs:239-242 | re-reading the current rectangle in every iteration gives the same result as one `ForEach` over the rectangle read once before the loop |
| Layout.AlignElems | CanvasDemo/CanvasDemo/Canvas/ElementEditor.cs:239-242 | every listed element gets its rectangle from the command, however often it is listed; nothing else changes |
| Layout.AlignElemsTwice | CanvasDemo/CanvasDemo/Canvas/ElementEditor.cs:239-242 | a second pass of the loop with the same current element changes nothing |
| Layout.Align | CanvasDemo/CanvasDemo/Canvas/ElementEditor.cs:235-378 | no change with at most one selected element; fails exactly when more are selected and there is no current element; otherwise every selected element gets its target and nothing else changes |
| Layout.AlignNeverFailsWithCurrent | CanvasDemo/CanvasDemo/Canvas/ElementEditor.cs:237-241 | when the current element is one of the selected ones, no command fails |
| Layout.AlignKeepsFlagsAgree | CanvasDemo/CanvasDemo/Canvas/ElementEditor.cs:235-378 | layout changes only rectangles, so the flags keep agreeing with the selection |
| Layout.AlignIdempotent | CanvasDemo/CanvasDemo/Canvas/ElementEditor.cs:235-378 | running any Align or Same command twice gives what running it once did |
| Layout.WithCoord | CanvasDemo/CanvasDemo/Canvas/ElementEditor.cs:394 | a spacing command writes only the coordinate it spaces |
| Layout.Spaced | CanvasDemo/CanvasDemo/Canvas/ElementEditor.cs:394 | position `i` of `n` lies within one unit of the exact even position `lo + i·dist/(n−1)`, and between the minimum and the maximum; the first is the minimum and the last the maximum |
| Layout.SpacedTruncatesTowardZero | CanvasDemo/CanvasDemo/Canvas/ElementEditor.cs:394 | the `(int)` cast truncates toward zero, so left of the origin a position rounds up: the middle of three positions from −10 to −5 is −7 |
| Layout.SpacedMonotone | CanvasDemo/CanvasDemo/Canvas/ElementEditor.cs:394 | later positions in the order are never before earlier ones |
| Layout.Keys | CanvasDemo/CanvasDemo/Canvas/ElementEditor.cs:387 | each selected handle paired with the coordinate it is ordered by, in selection order |
| Layout.Order | CanvasDemo/CanvasDemo/Canvas/ElementEditor.cs:387 | the order is sorted and is a rearrangement of the keyed selection; every selected handle occurs in it |
| Layout.EntriesFromKeys | CanvasDemo/CanvasDemo/Canvas/ElementEditor.cs:387 | any rearrangement of the keyed selection holds exactly the selected handles, each keyed by its own coordinate |
| Layout.KeysCount | CanvasDemo/CanvasDemo/Canvas/ElementEditor.cs:387 | each handle is keyed as often as it is selected |
| Layout.LastPos | CanvasDemo/CanvasDemo/Canvas/ElementEditor.cs:392-395 | the last position of a handle in the order, or none |
| Layout.PlaceFromEffect | CanvasDemo/CanvasDemo/Canvas/ElementEditor.cs:392-395 | after the writing loop (`Layout.PlaceFrom`, the indexed `for` over the order), each element holds the value written at its last position; an unlisted element is untouched |
| Layout.PlaceAll | CanvasDemo/CanvasDemo/Canvas/ElementEditor.cs:392-395 | over an order of the selected handles, the loop moves exactly the selected elements |
| Layout.Spread | CanvasDemo/CanvasDemo/Canvas/ElementEditor.cs:383-418 | no change with at most one selected element; otherwise every selected element gets its spaced coordinate and nothing else about any element changes |
| Layout.SpreadElems | CanvasDemo/CanvasDemo/Canvas/ElementEditor.cs:387-395 | the element store after spacing: selected elements move on the spaced axis only |
| Layout.SpreadWithinExtremes | CanvasDemo/CanvasDemo/Canvas/ElementEditor.cs:388-394 | every selected element lands between the smallest and largest selected coordinate, and the element last in the order stays at the largest |
| Layout.SpreadKeepsFirst | CanvasDemo/CanvasDemo/Canvas/ElementEditor.cs:388-394 | an element selected once that comes first in the order stays at the smallest coordinate |
| Layout.SpreadKeepsOrder | CanvasDemo/CanvasDemo/Canvas/ElementEditor.cs:387-395 | an element strictly before another does not end up after it |
| ElementEditor.PressGesture | CanvasDemo/CanvasDemo/Canvas/ElementEditor.cs:68-88 | a resize starts exactly when the press is in one of the three strict hit zones, with bottom-right before right before bottom; anything else is a move that keeps the last handle |
| ElementEditor.MouseDown | CanvasDemo/CanvasDemo/Canvas/ElementEditor.cs:54-95 | a non-left press changes nothing; a left press records the point; a press on a selected element makes the first such element current and, unless locked, starts its gesture; a press on none starts a marquee |
| ElementEditor.PressOnCornerHandleResizes | CanvasDemo/CanvasDemo/Canvas/ElementEditor.cs:68-72 | a press inside the drawn bottom-right square of the element hit starts a bottom-right resize |
| ElementEditor.MouseDownKeepsConsistent | CanvasDemo/CanvasDemo/Canvas/ElementEditor.cs:54-95 | a press keeps flags, selection and current element consistent |
| ElementEditor.IterateMove | CanvasDemo/CanvasDemo/Canvas/ElementEditor.cs:106 | moving an element `n` times by a delta is one move by `n` times the delta |
| ElementEditor.MoveSelection | CanvasDemo/CanvasDemo/Canvas/ElementEditor.cs:101-106 | each element moves by the delta once per time it is selected; extents and unselected elements are kept |
| ElementEditor.MoveKeepsRelativePositions | CanvasDemo/CanvasDemo/Canvas/ElementEditor.cs:106 | two elements selected once each keep their relative offset and their extents |
| ElementEditor.MoveSelectionCompose | CanvasDemo/CanvasDemo/Canvas/ElementEditor.cs:101-107 | two moves of the selection are one move by the summed delta |
| ElementEditor.Resize | CanvasDemo/CanvasDemo/Canvas/ElementEditor.cs:117-132 | the handle decides which sides grow by the delta; each side is then at least 10; the location never changes |
| ElementEditor.ResizeUndo | CanvasDemo/CanvasDemo/Canvas/ElementEditor.cs:117-132 | a resize that stays clear of the minimum is undone by the opposite drag |
| ElementEditor.ResizeStopsAtMinimum | CanvasDemo/CanvasDemo/Canvas/ElementEditor.cs:117-132 | for every handle, delta and rectangle: a side dragged below 10 stops at exactly 10, in place; a side the handle does not drag is still raised to 10 when it was smaller; shrinking an element already at 10 changes nothing |
| ElementEditor.IterateResize | CanvasDemo/CanvasDemo/Canvas/ElementEditor.cs:115-133 | resizing one or more times keeps the location and all but the rectangle, and leaves both sides at least 10 |
| ElementEditor.ResizeSelection | CanvasDemo/CanvasDemo/Canvas/ElementEditor.cs:110-133 | selected elements keep their location and end with sides at least 10; an element selected once is resized exactly once; unselected ones are untouched |
| ElementEditor.Delta | CanvasDemo/CanvasDemo/Canvas/ElementEditor.cs:102-104 | the delta is what takes the recorded point to the current document point |
| ElementEditor.MouseMove | CanvasDemo/CanvasDemo/Canvas/ElementEditor.cs:97-142 | idle does nothing; a marquee follows the mouse; a move or resize applies the delta and records the new point; the layers and the selection never change |
| ElementEditor.DragComposes | CanvasDemo/CanvasDemo/Canvas/ElementEditor.cs:101-108 | a drag delivered as two moves lands where one move to the final point would |
| ElementEditor.MoveStep | CanvasDemo/CanvasDemo/Canvas/ElementEditor.cs:101-108 | one move while dragging offsets the selection by the delta and records the new point |
| ElementEditor.MouseMoveKeepsConsistent | CanvasDemo/CanvasDemo/Canvas/ElementEditor.cs:97-142 | moves and resizes keep flags, selection and current element consistent |
| ElementEditor.MouseUp | CanvasDemo/CanvasDemo/Canvas/ElementEditor.cs:144-152 | every release returns the editor to idle; only a marquee hands the release to the selection box |
| ElementEditor.MouseUpKeepsConsistent | CanvasDemo/CanvasDemo/Canvas/ElementEditor.cs:144-152 | a release keeps flags, selection and current element consistent |
| ElementEditor.RemoveSelectElements | CanvasDemo/CanvasDemo/Canvas/ElementEditor.cs:215-226 | a completed removal clears the selection; a throw keeps it; either way the current element and the rest of the editor are kept |
| ElementEditor.RemoveRun | CanvasDemo/CanvasDemo/Canvas/ElementEditor.cs:217-221 | the outcome's layers, bin and failing Id are those of the loop, and it completes exactly when the loop does |
| ElementEditor.RemoveLoopKeepsHandles | CanvasDemo/CanvasDemo/Canvas/ElementEditor.cs:219 | unlisting only removes handles, so every remaining one still indexes the store |
| ElementEditor.RemoveSucceedsIffFresh | CanvasDemo/CanvasDemo/Canvas/ElementEditor.cs:217-221 | removal completes exactly when the selected Ids are all new to the bin and pairwise distinct; an element selected twice always makes it throw |
| ElementEditor.RemoveCompletedFiles | CanvasDemo/CanvasDemo/Canvas/ElementEditor.cs:220-223 | a completed removal files each selected element under its Id, keeps the earlier bin entries, adds no other keys, and empties the selection |
| ElementEditor.RemoveCompletedUnlists | CanvasDemo/CanvasDemo/Canvas/ElementEditor.cs:219 | a completed removal has taken every selected element out of its own layer; elements change only in their flags |
| ElementEditor.RemoveCompletedWellFormed | CanvasDemo/CanvasDemo/Canvas/ElementEditor.cs:215-226 | in a well-formed store, a completed removal leaves the store well formed |
| ElementEditor.RemoveCompletedLayers | CanvasDemo/CanvasDemo/Canvas/ElementEditor.cs:217-219 | in a well-formed store, a completed removal leaves each layer with exactly its unselected elements |
| ElementEditor.RemoveInterrupted | CanvasDemo/CanvasDemo/Canvas/ElementEditor.cs:217-221 | a throwing removal reports the Id of the element it stopped at, which was already filed; the elements up to and including it are out of their layers; those before it are filed |
| Removal.FirstIndex | CanvasDemo/CanvasDemo/Canvas/ElementEditor.cs:219 | the first occurrence of a handle in a list, or the list length when there is none |
| Removal.RemoveFirst | CanvasDemo/CanvasDemo/Canvas/ElementEditor.cs:219 | `List.Remove` drops the first occurrence and shifts the rest down; a list without the handle is unchanged |
| Removal.RemoveFirstMembers | CanvasDemo/CanvasDemo/Canvas/ElementEditor.cs:219 | on a list without repeats, removal drops exactly that handle, keeps all others, and keeps the list free of repeats |
| Removal.Unlist | CanvasDemo/CanvasDemo/Canvas/ElementEditor.cs:219 | removing an element from its layer keeps the number of layers and every layer's other fields |
| Removal.UnlistEffect | CanvasDemo/CanvasDemo/Canvas/ElementEditor.cs:219 | only the element's own layer changes, and its list loses the element as `List.Remove` would |
| Removal.UnlistAll | CanvasDemo/CanvasDemo/Canvas/ElementEditor.cs:217-219 | unlisting a run of elements keeps the number of layers and every layer's other fields |
| Removal.UnlistAllWellFormed | CanvasDemo/CanvasDemo/Canvas/ElementEditor.cs:217-219 | in a well-formed store, unlisting a run of elements keeps the store well formed |
| Removal.UnlistAllMembers | CanvasDemo/CanvasDemo/Canvas/ElementEditor.cs:217-219 | in a well-formed store, a handle stays in a layer exactly when it was there and is not in the run |
| Removal.UnlistAllLeavesRest | CanvasDemo/CanvasDemo/Canvas/ElementEditor.cs:217-219 | the same, for all layers and handles at once |
| Removal.RemoveLoop | CanvasDemo/CanvasDemo/Canvas/ElementEditor.cs:217-221 | a throw happens at a position inside the run; the layer count is kept |
| Removal.RemoveLoopLayers | CanvasDemo/CanvasDemo/Canvas/ElementEditor.cs:217-221 | the loop has unlisted exactly the elements it reached, the throwing one included |
| Removal.FileLoop | CanvasDemo/CanvasDemo/Canvas/ElementEditor.cs:220 | the filing half of the loop throws only at a position inside the run |
| Removal.RemoveLoopFilesAlone | CanvasDemo/CanvasDemo/Canvas/ElementEditor.cs:217-221 | the bin and the stopping point depend on filing alone; unlisting never decides anything |
| Removal.FileLoopFresh | CanvasDemo/CanvasDemo/Canvas/ElementEditor.cs:220 | a loop that finishes met only fresh, pairwise distinct Ids |
| Removal.FileLoopFiles | CanvasDemo/CanvasDemo/Canvas/ElementEditor.cs:220 | a loop that finishes files each element under its own Id and keeps the earlier entries |
| Removal.FileLoopKeys | CanvasDemo/CanvasDemo/Canvas/ElementEditor.cs:220 | a loop that finishes leaves exactly the earlier keys plus the filed Ids |
| Removal.FileLoopClash | CanvasDemo/CanvasDemo/Canvas/ElementEditor.cs:220 | a throw happens at an element whose Id was filed before the loop or earlier in it; every element before it was filed; earlier entries are kept |
| Removal.RemoveLoopInterrupted | CanvasDemo/CanvasDemo/Canvas/ElementEditor.cs:217-221 | a loop that throws at position `at` has unlisted the elements up to `at`, filed those before it, and stopped on an Id already filed |

## Left out

- Rendering is not modelled: `Drawing`/`DrawingAfter`, brushes, pens, `Backgrounder`, `FocusElement`, the concrete cube and ellipse elements and layers, and the tooltips. The handle squares of `DrawingJoystick` are kept as geometry only (`Elements.HandleSquares`); the current flag only picks a brush.
- `ElementData` and `IElementData` are data bags; an element's data is reduced to its Id.
- `PointExtension.InZone` wraps GDI+ `GraphicsPath`/`Region`, which is not part of this model.
- `Canvas.Refresh()` and the `SelectedObjElementsEvent` callbacks notify the UI and change no modelled state. They are left out.
- The `TimCanvas` control, which dispatches mouse events and owns `IsLocked`, `Control.ModifierKeys` and the sizes, is not part of this model. Its values are parameters (`locked`, `controlOnly`, canvas and background sizes).
- The base `Layer` mouse handlers (Layer.cs lines 62-65) return false and touch no state. Nothing in the modelled core calls them.
- `ElementEditor.MouseWheel` and `SelectionBox.MouseWheel` have empty bodies and are not modelled.
- Integers are unbounded: C#'s 32-bit wrap-around, and `(int)` casts of out-of-range floats, are not modelled.
- `Zoom` is an exact real, as are the 1.25 and 0.8 factors and the `(float)` spacing arithmetic. Results that single-precision rounding would shift by one unit are not modelled, and nothing claims bit-level agreement.
- `SelectionBox.BoxSelectOver`: `AsParallel().Where(...).ToList()` does not guarantee order. The model appends matches in layer order. The membership lemmas (`Gather`, `LeftToRightWithinRightToLeft`) hold for any order. "Current is the first selected element" is determinate only under this choice.
- Null list entries (`x?.UnSelected()`) and null Ids are not modelled: handles always denote elements and Ids are strings. The null dereference of a layout command with no current element is modelled (`Layout.LayoutOutcome.NullCurrent`).
- `Viewer.SetFullDisplay` requires positive canvas and background sizes. With a zero-sized background the source divides by zero in `float` and gets an infinite zoom, which the exact reals cannot express.
- `Viewer.SetZoom` accepts any zoom, as the source does. A zero zoom makes the source's float divisions produce infinities or NaN, and the integer casts of those are unspecified. So the conversions, `Viewer.MouseMove`, `Viewer.SetZero` and `Viewer.MouseWheel` require a non-zero zoom; negative zooms are modelled.
- `Viewer.MouseWheel`: also requires a positive zoom range. The constructor and `SetFullDisplay` are the only writers of the range, and both make it positive.
- `PointExtension.WithinDistance` compares `dx² + dy²` with `limit²` instead of calling `Math.Sqrt`. `PointExtension.WithinIffSqrtBelow` shows this agrees with an exact square root; the rounding of the double square root is not modelled.
- `ElementEditor.ResizeSelection`: for an element selected more than once, the contract states only the bounds (location kept, both sides at least 10), not the exact rectangle after the repeated resizes.
- `ElementEditor.IterateResize`: gives the exact rectangle only for a single application; for more it gives the same bounds.
- `Viewer.WheelKeepsPointUnderMouse`: covers only wheel steps that the zoom range does not clamp (it holds for any non-zero zoom). When the range clamps, the source still applies the unclamped factor's pan correction, and the point under the mouse drifts.
- `Layout.Order`: states sortedness and permutation; stability is stated separately by `Sorting.SortStable` about `Sorting.SortByKey`.
- `ElementEditor.RemoveSelectElements`: the current element is left pointing at a removed element, as in the source. No contract claims anything about it beyond that it is unchanged.
