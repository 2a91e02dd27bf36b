/** The editor's batch layout commands: the six alignments, the three
    same-size commands, and even horizontal and vertical spacing.

    Every command does nothing unless more than one element is selected.
    The alignments and same-size commands copy one coordinate or extent of
    the current element onto every selected element; when there is no
    current element the first access to it fails (a null dereference), and
    nothing has been written by then.
 */
module Layout {
  import opened Options
  import opened Geometry
  import opened Numerics
  import opened Elements
  import opened Store
  import opened SelectionSet
  import opened Sorting

  datatype AlignOp =
    | AlignLeft | AlignRight | AlignTop | AlignBottom | AlignCenter | AlignMiddle
    | SameWidth | SameHeight | SameSize

  /** A layout command either completes or fails on the missing current
      element. */
  datatype LayoutOutcome = Laid(m: Marks) | NullCurrent

  /** The rectangle `r` takes under `op` when the current element's
      rectangle is `c`. Each alignment moves `r` along one axis only, and
      each same-size command changes only the extent it names. */
  function Target(op: AlignOp, c: Rect, r: Rect): (t: Rect)
    ensures op == AlignLeft ==> t.x == c.x && t.y == r.y && t.Extent() == r.Extent()
    ensures op == AlignRight ==> t.Right() == c.Right() && t.y == r.y && t.Extent() == r.Extent()
    ensures op == AlignTop ==> t.y == c.y && t.x == r.x && t.Extent() == r.Extent()
    ensures op == AlignBottom ==> t.Bottom() == c.Bottom() && t.x == r.x && t.Extent() == r.Extent()
    ensures op == AlignCenter ==>
      t.x + TruncDiv(t.width, 2) == c.x + TruncDiv(c.width, 2) && t.y == r.y && t.Extent() == r.Extent()
    ensures op == AlignMiddle ==>
      t.y + TruncDiv(t.height, 2) == c.y + TruncDiv(c.height, 2) && t.x == r.x && t.Extent() == r.Extent()
    ensures op == SameWidth ==> t.width == c.width && t.height == r.height && t.Location() == r.Location()
    ensures op == SameHeight ==> t.height == c.height && t.width == r.width && t.Location() == r.Location()
    ensures op == SameSize ==> t.Extent() == c.Extent() && t.Location() == r.Location()
  {
    match op
    case AlignLeft => r.(x := c.x)
    case AlignRight => r.(x := c.Right() - r.width)
    case AlignTop => r.(y := c.y)
    case AlignBottom => r.(y := c.Bottom() - r.height)
    case AlignCenter => r.(x := (c.x + TruncDiv(c.width, 2)) - TruncDiv(r.width, 2))
    case AlignMiddle => r.(y := (c.y + TruncDiv(c.height, 2)) - TruncDiv(r.height, 2))
    case SameWidth => r.(width := c.width)
    case SameHeight => r.(height := c.height)
    case SameSize => r.(width := c.width, height := c.height)
  }

  /** The current element is already where its own command puts it, and a
      command applied twice places a rectangle where applying it once did. */
  lemma {:induction false} TargetFixedAndIdempotent(op: AlignOp, c: Rect, r: Rect)
    ensures Target(op, c, c) == c
    ensures Target(op, c, Target(op, c, r)) == Target(op, c, r)
  {
  }

  /** One element's update under `op` with the current rectangle `c`. */
  function Step(op: AlignOp, c: Rect): ObjElement -> ObjElement {
    (e: ObjElement) => e.(rect := Target(op, c, e.rect))
  }

  /** The loop as the code runs it for the commands that re-read the
      current element's rectangle on every iteration. Every listed element
      still ends with its target for the rectangle the current element had
      before the loop, because that element's own update keeps it. */
  function AlignEach(elems: seq<ObjElement>, hs: seq<nat>, op: AlignOp, cur: nat): (r: seq<ObjElement>)
    requires ValidHandles(elems, hs) && cur < |elems|
    ensures |r| == |elems|
    ensures forall g :: 0 <= g < |elems| ==>
      r[g] == if g in hs then elems[g].(rect := Target(op, elems[cur].rect, elems[g].rect)) else elems[g]
    decreases |hs|
  {
    if |hs| == 0 then elems
    else
      var h := hs[0];
      var c := elems[cur].rect;
      var next := elems[h := elems[h].(rect := Target(op, c, elems[h].rect))];
      TargetFixedAndIdempotent(op, c, elems[h].rect);
      assert next[cur].rect == c;
      var r := AlignEach(next, hs[1..], op, cur);
      assert forall g :: 0 <= g < |elems| ==>
        r[g] == if g in hs then elems[g].(rect := Target(op, c, elems[g].rect)) else elems[g]
      by {
        forall g | 0 <= g < |elems|
          ensures r[g] == if g in hs then elems[g].(rect := Target(op, c, elems[g].rect)) else elems[g]
        {
          TargetFixedAndIdempotent(op, c, elems[g].rect);
          assert g in hs <==> g == h || g in hs[1..];
        }
      }
      r
  }

  /** Re-reading the current rectangle on every iteration is the same as
      reading it once before the loop, because the current element's own
      update leaves its rectangle as it was. */
  lemma {:induction false} AlignEachReadsOnce(elems: seq<ObjElement>, hs: seq<nat>, op: AlignOp, cur: nat)
    requires ValidHandles(elems, hs) && cur < |elems|
    ensures AlignEach(elems, hs, op, cur) == ApplyEach(elems, hs, Step(op, elems[cur].rect))
    decreases |hs|
  {
    if |hs| > 0 {
      var h := hs[0];
      var c := elems[cur].rect;
      var next := elems[h := elems[h].(rect := Target(op, c, elems[h].rect))];
      TargetFixedAndIdempotent(op, c, elems[h].rect);
      assert next[cur].rect == c;
      assert next == elems[h := Step(op, c)(elems[h])];
      AlignEachReadsOnce(next, hs[1..], op, cur);
    }
  }

  /** The loop the code runs for `op` once a current element `cur` is
      known: every listed element (however often it is listed) gets its
      rectangle from `Target`, and nothing else changes. */
  function AlignElems(elems: seq<ObjElement>, hs: seq<nat>, op: AlignOp, cur: nat): (r: seq<ObjElement>)
    requires ValidHandles(elems, hs) && cur < |elems|
    ensures |r| == |elems|
    ensures forall h :: 0 <= h < |elems| ==>
      r[h] == if h in hs then elems[h].(rect := Target(op, elems[cur].rect, elems[h].rect)) else elems[h]
  {
    var c := elems[cur].rect;
    var r :=
      if op == AlignCenter || op == AlignMiddle then ApplyEach(elems, hs, Step(op, c))
      else AlignEach(elems, hs, op, cur);
    AlignEachReadsOnce(elems, hs, op, cur);
    assert forall h :: 0 <= h < |elems| ==>
      r[h] == if h in hs then Step(op, c)(elems[h]) else elems[h]
    by {
      forall h | 0 <= h < |elems|
        ensures r[h] == if h in hs then Step(op, c)(elems[h]) else elems[h]
      {
        TargetFixedAndIdempotent(op, c, elems[h].rect);
        IterateIdempotent(Step(op, c), multiset(hs)[h], elems[h]);
      }
    }
    r
  }

  /** A second pass of the loop with the same current element changes
      nothing, because the current element's rectangle survives the first
      pass and `Target` is idempotent. */
  lemma {:induction false} AlignElemsTwice(elems: seq<ObjElement>, hs: seq<nat>, op: AlignOp, cur: nat)
    requires ValidHandles(elems, hs) && cur < |elems|
    ensures ValidHandles(AlignElems(elems, hs, op, cur), hs)
    ensures AlignElems(AlignElems(elems, hs, op, cur), hs, op, cur) == AlignElems(elems, hs, op, cur)
  {
    var e1 := AlignElems(elems, hs, op, cur);
    var c := elems[cur].rect;
    TargetFixedAndIdempotent(op, c, c);
    assert e1[cur].rect == c;
    var e2 := AlignElems(e1, hs, op, cur);
    forall h | 0 <= h < |elems|
      ensures e2[h] == e1[h]
    {
      TargetFixedAndIdempotent(op, c, elems[h].rect);
    }
  }

  /** The nine Align and Same commands. With more than one element selected
      and a current element, every selected element (however often it is
      listed) gets its rectangle from `Target`, and nothing else changes. */
  function Align(m: Marks, op: AlignOp): (r: LayoutOutcome)
    requires ValidSelection(m)
    ensures |m.sel.selected| <= 1 ==> r == Laid(m)
    ensures r.NullCurrent? <==> |m.sel.selected| > 1 && m.sel.current.None?
    ensures r.Laid? ==> r.m.sel == m.sel && |r.m.elems| == |m.elems|
    ensures r.Laid? && |m.sel.selected| > 1 ==> forall h :: 0 <= h < |m.elems| ==>
      r.m.elems[h] == if h in m.sel.selected
                      then m.elems[h].(rect := Target(op, m.elems[m.sel.current.value].rect, m.elems[h].rect))
                      else m.elems[h]
  {
    if |m.sel.selected| <= 1 then Laid(m)
    else match m.sel.current
      case None => NullCurrent
      case Some(cur) => Laid(m.(elems := AlignElems(m.elems, m.sel.selected, op, cur)))
  }

  /** A selection whose current element is one of its members never hits
      the null dereference. */
  lemma {:induction false} AlignNeverFailsWithCurrent(m: Marks, op: AlignOp)
    requires ValidSelection(m) && CurrentInSelection(m.sel)
    ensures Align(m, op).Laid?
  {
  }

  /** Layout changes only rectangles, so the flags keep agreeing with the
      selection. */
  lemma {:induction false} AlignKeepsFlagsAgree(m: Marks, op: AlignOp)
    requires ValidSelection(m) && FlagsAgree(m)
    requires Align(m, op).Laid?
    ensures ValidSelection(Align(m, op).m) && FlagsAgree(Align(m, op).m)
  {
    var r := Align(m, op).m;
    assert forall h :: 0 <= h < |m.elems| ==>
      r.elems[h].isSelected == m.elems[h].isSelected && r.elems[h].isCurrent == m.elems[h].isCurrent;
  }

  /** Running a command a second time changes nothing. */
  lemma {:induction false} AlignIdempotent(m: Marks, op: AlignOp)
    requires ValidSelection(m)
    requires Align(m, op).Laid?
    ensures ValidSelection(Align(m, op).m)
    ensures Align(Align(m, op).m, op) == Align(m, op)
  {
    if |m.sel.selected| > 1 {
      AlignElemsTwice(m.elems, m.sel.selected, op, m.sel.current.value);
    }
  }

  // ---- even spacing ----

  /** The coordinate a spacing command orders by and rewrites. */
  function Coord(r: Rect, vertical: bool): int {
    if vertical then r.y else r.x
  }

  function WithCoord(r: Rect, vertical: bool, v: int): (t: Rect)
    ensures Coord(t, vertical) == v
    ensures Coord(t, !vertical) == Coord(r, !vertical) && t.Extent() == r.Extent()
  {
    if vertical then r.(y := v) else r.(x := v)
  }

  /** Scaling by the fraction `i / m` is the exact quotient `i * d / m`. */
  lemma {:induction false} ScaleFraction(d: int, i: int, m: int)
    requires m > 0
    ensures Scale(d, Unscale(i, m as real)) == (i * d) as real / m as real
  {
    var q := i as real / m as real;
    assert q * m as real == i as real;
    assert (d as real * q) * m as real == (i * d) as real;
  }

  /** `(int)(min + (float)i / ((float)n - 1) * distance)`: the `i`-th of
      `n` evenly spaced positions from `lo` to `lo + dist`, truncated. */
  function Spaced(lo: int, dist: int, i: nat, n: nat): (v: int)
    requires n >= 2 && i < n && dist >= 0
    ensures lo <= v <= lo + dist
    ensures i == 0 ==> v == lo
    ensures i == n - 1 ==> v == lo + dist
    // evenly spaced: within one unit of the exact position
    ensures -1.0 < v as real - (lo as real + (i * dist) as real / (n - 1) as real) < 1.0
  {
    var f := Unscale(i, (n - 1) as real);
    TruncTowardZero(lo as real + Scale(dist, f));
    ScaleFraction(dist, i, n - 1);
    FractionBounds(0, i, n - 1);
    FractionBounds(i, n - 1, n - 1);
    ScaleMonotone(dist, 0.0, f);
    ScaleMonotone(dist, f, 1.0);
    TruncMonotone(lo as real, lo as real + Scale(dist, f));
    TruncMonotone(lo as real + Scale(dist, f), (lo + dist) as real);
    TruncOfInt(lo);
    TruncOfInt(lo + dist);
    Trunc(lo as real + Scale(dist, f))
  }

  /** The cast truncates toward zero, so a position left of the origin is
      rounded up: the middle of three positions from -10 to -5 is -7, not -8. */
  lemma SpacedTruncatesTowardZero()
    ensures Spaced(-10, 5, 1, 3) == -7
  {
    assert Unscale(1, 2.0) == 0.5;
    assert -10 as real + Scale(5, 0.5) == -7.5;
  }

  /** Later positions never come before earlier ones. */
  lemma {:induction false} SpacedMonotone(lo: int, dist: int, i: nat, j: nat, n: nat)
    requires n >= 2 && i <= j < n && dist >= 0
    ensures Spaced(lo, dist, i, n) <= Spaced(lo, dist, j, n)
  {
    var fi := Unscale(i, (n - 1) as real);
    var fj := Unscale(j, (n - 1) as real);
    FractionBounds(i, j, n - 1);
    ScaleMonotone(dist, fi, fj);
    TruncMonotone(lo as real + Scale(dist, fi), lo as real + Scale(dist, fj));
  }

  /** The selected handles keyed by the coordinate, in selection order. */
  function Keys(elems: seq<ObjElement>, hs: seq<nat>, vertical: bool): (k: seq<Keyed>)
    requires ValidHandles(elems, hs)
    ensures |k| == |hs|
    ensures forall i :: 0 <= i < |hs| ==> k[i] == Keyed(hs[i], Coord(elems[hs[i]].rect, vertical))
  {
    seq(|hs|, i requires 0 <= i < |hs| => Keyed(hs[i], Coord(elems[hs[i]].rect, vertical)))
  }

  /** `SelectedElements.OrderBy(x => x.Rect.X)` (or `.Y`): the selected
      handles, each as often as it is selected, sorted by the coordinate. */
  function Order(m: Marks, vertical: bool): (o: seq<Keyed>)
    requires ValidSelection(m)
    ensures Sorted(o) && |o| == |m.sel.selected|
    ensures multiset(o) == multiset(Keys(m.elems, m.sel.selected, vertical))
    ensures forall i :: 0 <= i < |o| ==>
      o[i].handle in m.sel.selected && o[i].handle < |m.elems|
      && o[i].key == Coord(m.elems[o[i].handle].rect, vertical)
    ensures forall h :: h in m.sel.selected ==> LastPos(o, h) < |o|
  {
    var o := SortByKey(Keys(m.elems, m.sel.selected, vertical));
    SortPermutes(Keys(m.elems, m.sel.selected, vertical));
    EntriesFromKeys(m.elems, m.sel.selected, vertical, o);
    o
  }

  /** Any rearrangement of the keyed handles holds exactly the listed
      handles, each with its own coordinate as key. */
  lemma {:induction false} EntriesFromKeys(elems: seq<ObjElement>, hs: seq<nat>, vertical: bool, o: seq<Keyed>)
    requires ValidHandles(elems, hs)
    requires multiset(o) == multiset(Keys(elems, hs, vertical))
    ensures forall i :: 0 <= i < |o| ==>
      o[i].handle in hs && o[i].handle < |elems| && o[i].key == Coord(elems[o[i].handle].rect, vertical)
    ensures forall h :: h in hs ==> LastPos(o, h) < |o|
  {
    var ks := Keys(elems, hs, vertical);
    forall i | 0 <= i < |o|
      ensures o[i].handle in hs && o[i].handle < |elems| && o[i].key == Coord(elems[o[i].handle].rect, vertical)
    {
      assert o[i] in multiset(ks);
      var j :| 0 <= j < |ks| && ks[j] == o[i];
    }
    forall h | h in hs
      ensures LastPos(o, h) < |o|
    {
      var j :| 0 <= j < |hs| && hs[j] == h;
      assert ks[j] in multiset(o);
      var i :| 0 <= i < |o| && o[i] == ks[j];
      assert o[i].handle == h;
    }
  }

  /** The last position at which `h` occurs in `o`, or `|o|` if it does not. */
  function LastPos(o: seq<Keyed>, h: nat): (p: nat)
    ensures p <= |o|
    ensures p < |o| ==> o[p].handle == h && forall j :: p < j < |o| ==> o[j].handle != h
    ensures p == |o| ==> forall j :: 0 <= j < |o| ==> o[j].handle != h
    decreases |o|
  {
    if |o| == 0 then 0
    else if o[|o| - 1].handle == h then |o| - 1
    else
      var p := LastPos(o[..|o| - 1], h);
      if p == |o| - 1 then |o| else p
  }

  /** The writing loop: position `i` of the order, from `k` on, gets the
      `i`-th spaced coordinate (`PlaceFromEffect` says which value each
      element ends with). */
  function PlaceFrom(elems: seq<ObjElement>, o: seq<Keyed>, k: nat, lo: int, dist: int, vertical: bool)
    : (r: seq<ObjElement>)
    requires |o| >= 2 && k <= |o| && dist >= 0
    requires forall i :: 0 <= i < |o| ==> o[i].handle < |elems|
    ensures |r| == |elems|
    decreases |o| - k
  {
    if k == |o| then elems
    else
      var h := o[k].handle;
      PlaceFrom(elems[h := elems[h].(rect := WithCoord(elems[h].rect, vertical, Spaced(lo, dist, k, |o|)))],
                o, k + 1, lo, dist, vertical)
  }

  /** A handle listed more than once keeps the value of its last position;
      a handle whose last position comes before `k` (or that is not listed)
      is untouched. */
  lemma {:induction false} PlaceFromEffect(elems: seq<ObjElement>, o: seq<Keyed>, k: nat, lo: int, dist: int,
                                           vertical: bool, h: nat)
    requires |o| >= 2 && k <= |o| && dist >= 0
    requires forall i :: 0 <= i < |o| ==> o[i].handle < |elems|
    requires h < |elems|
    ensures PlaceFrom(elems, o, k, lo, dist, vertical)[h]
         == if LastPos(o, h) < |o| && LastPos(o, h) >= k
            then elems[h].(rect := WithCoord(elems[h].rect, vertical, Spaced(lo, dist, LastPos(o, h), |o|)))
            else elems[h]
    decreases |o| - k
  {
    if k < |o| {
      var g := o[k].handle;
      var next := elems[g := elems[g].(rect := WithCoord(elems[g].rect, vertical, Spaced(lo, dist, k, |o|)))];
      assert PlaceFrom(elems, o, k, lo, dist, vertical) == PlaceFrom(next, o, k + 1, lo, dist, vertical);
      PlaceFromEffect(next, o, k + 1, lo, dist, vertical, h);
      if g == h {
        assert LastPos(o, h) >= k;
      } else {
        assert LastPos(o, h) != k;
      }
    }
  }


  /** The coordinate the spacing loop finally writes for selected handle
      `h`: the spaced position of the last place `h` takes in the order. */
  function SpreadTarget(m: Marks, vertical: bool, h: nat): (v: int)
    requires ValidSelection(m) && |m.sel.selected| > 1 && h in m.sel.selected
  {
    SpreadAt(Order(m, vertical), h)
  }

  /** The spaced position of the last place `h` takes in the order `o`,
      spacing from the first key to the last. */
  function SpreadAt(o: seq<Keyed>, h: nat): (v: int)
    requires |o| >= 2 && o[0].key <= o[|o| - 1].key && LastPos(o, h) < |o|
  {
    Spaced(o[0].key, o[|o| - 1].key - o[0].key, LastPos(o, h), |o|)
  }

  /** `SameHorizontalSpace` (`vertical` false) and `SameVerticalSpace`
      (`vertical` true): with more than one element selected, every
      selected element gets its spread coordinate and nothing else about
      any element changes. */
  function Spread(m: Marks, vertical: bool): (r: Marks)
    requires ValidSelection(m)
    ensures r.sel == m.sel && |r.elems| == |m.elems|
    ensures |m.sel.selected| <= 1 ==> r == m
    ensures |m.sel.selected| > 1 ==> forall h :: 0 <= h < |m.elems| ==>
      r.elems[h] == if h in m.sel.selected
                    then m.elems[h].(rect := WithCoord(m.elems[h].rect, vertical, SpreadTarget(m, vertical, h)))
                    else m.elems[h]
  {
    if |m.sel.selected| <= 1 then m else Marks(SpreadElems(m, vertical), m.sel)
  }

  /** The element store after spacing more than one selected element. */
  function SpreadElems(m: Marks, vertical: bool): (r: seq<ObjElement>)
    requires ValidSelection(m) && |m.sel.selected| > 1
    ensures |r| == |m.elems|
    ensures forall h :: 0 <= h < |m.elems| ==>
      r[h] == if h in m.sel.selected
              then m.elems[h].(rect := WithCoord(m.elems[h].rect, vertical, SpreadTarget(m, vertical, h)))
              else m.elems[h]
  {
    var o := Order(m, vertical);
    var elems := PlaceFrom(m.elems, o, 0, o[0].key, o[|o| - 1].key - o[0].key, vertical);
    PlaceAll(m.elems, o, m.sel.selected, vertical, elems);
    elems
  }

  /** Over an order that lists exactly the handles of `hs`, the writing
      loop moves each listed handle to the spaced position of its last
      place and nothing else. */
  lemma {:induction false} PlaceAll(elems: seq<ObjElement>, o: seq<Keyed>, hs: seq<nat>, vertical: bool, r: seq<ObjElement>)
    requires |o| >= 2 && o[0].key <= o[|o| - 1].key
    requires forall i :: 0 <= i < |o| ==> o[i].handle < |elems| && o[i].handle in hs
    requires forall h :: h in hs ==> LastPos(o, h) < |o|
    requires r == PlaceFrom(elems, o, 0, o[0].key, o[|o| - 1].key - o[0].key, vertical)
    ensures |r| == |elems|
    ensures forall h :: 0 <= h < |elems| ==>
      r[h] == if h in hs
              then elems[h].(rect := WithCoord(elems[h].rect, vertical, SpreadAt(o, h)))
              else elems[h]
  {
    forall h | 0 <= h < |elems|
      ensures r[h] == if h in hs
                      then elems[h].(rect := WithCoord(elems[h].rect, vertical, SpreadAt(o, h)))
                      else elems[h]
    {
      PlaceFromEffect(elems, o, 0, o[0].key, o[|o| - 1].key - o[0].key, vertical, h);
      if h !in hs {
        assert LastPos(o, h) == |o|;
      }
    }
  }

  /** The spread runs from the smallest to the largest selected coordinate:
      every selected element lands in that range, and the element last in
      the order stays at the largest coordinate. */
  lemma {:induction false} SpreadWithinExtremes(m: Marks, vertical: bool)
    requires ValidSelection(m) && |m.sel.selected| > 1
    ensures var o := Order(m, vertical);
      && (forall h :: h in m.sel.selected ==>
            o[0].key <= Coord(m.elems[h].rect, vertical) <= o[|o| - 1].key)
      && (forall h :: h in m.sel.selected ==>
            o[0].key <= SpreadTarget(m, vertical, h) <= o[|o| - 1].key)
      && SpreadTarget(m, vertical, o[|o| - 1].handle) == o[|o| - 1].key
      && SpreadTarget(m, vertical, o[|o| - 1].handle) == Coord(m.elems[o[|o| - 1].handle].rect, vertical)
  {
    var o := Order(m, vertical);
    forall h | h in m.sel.selected
      ensures o[0].key <= Coord(m.elems[h].rect, vertical) <= o[|o| - 1].key
    {
      var p := LastPos(o, h);
      assert o[p].handle == h;
    }
    assert LastPos(o, o[|o| - 1].handle) == |o| - 1;
  }

  /** An element selected only once that comes first in the order stays at
      the smallest coordinate. */
  lemma {:induction false} SpreadKeepsFirst(m: Marks, vertical: bool)
    requires ValidSelection(m) && |m.sel.selected| > 1
    requires multiset(m.sel.selected)[Order(m, vertical)[0].handle] == 1
    ensures SpreadTarget(m, vertical, Order(m, vertical)[0].handle) == Order(m, vertical)[0].key
    ensures SpreadTarget(m, vertical, Order(m, vertical)[0].handle)
         == Coord(m.elems[Order(m, vertical)[0].handle].rect, vertical)
  {
    var o := Order(m, vertical);
    var h := o[0].handle;
    var p := LastPos(o, h);
    if p != 0 {
      assert o[p] == o[0];
      KeysCount(m.elems, m.sel.selected, vertical, h);
      TwoPositions(o, 0, p);
      assert false;
    }
  }

  /** Spreading keeps the order of the coordinates: an element that was
      strictly before another is not after it afterwards. */
  lemma {:induction false} SpreadKeepsOrder(m: Marks, vertical: bool, a: nat, b: nat)
    requires ValidSelection(m) && |m.sel.selected| > 1
    requires a in m.sel.selected && b in m.sel.selected
    requires Coord(m.elems[a].rect, vertical) < Coord(m.elems[b].rect, vertical)
    ensures SpreadTarget(m, vertical, a) <= SpreadTarget(m, vertical, b)
  {
    var o := Order(m, vertical);
    var pa, pb := LastPos(o, a), LastPos(o, b);
    assert o[pa].key < o[pb].key;
    assert pa < pb;
    SpacedMonotone(o[0].key, o[|o| - 1].key - o[0].key, pa, pb, |o|);
  }

  /** Each handle is keyed as often as it is listed. */
  lemma {:induction false} KeysCount(elems: seq<ObjElement>, hs: seq<nat>, vertical: bool, h: nat)
    requires ValidHandles(elems, hs) && h < |elems|
    ensures multiset(Keys(elems, hs, vertical))[Keyed(h, Coord(elems[h].rect, vertical))] == multiset(hs)[h]
    decreases |hs|
  {
    if |hs| > 0 {
      var init := hs[..|hs| - 1];
      var last := hs[|hs| - 1];
      assert hs == init + [last];
      assert Keys(elems, hs, vertical) == Keys(elems, init, vertical) + [Keyed(last, Coord(elems[last].rect, vertical))];
      KeysCount(elems, init, vertical, h);
    } else {
      assert Keys(elems, hs, vertical) == [];
    }
  }

  /** A value at two different positions occurs at least twice. */
  lemma {:induction false} TwoPositions(s: seq<Keyed>, i: nat, j: nat)
    requires i < j < |s| && s[i] == s[j]
    ensures multiset(s)[s[i]] >= 2
  {
    assert s == s[..j] + s[j..];
    assert s[i] in s[..j];
    assert s[j] in s[j..];
    assert multiset(s) == multiset(s[..j]) + multiset(s[j..]);
  }
}
