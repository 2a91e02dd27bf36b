/** The editor's selection bookkeeping: `SelectedElements`,
    `CurrentElement`, and the element flags they keep in step.
 */
module SelectionSet {
  import opened Options
  import opened Elements
  import opened Store

  /** `SelectedElements` in insertion order (duplicates are possible: adding
      does not check for them) and `CurrentElement`, as handles. */
  datatype Selection = Selection(selected: seq<nat>, current: Option<nat>)

  const NoSelection := Selection([], None)

  /** The element store together with the selection that refers into it. */
  datatype Marks = Marks(elems: seq<ObjElement>, sel: Selection)

  predicate ValidSelection(m: Marks) {
    ValidHandles(m.elems, m.sel.selected)
    && (m.sel.current.Some? ==> m.sel.current.value < |m.elems|)
  }

  /** The flags on the elements say exactly what the selection says: an
      element is flagged selected iff it is in the list, and flagged current
      iff it is the current element. */
  ghost predicate FlagsAgree(m: Marks) {
    forall h :: 0 <= h < |m.elems| ==>
      (m.elems[h].isSelected <==> h in m.sel.selected)
      && (m.elems[h].isCurrent <==> m.sel.current == Some(h))
  }

  /** A non-empty selection has a current element, and it is one of the
      selected ones. */
  ghost predicate CurrentInSelection(s: Selection) {
    |s.selected| > 0 ==> s.current.Some? && s.current.value in s.selected
  }

  /** `ClearSelected`: every element that was in the list is unflagged, the
      list is emptied, and the current element is left as it was. */
  function ClearSelected(m: Marks): (r: Marks)
    requires ValidSelection(m)
    ensures r.sel.selected == [] && r.sel.current == m.sel.current
    ensures |r.elems| == |m.elems|
    ensures forall h :: 0 <= h < |m.elems| ==>
      r.elems[h] == if h in m.sel.selected then UnSelected(m.elems[h]) else m.elems[h]
  {
    var elems := ApplyEach(m.elems, m.sel.selected, UnSelected);
    assert forall h :: 0 <= h < |m.elems| ==>
      elems[h] == if h in m.sel.selected then UnSelected(m.elems[h]) else m.elems[h]
    by {
      forall h | 0 <= h < |m.elems| {
        IterateIdempotent(UnSelected, multiset(m.sel.selected)[h], m.elems[h]);
      }
    }
    Marks(elems, m.sel.(selected := []))
  }

  /** `AddSelected`: the handles are appended as given (no de-duplication)
      and each added element is flagged selected. */
  function AddSelected(m: Marks, added: seq<nat>): (r: Marks)
    requires ValidSelection(m)
    requires ValidHandles(m.elems, added)
    ensures r.sel.selected == m.sel.selected + added && r.sel.current == m.sel.current
    ensures |r.elems| == |m.elems|
    ensures forall h :: 0 <= h < |m.elems| ==>
      r.elems[h] == if h in added then Selected(m.elems[h]) else m.elems[h]
  {
    var elems := ApplyEach(m.elems, added, Selected);
    assert forall h :: 0 <= h < |m.elems| ==>
      elems[h] == if h in added then Selected(m.elems[h]) else m.elems[h]
    by {
      forall h | 0 <= h < |m.elems| {
        IterateIdempotent(Selected, multiset(added)[h], m.elems[h]);
      }
    }
    Marks(elems, m.sel.(selected := m.sel.selected + added))
  }

  /** `SetCurrent`: the old current element (if any) loses its flag, the new
      one (if any) gains it, and nothing else changes. */
  function SetCurrent(m: Marks, target: Option<nat>): (r: Marks)
    requires ValidSelection(m)
    requires target.Some? ==> target.value < |m.elems|
    ensures r.sel == m.sel.(current := target)
    ensures |r.elems| == |m.elems|
    ensures forall h :: 0 <= h < |m.elems| ==>
      r.elems[h] == if target == Some(h) then Current(m.elems[h])
                    else if m.sel.current == Some(h) then UnCurrent(m.elems[h])
                    else m.elems[h]
  {
    var unflagged := match m.sel.current
      case None => m.elems
      case Some(c) => m.elems[c := UnCurrent(m.elems[c])];
    var flagged := match target
      case None => unflagged
      case Some(t) => unflagged[t := Current(unflagged[t])];
    Marks(flagged, m.sel.(current := target))
  }

  lemma {:induction false} ClearSelectedKeepsFlagsAgree(m: Marks)
    requires ValidSelection(m) && FlagsAgree(m)
    ensures ValidSelection(ClearSelected(m)) && FlagsAgree(ClearSelected(m))
    ensures CurrentInSelection(ClearSelected(m).sel)
  {
  }

  lemma {:induction false} AddSelectedKeepsFlagsAgree(m: Marks, added: seq<nat>)
    requires ValidSelection(m) && FlagsAgree(m)
    requires ValidHandles(m.elems, added)
    ensures ValidSelection(AddSelected(m, added)) && FlagsAgree(AddSelected(m, added))
  {
    var r := AddSelected(m, added);
    forall h | 0 <= h < |m.elems|
      ensures r.elems[h].isSelected <==> h in r.sel.selected
    {
      assert h in r.sel.selected <==> h in m.sel.selected || h in added;
    }
  }

  lemma {:induction false} SetCurrentKeepsFlagsAgree(m: Marks, target: Option<nat>)
    requires ValidSelection(m) && FlagsAgree(m)
    requires target.Some? ==> target.value < |m.elems|
    ensures ValidSelection(SetCurrent(m, target)) && FlagsAgree(SetCurrent(m, target))
  {
  }

  /** Two element stores that differ at most in the selection and current
      flags: selecting never moves, resizes or re-parents anything. */
  predicate SameButFlags(a: seq<ObjElement>, b: seq<ObjElement>) {
    |a| == |b|
    && forall h :: 0 <= h < |a| ==> a[h].(isSelected := b[h].isSelected, isCurrent := b[h].isCurrent) == b[h]
  }

  lemma {:induction false} SameButFlagsTransitive(a: seq<ObjElement>, b: seq<ObjElement>, c: seq<ObjElement>)
    requires SameButFlags(a, b) && SameButFlags(b, c)
    ensures SameButFlags(a, c)
  {
    forall h | 0 <= h < |a|
      ensures a[h].(isSelected := c[h].isSelected, isCurrent := c[h].isCurrent) == c[h]
    {
      assert a[h].rect == b[h].rect && a[h].layer == b[h].layer && a[h].id == b[h].id && a[h].data == b[h].data;
    }
  }

  lemma {:induction false} SameButFlagsFields(a: seq<ObjElement>, b: seq<ObjElement>)
    requires SameButFlags(a, b)
    ensures forall h :: 0 <= h < |a| ==>
      a[h].rect == b[h].rect && a[h].layer == b[h].layer && a[h].id == b[h].id
  {
    forall h | 0 <= h < |a|
      ensures a[h].rect == b[h].rect && a[h].layer == b[h].layer && a[h].id == b[h].id
    {
      assert a[h].(isSelected := b[h].isSelected, isCurrent := b[h].isCurrent) == b[h];
    }
  }

  /** Clearing the selection changes flags only. */
  lemma {:induction false} ClearSelectedChangesFlagsOnly(m: Marks)
    requires ValidSelection(m)
    ensures SameButFlags(ClearSelected(m).elems, m.elems)
  {
  }

  /** Adding to the selection changes flags only. */
  lemma {:induction false} AddSelectedChangesFlagsOnly(m: Marks, added: seq<nat>)
    requires ValidSelection(m) && ValidHandles(m.elems, added)
    ensures SameButFlags(AddSelected(m, added).elems, m.elems)
  {
  }

  /** Moving the current element changes flags only. */
  lemma {:induction false} SetCurrentChangesFlagsOnly(m: Marks, target: Option<nat>)
    requires ValidSelection(m) && (target.Some? ==> target.value < |m.elems|)
    ensures SameButFlags(SetCurrent(m, target).elems, m.elems)
  {
  }

  /** A click on `h`: it joins the selection and becomes the current
      element. */
  function ClickOn(m: Marks, h: nat): (r: Marks)
    requires ValidSelection(m) && h < |m.elems|
    ensures ValidSelection(r) && |r.elems| == |m.elems|
    ensures r.sel.selected == m.sel.selected + [h] && r.sel.current == Some(h)
  {
    SetCurrent(AddSelected(m, [h]), Some(h))
  }

  /** A click keeps the flags in step with the selection and changes
      nothing else about the elements. */
  lemma {:induction false} ClickOnFlagsOnly(m: Marks, h: nat)
    requires ValidSelection(m) && h < |m.elems|
    ensures SameButFlags(ClickOn(m, h).elems, m.elems)
    ensures FlagsAgree(m) ==> FlagsAgree(ClickOn(m, h))
  {
    var added := AddSelected(m, [h]);
    AddSelectedChangesFlagsOnly(m, [h]);
    SetCurrentChangesFlagsOnly(added, Some(h));
    SameButFlagsTransitive(SetCurrent(added, Some(h)).elems, added.elems, m.elems);
    if FlagsAgree(m) {
      AddSelectedKeepsFlagsAgree(m, [h]);
      SetCurrentKeepsFlagsAgree(added, Some(h));
    }
  }
}
