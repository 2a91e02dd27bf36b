/** Updating shared elements through a list of handles.

    `list.ForEach(x => x.Update())` in the canvas mutates each element the
    list refers to, once per occurrence and in list order; a list that holds
    an element twice updates it twice. `ApplyEach` is that loop over the
    element store, and its contract says how many times each element was
    updated.
 */
module Store {
  import opened Elements

  predicate ValidHandles(elems: seq<ObjElement>, hs: seq<nat>) {
    forall i :: 0 <= i < |hs| ==> hs[i] < |elems|
  }

  lemma {:induction false} ValidHandlesConcat(elems: seq<ObjElement>, a: seq<nat>, b: seq<nat>)
    requires ValidHandles(elems, a) && ValidHandles(elems, b)
    ensures ValidHandles(elems, a + b)
  {
    assert forall i :: 0 <= i < |a + b| ==> (a + b)[i] == if i < |a| then a[i] else b[i - |a|];
  }

  /** `f` applied `n` times. */
  function Iterate(f: ObjElement -> ObjElement, n: nat, e: ObjElement): ObjElement
    decreases n
  {
    if n == 0 then e else Iterate(f, n - 1, f(e))
  }

  /** Apply `f` to the element of each handle in `hs`, in order. Every
      element is updated once per occurrence of its handle, and elements
      not listed are untouched. */
  function ApplyEach(elems: seq<ObjElement>, hs: seq<nat>, f: ObjElement -> ObjElement): (r: seq<ObjElement>)
    requires ValidHandles(elems, hs)
    ensures |r| == |elems|
    ensures forall h :: 0 <= h < |elems| ==> r[h] == Iterate(f, multiset(hs)[h], elems[h])
    decreases |hs|
  {
    if |hs| == 0 then elems
    else
      var h0 := hs[0];
      var next := elems[h0 := f(elems[h0])];
      var r := ApplyEach(next, hs[1..], f);
      assert hs == [h0] + hs[1..];
      assert forall h :: 0 <= h < |elems| ==> r[h] == Iterate(f, multiset(hs)[h], elems[h]) by {
        forall h | 0 <= h < |elems|
          ensures r[h] == Iterate(f, multiset(hs)[h], elems[h])
        {
          assert multiset(hs)[h] == multiset([h0])[h] + multiset(hs[1..])[h];
        }
      }
      r
  }

  /** An update that is idempotent on `e` has the same effect however many
      times (at least once) it is applied. */
  lemma {:induction false} IterateIdempotent(f: ObjElement -> ObjElement, n: nat, e: ObjElement)
    requires f(f(e)) == f(e)
    ensures Iterate(f, n, e) == if n == 0 then e else f(e)
    decreases n
  {
    if n > 1 {
      IterateIdempotent(f, n - 1, f(e));
    }
  }

  /** Two loops in a row are one loop over the concatenated list. */
  lemma {:induction false} ApplyEachConcat(elems: seq<ObjElement>, a: seq<nat>, b: seq<nat>, f: ObjElement -> ObjElement)
    requires ValidHandles(elems, a) && ValidHandles(elems, b)
    ensures ValidHandles(elems, a + b)
    ensures ApplyEach(ApplyEach(elems, a, f), b, f) == ApplyEach(elems, a + b, f)
    decreases |a|
  {
    assert forall i :: 0 <= i < |a + b| ==> (a + b)[i] == if i < |a| then a[i] else b[i - |a|];
    if |a| == 0 {
      assert a + b == b;
    } else {
      var next := elems[a[0] := f(elems[a[0]])];
      assert (a + b)[0] == a[0] && (a + b)[1..] == a[1..] + b;
      ApplyEachConcat(next, a[1..], b, f);
    }
  }
}
