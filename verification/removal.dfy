/** `List.Remove` on a layer's element list and the recycle-bin loop of
    `RemoveSelectElements`.

    For every selected element, in selection order, the element is first
    removed from its own layer's list (the first occurrence, or nothing if
    it is not listed) and then filed in the recycle bin under its
    identifier. Filing uses `Dictionary.Add`, which throws when the
    identifier is already a key; the exception ends the loop with the
    removals made so far in place.
 */
module Removal {
  import opened Elements
  import opened Layers

  /** The position of the first occurrence of `x`, or `|s|` if there is
      none. */
  function FirstIndex(s: seq<nat>, x: nat): (k: nat)
    ensures k <= |s|
    ensures k < |s| ==> s[k] == x
    ensures forall j :: 0 <= j < k ==> s[j] != x
    ensures k == |s| <==> x !in s
    decreases |s|
  {
    if |s| == 0 then 0
    else if s[0] == x then 0
    else 1 + FirstIndex(s[1..], x)
  }

  /** `List.Remove(x)`: the first occurrence of `x` is dropped; a list
      without `x` is returned unchanged. */
  function RemoveFirst(s: seq<nat>, x: nat): (r: seq<nat>)
    ensures x !in s ==> r == s
    ensures x in s ==> |r| == |s| - 1
    ensures forall i :: 0 <= i < |r| ==> r[i] == if i < FirstIndex(s, x) then s[i] else s[i + 1]
  {
    var k := FirstIndex(s, x);
    if k == |s| then s
    else
      assert s == s[..k] + [x] + s[k + 1..];
      s[..k] + s[k + 1..]
  }

  predicate NoDuplicates(s: seq<nat>) {
    forall j, k :: 0 <= j < k < |s| ==> s[j] != s[k]
  }

  /** Removing `x` drops `x` when the list has no repeats, keeps every
      other member, and keeps the list free of repeats. */
  lemma {:induction false} RemoveFirstMembers(s: seq<nat>, x: nat)
    requires NoDuplicates(s)
    ensures forall y :: y in RemoveFirst(s, x) <==> y in s && y != x
    ensures NoDuplicates(RemoveFirst(s, x))
  {
    var r := RemoveFirst(s, x);
    var k := FirstIndex(s, x);
    if k < |s| {
      forall y
        ensures y in r <==> y in s && y != x
      {
        if y in s && y != x {
          var i :| 0 <= i < |s| && s[i] == y;
          if i < k {
            assert r[i] == y;
          } else {
            assert r[i - 1] == y;
          }
        }
      }
    }
  }

  /** Where the loop stopped: it ran to the end, or `Dictionary.Add` threw
      for the identifier of the element at position `at`. */
  datatype Stop = Finished | Clash(at: nat, id: string)

  /** The state the loop works on: the layer list and the recycle bin. */
  datatype Bin = Bin(layers: seq<Layer>, deleted: map<string, nat>)

  /** Every element's own layer exists. */
  predicate LayersExist(layers: seq<Layer>, elems: seq<ObjElement>) {
    forall h :: 0 <= h < |elems| ==> elems[h].layer < |layers|
  }

  /** One iteration: remove `h` from its own layer's list. */
  function Unlist(layers: seq<Layer>, elems: seq<ObjElement>, h: nat): (r: seq<Layer>)
    requires h < |elems| && elems[h].layer < |layers|
    ensures |r| == |layers|
    ensures forall i :: 0 <= i < |layers| ==> r[i] == layers[i].(elements := r[i].elements)
  {
    var l := elems[h].layer;
    layers[l := layers[l].(elements := RemoveFirst(layers[l].elements, h))]
  }

  /** Only the element's own layer changes, and its list loses `h` as
      `List.Remove` would. */
  lemma {:induction false} UnlistEffect(layers: seq<Layer>, elems: seq<ObjElement>, h: nat)
    requires h < |elems| && elems[h].layer < |layers|
    ensures var r := Unlist(layers, elems, h);
      && r[elems[h].layer].elements == RemoveFirst(layers[elems[h].layer].elements, h)
      && forall i :: 0 <= i < |layers| && i != elems[h].layer ==> r[i] == layers[i]
  {
  }

  /** `Unlist` for each handle in turn. */
  function UnlistAll(layers: seq<Layer>, elems: seq<ObjElement>, items: seq<nat>): (r: seq<Layer>)
    requires LayersExist(layers, elems)
    requires forall i :: 0 <= i < |items| ==> items[i] < |elems|
    ensures |r| == |layers| && LayersExist(r, elems)
    ensures forall i :: 0 <= i < |layers| ==> r[i] == layers[i].(elements := r[i].elements)
    decreases |items|
  {
    if |items| == 0 then layers
    else UnlistAll(Unlist(layers, elems, items[0]), elems, items[1..])
  }

  /** In a well-formed store, where each element is listed once and only
      by its own layer, unlisting a run of handles keeps the store well
      formed. */
  lemma {:induction false} UnlistAllWellFormed(layers: seq<Layer>, elems: seq<ObjElement>, items: seq<nat>)
    requires WellFormed(Scene(layers, elems))
    requires forall i :: 0 <= i < |items| ==> items[i] < |elems|
    ensures WellFormed(Scene(UnlistAll(layers, elems, items), elems))
    decreases |items|
  {
    if |items| > 0 {
      UnlistKeepsWellFormed(layers, elems, items[0]);
      UnlistAllWellFormed(Unlist(layers, elems, items[0]), elems, items[1..]);
    }
  }

  /** ... and takes exactly those handles out of every layer. */
  lemma {:induction false} UnlistAllMembers(layers: seq<Layer>, elems: seq<ObjElement>, items: seq<nat>, i: nat, y: nat)
    requires WellFormed(Scene(layers, elems))
    requires forall i :: 0 <= i < |items| ==> items[i] < |elems|
    requires i < |layers|
    ensures y in UnlistAll(layers, elems, items)[i].elements <==> y in layers[i].elements && y !in items
    decreases |items|
  {
    if |items| > 0 {
      var h := items[0];
      var l := elems[h].layer;
      var next := Unlist(layers, elems, h);
      UnlistKeepsWellFormed(layers, elems, h);
      UnlistEffect(layers, elems, h);
      UnlistAllMembers(next, elems, items[1..], i, y);
      assert y in items <==> y == h || y in items[1..];
      if i != l {
        assert next[i] == layers[i];
      }
    }
  }

  lemma {:induction false} UnlistKeepsWellFormed(layers: seq<Layer>, elems: seq<ObjElement>, h: nat)
    requires WellFormed(Scene(layers, elems)) && h < |elems|
    ensures WellFormed(Scene(Unlist(layers, elems, h), elems))
    ensures forall y :: y in Unlist(layers, elems, h)[elems[h].layer].elements <==>
      y in layers[elems[h].layer].elements && y != h
  {
    var l := elems[h].layer;
    var s := layers[l].elements;
    RemoveFirstMembers(s, h);
    UnlistEffect(layers, elems, h);
    var r := Unlist(layers, elems, h);
    forall k | 0 <= k < |r[l].elements|
      ensures r[l].elements[k] < |elems| && elems[r[l].elements[k]].layer == l
    {
      assert r[l].elements[k] in s;
    }
  }

  /** The identifiers of the listed elements. */
  function Ids(elems: seq<ObjElement>, items: seq<nat>): set<string>
    requires forall i :: 0 <= i < |items| ==> items[i] < |elems|
  {
    set i | 0 <= i < |items| :: elems[items[i]].id
  }

  /** In a well-formed store, unlisting a run of handles leaves each layer
      with exactly those of its elements that are not in the run. */
  lemma {:induction false} UnlistAllLeavesRest(layers: seq<Layer>, elems: seq<ObjElement>, items: seq<nat>)
    requires WellFormed(Scene(layers, elems))
    requires forall i :: 0 <= i < |items| ==> items[i] < |elems|
    ensures forall i: nat, y: nat {:trigger y in UnlistAll(layers, elems, items)[i].elements} :: i < |layers| ==>
      (y in UnlistAll(layers, elems, items)[i].elements <==> y in layers[i].elements && y !in items)
  {
    forall i: nat, y: nat {:trigger y in UnlistAll(layers, elems, items)[i].elements} | i < |layers|
      ensures y in UnlistAll(layers, elems, items)[i].elements <==> y in layers[i].elements && y !in items
    {
      UnlistAllMembers(layers, elems, items, i, y);
    }
  }

  /** The loop over `items`, starting at position `from` of the selection
      (positions are reported in selection terms). */
  function RemoveLoop(b: Bin, elems: seq<ObjElement>, items: seq<nat>, from: nat): (r: (Bin, Stop))
    requires LayersExist(b.layers, elems)
    requires forall i :: 0 <= i < |items| ==> items[i] < |elems|
    ensures |r.0.layers| == |b.layers| && LayersExist(r.0.layers, elems)
    ensures r.1.Clash? ==> from <= r.1.at < from + |items|
    decreases |items|
  {
    if |items| == 0 then (b, Finished)
    else
      var h := items[0];
      var layers := Unlist(b.layers, elems, h);
      var id := elems[h].id;
      if id in b.deleted then (Bin(layers, b.deleted), Clash(from, id))
      else RemoveLoop(Bin(layers, b.deleted[id := h]), elems, items[1..], from + 1)
  }

  /** How many handles the loop took out of their layers: all of them, or
      those up to and including the one whose filing threw. */
  function Done(stop: Stop, from: nat, n: nat): nat
    requires stop.Clash? ==> from <= stop.at < from + n
  {
    match stop
    case Finished => n
    case Clash(at, _) => at - from + 1
  }

  /** The layers after the loop: exactly the handles it reached have been
      unlisted, the clashing one included. */
  lemma {:induction false} RemoveLoopLayers(b: Bin, elems: seq<ObjElement>, items: seq<nat>, from: nat)
    requires LayersExist(b.layers, elems)
    requires forall i :: 0 <= i < |items| ==> items[i] < |elems|
    ensures var r := RemoveLoop(b, elems, items, from);
      Done(r.1, from, |items|) <= |items|
      && r.0.layers == UnlistAll(b.layers, elems, items[..Done(r.1, from, |items|)])
    decreases |items|
  {
    if |items| == 0 {
      assert items[..0] == [];
    } else if elems[items[0]].id in b.deleted {
      ClashLayers(b, elems, items, from);
    } else {
      var h := items[0];
      var b1 := Bin(Unlist(b.layers, elems, h), b.deleted[elems[h].id := h]);
      RemoveLoopLayers(b1, elems, items[1..], from + 1);
      StepLayers(b, b1, elems, items, from);
    }
  }

  /** The loop stopping at its first handle has unlisted just that one. */
  lemma {:induction false} ClashLayers(b: Bin, elems: seq<ObjElement>, items: seq<nat>, from: nat)
    requires LayersExist(b.layers, elems)
    requires forall i :: 0 <= i < |items| ==> items[i] < |elems|
    requires |items| > 0 && elems[items[0]].id in b.deleted
    ensures var r := RemoveLoop(b, elems, items, from);
      Done(r.1, from, |items|) == 1
      && r.0.layers == UnlistAll(b.layers, elems, items[..1])
  {
    UnlistAllPrefix(b.layers, elems, items, 0);
    assert items[1..][..0] == [];
  }

  /** The loop going past its first handle has unlisted that one and what
      the rest of the loop, which starts from `b1`, unlisted. */
  lemma {:induction false} StepLayers(b: Bin, b1: Bin, elems: seq<ObjElement>, items: seq<nat>, from: nat)
    requires LayersExist(b.layers, elems)
    requires forall i :: 0 <= i < |items| ==> items[i] < |elems|
    requires |items| > 0 && elems[items[0]].id !in b.deleted
    requires b1 == Bin(Unlist(b.layers, elems, items[0]), b.deleted[elems[items[0]].id := items[0]])
    requires var r1 := RemoveLoop(b1, elems, items[1..], from + 1);
      Done(r1.1, from + 1, |items| - 1) <= |items| - 1
      && r1.0.layers == UnlistAll(b1.layers, elems, items[1..][..Done(r1.1, from + 1, |items| - 1)])
    ensures var r := RemoveLoop(b, elems, items, from);
      Done(r.1, from, |items|) <= |items|
      && r.0.layers == UnlistAll(b.layers, elems, items[..Done(r.1, from, |items|)])
  {
    var r1 := RemoveLoop(b1, elems, items[1..], from + 1);
    assert RemoveLoop(b, elems, items, from) == r1;
    DoneStep(r1.1, from, |items| - 1);
    UnlistAllPrefix(b.layers, elems, items, Done(r1.1, from + 1, |items| - 1));
  }

  /** A loop one handle longer, started one position earlier, has done one
      handle more. */
  lemma DoneStep(stop: Stop, from: nat, n: nat)
    requires stop.Clash? ==> from + 1 <= stop.at < from + 1 + n
    ensures Done(stop, from, n + 1) == Done(stop, from + 1, n) + 1
  {
  }

  /** Unlisting a prefix one longer than `n` is unlisting the head, then
      the tail's prefix of length `n`. */
  lemma {:induction false} UnlistAllPrefix(layers: seq<Layer>, elems: seq<ObjElement>, items: seq<nat>, n: nat)
    requires LayersExist(layers, elems)
    requires forall i :: 0 <= i < |items| ==> items[i] < |elems|
    requires n < |items|
    ensures UnlistAll(layers, elems, items[..n + 1])
         == UnlistAll(Unlist(layers, elems, items[0]), elems, items[1..][..n])
  {
    assert items[..n + 1][0] == items[0] && items[..n + 1][1..] == items[1..][..n];
  }

  /** The recycle-bin half of the loop on its own: file each element
      under its identifier until an identifier is already filed. */
  function FileLoop(deleted: map<string, nat>, elems: seq<ObjElement>, items: seq<nat>, from: nat)
    : (r: (map<string, nat>, Stop))
    requires forall i :: 0 <= i < |items| ==> items[i] < |elems|
    ensures r.1.Clash? ==> from <= r.1.at < from + |items|
    decreases |items|
  {
    if |items| == 0 then (deleted, Finished)
    else
      var h := items[0];
      var id := elems[h].id;
      if id in deleted then (deleted, Clash(from, id))
      else FileLoop(deleted[id := h], elems, items[1..], from + 1)
  }

  /** The recycle bin and the stopping point of the interleaved loop are
      those of the filing half alone: unlisting never decides anything. */
  lemma {:induction false} RemoveLoopFilesAlone(b: Bin, elems: seq<ObjElement>, items: seq<nat>, from: nat)
    requires LayersExist(b.layers, elems)
    requires forall i :: 0 <= i < |items| ==> items[i] < |elems|
    ensures RemoveLoop(b, elems, items, from).0.deleted == FileLoop(b.deleted, elems, items, from).0
    ensures RemoveLoop(b, elems, items, from).1 == FileLoop(b.deleted, elems, items, from).1
    decreases |items|
  {
    if |items| > 0 {
      var h := items[0];
      var id := elems[h].id;
      if id !in b.deleted {
        RemoveLoopFilesAlone(Bin(Unlist(b.layers, elems, h), b.deleted[id := h]), elems, items[1..], from + 1);
      }
    }
  }

  /** A loop that finishes met only fresh, pairwise distinct
      identifiers. */
  lemma {:induction false} FileLoopFresh(deleted: map<string, nat>, elems: seq<ObjElement>, items: seq<nat>, from: nat)
    requires forall i :: 0 <= i < |items| ==> items[i] < |elems|
    requires FileLoop(deleted, elems, items, from).1 == Finished
    ensures forall i :: 0 <= i < |items| ==> elems[items[i]].id !in deleted
    ensures forall i, j :: 0 <= i < j < |items| ==> elems[items[i]].id != elems[items[j]].id
    decreases |items|
  {
    if |items| > 0 {
      var h := items[0];
      var id := elems[h].id;
      FileLoopFresh(deleted[id := h], elems, items[1..], from + 1);
      assert forall i :: 1 <= i < |items| ==> items[1..][i - 1] == items[i];
    }
  }

  /** A loop that finishes files every element under its own identifier
      and keeps the earlier entries. */
  lemma {:induction false} FileLoopFiles(deleted: map<string, nat>, elems: seq<ObjElement>, items: seq<nat>, from: nat)
    requires forall i :: 0 <= i < |items| ==> items[i] < |elems|
    requires FileLoop(deleted, elems, items, from).1 == Finished
    ensures var r := FileLoop(deleted, elems, items, from).0;
      && (forall i :: 0 <= i < |items| ==> elems[items[i]].id in r && r[elems[items[i]].id] == items[i])
      && (forall k :: k in deleted ==> k in r && r[k] == deleted[k])
    decreases |items|
  {
    if |items| > 0 {
      var h := items[0];
      var id := elems[h].id;
      FileLoopFiles(deleted[id := h], elems, items[1..], from + 1);
      assert forall i :: 1 <= i < |items| ==> items[1..][i - 1] == items[i];
    }
  }

  /** A loop that finishes leaves the bin keyed by the earlier identifiers
      and those of the filed elements. */
  lemma {:induction false} FileLoopKeys(deleted: map<string, nat>, elems: seq<ObjElement>, items: seq<nat>, from: nat)
    requires forall i :: 0 <= i < |items| ==> items[i] < |elems|
    requires FileLoop(deleted, elems, items, from).1 == Finished
    ensures FileLoop(deleted, elems, items, from).0.Keys == deleted.Keys + Ids(elems, items)
    decreases |items|
  {
    if |items| > 0 {
      var h := items[0];
      var id := elems[h].id;
      FileLoopKeys(deleted[id := h], elems, items[1..], from + 1);
      IdsCons(elems, items);
    }
  }

  /** The identifiers of a list are those of its head and of its tail. */
  lemma {:induction false} IdsCons(elems: seq<ObjElement>, items: seq<nat>)
    requires |items| > 0 && forall i :: 0 <= i < |items| ==> items[i] < |elems|
    ensures Ids(elems, items) == {elems[items[0]].id} + Ids(elems, items[1..])
  {
    assert forall i :: 1 <= i < |items| ==> items[1..][i - 1] == items[i];
    forall k | k in Ids(elems, items)
      ensures k in {elems[items[0]].id} + Ids(elems, items[1..])
    {
      var i :| 0 <= i < |items| && elems[items[i]].id == k;
      if i > 0 {
        assert elems[items[1..][i - 1]].id == k;
      }
    }
  }

  /** A run that stopped on a clash at position `at` took out the handles
      up to and including `at`, stopped on an id that was in the bin
      already or filed earlier in the same run, and filed every handle
      before `at` under its own id. */
  lemma {:induction false} RemoveLoopInterrupted(b: Bin, elems: seq<ObjElement>, items: seq<nat>)
    requires LayersExist(b.layers, elems)
    requires forall i :: 0 <= i < |items| ==> items[i] < |elems|
    requires RemoveLoop(b, elems, items, 0).1.Clash?
    ensures var run := RemoveLoop(b, elems, items, 0);
      var at := run.1.at;
      && at < |items|
      && run.1.id == elems[items[at]].id
      && (run.1.id in b.deleted || exists i :: 0 <= i < at && elems[items[i]].id == run.1.id)
      && run.0.layers == UnlistAll(b.layers, elems, items[..at + 1])
      && (forall i :: 0 <= i < at ==>
            elems[items[i]].id in run.0.deleted && run.0.deleted[elems[items[i]].id] == items[i])
  {
    var run := RemoveLoop(b, elems, items, 0);
    RemoveLoopFilesAlone(b, elems, items, 0);
    FileLoopClash(b.deleted, elems, items, 0);
    RemoveLoopLayers(b, elems, items, 0);
    assert Done(run.1, 0, |items|) == run.1.at + 1;
  }

  /** A loop that throws does so at an element whose identifier is already
      filed: before the loop, or by an earlier element of the list; every
      element before it was filed. */
  lemma {:induction false} FileLoopClash(deleted: map<string, nat>, elems: seq<ObjElement>, items: seq<nat>, from: nat)
    requires forall i :: 0 <= i < |items| ==> items[i] < |elems|
    ensures var r := FileLoop(deleted, elems, items, from);
      r.1.Clash? ==>
      && r.1.id == elems[items[r.1.at - from]].id
      && (r.1.id in deleted || exists i :: 0 <= i < r.1.at - from && elems[items[i]].id == r.1.id)
      && (forall i :: 0 <= i < r.1.at - from ==> elems[items[i]].id in r.0 && r.0[elems[items[i]].id] == items[i])
      && (forall k :: k in deleted ==> k in r.0 && r.0[k] == deleted[k])
    decreases |items|
  {
    var r := FileLoop(deleted, elems, items, from);
    if |items| > 0 && r.1.Clash? {
      var h := items[0];
      var id := elems[h].id;
      if id !in deleted {
        FileLoopClash(deleted[id := h], elems, items[1..], from + 1);
        var at := r.1.at;
        assert items[1..][at - (from + 1)] == items[at - from];
        assert forall i :: 1 <= i < |items| ==> items[1..][i - 1] == items[i];
        if r.1.id !in deleted && r.1.id != id {
          var i :| 0 <= i < at - (from + 1) && elems[items[1..][i]].id == r.1.id;
          assert elems[items[i + 1]].id == r.1.id;
        } else if r.1.id !in deleted {
          assert elems[items[0]].id == r.1.id;
        }
      }
    }
  }
}
