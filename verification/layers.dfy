/** Layers and the canvas's element store.

    Elements are shared by reference between their layer's `Elements` list,
    the editor's selection and its recycle bin. The model keeps every
    element ever constructed in one sequence, `Scene.elems`, and refers to
    an element by its index there (its handle); a layer's `Elements` list
    is a sequence of handles.
 */
module Layers {
  import opened Geometry
  import opened Elements

  /** A `Layer`: only active layers take part in selection; visibility
      affects drawing only. */
  datatype Layer = Layer(
    name: string,
    elements: seq<nat>,
    isActive: bool,
    isVisible: bool,
    isInteractionLayer: bool)

  /** The canvas's `LayerList` together with every element constructed. */
  datatype Scene = Scene(layers: seq<Layer>, elems: seq<ObjElement>)

  const EmptyScene := Scene([], [])

  /** A freshly constructed layer: no elements, inactive, visible, not an
      interaction layer. */
  function NewLayer(name: string): (l: Layer)
    ensures l.name == name && l.elements == []
    ensures !l.isActive && l.isVisible && !l.isInteractionLayer
  {
    Layer(name, [], false, true, false)
  }

  /** The layer constructor's self-registration: the new layer is appended
      to the canvas's layer list and nothing else changes. */
  function RegisterLayer(s: Scene, name: string): (r: Scene)
    ensures |r.layers| == |s.layers| + 1
    ensures r.layers[..|s.layers|] == s.layers
    ensures r.layers[|s.layers|] == NewLayer(name)
    ensures r.elems == s.elems
  {
    s.(layers := s.layers + [NewLayer(name)])
  }

  /** Constructing layers one after another. */
  function RegisterLayers(s: Scene, names: seq<string>): Scene
    decreases |names|
  {
    if |names| == 0 then s else RegisterLayers(RegisterLayer(s, names[0]), names[1..])
  }

  /** The layer list ends up in construction order: one fresh layer per
      name, after the layers that already existed. */
  lemma {:induction false} RegistrationOrder(s: Scene, names: seq<string>)
    ensures |RegisterLayers(s, names).layers| == |s.layers| + |names|
    ensures RegisterLayers(s, names).layers[..|s.layers|] == s.layers
    ensures forall i :: 0 <= i < |names| ==>
      RegisterLayers(s, names).layers[|s.layers| + i] == NewLayer(names[i])
    ensures RegisterLayers(s, names).elems == s.elems
    decreases |names|
  {
    if |names| > 0 {
      var s1 := RegisterLayer(s, names[0]);
      RegistrationOrder(s1, names[1..]);
      var r := RegisterLayers(s1, names[1..]);
      assert r.layers[..|s.layers|] == r.layers[..|s1.layers|][..|s.layers|];
      forall i | 0 <= i < |names|
        ensures r.layers[|s.layers| + i] == NewLayer(names[i])
      {
        if i == 0 {
          assert r.layers[|s.layers|] == r.layers[..|s1.layers|][|s.layers|];
        } else {
          assert names[i] == names[1..][i - 1];
        }
      }
    }
  }

  /** Every handle any layer lists indexes a store of `count` elements. */
  predicate HandlesBelow(layers: seq<Layer>, count: nat) {
    forall i, k :: 0 <= i < |layers| && 0 <= k < |layers[i].elements| ==> layers[i].elements[k] < count
  }

  /** Every layer's element handles index the store and point back to that
      layer, no layer lists an element twice, and every element's layer
      exists. */
  ghost predicate WellFormed(s: Scene) {
    && (forall h :: 0 <= h < |s.elems| ==> s.elems[h].layer < |s.layers|)
    && (forall i, k :: 0 <= i < |s.layers| && 0 <= k < |s.layers[i].elements| ==>
          s.layers[i].elements[k] < |s.elems| && s.elems[s.layers[i].elements[k]].layer == i)
    && (forall i, j, k :: 0 <= i < |s.layers| && 0 <= j < k < |s.layers[i].elements| ==>
          s.layers[i].elements[j] != s.layers[i].elements[k])
  }

  /** Well-formedness reads nothing of an element but its layer. */
  lemma {:induction false} WellFormedByLayers(layers: seq<Layer>, a: seq<ObjElement>, b: seq<ObjElement>)
    requires |a| == |b| && forall h :: 0 <= h < |a| ==> a[h].layer == b[h].layer
    requires WellFormed(Scene(layers, b))
    ensures WellFormed(Scene(layers, a))
  {
  }

  /** The element constructor: the new element records its layer and is
      appended to that layer's `Elements`. The result carries the new
      element's handle. */
  function AddElement(s: Scene, layer: nat, data: ElementData, rect: Rect): (r: (Scene, nat))
    requires layer < |s.layers|
    ensures r.1 == |s.elems| && r.0.elems == s.elems + [NewElement(layer, data, rect)]
    ensures |r.0.layers| == |s.layers|
    ensures r.0.layers[layer].elements == s.layers[layer].elements + [r.1]
    ensures r.0.layers[layer] == s.layers[layer].(elements := r.0.layers[layer].elements)
    ensures forall i :: 0 <= i < |s.layers| && i != layer ==> r.0.layers[i] == s.layers[i]
  {
    var h := |s.elems|;
    var l := s.layers[layer];
    (Scene(s.layers[layer := l.(elements := l.elements + [h])], s.elems + [NewElement(layer, data, rect)]), h)
  }

  /** Construction keeps the store well formed, and the new element occurs
      exactly once among all layers: once in its own, in no other. */
  lemma {:induction false} AddElementWellFormed(s: Scene, layer: nat, data: ElementData, rect: Rect)
    requires WellFormed(s)
    requires layer < |s.layers|
    ensures WellFormed(AddElement(s, layer, data, rect).0)
    ensures multiset(AddElement(s, layer, data, rect).0.layers[layer].elements)[|s.elems|] == 1
    ensures forall i :: 0 <= i < |s.layers| && i != layer ==>
      |s.elems| !in AddElement(s, layer, data, rect).0.layers[i].elements
  {
    var r := AddElement(s, layer, data, rect).0;
    var h := |s.elems|;
    var before := s.layers[layer].elements;
    assert h !in before;
    var tail: seq<nat> := [h];
    assert multiset(before + tail) == multiset(before) + multiset(tail);
  }
}
