/** The map page's layer list and `toggleLayer`, which flips the
    visibility of the layer(s) with a given id and copies every other
    record as it is. */
module Layers {
  import opened Wrappers

  datatype LayerType = Hydrogen | Renewables | Demand | Constraints

  /** `LayerState`; `kind` is the source's `type` field. The optional
      `data` list is kept as an opaque payload of type `D`. */
  datatype LayerState<D> = LayerState(id: string, name: string, visible: bool, kind: LayerType,
                                      color: string, data: Option<seq<D>>)

  /** `{ ...layer, visible: !layer.visible }` when the id matches,
      `layer` itself otherwise. */
  function ToggleOne<D>(layer: LayerState<D>, layerId: string): (r: LayerState<D>)
    ensures r.visible == (layer.visible != (layer.id == layerId))
    ensures r.(visible := layer.visible) == layer
  {
    if layer.id == layerId then layer.(visible := !layer.visible) else layer
  }

  /** `prev.map(layer => ...)`: the new layer list. */
  function ToggleLayer<D>(layers: seq<LayerState<D>>, layerId: string): (r: seq<LayerState<D>>)
    ensures |r| == |layers|
    ensures forall i :: 0 <= i < |r| ==> r[i].(visible := layers[i].visible) == layers[i]
    ensures forall i :: 0 <= i < |r| && layers[i].id == layerId ==> r[i].visible == !layers[i].visible
    ensures forall i :: 0 <= i < |r| && layers[i].id != layerId ==> r[i] == layers[i]
  {
    if layers == [] then []
    else [ToggleOne(layers[0], layerId)] + ToggleLayer(layers[1..], layerId)
  }

  /** Toggling an id that no layer has changes nothing. */
  lemma {:induction false} ToggleUnknownIdIsIdentity<D>(layers: seq<LayerState<D>>, layerId: string)
    requires forall i :: 0 <= i < |layers| ==> layers[i].id != layerId
    ensures ToggleLayer(layers, layerId) == layers
  {
    if layers != [] {
      ToggleUnknownIdIsIdentity(layers[1..], layerId);
      assert layers == [layers[0]] + layers[1..];
    }
  }

  /** Toggling the same id twice restores the list. */
  lemma {:induction false} ToggleInvolution<D>(layers: seq<LayerState<D>>, layerId: string)
    ensures ToggleLayer(ToggleLayer(layers, layerId), layerId) == layers
  {
    if layers != [] {
      var once := ToggleLayer(layers, layerId);
      assert once[1..] == ToggleLayer(layers[1..], layerId);
      ToggleInvolution(layers[1..], layerId);
      assert layers == [layers[0]] + layers[1..];
    }
  }

  /** Toggling two ids gives the same list in either order. */
  lemma {:induction false} ToggleCommutes<D>(layers: seq<LayerState<D>>, a: string, b: string)
    ensures ToggleLayer(ToggleLayer(layers, a), b) == ToggleLayer(ToggleLayer(layers, b), a)
  {
    if layers != [] {
      var ab, ba := ToggleLayer(ToggleLayer(layers, a), b), ToggleLayer(ToggleLayer(layers, b), a);
      assert ToggleLayer(layers, a)[1..] == ToggleLayer(layers[1..], a);
      assert ToggleLayer(layers, b)[1..] == ToggleLayer(layers[1..], b);
      ToggleCommutes(layers[1..], a, b);
      assert ab[0] == ba[0];
      assert ab == [ab[0]] + ab[1..];
      assert ba == [ba[0]] + ba[1..];
    }
  }
}
