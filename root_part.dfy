// FXRootPart: the root of the part tree in a JavaFX viewer. Its visual is a
// scroll pane around a stack of three layers (content, feedback, handles);
// a child's visual goes into the layer its kind selects, at the position
// given by counting the children of the same kind in front of it. The
// root registers the stack, the layers and the scroll pane in the viewer's
// visual-part map.
//
// The children list belongs to the part tree (module Parts) and is passed
// in as it stands when the hook runs; the toolkit nodes are values of type
// Visual created outside the model.

module RootParts {
  import opened Wrappers
  import opened Lists
  import opened Parts

  datatype Layer = ContentLayer | FeedbackLayer | HandleLayer

  /** The layer a child of the given kind goes into: content, feedback, and handles for any other kind. */
  function LayerOf(kind: PartKind): Layer
  {
    match kind
    case ContentPart => ContentLayer
    case FeedbackPart => FeedbackLayer
    case _ => HandleLayer
  }

  /** The kind of child whose visuals the layer holds, and that the index computation counts. */
  function CountedKind(layer: Layer): PartKind
  {
    match layer
    case ContentLayer => ContentPart
    case FeedbackLayer => FeedbackPart
    case HandleLayer => HandlePart
  }

  /** The instanceof test the index loop applies. */
  function OfKind(kind: PartKind): VisualPart -> bool
  {
    (p: VisualPart) => p.kind == kind
  }

  /** The children the index loop looks at: those before index that exist. */
  function Prefix(index: int, size: nat): (r: nat)
    ensures r <= size && (index >= 0 ==> r <= index)
  {
    if index < 0 then 0 else if index < size then index else size
  }

  /** The visuals of the parts, in order. */
  function Visuals(ps: seq<VisualPart>): (r: seq<Visual>)
    ensures |r| == |ps| && forall i :: 0 <= i < |ps| ==> r[i] == ps[i].visual
  {
    seq(|ps|, i requires 0 <= i < |ps| => ps[i].visual)
  }

  /** What a layer holds when it is in line with the children: the visuals of the counted kind, in order. */
  function LayerFor(layer: Layer, children: seq<VisualPart>): seq<Visual>
  {
    Visuals(Filter(OfKind(CountedKind(layer)), children))
  }

  lemma VisualsInsert(s: seq<VisualPart>, i: nat, x: VisualPart)
    requires i <= |s|
    ensures Visuals(InsertAt(s, i, x)) == InsertAt(Visuals(s), i, x.visual)
  {
    var l, r := Visuals(InsertAt(s, i, x)), InsertAt(Visuals(s), i, x.visual);
    assert |l| == |r|;
    forall j | 0 <= j < |l|
      ensures l[j] == r[j]
    {
      if j < i {
      } else if j == i {
      } else {
        assert r[j] == Visuals(s)[j - 1];
      }
    }
  }

  /** Filtering a list with one element inserted at i inserts it after the Count(p, s[..i]) kept elements in front of it. */
  lemma FilterInsert<T>(p: T -> bool, s: seq<T>, i: nat, x: T)
    requires i <= |s|
    ensures Count(p, s[..i]) <= |Filter(p, s)|
    ensures Filter(p, InsertAt(s, i, x)) == if p(x) then InsertAt(Filter(p, s), Count(p, s[..i]), x) else Filter(p, s)
  {
    assert s == s[..i] + s[i..];
    assert InsertAt(s, i, x) == s[..i] + ([x] + s[i..]);
    FilterAppend(p, s[..i], s[i..]);
    FilterAppend(p, s[..i], [x] + s[i..]);
    FilterAppend(p, [x], s[i..]);
    FilterSatisfies(p, s[..i]);
    var front := Filter(p, s[..i]);
    var back := Filter(p, s[i..]);
    assert (front + back)[..|front|] == front;
    assert (front + back)[|front|..] == back;
  }

  /**
   * Inserting a child at index and counting the children of one kind in
   * front of it gives a position inside that kind's layer; inserting the
   * child's visual there keeps the layer in line with the children, and a
   * child of another kind leaves the layer as it was.
   */
  lemma InsertKeepsLayer(children: seq<VisualPart>, index: nat, child: VisualPart, kind: PartKind)
    requires index <= |children|
    ensures var after := InsertAt(children, index, child);
            var p := OfKind(kind);
            var idx := Count(p, after[..Prefix(index, |after|)]);
            idx <= |Visuals(Filter(p, children))| &&
            (child.kind == kind ==> InsertAt(Visuals(Filter(p, children)), idx, child.visual) == Visuals(Filter(p, after))) &&
            (child.kind != kind ==> Filter(p, after) == Filter(p, children))
  {
    var p := OfKind(kind);
    var after := InsertAt(children, index, child);
    assert after[..Prefix(index, |after|)] == children[..index];
    FilterInsert(p, children, index, child);
    if child.kind == kind {
      VisualsInsert(Filter(p, children), Count(p, children[..index]), child);
    }
  }

  /** The keys the root puts into the visual-part map. */
  datatype RootVisuals = RootVisuals(scrollPane: Visual, layersStackPane: Visual,
                                     contentLayer: Visual, feedbackLayer: Visual, handleLayer: Visual)
  {
    /** The stack pane's children, in the order createRootVisual adds them. */
    function Layers(): seq<Visual>
    {
      [contentLayer, feedbackLayer, handleLayer]
    }

    /** The keys in the order registerAtVisualPartMap puts them. */
    function KeySeq(): seq<Visual>
    {
      [layersStackPane] + Layers() + [scrollPane]
    }

    function Keys(): (r: set<Visual>)
      ensures r == set v | v in KeySeq()
    {
      {layersStackPane, contentLayer, feedbackLayer, handleLayer, scrollPane}
    }
  }

  /** The map after putting each key, in order, to the root. */
  function PutAll(m: map<Visual, object>, keys: seq<Visual>, root: object): (r: map<Visual, object>)
    ensures r.Keys == m.Keys + (set v | v in keys)
    ensures forall v :: v in keys ==> r[v] == root
    ensures forall v :: v in m && v !in keys ==> r[v] == m[v]
  {
    if |keys| == 0 then m else PutAll(m, keys[..|keys| - 1], root)[keys[|keys| - 1] := root]
  }

  /** Putting one more key is putting it into the map of the keys before it. */
  lemma PutAllSnoc(m: map<Visual, object>, keys: seq<Visual>, k: Visual, root: object)
    ensures PutAll(m, keys + [k], root) == PutAll(m, keys, root)[k := root]
  {
    assert (keys + [k])[..|keys|] == keys;
  }

  lemma ElementsSnoc(keys: seq<Visual>, k: Visual)
    ensures (set v | v in keys + [k]) == (set v | v in keys) + {k}
  {
  }

  /** unregisterFromVisualPartMap undoes registerAtVisualPartMap on every key that was not taken before. */
  lemma UnregisterUndoesRegister(m: map<Visual, object>, keys: seq<Visual>, root: object)
    ensures PutAll(m, keys, root) - (set v | v in keys) == m - (set v | v in keys)
    ensures (forall v :: v in keys ==> v !in m) ==> PutAll(m, keys, root) - (set v | v in keys) == m
  {
  }

  class FXRootPart {
    const visuals: RootVisuals
    /** The visuals in each layer, in order. */
    var contentLayer: seq<Visual>
    var feedbackLayer: seq<Visual>
    var handleLayer: seq<Visual>
    var viewer: Viewer?

    /** createRootVisual: three empty layers in a stack inside a scroll pane; no viewer yet. */
    constructor(visuals: RootVisuals)
      ensures this.visuals == visuals && viewer == null
      ensures contentLayer == [] && feedbackLayer == [] && handleLayer == []
    {
      this.visuals := visuals;
      contentLayer := [];
      feedbackLayer := [];
      handleLayer := [];
      viewer := null;
    }

    function LayerContents(layer: Layer): seq<Visual>
      reads this`contentLayer, this`feedbackLayer, this`handleLayer
    {
      match layer
      case ContentLayer => contentLayer
      case FeedbackLayer => feedbackLayer
      case HandleLayer => handleLayer
    }

    /** Every layer holds the visuals of the children of its kind, in the children's order. */
    ghost predicate LayersMatch(children: seq<VisualPart>)
      reads this`contentLayer, this`feedbackLayer, this`handleLayer
    {
      forall layer :: LayerContents(layer) == LayerFor(layer, children)
    }

    /** The counting loop of addChildVisual: children of the kind among the first index children. */
    method LayerIndex(children: seq<VisualPart>, index: int, kind: PartKind) returns (layerIndex: nat)
      ensures layerIndex == Count(OfKind(kind), children[..Prefix(index, |children|)])
      ensures layerIndex <= Prefix(index, |children|)
    {
      layerIndex := 0;
      var i := 0;
      while i < index
        invariant 0 <= i && (index >= 0 ==> i <= index) && (index < 0 ==> i == 0)
        invariant layerIndex == Count(OfKind(kind), children[..Prefix(i, |children|)])
      {
        if i < |children| {
          CountPrefixStep(OfKind(kind), children, i);
          if children[i].kind == kind {
            layerIndex := layerIndex + 1;
          }
        }
        i := i + 1;
      }
      assert Prefix(i, |children|) == Prefix(index, |children|);
      CountBound(OfKind(kind), children[..Prefix(index, |children|)]);
    }

    method InsertIntoLayer(layer: Layer, index: int, visual: Visual) returns (outcome: Outcome)
      modifies this`contentLayer, this`feedbackLayer, this`handleLayer
      ensures outcome == (if 0 <= index <= |old(LayerContents(layer))| then Pass else Fail(IndexOutOfBounds))
      ensures outcome.Pass? ==> LayerContents(layer) == InsertAt(old(LayerContents(layer)), index, visual)
      ensures outcome.Fail? ==> LayerContents(layer) == old(LayerContents(layer))
      ensures forall other :: other != layer ==> LayerContents(other) == old(LayerContents(other))
    {
      var contents := LayerContents(layer);
      if !(0 <= index <= |contents|) {
        return Fail(IndexOutOfBounds);
      }
      contents := InsertAt(contents, index, visual);
      outcome := Pass;
      match layer
      case ContentLayer => contentLayer := contents;
      case FeedbackLayer => feedbackLayer := contents;
      case HandleLayer => handleLayer := contents;
    }

    /**
     * addChildVisual: the child's visual goes into the layer of its kind, at
     * the number of children of the counted kind before index (List.add
     * throws when that is past the layer's end). When the layers were in
     * line with the children before the child was inserted at index, and the
     * child is a content, feedback or handle part, it succeeds and they are
     * in line again.
     */
    method AddChildVisual(children: seq<VisualPart>, child: VisualPart, index: int, ghost before: seq<VisualPart>)
      returns (outcome: Outcome)
      modifies this`contentLayer, this`feedbackLayer, this`handleLayer
      ensures var layer := LayerOf(child.kind);
              var idx := Count(OfKind(CountedKind(layer)), children[..Prefix(index, |children|)]);
              outcome == (if idx <= |old(LayerContents(layer))| then Pass else Fail(IndexOutOfBounds)) &&
              (outcome.Pass? ==> LayerContents(layer) == InsertAt(old(LayerContents(layer)), idx, child.visual)) &&
              (outcome.Fail? ==> LayerContents(layer) == old(LayerContents(layer))) &&
              forall other :: other != layer ==> LayerContents(other) == old(LayerContents(other))
      ensures old(LayersMatch(before)) && 0 <= index <= |before| && children == InsertAt(before, index, child) &&
              child.kind != RootPart ==>
                outcome == Pass && LayersMatch(children)
    {
      var layer := LayerOf(child.kind);
      var layerIndex := LayerIndex(children, index, CountedKind(layer));
      ghost var matched := LayersMatch(before) && 0 <= index <= |before| && children == InsertAt(before, index, child) &&
                           child.kind != RootPart;
      if matched {
        forall kind
          ensures var p := OfKind(kind);
                  Count(p, children[..Prefix(index, |children|)]) <= |Visuals(Filter(p, before))| &&
                  (child.kind == kind ==>
                     InsertAt(Visuals(Filter(p, before)), Count(p, children[..Prefix(index, |children|)]), child.visual)
                       == Visuals(Filter(p, children))) &&
                  (child.kind != kind ==> Filter(p, children) == Filter(p, before))
        {
          InsertKeepsLayer(before, index, child, kind);
        }
        assert CountedKind(layer) == child.kind;
      }
      outcome := InsertIntoLayer(layer, layerIndex, child.visual);
      if matched {
        forall other | other != layer
          ensures LayerContents(other) == LayerFor(other, children)
        {
          assert CountedKind(other) != child.kind;
        }
      }
    }

    /** removeChildVisual: the child's visual leaves the layer of its kind (List.remove). */
    method RemoveChildVisual(child: VisualPart)
      modifies this`contentLayer, this`feedbackLayer, this`handleLayer
      ensures LayerContents(LayerOf(child.kind)) == RemoveFirst(old(LayerContents(LayerOf(child.kind))), child.visual)
      ensures forall other :: other != LayerOf(child.kind) ==> LayerContents(other) == old(LayerContents(other))
      ensures child.visual !in old(LayerContents(LayerOf(child.kind))) ==>
                forall l :: LayerContents(l) == old(LayerContents(l))
    {
      match LayerOf(child.kind)
      case ContentLayer => contentLayer := RemoveFirst(contentLayer, child.visual);
      case FeedbackLayer => feedbackLayer := RemoveFirst(feedbackLayer, child.visual);
      case HandleLayer => handleLayer := RemoveFirst(handleLayer, child.visual);
    }

    /** registerAtVisualPartMap: the stack pane, each of its layers, then the scroll pane. */
    method RegisterAtVisualPartMap()
      requires viewer != null
      modifies viewer`visualPartMap
      ensures viewer.visualPartMap == PutAll(old(viewer.visualPartMap), visuals.KeySeq(), this)
    {
      var m0 := viewer.visualPartMap;
      var m := m0[visuals.layersStackPane := this];
      var layers := visuals.Layers();
      assert [visuals.layersStackPane][..0] == [];
      for i := 0 to |layers|
        invariant m == PutAll(m0, [visuals.layersStackPane] + layers[..i], this)
      {
        PutAllSnoc(m0, [visuals.layersStackPane] + layers[..i], layers[i], this);
        assert [visuals.layersStackPane] + layers[..i + 1] == ([visuals.layersStackPane] + layers[..i]) + [layers[i]];
        m := m[layers[i] := this];
      }
      PutAllSnoc(m0, [visuals.layersStackPane] + layers, visuals.scrollPane, this);
      m := m[visuals.scrollPane := this];
      assert layers[..|layers|] == layers;
      viewer.visualPartMap := m;
    }

    /** unregisterFromVisualPartMap: removes exactly the keys the registration put. */
    method UnregisterFromVisualPartMap()
      requires viewer != null
      modifies viewer`visualPartMap
      ensures viewer.visualPartMap == old(viewer.visualPartMap) - visuals.Keys()
    {
      var m0 := viewer.visualPartMap;
      var m := m0 - {visuals.layersStackPane};
      var layers := visuals.Layers();
      for i := 0 to |layers|
        invariant m == m0 - ({visuals.layersStackPane} + (set v | v in layers[..i]))
      {
        assert layers[..i + 1] == layers[..i] + [layers[i]];
        ElementsSnoc(layers[..i], layers[i]);
        m := m - {layers[i]};
      }
      m := m - {visuals.scrollPane};
      assert layers[..|layers|] == layers;
      assert (set v | v in layers) == {visuals.contentLayer, visuals.feedbackLayer, visuals.handleLayer};
      viewer.visualPartMap := m;
    }

    /**
     * setViewer: unregister from the current viewer, reject a viewer that is
     * not an IFXViewer (the old registration is gone by then), take the new
     * viewer and register with it.
     */
    method SetViewer(newViewer: Viewer?) returns (outcome: Outcome)
      modifies this`viewer
      modifies if viewer == null then {} else {viewer}`visualPartMap
      modifies if newViewer == null then {} else {newViewer}`visualPartMap
      ensures var unregistered := if old(viewer) == null then map[] else old(viewer.visualPartMap) - visuals.Keys();
              if newViewer != null && !newViewer.isFXViewer then
                outcome == Fail(IllegalArgument) && viewer == old(viewer) &&
                (old(viewer) != null ==> old(viewer).visualPartMap == unregistered)
              else
                outcome == Pass && viewer == newViewer &&
                (old(viewer) != null && old(viewer) != newViewer ==> old(viewer).visualPartMap == unregistered) &&
                (newViewer != null ==>
                   newViewer.visualPartMap ==
                     PutAll(if old(viewer) == newViewer then unregistered else old(newViewer.visualPartMap),
                            visuals.KeySeq(), this))
    {
      if viewer != null {
        UnregisterFromVisualPartMap();
      }
      if newViewer != null && !newViewer.isFXViewer {
        return Fail(IllegalArgument);
      }
      viewer := newViewer;
      if viewer != null {
        RegisterAtVisualPartMap();
      }
      outcome := Pass;
    }
  }
}
