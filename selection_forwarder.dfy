// SelectionForwarder: keeps a workbench selection provider and the viewer's
// selection model in step. A change of the selected parts is forwarded as
// the list of their contents; a structured selection on the provider is
// forwarded as the content parts the viewer's content-part map holds for
// its elements.

module SelectionForwarding {
  import opened Wrappers
  import opened Parts
  import ContentBehaviors

  /** An ISelection: a StructuredSelection of elements, or some other kind. */
  datatype Selection = Structured(elements: seq<Option<Content>>) | OtherSelection

  /** The property-change events of the selection model. */
  datatype SelectionEvent = SelectionProperty(newValue: Option<seq<VisualPart>>) | OtherProperty(name: string)

  class SelectionProvider {
    var selection: Selection

    constructor()
      ensures selection == Structured([])
    {
      selection := Structured([]);
    }

    method SetSelection(s: Selection)
      modifies this`selection
      ensures selection == s
    {
      selection := s;
    }
  }

  class SelectionModel {
    var selected: seq<VisualPart>
    /** The lists select has been called with. */
    ghost var selectCalls: seq<seq<VisualPart>>

    constructor()
      ensures selected == [] && selectCalls == []
    {
      selected := [];
      selectCalls := [];
    }

    method Select(parts: seq<VisualPart>)
      modifies this`selected, this`selectCalls
      ensures selected == parts && selectCalls == old(selectCalls) + [parts]
    {
      selected := parts;
      selectCalls := selectCalls + [parts];
    }
  }

  /** The parts the content-part map holds for the elements, in order, skipping elements without one. */
  function PartsFor(partMap: map<Content, VisualPart>, elements: seq<Option<Content>>): (r: seq<VisualPart>)
    ensures |r| <= |elements|
    ensures forall p :: p in r ==> exists c :: c in partMap && partMap[c] == p && Some(c) in elements
  {
    if |elements| == 0 then []
    else
      var front := PartsFor(partMap, elements[..|elements| - 1]);
      var last := elements[|elements| - 1];
      assert forall e :: e in elements[..|elements| - 1] ==> e in elements;
      if last.Some? && last.value in partMap then front + [partMap[last.value]] else front
  }

  /** When every element has a part, the parts are the lookups position by position. */
  lemma {:induction false} PartsForAllMapped(partMap: map<Content, VisualPart>, elements: seq<Option<Content>>)
    requires forall i :: 0 <= i < |elements| ==> elements[i].Some? && elements[i].value in partMap
    ensures |PartsFor(partMap, elements)| == |elements|
    ensures forall i :: 0 <= i < |elements| ==> PartsFor(partMap, elements)[i] == partMap[elements[i].value]
  {
    if |elements| > 0 {
      PartsForAllMapped(partMap, elements[..|elements| - 1]);
    }
  }

  /**
   * Forwarding a selection of parts as their contents and back yields the
   * same parts when each selected part is the one the map holds for its
   * content.
   */
  lemma RoundTrip(partMap: map<Content, VisualPart>, parts: seq<VisualPart>)
    requires forall i :: 0 <= i < |parts| ==>
               parts[i].content.Some? && parts[i].content.value in partMap && partMap[parts[i].content.value] == parts[i]
    ensures PartsFor(partMap, ContentBehaviors.ContentList(parts)) == parts
  {
    PartsForAllMapped(partMap, ContentBehaviors.ContentList(parts));
  }

  class SelectionForwarder {
    const provider: SelectionProvider?
    const viewer: Viewer
    /** viewer.getAdapter(SelectionModel.class), possibly null. */
    const selectionModel: SelectionModel?

    constructor(provider: SelectionProvider?, viewer: Viewer, selectionModel: SelectionModel?)
      ensures this.provider == provider && this.viewer == viewer && this.selectionModel == selectionModel
    {
      this.provider := provider;
      this.viewer := viewer;
      this.selectionModel := selectionModel;
    }

    /**
     * propertyChange: a selection change puts the contents of the selected
     * parts, in order, into the provider, or the empty selection when the
     * new value is null. The provider must exist.
     */
    method PropertyChange(event: SelectionEvent) returns (outcome: Outcome)
      modifies if provider == null then {} else {provider}`selection
      ensures event.OtherProperty? ==> outcome == Pass && (provider != null ==> provider.selection == old(provider.selection))
      ensures event.SelectionProperty? && provider == null ==> outcome == Fail(NullPointer)
      ensures event.SelectionProperty? && provider != null ==>
                outcome == Pass &&
                provider.selection ==
                  Structured(if event.newValue.None? then [] else ContentBehaviors.ContentList(event.newValue.value))
    {
      outcome := Pass;
      match event
      case OtherProperty(_) =>
      case SelectionProperty(newValue) =>
        if provider == null {
          return Fail(NullPointer);
        }
        if newValue.None? {
          provider.SetSelection(Structured([]));
        } else {
          var parts := newValue.value;
          var contents: seq<Option<Content>> := [];
          for i := 0 to |parts|
            invariant |contents| == i && forall j :: 0 <= j < i ==> contents[j] == parts[j].content
          {
            contents := contents + [parts[i].content];
          }
          provider.SetSelection(Structured(contents));
        }
    }

    /** The loop of selectionChanged that looks up a part for each element. */
    method LookUpParts(elements: seq<Option<Content>>) returns (parts: seq<VisualPart>)
      ensures parts == PartsFor(viewer.contentPartMap, elements)
    {
      parts := [];
      for i := 0 to |elements|
        invariant parts == PartsFor(viewer.contentPartMap, elements[..i])
      {
        assert elements[..i + 1][..i] == elements[..i];
        var content := elements[i];
        if content.Some? && content.value in viewer.contentPartMap {
          parts := parts + [viewer.contentPartMap[content.value]];
        }
      }
      assert elements[..|elements|] == elements;
    }

    /**
     * selectionChanged: an empty structured selection selects nothing; a
     * non-empty one selects the parts found for its elements, unless those
     * are already the selection; any other selection is ignored. The
     * selection model must exist where it is used.
     */
    method SelectionChanged(selection: Selection) returns (outcome: Outcome)
      modifies if selectionModel == null then {} else {selectionModel}`selected
      modifies if selectionModel == null then {} else {selectionModel}`selectCalls
      ensures selection.OtherSelection? ==> outcome == Pass && (selectionModel != null ==> unchanged(selectionModel))
      ensures selection.Structured? && selectionModel == null ==> outcome == Fail(NullPointer)
      ensures selection.Structured? && selectionModel != null ==>
                var parts := PartsFor(viewer.contentPartMap, selection.elements);
                outcome == Pass &&
                selectionModel.selected == (if selection.elements == [] then [] else parts) &&
                selectionModel.selectCalls ==
                  old(selectionModel.selectCalls) +
                  if selection.elements == [] then [[]]
                  else if old(selectionModel.selected) == parts then []
                  else [parts]
    {
      outcome := Pass;
      match selection
      case OtherSelection =>
      case Structured(elements) =>
        if selectionModel == null {
          return Fail(NullPointer);
        }
        if elements == [] {
          selectionModel.Select([]);
        } else {
          var parts := LookUpParts(elements);
          if selectionModel.selected != parts {
            selectionModel.Select(parts);
          }
        }
    }
  }

  /**
   * The SelectionForwarder constructor: a null viewer is rejected with
   * IllegalArgumentException; otherwise the forwarder joins the provider
   * and the viewer's selection model.
   */
  method NewSelectionForwarder(provider: SelectionProvider?, viewer: Viewer?, selectionModel: SelectionModel?)
    returns (r: Result<SelectionForwarder>)
    ensures viewer == null <==> r == Failure(IllegalArgument)
    ensures r.Success? ==>
              r.value.provider == provider && r.value.viewer == viewer && r.value.selectionModel == selectionModel
  {
    if viewer == null {
      return Failure(IllegalArgument);
    }
    var forwarder := new SelectionForwarder(provider, viewer, selectionModel);
    return Success(forwarder);
  }
}
