// AbstractHoverTool: decides when the viewer's hover model takes a new
// hovered part and when it is cleared. A part may be hovered when it has an
// IHoverPolicy adapter that says it is hoverable; a change of the contents,
// or a selection that takes in the hovered part, clears the hover.

module HoverTools {
  import opened Parts

  /** What getAdapter(IHoverPolicy.class) yields for a part. */
  datatype HoverPolicy = NoPolicy | Policy(hoverable: bool)

  /** The property-change events the tool listens to. */
  datatype ToolEvent =
    | ContentsChanged
    | SelectionChanged(newSelection: seq<VisualPart>)
    | OtherEvent(name: string)

  /** The hover model: the hovered part, or null. */
  class HoverModel {
    var hover: VisualPart?

    constructor()
      ensures hover == null
    {
      hover := null;
    }

    method SetHover(part: VisualPart?)
      modifies this`hover
      ensures hover == part
    {
      hover := part;
    }
  }

  class HoverTool {
    const hoverModel: HoverModel
    /** The hover policy each part carries as an adapter. */
    const policyOf: VisualPart -> HoverPolicy

    constructor(hoverModel: HoverModel, policyOf: VisualPart -> HoverPolicy)
      ensures this.hoverModel == hoverModel && this.policyOf == policyOf
    {
      this.hoverModel := hoverModel;
      this.policyOf := policyOf;
    }

    /** hover: null, or a part whose hover policy says it is hoverable, becomes the hover; any other part leaves it unchanged. */
    method Hover(hovered: VisualPart?)
      modifies hoverModel`hover
      ensures hovered == null ==> hoverModel.hover == null
      ensures hovered != null && policyOf(hovered) == Policy(true) ==> hoverModel.hover == hovered
      ensures hovered != null && policyOf(hovered) != Policy(true) ==> hoverModel.hover == old(hoverModel.hover)
    {
      if hovered == null || (policyOf(hovered).Policy? && policyOf(hovered).hoverable) {
        hoverModel.SetHover(hovered);
      }
    }

    /**
     * propertyChange: a change of the contents clears the hover; a new
     * selection clears it when it contains the hovered part; other events
     * change nothing.
     */
    method PropertyChange(event: ToolEvent)
      modifies hoverModel`hover
      ensures event.ContentsChanged? ==> hoverModel.hover == null
      ensures event.SelectionChanged? ==>
                hoverModel.hover == if old(hoverModel.hover) in event.newSelection then null else old(hoverModel.hover)
      ensures event.OtherEvent? ==> hoverModel.hover == old(hoverModel.hover)
    {
      match event
      case ContentsChanged =>
        Hover(null);
      case SelectionChanged(selection) =>
        if hoverModel.hover in selection {
          Hover(null);
        }
      case OtherEvent(_) =>
    }
  }
}
