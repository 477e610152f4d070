// AbstractFXGeometricElement of the MVC FX example model: a shape with a
// geometry, an optional transform, stroke settings and the elements anchored
// at it as connection source or target. Setting the geometry or the
// transform fires a property change through PropertyChangeSupport; the
// events it would deliver are kept in a ghost log.

module GeometricElements {
  import opened Wrappers

  /** An IGeometry of the element. */
  type Geometry(==, !new)

  /** An AffineTransform. */
  type Transform(==, !new)

  /** A JavaFX Effect. */
  type Effect(==, !new)

  /** A JavaFX Paint other than a plain color. */
  type PaintObject(==, !new)

  datatype Paint = Color(red: real, green: real, blue: real, opacity: real) | OtherPaint(paint: PaintObject)

  /** new Color(0, 0, 0, 1), the default stroke. */
  const BLACK: Paint := Color(0.0, 0.0, 0.0, 1.0)

  const DEFAULT_STROKE_WIDTH: real := 0.5

  datatype ChangeEvent =
    | GeometryChanged(oldGeometry: Option<Geometry>, newGeometry: Option<Geometry>)
    | TransformChanged(oldTransform: Option<Transform>, newTransform: Option<Transform>)

  /**
   * PropertyChangeSupport.firePropertyChange delivers an event unless both
   * values are non-null and equal.
   */
  predicate Fires<T(==)>(before: Option<T>, after: Option<T>)
  {
    before.None? || after.None? || before != after
  }

  /** The events a change from before to after delivers: one, or none. */
  function EventsFor<T(==)>(before: Option<T>, after: Option<T>, event: ChangeEvent): (r: seq<ChangeEvent>)
    ensures |r| <= 1
    ensures r == [] <==> before.Some? && before == after
  {
    if Fires(before, after) then [event] else []
  }

  class GeometricElement {
    var geometry: Option<Geometry>
    var transform: Option<Transform>
    var sourceAnchoreds: seq<GeometricElement>
    var targetAnchoreds: seq<GeometricElement>
    var stroke: Option<Paint>
    var effect: Option<Effect>
    var strokeWidth: real
    ghost var events: seq<ChangeEvent>

    /** AbstractFXGeometricElement(geometry): defaults, then setGeometry. */
    constructor(geometry: Option<Geometry>)
      ensures this.geometry == geometry && transform == None && effect == None
      ensures stroke == Some(BLACK) && strokeWidth == DEFAULT_STROKE_WIDTH
      ensures sourceAnchoreds == [] && targetAnchoreds == []
      ensures events == [GeometryChanged(None, geometry)]
    {
      this.geometry := None;
      transform := None;
      sourceAnchoreds := [];
      targetAnchoreds := [];
      stroke := Some(BLACK);
      effect := None;
      strokeWidth := DEFAULT_STROKE_WIDTH;
      events := [];
      new;
      SetGeometry(geometry);
    }

    /** The four-argument constructor: the transform stays null. */
    constructor WithStyle(geometry: Option<Geometry>, stroke: Option<Paint>, strokeWidth: real, effect: Option<Effect>)
      ensures this.geometry == geometry && transform == None
      ensures this.stroke == stroke && this.strokeWidth == strokeWidth && this.effect == effect
      ensures sourceAnchoreds == [] && targetAnchoreds == []
      ensures events == [GeometryChanged(None, geometry)]
    {
      this.geometry := None;
      transform := None;
      sourceAnchoreds := [];
      targetAnchoreds := [];
      this.stroke := Some(BLACK);
      this.effect := None;
      this.strokeWidth := DEFAULT_STROKE_WIDTH;
      events := [];
      new;
      SetGeometry(geometry);
      SetEffect(effect);
      SetStroke(stroke);
      SetStrokeWidth(strokeWidth);
    }

    /** The five-argument constructor: the one-argument one, then setTransform and the style setters. */
    constructor WithTransform(geometry: Option<Geometry>, transform: Option<Transform>, stroke: Option<Paint>,
                              strokeWidth: real, effect: Option<Effect>)
      ensures this.geometry == geometry && this.transform == transform
      ensures this.stroke == stroke && this.strokeWidth == strokeWidth && this.effect == effect
      ensures sourceAnchoreds == [] && targetAnchoreds == []
      ensures events == [GeometryChanged(None, geometry), TransformChanged(None, transform)]
    {
      this.geometry := None;
      this.transform := None;
      sourceAnchoreds := [];
      targetAnchoreds := [];
      this.stroke := Some(BLACK);
      this.effect := None;
      this.strokeWidth := DEFAULT_STROKE_WIDTH;
      events := [];
      new;
      SetGeometry(geometry);
      SetTransform(transform);
      SetEffect(effect);
      SetStroke(stroke);
      SetStrokeWidth(strokeWidth);
    }

    /** getAnchoreds: the source anchoreds followed by the target anchoreds. */
    function Anchoreds(): (r: seq<GeometricElement>)
      reads this
      ensures |r| == |sourceAnchoreds| + |targetAnchoreds|
      ensures multiset(r) == multiset(sourceAnchoreds) + multiset(targetAnchoreds)
      ensures r[..|sourceAnchoreds|] == sourceAnchoreds && r[|sourceAnchoreds|..] == targetAnchoreds
    {
      sourceAnchoreds + targetAnchoreds
    }

    /** addSourceAnchored: appends to the source list only; in getAnchoreds it lands after the other sources. */
    method AddSourceAnchored(anchored: GeometricElement)
      modifies this
      ensures sourceAnchoreds == old(sourceAnchoreds) + [anchored] && targetAnchoreds == old(targetAnchoreds)
      ensures Anchoreds() == old(Anchoreds()[..|sourceAnchoreds|]) + [anchored] + old(Anchoreds()[|sourceAnchoreds|..])
      ensures geometry == old(geometry) && transform == old(transform) && stroke == old(stroke)
      ensures effect == old(effect) && strokeWidth == old(strokeWidth) && events == old(events)
    {
      sourceAnchoreds := sourceAnchoreds + [anchored];
    }

    /** addTargetAnchored: appends to the target list only, and so to the end of getAnchoreds. */
    method AddTargetAnchored(anchored: GeometricElement)
      modifies this
      ensures targetAnchoreds == old(targetAnchoreds) + [anchored] && sourceAnchoreds == old(sourceAnchoreds)
      ensures Anchoreds() == old(Anchoreds()) + [anchored]
      ensures geometry == old(geometry) && transform == old(transform) && stroke == old(stroke)
      ensures effect == old(effect) && strokeWidth == old(strokeWidth) && events == old(events)
    {
      targetAnchoreds := targetAnchoreds + [anchored];
    }

    /** setGeometry: stores the geometry and fires a Geometry change from the old value to the new one. */
    method SetGeometry(geometry: Option<Geometry>)
      modifies this
      ensures this.geometry == geometry
      ensures events == old(events) + EventsFor(old(this.geometry), geometry, GeometryChanged(old(this.geometry), geometry))
      ensures transform == old(transform) && stroke == old(stroke) && effect == old(effect)
      ensures strokeWidth == old(strokeWidth)
      ensures sourceAnchoreds == old(sourceAnchoreds) && targetAnchoreds == old(targetAnchoreds)
    {
      var before := this.geometry;
      this.geometry := geometry;
      if Fires(before, geometry) {
        events := events + [GeometryChanged(before, geometry)];
      }
    }

    /** setTransform: stores the transform and fires a Transform change from the old value to the new one. */
    method SetTransform(transform: Option<Transform>)
      modifies this
      ensures this.transform == transform
      ensures events == old(events) + EventsFor(old(this.transform), transform, TransformChanged(old(this.transform), transform))
      ensures geometry == old(geometry) && stroke == old(stroke) && effect == old(effect)
      ensures strokeWidth == old(strokeWidth)
      ensures sourceAnchoreds == old(sourceAnchoreds) && targetAnchoreds == old(targetAnchoreds)
    {
      var before := this.transform;
      this.transform := transform;
      if Fires(before, transform) {
        events := events + [TransformChanged(before, transform)];
      }
    }

    /** setEffect: stores the effect; no event. */
    method SetEffect(effect: Option<Effect>)
      modifies this
      ensures this.effect == effect
      ensures geometry == old(geometry) && transform == old(transform) && stroke == old(stroke)
      ensures strokeWidth == old(strokeWidth) && events == old(events)
      ensures sourceAnchoreds == old(sourceAnchoreds) && targetAnchoreds == old(targetAnchoreds)
    {
      this.effect := effect;
    }

    /** setStroke: stores the stroke; no event. */
    method SetStroke(stroke: Option<Paint>)
      modifies this
      ensures this.stroke == stroke
      ensures geometry == old(geometry) && transform == old(transform) && effect == old(effect)
      ensures strokeWidth == old(strokeWidth) && events == old(events)
      ensures sourceAnchoreds == old(sourceAnchoreds) && targetAnchoreds == old(targetAnchoreds)
    {
      this.stroke := stroke;
    }

    /** setStrokeWidth: stores the width; no event. */
    method SetStrokeWidth(strokeWidth: real)
      modifies this
      ensures this.strokeWidth == strokeWidth
      ensures geometry == old(geometry) && transform == old(transform) && effect == old(effect)
      ensures stroke == old(stroke) && events == old(events)
      ensures sourceAnchoreds == old(sourceAnchoreds) && targetAnchoreds == old(targetAnchoreds)
    {
      this.strokeWidth := strokeWidth;
    }
  }

  /** Setting the value a property already holds fires nothing, unless that value is null; any other change fires once. */
  lemma FiresExactlyOnChange<T>(before: Option<T>, after: Option<T>, event: ChangeEvent)
    ensures before.Some? && before == after ==> EventsFor(before, after, event) == []
    ensures before != after ==> EventsFor(before, after, event) == [event]
    ensures before == None ==> EventsFor(before, after, event) == [event]
  {
  }
}
