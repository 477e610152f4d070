// The visual-part tree of AbstractVisualPart: children and parent,
// anchorages and anchoreds, the activation cascade over adapters and
// children, the class-keyed adapter map, and registration of the part's
// visual in the viewer's visual-part map.
//
// Toolkit hooks (adding and removing child visuals, refreshing a visual,
// attaching and detaching anchored visuals) and property-change firing only
// append an event to the viewer's ghost log. The viewer a part reaches
// through its root is a constant of the part here.

module Parts {
  import opened Wrappers
  import opened Lists
  import Behaviors

  /** A toolkit visual (a JavaFX Node). */
  type Visual(==)

  /** A content object; equality is both Java's == and equals on it. */
  type Content(==, !new)

  /** Which of the part interfaces a part implements. */
  datatype PartKind = RootPart | ContentPart | FeedbackPart | HandlePart

  datatype Event =
    | Activated(part: VisualPart)
    | Deactivated(part: VisualPart)
    | ChildVisualAdded(parent: VisualPart, child: VisualPart, index: int)
    | ChildVisualRemoved(parent: VisualPart, child: VisualPart)
    | VisualRefreshed(part: VisualPart)
    | AnchoredVisualAttached(anchorage: VisualPart, anchored: VisualPart)
    | AnchoredVisualDetached(anchorage: VisualPart, anchored: VisualPart)
    | ParentChanged(part: VisualPart, oldParent: VisualPart?, newParent: VisualPart?)

  /** The PARENT_PROPERTY event setParent fires: none when the parent stays the same. */
  function ParentEvents(part: VisualPart, oldParent: VisualPart?, newParent: VisualPart?): seq<Event>
  {
    if oldParent == newParent then [] else [ParentChanged(part, oldParent, newParent)]
  }

  /** The viewer state the parts use: its two maps and the toolkit event log. */
  class Viewer {
    var visualPartMap: map<Visual, object>
    var contentPartMap: map<Content, VisualPart>
    /** The viewer is an IFXViewer. */
    const isFXViewer: bool
    ghost var log: seq<Event>

    constructor(isFX: bool)
      ensures isFXViewer == isFX && visualPartMap == map[] && contentPartMap == map[] && log == []
    {
      isFXViewer := isFX;
      visualPartMap := map[];
      contentPartMap := map[];
      log := [];
    }
  }

  /** The outcome of getRoot with a bounded number of steps up the tree. */
  datatype RootLookup = Found(root: VisualPart) | NoRoot | OutOfFuel

  /** The adapter objects held by the parts in ps. */
  ghost function AdaptersOf(ps: set<VisualPart>): set<Behaviors.Adapter>
    reads ps`adapters
  {
    set p, a: Behaviors.Adapter | p in ps && a in p.adapters.Values :: a
  }

  /** A smaller set of parts holds fewer adapters. */
  lemma AdaptersOfMono(ps: set<VisualPart>, qs: set<VisualPart>)
    requires ps <= qs
    ensures AdaptersOf(ps) <= AdaptersOf(qs)
  {
  }

  /** The activatable adapter objects held by the parts in ps. */
  ghost function Activatable(ps: set<VisualPart>): set<Behaviors.Adapter>
    reads ps`adapters
  {
    set p, a: Behaviors.Adapter | p in ps && a in p.adapters.Values && a.activatable :: a
  }

  /** The parts that the activation and deactivation events of a log name. */
  ghost function PartsOf(events: seq<Event>): set<VisualPart>
  {
    set e | e in events && (e.Activated? || e.Deactivated?) :: e.part
  }

  lemma PartsOfAppend(a: seq<Event>, b: seq<Event>)
    ensures PartsOf(a + b) == PartsOf(a) + PartsOf(b)
  {
  }

  class VisualPart {
    const kind: PartKind
    const visual: Visual
    const viewer: Viewer

    var parent: VisualPart?
    var children: seq<VisualPart>
    var anchorages: seq<VisualPart>
    var anchoreds: seq<VisualPart>
    var active: bool
    var adapters: map<Behaviors.ClassKey, Behaviors.Adapter?>
    /** getContent() of an IContentPart. */
    var content: Option<Content>

    /** A footprint that holds this part and every part below it. */
    ghost var Nodes: set<VisualPart>

    constructor(kind: PartKind, visual: Visual, viewer: Viewer)
      ensures this.kind == kind && this.visual == visual && this.viewer == viewer
      ensures parent == null && children == [] && anchorages == [] && anchoreds == []
      ensures !active && adapters == map[] && content == None
      ensures TreeValid() && Nodes == {this}
    {
      this.kind := kind;
      this.visual := visual;
      this.viewer := viewer;
      parent := null;
      children := [];
      anchorages := [];
      anchoreds := [];
      active := false;
      adapters := map[];
      content := None;
      Nodes := {this};
    }

    /**
     * The children form a finite tree below this part: each child's
     * footprint lies inside this part's and does not contain this part, the
     * footprints of distinct children are disjoint, and all parts share this
     * part's viewer.
     */
    ghost predicate TreeValid()
      reads this`children, this`Nodes, Nodes`children, Nodes`Nodes
      decreases Nodes
    {
      this in Nodes &&
      (forall i :: 0 <= i < |children| ==>
        children[i] in Nodes && children[i].Nodes <= Nodes && this !in children[i].Nodes &&
        children[i].viewer == viewer && children[i].TreeValid()) &&
      (forall i, j :: 0 <= i < j < |children| ==> children[i].Nodes !! children[j].Nodes)
    }

    /**
     * TreeValid's condition on a candidate child list cs and footprint
     * nodes. It reads nothing of this part, so it survives assignments to
     * children and Nodes.
     */
    ghost predicate ChildrenValid(cs: seq<VisualPart>, nodes: set<VisualPart>)
      reads (nodes - {this})`children, (nodes - {this})`Nodes
    {
      (forall i :: 0 <= i < |cs| ==>
        cs[i] in nodes - {this} && cs[i].Nodes <= nodes - {this} && cs[i].viewer == viewer && cs[i].TreeValid()) &&
      (forall i, j :: 0 <= i < j < |cs| ==> cs[i].Nodes !! cs[j].Nodes)
    }

    lemma TreeValidByChildren()
      ensures TreeValid() <==> this in Nodes && ChildrenValid(children, Nodes)
    {
      if TreeValid() {
        forall i | 0 <= i < |children|
          ensures children[i] != this
        {
          assert children[i].TreeValid();
          assert children[i] in children[i].Nodes;
        }
      }
    }

    /**
     * x can join the candidate list cs: a valid subtree of the same viewer
     * inside the footprint, not containing this part, and disjoint from
     * every listed subtree. Like ChildrenValid, it reads nothing of this part.
     */
    ghost predicate FitsAmong(x: VisualPart, cs: seq<VisualPart>, nodes: set<VisualPart>)
      reads (nodes - {this})`children, (nodes - {this})`Nodes
    {
      x in nodes - {this} && x.Nodes <= nodes - {this} && x.viewer == viewer && x.TreeValid() &&
      forall j :: 0 <= j < |cs| ==> cs[j] in nodes - {this} && cs[j].Nodes !! x.Nodes
    }

    /** Dropping an entry keeps the candidate list valid, and the dropped child fits back in. */
    lemma ChildrenValidRemove(cs: seq<VisualPart>, nodes: set<VisualPart>, x: VisualPart)
      requires ChildrenValid(cs, nodes)
      ensures ChildrenValid(RemoveFirst(cs, x), nodes)
      ensures x in cs ==> FitsAmong(x, RemoveFirst(cs, x), nodes)
    {
      var k := IndexOf(cs, x);
      if k >= 0 {
        var r := RemoveFirst(cs, x);
        assert forall i :: 0 <= i < |r| ==> r[i] == cs[if i < k then i else i + 1];
      }
    }

    /** Inserting a valid subtree disjoint from the others keeps the candidate list valid. */
    lemma ChildrenValidInsert(cs: seq<VisualPart>, nodes: set<VisualPart>, i: nat, x: VisualPart)
      requires i <= |cs| && ChildrenValid(cs, nodes) && FitsAmong(x, cs, nodes)
      ensures ChildrenValid(InsertAt(cs, i, x), nodes)
    {
      var r := InsertAt(cs, i, x);
      assert forall j :: 0 <= j < |r| ==> r[j] == if j < i then cs[j] else if j == i then x else cs[j - 1];
    }

    /** A larger footprint keeps the candidate list valid. */
    lemma ChildrenValidGrow(cs: seq<VisualPart>, nodes: set<VisualPart>, more: set<VisualPart>)
      requires ChildrenValid(cs, nodes) && nodes <= more
      ensures ChildrenValid(cs, more)
    {
    }

    function IsActive(): bool
      reads this`active
    {
      active
    }

    /** The part's visual maps to the part in the viewer's visual-part map. */
    predicate Registered()
      reads viewer`visualPartMap
    {
      visual in viewer.visualPartMap && viewer.visualPartMap[visual] == this
    }

    /** The part has a link to the viewer: a parent or an anchorage. */
    predicate Linked()
      reads this`parent, this`anchorages
    {
      parent != null || |anchorages| > 0
    }

    /** A part is registered exactly while it is linked. */
    predicate RegistrationValid()
      reads this`parent, this`anchorages, viewer`visualPartMap
    {
      Registered() <==> Linked()
    }

    // ---- toolkit hooks -------------------------------------------------

    method AddChildVisual(child: VisualPart, index: int)
      modifies viewer`log
      ensures viewer.log == old(viewer.log) + [ChildVisualAdded(this, child, index)]
    {
      viewer.log := viewer.log + [ChildVisualAdded(this, child, index)];
    }

    method RemoveChildVisual(child: VisualPart)
      modifies viewer`log
      ensures viewer.log == old(viewer.log) + [ChildVisualRemoved(this, child)]
    {
      viewer.log := viewer.log + [ChildVisualRemoved(this, child)];
    }

    method RefreshVisual()
      modifies viewer`log
      ensures viewer.log == old(viewer.log) + [VisualRefreshed(this)]
    {
      viewer.log := viewer.log + [VisualRefreshed(this)];
    }

    method AttachAnchoredVisual(anchored: VisualPart)
      modifies viewer`log
      ensures viewer.log == old(viewer.log) + [AnchoredVisualAttached(this, anchored)]
    {
      viewer.log := viewer.log + [AnchoredVisualAttached(this, anchored)];
    }

    method DetachAnchoredVisual(anchored: VisualPart)
      modifies viewer`log
      ensures viewer.log == old(viewer.log) + [AnchoredVisualDetached(this, anchored)]
    {
      viewer.log := viewer.log + [AnchoredVisualDetached(this, anchored)];
    }

    // ---- registration ----------------------------------------------------

    method Register()
      modifies viewer`visualPartMap
      ensures viewer.visualPartMap == old(viewer.visualPartMap)[visual := this]
      ensures Registered()
    {
      viewer.visualPartMap := viewer.visualPartMap[visual := this];
    }

    method Unregister()
      modifies viewer`visualPartMap
      ensures viewer.visualPartMap == old(viewer.visualPartMap) - {visual}
      ensures !Registered()
    {
      viewer.visualPartMap := viewer.visualPartMap - {visual};
    }

    /**
     * setParent: unregisters when the last link goes, registers when the
     * parent becomes the link, and fires PARENT_PROPERTY.
     */
    method SetParent(newParent: VisualPart?)
      modifies this`parent, viewer`visualPartMap, viewer`log
      ensures parent == newParent
      ensures viewer.visualPartMap ==
        if old(parent) == newParent then old(viewer.visualPartMap)
        else if old(parent) != null && newParent == null && anchorages == [] then old(viewer.visualPartMap) - {visual}
        else if newParent != null && anchorages == [] then old(viewer.visualPartMap)[visual := this]
        else old(viewer.visualPartMap)
      ensures viewer.log == old(viewer.log) + ParentEvents(this, old(parent), newParent)
      ensures old(RegistrationValid()) ==> RegistrationValid()
    {
      if parent == newParent {
        return;
      }
      var oldParent := parent;
      if parent != null {
        if newParent == null && anchorages == [] {
          Unregister();
        }
      }
      parent := newParent;
      if parent != null && anchorages == [] {
        Register();
      }
      viewer.log := viewer.log + [ParentChanged(this, oldParent, newParent)];
    }

    /** addAnchorage: rejects null; registers when the first anchorage becomes the only link. */
    method AddAnchorage(anchorage: VisualPart?) returns (outcome: Outcome)
      modifies this`anchorages, viewer`visualPartMap
      ensures anchorage == null ==>
        outcome == Fail(IllegalArgument) && anchorages == old(anchorages) && viewer.visualPartMap == old(viewer.visualPartMap)
      ensures anchorage != null ==> outcome == Pass && anchorages == old(anchorages) + [anchorage]
      ensures anchorage != null ==>
        viewer.visualPartMap == (if parent == null && old(anchorages) == [] then old(viewer.visualPartMap)[visual := this]
                                 else old(viewer.visualPartMap))
      ensures old(RegistrationValid()) ==> RegistrationValid()
    {
      if anchorage == null {
        return Fail(IllegalArgument);
      }
      anchorages := anchorages + [anchorage];
      if parent == null {
        if |anchorages| == 1 {
          Register();
        }
      }
      return Pass;
    }

    /**
     * removeAnchorage: rejects null and an anchorage that is not held;
     * unregisters when the only link goes.
     */
    method RemoveAnchorage(anchorage: VisualPart?) returns (outcome: Outcome)
      modifies this`anchorages, viewer`visualPartMap
      ensures anchorage == null || anchorage !in old(anchorages) ==>
        outcome == Fail(IllegalArgument) && anchorages == old(anchorages) && viewer.visualPartMap == old(viewer.visualPartMap)
      ensures anchorage != null && anchorage in old(anchorages) ==>
        outcome == Pass && anchorages == RemoveFirst(old(anchorages), anchorage)
      ensures anchorage != null && anchorage in old(anchorages) ==>
        viewer.visualPartMap == (if parent == null && |old(anchorages)| == 1 then old(viewer.visualPartMap) - {visual}
                                 else old(viewer.visualPartMap))
      ensures old(RegistrationValid()) ==> RegistrationValid()
    {
      if anchorage == null {
        return Fail(IllegalArgument);
      }
      if anchorage !in anchorages {
        return Fail(IllegalArgument);
      }
      if parent == null {
        if |anchorages| == 1 {
          Unregister();
        }
      }
      RemoveFirstLength(anchorages, anchorage);
      anchorages := RemoveFirst(anchorages, anchorage);
      return Pass;
    }

    // ---- anchoreds -------------------------------------------------------

    /** addAnchored: append, link back, attach the visual, refresh the anchored part. */
    method AddAnchored(anchored: VisualPart)
      requires anchored.viewer == viewer
      modifies this`anchoreds, anchored`anchorages, viewer`visualPartMap, viewer`log
      ensures anchoreds == old(anchoreds) + [anchored]
      ensures anchored.anchorages == old(anchored.anchorages) + [this]
      ensures viewer.visualPartMap ==
        if anchored.parent == null && old(anchored.anchorages) == [] then old(viewer.visualPartMap)[anchored.visual := anchored]
        else old(viewer.visualPartMap)
      ensures viewer.log == old(viewer.log) + [AnchoredVisualAttached(this, anchored), VisualRefreshed(anchored)]
      ensures old(anchored.RegistrationValid()) ==> anchored.RegistrationValid()
    {
      anchoreds := anchoreds + [anchored];
      var _ := anchored.AddAnchorage(this);
      AttachAnchoredVisual(anchored);
      anchored.RefreshVisual();
    }

    /**
     * removeAnchored: the anchored part drops this anchorage first (and
     * throws if it does not hold it); the list is dropped last, which fails
     * with a NullPointerException when this part has no anchoreds at all.
     */
    method RemoveAnchored(anchored: VisualPart) returns (outcome: Outcome)
      requires anchored.viewer == viewer
      modifies this`anchoreds, anchored`anchorages, viewer`visualPartMap, viewer`log
      ensures this !in old(anchored.anchorages) ==>
        outcome == Fail(IllegalArgument) && anchoreds == old(anchoreds) && anchored.anchorages == old(anchored.anchorages) &&
        viewer.visualPartMap == old(viewer.visualPartMap) && viewer.log == old(viewer.log)
      ensures this in old(anchored.anchorages) ==>
        anchored.anchorages == RemoveFirst(old(anchored.anchorages), this) &&
        viewer.log == old(viewer.log) + [AnchoredVisualDetached(this, anchored)] &&
        viewer.visualPartMap == (if anchored.parent == null && |old(anchored.anchorages)| == 1
                                 then old(viewer.visualPartMap) - {anchored.visual} else old(viewer.visualPartMap))
      ensures this in old(anchored.anchorages) && old(anchoreds) == [] ==> outcome == Fail(NullPointer) && anchoreds == []
      ensures this in old(anchored.anchorages) && old(anchoreds) != [] ==>
        outcome == Pass && anchoreds == RemoveFirst(old(anchoreds), anchored)
      ensures old(anchored.RegistrationValid()) ==> anchored.RegistrationValid()
    {
      outcome := DetachAnchored(anchored);
      if outcome.Fail? {
        return;
      }
      if anchoreds == [] {
        return Fail(NullPointer);
      }
      anchoreds := RemoveFirst(anchoreds, anchored);
    }

    /** The first half of removeAnchored: removeAnchorage on the anchored part, then the visual detach. */
    method DetachAnchored(anchored: VisualPart) returns (outcome: Outcome)
      requires anchored.viewer == viewer
      modifies anchored`anchorages, viewer`visualPartMap, viewer`log
      ensures outcome.Fail? <==> this !in old(anchored.anchorages)
      ensures outcome.Fail? ==>
        outcome == Fail(IllegalArgument) && anchored.anchorages == old(anchored.anchorages) &&
        viewer.visualPartMap == old(viewer.visualPartMap) && viewer.log == old(viewer.log)
      ensures outcome.Pass? ==>
        anchored.anchorages == RemoveFirst(old(anchored.anchorages), this) &&
        viewer.log == old(viewer.log) + [AnchoredVisualDetached(this, anchored)] &&
        viewer.visualPartMap == (if anchored.parent == null && |old(anchored.anchorages)| == 1
                                 then old(viewer.visualPartMap) - {anchored.visual} else old(viewer.visualPartMap))
      ensures old(anchored.RegistrationValid()) ==> anchored.RegistrationValid()
    {
      outcome := anchored.RemoveAnchorage(this);
      if outcome.Pass? {
        DetachAnchoredVisual(anchored);
      }
    }

    // ---- activation ------------------------------------------------------

    /** The events activate() logs: this part, then each child's subtree in order. */
    ghost function ActivationOrder(): seq<Event>
      requires TreeValid()
      reads this`children, this`Nodes, Nodes`children, Nodes`Nodes
      decreases Nodes, 1
    {
      [Activated(this)] + ChildrenActivation(|children|)
    }

    ghost function ChildrenActivation(n: nat): seq<Event>
      requires TreeValid() && n <= |children|
      reads this`children, this`Nodes, Nodes`children, Nodes`Nodes
      decreases Nodes, 0, n
    {
      if n == 0 then [] else ChildrenActivation(n - 1) + children[n - 1].ActivationOrder()
    }

    /** The events deactivate() logs: each child's subtree in order, then this part. */
    ghost function DeactivationOrder(): seq<Event>
      requires TreeValid()
      reads this`children, this`Nodes, Nodes`children, Nodes`Nodes
      decreases Nodes, 1
    {
      ChildrenDeactivation(|children|) + [Deactivated(this)]
    }

    ghost function ChildrenDeactivation(n: nat): seq<Event>
      requires TreeValid() && n <= |children|
      reads this`children, this`Nodes, Nodes`children, Nodes`Nodes
      decreases Nodes, 0, n
    {
      if n == 0 then [] else ChildrenDeactivation(n - 1) + children[n - 1].DeactivationOrder()
    }

    /** The adapter objects of this part. */
    function OwnAdapters(): set<Behaviors.Adapter>
      reads this`adapters
    {
      set a: Behaviors.Adapter | a in adapters.Values
    }

    /** The loop over partBounds.values() of activate, in whatever order the map yields them. */
    method ActivateAdapters()
      modifies OwnAdapters()`active
      ensures forall a :: a in OwnAdapters() ==> a.active == (a.activatable || old(a.active))
    {
      var pending := OwnAdapters();
      while pending != {}
        invariant pending <= OwnAdapters()
        invariant forall a :: a in OwnAdapters() && a !in pending ==> a.active == (a.activatable || old(a.active))
        invariant forall a :: a in pending ==> a.active == old(a.active)
        decreases pending
      {
        var a :| a in pending;
        if a.activatable {
          a.Activate();
        }
        pending := pending - {a};
      }
    }

    /** The loop over partBounds.values() of deactivate. */
    method DeactivateAdapters()
      modifies OwnAdapters()`active
      ensures forall a :: a in OwnAdapters() ==> a.active == (!a.activatable && old(a.active))
    {
      var pending := OwnAdapters();
      while pending != {}
        invariant pending <= OwnAdapters()
        invariant forall a :: a in OwnAdapters() && a !in pending ==> a.active == (!a.activatable && old(a.active))
        invariant forall a :: a in pending ==> a.active == old(a.active)
        decreases pending
      {
        var a :| a in pending;
        if a.activatable {
          a.Deactivate();
        }
        pending := pending - {a};
      }
    }

    /**
     * The activation events of the children's subtrees name parts of the
     * footprint, never this part, and never a part of a later child's
     * footprint.
     */
    lemma {:induction false} ChildrenActivationParts(n: nat)
      requires TreeValid() && n <= |children|
      ensures forall e :: e in ChildrenActivation(n) ==> e.Activated? && e.part in Nodes && e.part != this
      ensures forall e, k :: e in ChildrenActivation(n) && n <= k < |children| ==> e.part !in children[k].Nodes
      ensures forall m :: 0 <= m <= n ==> PartsOf(ChildrenActivation(m)) <= Nodes
      decreases Nodes, 0, n
    {
      if n > 0 {
        ChildrenActivationParts(n - 1);
        children[n - 1].ActivationParts();
      }
    }

    /** The activation events of this subtree name parts of the footprint, this part first. */
    lemma {:induction false} ActivationParts()
      requires TreeValid()
      ensures forall e :: e in ActivationOrder() ==> e.Activated? && e.part in Nodes
      ensures PartsOf(ActivationOrder()) <= Nodes
      decreases Nodes, 1
    {
      ChildrenActivationParts(|children|);
    }

    /** The deactivation counterpart of ChildrenActivationParts. */
    lemma {:induction false} ChildrenDeactivationParts(n: nat)
      requires TreeValid() && n <= |children|
      ensures forall e :: e in ChildrenDeactivation(n) ==> e.Deactivated? && e.part in Nodes && e.part != this
      ensures forall e, k :: e in ChildrenDeactivation(n) && n <= k < |children| ==> e.part !in children[k].Nodes
      ensures forall m :: 0 <= m <= n ==> PartsOf(ChildrenDeactivation(m)) <= Nodes
      decreases Nodes, 0, n
    {
      if n > 0 {
        ChildrenDeactivationParts(n - 1);
        children[n - 1].DeactivationParts();
      }
    }

    lemma {:induction false} DeactivationParts()
      requires TreeValid()
      ensures forall e :: e in DeactivationOrder() ==> e.Deactivated? && e.part in Nodes
      ensures PartsOf(DeactivationOrder()) <= Nodes
      decreases Nodes, 1
    {
      ChildrenDeactivationParts(|children|);
    }

    /** Appending is associative; stated once so that log arithmetic stays small. */
    static lemma AppendAssoc(x: seq<Event>, y: seq<Event>, z: seq<Event>)
      ensures x + y + z == x + (y + z)
    {
    }

    /**
     * The activation and deactivation orders read only the shape of the
     * tree, which flag updates and log appends leave as it was.
     */
    twostate lemma OrdersUnchanged()
      requires old(TreeValid())
      requires unchanged(this`children, this`Nodes) && unchanged(old(Nodes)`children, old(Nodes)`Nodes)
      ensures TreeValid()
      ensures forall n :: 0 <= n <= |children| ==> ChildrenActivation(n) == old(ChildrenActivation(n))
      ensures forall n :: 0 <= n <= |children| ==> ChildrenDeactivation(n) == old(ChildrenDeactivation(n))
      ensures forall k :: 0 <= k < |children| ==> children[k].ActivationOrder() == old(children[k].ActivationOrder())
      ensures forall k :: 0 <= k < |children| ==> children[k].DeactivationOrder() == old(children[k].DeactivationOrder())
    {
    }

    /** OrdersUnchanged, for the one child that the loops of activate and deactivate visit next. */
    twostate lemma ChildUnchanged(i: nat)
      requires old(TreeValid()) && i < |old(children)|
      requires unchanged(this`children, this`Nodes) && unchanged(old(Nodes)`children, old(Nodes)`Nodes)
      ensures children[i].TreeValid() && children[i].Nodes <= Nodes && this in Nodes && this !in children[i].Nodes
      ensures children[i].ActivationOrder() == old(children[i].ActivationOrder())
      ensures children[i].DeactivationOrder() == old(children[i].DeactivationOrder())
    {
    }

    /**
     * activate: set the flag, activate the activatable adapters, then
     * activate the children in order. The flag is not consulted first.
     * Which parts are activated, and in which order, is fixed by the tree
     * as it was on entry. Exactly the parts activated change their flag,
     * every activatable adapter of those parts ends active, and no adapter
     * is switched off.
     */
    method Activate()
      requires TreeValid()
      modifies Nodes`active, AdaptersOf(Nodes)`active, viewer`log
      ensures viewer.log == old(viewer.log) + old(ActivationOrder())
      ensures forall e :: e in old(ActivationOrder()) ==> e.Activated? && e.part.active
      ensures forall p: VisualPart :: old(allocated(p)) ==>
        p.active == (p in PartsOf(old(ActivationOrder())) || old(p.active))
      ensures forall p, a: Behaviors.Adapter :: p in PartsOf(old(ActivationOrder())) && a in p.adapters.Values && a.activatable ==> a.active
      ensures forall a: Behaviors.Adapter :: old(allocated(a)) && old(a.active) ==> a.active
      ensures forall a: Behaviors.Adapter :: old(allocated(a)) && !old(a.active) && a.active ==>
        a in Activatable(PartsOf(old(ActivationOrder())))
      ensures forall a :: a in OwnAdapters() && a.activatable ==> a.active
      decreases Nodes, 3
    {
      ActivationParts();
      ghost var below := ChildrenActivation(|children|);
      PartsOfAppend([Activated(this)], below);
      assert PartsOf([Activated(this)]) == {this};
      ActivateSelf();
      OrdersUnchanged();
      ActivateChildren();
      AppendAssoc(old(viewer.log), [Activated(this)], below);
      forall e | e in old(ActivationOrder())
        ensures e.part.active
      {
        assert e.part in PartsOf(old(ActivationOrder()));
      }
    }

    /** The first two steps of activate: the flag, then the adapters. */
    method ActivateSelf()
      modifies this`active, OwnAdapters()`active, viewer`log
      ensures viewer.log == old(viewer.log) + [Activated(this)]
      ensures forall p: VisualPart :: old(allocated(p)) ==> p.active == (p == this || old(p.active))
      ensures forall a: Behaviors.Adapter :: old(allocated(a)) ==>
        a.active == ((a in OwnAdapters() && a.activatable) || old(a.active))
    {
      active := true;
      ActivateAdapters();
      viewer.log := viewer.log + [Activated(this)];
    }

    /** The loop of activate over the children, in order. */
    method ActivateChildren()
      requires TreeValid()
      modifies Nodes`active, AdaptersOf(Nodes)`active, viewer`log
      ensures viewer.log == old(viewer.log) + old(ChildrenActivation(|children|))
      ensures forall p: VisualPart :: old(allocated(p)) ==>
        p.active == (p in PartsOf(old(ChildrenActivation(|children|))) || old(p.active))
      ensures forall p, a: Behaviors.Adapter :: p in PartsOf(old(ChildrenActivation(|children|))) && a in p.adapters.Values && a.activatable ==> a.active
      ensures forall a: Behaviors.Adapter :: old(allocated(a)) && old(a.active) ==> a.active
      ensures forall a: Behaviors.Adapter :: old(allocated(a)) && !old(a.active) && a.active ==>
        a in Activatable(PartsOf(old(ChildrenActivation(|children|))))
      decreases Nodes, 2
    {
      ChildrenActivationParts(|children|);
      var i := 0;
      while i < |children|
        invariant 0 <= i <= |children|
        invariant viewer.log == old(viewer.log) + old(ChildrenActivation(i))
        invariant forall p: VisualPart :: old(allocated(p)) ==>
          p.active == (p in PartsOf(old(ChildrenActivation(i))) || old(p.active))
        invariant forall p, a: Behaviors.Adapter :: p in PartsOf(old(ChildrenActivation(i))) && a in p.adapters.Values && a.activatable ==> a.active
        invariant forall a: Behaviors.Adapter :: old(allocated(a)) && old(a.active) ==> a.active
        invariant forall a: Behaviors.Adapter :: old(allocated(a)) && !old(a.active) && a.active ==>
          a in Activatable(PartsOf(old(ChildrenActivation(i))))
      {
        var c := children[i];
        PartsOfAppend(old(ChildrenActivation(i)), old(c.ActivationOrder()));
        ChildUnchanged(i);
        c.ActivationParts();
        AdaptersOfMono(c.Nodes, Nodes);
        label Before:
        c.Activate();
        AppendAssoc(old(viewer.log), old(ChildrenActivation(i)), old(c.ActivationOrder()));
        forall p, a: Behaviors.Adapter | p in PartsOf(old(ChildrenActivation(i))) && a in p.adapters.Values && a.activatable
          ensures a.active
        {
          assert old@Before(allocated(a) && a.active);
        }
        i := i + 1;
      }
    }

    /**
     * deactivate: deactivate the children in order, then the activatable
     * adapters, then clear the flag. Exactly the parts deactivated change
     * their flag, every activatable adapter of those parts ends inactive,
     * and no adapter is switched on.
     */
    method Deactivate()
      requires TreeValid()
      modifies Nodes`active, AdaptersOf(Nodes)`active, viewer`log
      ensures viewer.log == old(viewer.log) + old(DeactivationOrder())
      ensures forall e :: e in old(DeactivationOrder()) ==> e.Deactivated? && !e.part.active
      ensures forall p: VisualPart :: old(allocated(p)) ==>
        p.active == (p !in PartsOf(old(DeactivationOrder())) && old(p.active))
      ensures forall p, a: Behaviors.Adapter :: p in PartsOf(old(DeactivationOrder())) && a in p.adapters.Values && a.activatable ==> !a.active
      ensures forall a: Behaviors.Adapter :: old(allocated(a)) && !old(a.active) ==> !a.active
      ensures forall a: Behaviors.Adapter :: old(allocated(a)) && old(a.active) && !a.active ==>
        a in Activatable(PartsOf(old(DeactivationOrder())))
      ensures forall a :: a in OwnAdapters() && a.activatable ==> !a.active
      decreases Nodes, 3
    {
      DeactivationParts();
      ghost var below := ChildrenDeactivation(|children|);
      PartsOfAppend(below, [Deactivated(this)]);
      assert PartsOf([Deactivated(this)]) == {this};
      DeactivateChildren();
      OrdersUnchanged();
      DeactivateSelf();
      AppendAssoc(old(viewer.log), below, [Deactivated(this)]);
      forall e | e in old(DeactivationOrder())
        ensures !e.part.active
      {
        assert e.part in PartsOf(old(DeactivationOrder()));
      }
    }

    /** The last two steps of deactivate: the adapters, then the flag. */
    method DeactivateSelf()
      modifies this`active, OwnAdapters()`active, viewer`log
      ensures viewer.log == old(viewer.log) + [Deactivated(this)]
      ensures forall p: VisualPart :: old(allocated(p)) ==> p.active == (p != this && old(p.active))
      ensures forall a: Behaviors.Adapter :: old(allocated(a)) ==>
        a.active == (!(a in OwnAdapters() && a.activatable) && old(a.active))
    {
      DeactivateAdapters();
      active := false;
      viewer.log := viewer.log + [Deactivated(this)];
    }

    /** The loop of deactivate over the children, in order. */
    method DeactivateChildren()
      requires TreeValid()
      modifies Nodes`active, AdaptersOf(Nodes)`active, viewer`log
      ensures viewer.log == old(viewer.log) + old(ChildrenDeactivation(|children|))
      ensures forall p: VisualPart :: old(allocated(p)) ==>
        p.active == (p !in PartsOf(old(ChildrenDeactivation(|children|))) && old(p.active))
      ensures forall p, a: Behaviors.Adapter :: p in PartsOf(old(ChildrenDeactivation(|children|))) && a in p.adapters.Values && a.activatable ==> !a.active
      ensures forall a: Behaviors.Adapter :: old(allocated(a)) && !old(a.active) ==> !a.active
      ensures forall a: Behaviors.Adapter :: old(allocated(a)) && old(a.active) && !a.active ==>
        a in Activatable(PartsOf(old(ChildrenDeactivation(|children|))))
      decreases Nodes, 2
    {
      ChildrenDeactivationParts(|children|);
      var i := 0;
      while i < |children|
        invariant 0 <= i <= |children|
        invariant viewer.log == old(viewer.log) + old(ChildrenDeactivation(i))
        invariant forall p: VisualPart :: old(allocated(p)) ==>
          p.active == (p !in PartsOf(old(ChildrenDeactivation(i))) && old(p.active))
        invariant forall p, a: Behaviors.Adapter :: p in PartsOf(old(ChildrenDeactivation(i))) && a in p.adapters.Values && a.activatable ==> !a.active
        invariant forall a: Behaviors.Adapter :: old(allocated(a)) && !old(a.active) ==> !a.active
        invariant forall a: Behaviors.Adapter :: old(allocated(a)) && old(a.active) && !a.active ==>
          a in Activatable(PartsOf(old(ChildrenDeactivation(i))))
      {
        var c := children[i];
        PartsOfAppend(old(ChildrenDeactivation(i)), old(c.DeactivationOrder()));
        ChildUnchanged(i);
        c.DeactivationParts();
        AdaptersOfMono(c.Nodes, Nodes);
        label Before:
        c.Deactivate();
        AppendAssoc(old(viewer.log), old(ChildrenDeactivation(i)), old(c.DeactivationOrder()));
        forall p, a: Behaviors.Adapter | p in PartsOf(old(ChildrenDeactivation(i))) && a in p.adapters.Values && a.activatable
          ensures !a.active
        {
          assert old@Before(allocated(a) && !a.active);
        }
        i := i + 1;
      }
    }

    // ---- children --------------------------------------------------------

    /**
     * addChildWithoutNotify: List.add(index, child). The footprint grows by
     * the child's; the tree stays valid when the child's tree is valid and
     * disjoint from this one.
     */
    method AddChildWithoutNotify(child: VisualPart, index: int)
      requires 0 <= index <= |children|
      modifies this`children, this`Nodes
      ensures children == InsertAt(old(children), index, child)
      ensures Nodes == old(Nodes) + child.Nodes
      ensures old(TreeValid()) && old(child.TreeValid()) && child.viewer == viewer && old(Nodes !! child.Nodes) ==> TreeValid()
      ensures old(TreeValid()) && old(FitsAmong(child, children, Nodes)) ==> TreeValid()
      ensures old(child.TreeValid()) && this !in old(child.Nodes) ==>
        child.TreeValid() && child.ActivationOrder() == old(child.ActivationOrder())
    {
      ghost var added := TreeValid() && child.TreeValid() && child.viewer == viewer && Nodes !! child.Nodes;
      ghost var moved := TreeValid() && FitsAmong(child, children, Nodes);
      if added {
        TreeValidByChildren();
        assert child.TreeValid();
        ChildrenValidGrow(children, Nodes, Nodes + child.Nodes);
        ChildrenValidInsert(children, Nodes + child.Nodes, index, child);
      } else if moved {
        TreeValidByChildren();
        assert Nodes + child.Nodes == Nodes;
        ChildrenValidInsert(children, Nodes, index, child);
      }
      children := InsertAt(children, index, child);
      Nodes := Nodes + child.Nodes;
      if added || moved {
        TreeValidByChildren();
      }
    }

    /**
     * addChild(child, index): asserts the child is not null, inserts it
     * (ArrayList.add throws for an index outside 0..size), sets its
     * parent, adds its visual, refreshes it, and activates it when this
     * part is active.
     */
    method AddChild(child: VisualPart?, index: int) returns (outcome: Outcome)
      requires child != null ==> child.viewer == viewer
      requires child != null && active ==> child.TreeValid() && this !in child.Nodes
      modifies this`children, this`Nodes, viewer`visualPartMap, viewer`log
      modifies (if child == null then {} else {child})`parent
      modifies (if child == null then {} else child.Nodes)`active
      modifies AdaptersOf(if child == null then {} else child.Nodes)`active
      ensures child == null ==> outcome == Fail(AssertionFailed)
      ensures child != null && !(0 <= index <= |old(children)|) ==> outcome == Fail(IndexOutOfBounds)
      ensures outcome.Fail? ==>
        children == old(children) && Nodes == old(Nodes) &&
        viewer.visualPartMap == old(viewer.visualPartMap) && viewer.log == old(viewer.log)
      ensures child != null && 0 <= index <= |old(children)| ==>
        outcome == Pass && children == InsertAt(old(children), index, child) && child.parent == this &&
        viewer.visualPartMap ==
          (if old(child.parent) != this && child.anchorages == [] then old(viewer.visualPartMap)[child.visual := child]
           else old(viewer.visualPartMap)) &&
        viewer.log == old(viewer.log) + ParentEvents(child, old(child.parent), this) +
          [ChildVisualAdded(this, child, index), VisualRefreshed(child)] +
          (if old(active) then old(child.ActivationOrder()) else [])
      ensures child != null && 0 <= index <= |old(children)| && old(active) ==>
        forall e :: e in old(child.ActivationOrder()) ==> e.Activated? && e.part.active
      ensures outcome == Pass && old(TreeValid()) && old(child.TreeValid()) && old(Nodes !! child.Nodes) ==> TreeValid()
      ensures child != null && old(child.RegistrationValid()) ==> child.RegistrationValid()
    {
      if child == null {
        return Fail(AssertionFailed);
      }
      if !(0 <= index <= |children|) {
        return Fail(IndexOutOfBounds);
      }
      AddChildWithoutNotify(child, index);
      NotifyChildAdded(child, index);
      return Pass;
    }

    /** The steps of addChild after the insertion: parent, visual, refresh, activation. */
    method NotifyChildAdded(child: VisualPart, index: int)
      requires child.viewer == viewer
      requires active ==> child.TreeValid()
      modifies child`parent, viewer`visualPartMap, viewer`log
      modifies (if active then child.Nodes else {})`active, AdaptersOf(if active then child.Nodes else {})`active
      ensures child.parent == this
      ensures viewer.visualPartMap ==
        (if old(child.parent) != this && child.anchorages == [] then old(viewer.visualPartMap)[child.visual := child]
         else old(viewer.visualPartMap))
      ensures viewer.log == old(viewer.log) + ParentEvents(child, old(child.parent), this) +
        [ChildVisualAdded(this, child, index), VisualRefreshed(child)] +
        (if old(active) then old(child.ActivationOrder()) else [])
      ensures old(active) ==> forall e :: e in old(child.ActivationOrder()) ==> e.Activated? && e.part.active
      ensures old(child.RegistrationValid()) ==> child.RegistrationValid()
    {
      LinkChild(child, index);
      if active {
        child.Activate();
      }
    }

    /** setParent, addChildVisual and refreshVisual for a newly inserted child. */
    method LinkChild(child: VisualPart, index: int)
      requires child.viewer == viewer
      modifies child`parent, viewer`visualPartMap, viewer`log
      ensures child.parent == this
      ensures viewer.visualPartMap ==
        (if old(child.parent) != this && child.anchorages == [] then old(viewer.visualPartMap)[child.visual := child]
         else old(viewer.visualPartMap))
      ensures viewer.log == old(viewer.log) + ParentEvents(child, old(child.parent), this) +
        [ChildVisualAdded(this, child, index), VisualRefreshed(child)]
      ensures old(child.RegistrationValid()) ==> child.RegistrationValid()
    {
      child.SetParent(this);
      AddChildVisual(child, index);
      child.RefreshVisual();
    }

    /** addChild(child): appends, at index getChildren().size(). */
    method AddChildAtEnd(child: VisualPart?) returns (outcome: Outcome)
      requires child != null ==> child.viewer == viewer
      requires child != null && active ==> child.TreeValid() && this !in child.Nodes
      modifies this`children, this`Nodes, viewer`visualPartMap, viewer`log
      modifies (if child == null then {} else {child})`parent
      modifies (if child == null then {} else child.Nodes)`active
      modifies AdaptersOf(if child == null then {} else child.Nodes)`active
      ensures child == null ==> outcome == Fail(AssertionFailed) && children == old(children)
      ensures child != null ==> outcome == Pass && children == old(children) + [child] && child.parent == this
      ensures child != null ==>
        viewer.log == old(viewer.log) + ParentEvents(child, old(child.parent), this) +
          [ChildVisualAdded(this, child, |old(children)|), VisualRefreshed(child)] +
          (if old(active) then old(child.ActivationOrder()) else [])
      ensures outcome == Pass && old(TreeValid()) && old(child.TreeValid()) && old(Nodes !! child.Nodes) ==> TreeValid()
    {
      outcome := AddChild(child, |children|);
    }

    /** removeChildWithoutNotify: List.remove(child). The footprint is kept. */
    method RemoveChildWithoutNotify(child: VisualPart)
      modifies this`children
      ensures children == RemoveFirst(old(children), child)
      ensures old(TreeValid()) ==> TreeValid()
    {
      ghost var valid := TreeValid();
      if valid {
        TreeValidByChildren();
        ChildrenValidRemove(children, Nodes, child);
      }
      children := RemoveFirst(children, child);
      if valid {
        TreeValidByChildren();
      }
    }

    /**
     * removeChild: asserts the child is not null and does nothing for a
     * part that is not a child; otherwise deactivates it when this part is
     * active, clears its parent, removes its visual and drops it from the
     * list.
     */
    method RemoveChild(child: VisualPart?) returns (outcome: Outcome)
      requires child != null && child in children ==> child.viewer == viewer
      requires child != null && child in children && active ==> child.TreeValid()
      modifies this`children, viewer`visualPartMap, viewer`log
      modifies (if child == null then {} else {child})`parent
      modifies (if child == null then {} else child.Nodes)`active
      modifies AdaptersOf(if child == null then {} else child.Nodes)`active
      ensures child == null ==> outcome == Fail(AssertionFailed)
      ensures child != null ==> outcome == Pass
      ensures child == null || child !in old(children) ==>
        children == old(children) && viewer.visualPartMap == old(viewer.visualPartMap) && viewer.log == old(viewer.log)
      ensures child != null && child !in old(children) ==> child.parent == old(child.parent)
      ensures child != null && child in old(children) ==>
        children == RemoveFirst(old(children), child) && child.parent == null &&
        viewer.visualPartMap ==
          (if old(child.parent) != null && child.anchorages == [] then old(viewer.visualPartMap) - {child.visual}
           else old(viewer.visualPartMap)) &&
        viewer.log == old(viewer.log) + (if old(active) then old(child.DeactivationOrder()) else []) +
          ParentEvents(child, old(child.parent), null) + [ChildVisualRemoved(this, child)]
      ensures child != null && child in old(children) && old(active) ==>
        forall e :: e in old(child.DeactivationOrder()) ==> e.Deactivated? && !e.part.active
      ensures old(TreeValid()) ==> TreeValid()
      ensures child != null && old(child.RegistrationValid()) ==> child.RegistrationValid()
    {
      if child == null {
        return Fail(AssertionFailed);
      }
      if child !in children {
        return Pass;
      }
      if active {
        child.DeactivationParts();
      }
      NotifyChildRemoving(child);
      RemoveChildWithoutNotify(child);
      return Pass;
    }

    /** The steps of removeChild before the list surgery: deactivation, parent, visual. */
    method NotifyChildRemoving(child: VisualPart)
      requires child.viewer == viewer
      requires active ==> child.TreeValid()
      modifies child`parent, viewer`visualPartMap, viewer`log
      modifies (if active then child.Nodes else {})`active, AdaptersOf(if active then child.Nodes else {})`active
      ensures child.parent == null
      ensures viewer.visualPartMap ==
        (if old(child.parent) != null && child.anchorages == [] then old(viewer.visualPartMap) - {child.visual}
         else old(viewer.visualPartMap))
      ensures viewer.log == old(viewer.log) + (if old(active) then old(child.DeactivationOrder()) else []) +
        ParentEvents(child, old(child.parent), null) + [ChildVisualRemoved(this, child)]
      ensures old(active) ==> forall e :: e in old(child.DeactivationOrder()) ==> e.Deactivated? && !e.part.active
      ensures old(child.RegistrationValid()) ==> child.RegistrationValid()
    {
      if active {
        child.DeactivationParts();
        child.Deactivate();
      }
      child.SetParent(null);
      RemoveChildVisual(child);
    }

    /**
     * reorderChild: removes the child's visual, drops the child from the
     * list (a NullPointerException when the part has no children), inserts
     * it at index (ArrayList.add throws outside 0..size) and adds its
     * visual there. A child that was not in the list is inserted all the
     * same. The empty sequence stands for the source's null list, which
     * is created by the first insertion and dropped when the last child
     * goes.
     */
    method ReorderChild(child: VisualPart, index: int) returns (outcome: Outcome)
      modifies this`children, this`Nodes, viewer`log
      ensures old(children) == [] ==> outcome == Fail(NullPointer) && children == []
      ensures old(children) != [] && !(0 <= index <= |RemoveFirst(old(children), child)|) ==>
        outcome == Fail(IndexOutOfBounds) && children == RemoveFirst(old(children), child)
      ensures old(children) != [] && 0 <= index <= |RemoveFirst(old(children), child)| ==>
        outcome == Pass && children == InsertAt(RemoveFirst(old(children), child), index, child)
      ensures viewer.log == old(viewer.log) + [ChildVisualRemoved(this, child)] +
        (if outcome.Pass? then [ChildVisualAdded(this, child, index)] else [])
      ensures child in old(children) && outcome.Pass? ==>
        multiset(children) == multiset(old(children)) && children[index] == child
      ensures child in old(children) && old(TreeValid()) ==> TreeValid() && Nodes == old(Nodes)
    {
      RemoveChildVisual(child);
      if children == [] {
        return Fail(NullPointer);
      }
      if child in children && 0 <= index < |children| {
        MoveKeepsElements(children, child, index);
      }
      outcome := MoveChildWithoutNotify(child, index);
      if outcome.Pass? {
        AddChildVisual(child, index);
      }
    }

    /** The list surgery of reorderChild on an existing list: remove, then insert at index. */
    method MoveChildWithoutNotify(child: VisualPart, index: int) returns (outcome: Outcome)
      requires children != []
      modifies this`children, this`Nodes
      ensures !(0 <= index <= |RemoveFirst(old(children), child)|) ==>
        outcome == Fail(IndexOutOfBounds) && children == RemoveFirst(old(children), child)
      ensures 0 <= index <= |RemoveFirst(old(children), child)| ==>
        outcome == Pass && children == InsertAt(RemoveFirst(old(children), child), index, child)
      ensures child in old(children) && old(TreeValid()) ==> TreeValid() && Nodes == old(Nodes)
    {
      if TreeValid() {
        TreeValidByChildren();
        ChildrenValidRemove(children, Nodes, child);
      }
      RemoveChildWithoutNotify(child);
      if !(0 <= index <= |children|) {
        return Fail(IndexOutOfBounds);
      }
      AddChildWithoutNotify(child, index);
      return Pass;
    }

    // ---- adapters --------------------------------------------------------

    /** getAdapter: the adapter stored under key, or null when there is none. */
    function GetAdapter(key: Behaviors.ClassKey): (r: Behaviors.Adapter?)
      reads this`adapters
      ensures r != null ==> r in OwnAdapters()
      ensures key in adapters ==> r == adapters[key]
      ensures key !in adapters ==> r == null
    {
      if key in adapters then adapters[key] else null
    }

    /**
     * setAdapter(key, adapter): puts the adapter under key, replacing any
     * earlier one (which is neither deactivated nor unbound), hands this
     * part to a Bound adapter, and activates an activatable adapter when
     * this part is active.
     */
    method SetAdapter(key: Behaviors.ClassKey, adapter: Behaviors.Adapter?)
      modifies this`adapters, (if adapter == null then {} else {adapter})`host
      modifies (if adapter == null then {} else {adapter})`active
      ensures adapters == old(adapters)[key := adapter]
      ensures GetAdapter(key) == adapter
      ensures forall k :: k != key ==> GetAdapter(k) == old(GetAdapter(k))
      ensures adapter != null ==> adapter.host == if adapter.bound then this else old(adapter.host)
      ensures adapter != null ==> adapter.active == (old(adapter.active) || (active && adapter.activatable))
    {
      adapters := adapters[key := adapter];
      if adapter != null && adapter.bound {
        adapter.SetAdaptable(this);
      }
      if active && adapter != null && adapter.activatable {
        adapter.Activate();
      }
    }

    /** setAdapter(adapter): keys the adapter by its runtime class; null throws. */
    method SetAdapterByClass(adapter: Behaviors.Adapter?) returns (outcome: Outcome)
      modifies this`adapters, (if adapter == null then {} else {adapter})`host
      modifies (if adapter == null then {} else {adapter})`active
      ensures adapter == null ==> outcome == Fail(NullPointer) && adapters == old(adapters)
      ensures adapter != null ==> outcome == Pass && adapters == old(adapters)[adapter.runtimeClass := adapter]
      ensures adapter != null ==> GetAdapter(adapter.runtimeClass) == adapter
      ensures adapter != null ==> adapter.host == if adapter.bound then this else old(adapter.host)
      ensures adapter != null ==> adapter.active == (old(adapter.active) || (active && adapter.activatable))
    {
      if adapter == null {
        return Fail(NullPointer);
      }
      SetAdapter(adapter.runtimeClass, adapter);
      return Pass;
    }

    /**
     * unsetAdapter: removes the entry for key; a non-null adapter that was
     * stored there is deactivated when activatable, then loses its host
     * when bound. An absent key changes nothing.
     */
    method UnsetAdapter(key: Behaviors.ClassKey)
      modifies this`adapters
      modifies (if key in adapters && adapters[key] != null then {adapters[key]} else {})`active
      modifies (if key in adapters && adapters[key] != null then {adapters[key]} else {})`host
      ensures adapters == old(adapters) - {key}
      ensures GetAdapter(key) == null
      ensures forall k :: k != key ==> GetAdapter(k) == old(GetAdapter(k))
      ensures old(GetAdapter(key)) != null ==>
        var a := old(GetAdapter(key));
        a.active == (old(a.active) && !a.activatable) && a.host == (if a.bound then null else old(a.host))
    {
      if key !in adapters {
        return;
      }
      var removed := adapters[key];
      adapters := adapters - {key};
      if removed != null {
        if removed.activatable {
          removed.Deactivate();
        }
        if removed.bound {
          removed.SetAdaptable(null);
        }
      }
    }

    // ---- root ------------------------------------------------------------

    /**
     * getRoot, followed for at most fuel steps: a root part is its own
     * root; otherwise the parent's root, else the first anchorage's root,
     * else none.
     */
    function GetRoot(fuel: nat): (r: RootLookup)
      reads *
      ensures r.Found? ==> r.root.kind == RootPart
      ensures kind != RootPart && parent == null && anchorages == [] ==> r == NoRoot
      decreases fuel
    {
      if kind == RootPart then Found(this)
      else if parent == null && anchorages == [] then NoRoot
      else if fuel == 0 then OutOfFuel
      else if parent != null then parent.GetRoot(fuel - 1)
      else anchorages[0].GetRoot(fuel - 1)
    }

    /**
     * A part that is not a root part answers its parent's root when it has
     * a parent, and otherwise the root of its first anchorage.
     */
    lemma GetRootFollowsLinks(fuel: nat)
      requires kind != RootPart && fuel > 0
      ensures parent != null ==> GetRoot(fuel) == parent.GetRoot(fuel - 1)
      ensures parent == null && anchorages != [] ==> GetRoot(fuel) == anchorages[0].GetRoot(fuel - 1)
    {
    }

    /** Once getRoot has an answer within fuel steps, more steps give the same answer. */
    lemma {:induction false} GetRootMoreFuel(fuel: nat, more: nat)
      requires fuel <= more && !GetRoot(fuel).OutOfFuel?
      ensures GetRoot(more) == GetRoot(fuel)
      decreases fuel
    {
      if kind != RootPart && !(parent == null && anchorages == []) {
        if parent != null {
          parent.GetRootMoreFuel(fuel - 1, more - 1);
        } else {
          anchorages[0].GetRootMoreFuel(fuel - 1, more - 1);
        }
      }
    }
  }
}
