// ContentBehavior: keeps a host part's content-part children and content
// anchoreds in line with lists of content objects, by driving the host's
// addChild, reorderChild, removeChild, addAnchored and removeAnchored. Each
// synchronisation is proved to end in the state the functions of
// ContentSync compute.
//
// The content-part factory is a function from a content object to the
// visual of a new part; setContent only sets the part's content field.

module ContentBehaviors {
  import opened Wrappers
  import opened Lists
  import opened Parts
  import ContentSync

  /** PartUtils.filterParts(..., IContentPart.class) keeps the content parts. */
  function IsContentPart(p: VisualPart): bool
  {
    p.kind == ContentPart
  }

  /** getContent() of each part, in order. */
  function ContentList(ps: seq<VisualPart>): (r: seq<Option<Content>>)
    reads ps
    ensures |r| == |ps|
    ensures forall j :: 0 <= j < |ps| ==> r[j] == ps[j].content
  {
    if |ps| == 0 then [] else ContentList(ps[..|ps| - 1]) + [ps[|ps| - 1].content]
  }

  /** The names of the property-change events the behaviour listens to. */
  datatype PropertyName = ContentsProperty | ContentProperty | OtherProperty(name: string)

  class ContentBehavior {
    const host: VisualPart
    /** The visual the content-part factory builds for a content object. */
    const visualFor: Content -> Visual

    constructor(host: VisualPart, visualFor: Content -> Visual)
      ensures this.host == host && this.visualFor == visualFor
    {
      this.host := host;
      this.visualFor := visualFor;
    }

    /**
     * The parts a synchronisation may touch, besides the host: they share
     * the host's viewer, their footprints stay among them, and while the
     * host is active each is a valid tree that does not contain the host.
     */
    ghost predicate PoolValid(pool: set<VisualPart>)
      reads pool`children, pool`Nodes, host`active
    {
      host !in pool &&
      forall p :: p in pool ==>
        p.viewer == host.viewer && p.Nodes <= pool && (host.active ==> p.TreeValid() && host !in p.Nodes)
    }

    /**
     * Each listed object that the viewer's content-part map knows is mapped
     * to one of parts. Objects the map does not know, and map entries for
     * objects not listed, are unconstrained.
     */
    ghost predicate ListedIn(contents: seq<Content>, parts: set<VisualPart>)
      reads host.viewer`contentPartMap
    {
      forall j :: 0 <= j < |contents| && contents[j] in host.viewer.contentPartMap ==>
        host.viewer.contentPartMap[contents[j]] in parts
    }

    /**
     * What a synchronisation records for one object: when its decision adds
     * a part, the part supplied for the object; otherwise the host, which
     * stands for no part.
     */
    ghost predicate SuppliedFor(model: Content, part: VisualPart, partMap: map<Content, VisualPart>,
                                created: set<VisualPart>, added: bool)
      reads part`content
    {
      if added then Supplied(model, part, partMap, created) else part == host
    }

    /**
     * The parts a synchronisation records, one per object: for an object
     * whose decision adds a part (an insertion among the children, an
     * append among the anchoreds), the viewer's part for it when the map
     * has one, else a content part other than the host; the host for every
     * other object.
     */
    ghost predicate SupplyFits(contents: seq<Content>, supply: seq<VisualPart>, snapContent: seq<Option<Content>>,
                               table: map<Option<Content>, VisualPart>, anchored: bool)
      requires |supply| == |contents|
      reads host.viewer`contentPartMap
    {
      forall i :: 0 <= i < |contents| ==>
        var added := if anchored then ContentSync.NeedsAnchored(snapContent, table, contents[i], i)
                     else ContentSync.ChildAction(snapContent, table, contents[i], i).Insert?;
        (!added ==> supply[i] == host) &&
        (added && contents[i] in host.viewer.contentPartMap ==> supply[i] == host.viewer.contentPartMap[contents[i]]) &&
        (added && contents[i] !in host.viewer.contentPartMap ==> supply[i] != host && supply[i].kind == ContentPart)
    }

    /**
     * findOrCreatePartFor: the part the viewer's content-part map holds for
     * the object, else a new part from the factory with its content set.
     */
    method FindOrCreatePartFor(model: Content) returns (part: VisualPart)
      ensures model in host.viewer.contentPartMap ==> part == host.viewer.contentPartMap[model]
      ensures model !in host.viewer.contentPartMap ==>
        fresh(part) && part.kind == ContentPart && part.viewer == host.viewer && part.content == Some(model) &&
        part.parent == null && part.children == [] && part.anchorages == [] && part.anchoreds == [] &&
        !part.active && part.adapters == map[] && part.Nodes == {part} && part.TreeValid()
    {
      if model in host.viewer.contentPartMap {
        part := host.viewer.contentPartMap[model];
      } else {
        part := new VisualPart(ContentPart, visualFor(model), host.viewer);
        part.content := Some(model);
      }
    }

    /** disposeIfObsolete: a part with neither parent nor anchorage loses its content. */
    method DisposeIfObsolete(part: VisualPart)
      modifies part`content
      ensures part.content == if part.parent == null && part.anchorages == [] then None else old(part.content)
    {
      if part.parent == null && part.anchorages == [] {
        part.content := None;
      }
    }

    /** modelToEditPart, built by the loop over the snapshot: later parts win. */
    method BuildTable(snap: seq<VisualPart>) returns (table: map<Option<Content>, VisualPart>)
      ensures table == ContentSync.Table(snap, ContentList(snap))
    {
      table := map[];
      for i := 0 to |snap|
        invariant table == ContentSync.Table(snap[..i], ContentList(snap[..i]))
      {
        assert snap[..i + 1][..i] == snap[..i];
        assert ContentList(snap[..i + 1])[..i] == ContentList(snap[..i]);
        table := table[snap[i].content := snap[i]];
      }
      assert snap[..|snap|] == snap;
    }

    /** The trash list: the parts of ps from position n on, collected by a loop. */
    method CollectTrash(ps: seq<VisualPart>, n: nat) returns (trash: seq<VisualPart>)
      ensures trash == ContentSync.TrashOf(ps, n)
    {
      trash := [];
      if n < |ps| {
        for i := n to |ps|
          invariant trash == ps[n..i]
        {
          trash := trash + [ps[i]];
        }
        assert ps[n..|ps|] == ps[n..];
      }
    }

    /**
     * propertyChange: a change of the viewer's contents synchronises the
     * children with the new list; a change of the host's content
     * synchronises the children, then the anchoreds (see ContentChanged);
     * any other property is ignored.
     */
    method PropertyChange(name: PropertyName, newValue: seq<Content>, contentChildren: seq<Content>,
                          contentAnchored: seq<Content>, ghost pool: set<VisualPart>, ghost anchorPool: set<VisualPart>)
      returns (outcome: Outcome, ghost childSupply: seq<VisualPart>, ghost anchoredSupply: seq<VisualPart>,
               ghost anchoredSnap: seq<Option<Content>>)
      requires PoolValid(pool)
      requires ContentChildrenIn(host.children, pool)
      requires name == ContentsProperty ==> ListedIn(newValue, pool)
      requires name == ContentProperty ==> ListedIn(contentChildren, pool)
      requires forall p :: p in anchorPool ==> p.viewer == host.viewer
      requires ListedIn(contentAnchored, anchorPool)
      requires forall j :: 0 <= j < |host.anchoreds| && IsContentPart(host.anchoreds[j]) ==> host.anchoreds[j] in anchorPool
      modifies host`children, host`Nodes, host`anchoreds, host.viewer`visualPartMap, host.viewer`log
      modifies pool`parent, pool`active, AdaptersOf(pool)`active, (pool + anchorPool)`content, anchorPool`anchorages
      ensures name.OtherProperty? ==> outcome == Pass && host.children == old(host.children) && host.anchoreds == old(host.anchoreds)
      ensures name == ContentsProperty ==>
                |childSupply| == |newValue| && host.anchoreds == old(host.anchoreds) &&
                ContentSync.SyncChildren(old(host.children), IsContentPart, old(ContentList(Filter(IsContentPart, host.children))),
                                         newValue, childSupply)
                  == if outcome.Pass? then Success(host.children) else Failure(outcome.error)
      ensures name == ContentsProperty && outcome.Pass? ==>
                SupplyFits(newValue, childSupply, old(ContentList(Filter(IsContentPart, host.children))),
                           ContentSync.Table(old(Filter(IsContentPart, host.children)),
                                             old(ContentList(Filter(IsContentPart, host.children)))), false) &&
                forall i :: 0 <= i < |newValue| && childSupply[i] != host && newValue[i] !in host.viewer.contentPartMap
                  ==> fresh(childSupply[i]) && childSupply[i].content in {Some(newValue[i]), None}
      ensures name == ContentProperty && host.kind != ContentPart ==>
                outcome == Fail(ClassCast) && host.children == old(host.children) && host.anchoreds == old(host.anchoreds)
      ensures name == ContentProperty && host.kind == ContentPart ==>
                |childSupply| == |contentChildren| && |anchoredSupply| == |contentAnchored| &&
                var children := ContentSync.SyncChildren(old(host.children), IsContentPart,
                                                         old(ContentList(Filter(IsContentPart, host.children))),
                                                         contentChildren, childSupply);
                (children.Failure? ==> outcome == Fail(children.error) && host.anchoreds == old(host.anchoreds)) &&
                (children.Success? ==>
                   host.children == children.value &&
                   SupplyFits(contentChildren, childSupply, old(ContentList(Filter(IsContentPart, host.children))),
                              ContentSync.Table(old(Filter(IsContentPart, host.children)),
                                                old(ContentList(Filter(IsContentPart, host.children)))), false) &&
                   (forall i :: 0 <= i < |contentChildren| && childSupply[i] != host &&
                                contentChildren[i] !in host.viewer.contentPartMap
                      ==> fresh(childSupply[i])) &&
                   |anchoredSnap| == |Filter(IsContentPart, old(host.anchoreds))| &&
                   (forall j :: 0 <= j < |anchoredSnap| ==>
                      anchoredSnap[j] == old(ContentList(Filter(IsContentPart, host.anchoreds)))[j] || anchoredSnap[j] == None) &&
                   (outcome.Pass? ==>
                      host.anchoreds == ContentSync.SyncAnchored(old(host.anchoreds), IsContentPart, anchoredSnap,
                                                                 contentAnchored, anchoredSupply) &&
                      SupplyFits(contentAnchored, anchoredSupply, anchoredSnap,
                                 ContentSync.Table(Filter(IsContentPart, old(host.anchoreds)), anchoredSnap), true) &&
                      (forall i :: 0 <= i < |contentAnchored| && anchoredSupply[i] != host &&
                                   contentAnchored[i] !in host.viewer.contentPartMap ==>
                         fresh(anchoredSupply[i]) &&
                         (anchoredSupply[i].content == Some(contentAnchored[i]) || anchoredSupply[i].content == None))))
    {
      childSupply, anchoredSupply, anchoredSnap := [], [], [];
      match name
      case ContentsProperty =>
        outcome, childSupply := SynchronizeContentChildren(newValue, pool);
      case ContentProperty =>
        if host.kind != ContentPart {
          return Fail(ClassCast), [], [], [];
        }
        outcome, childSupply, anchoredSupply, anchoredSnap := ContentChanged(contentChildren, contentAnchored, pool, anchorPool);
      case OtherProperty(_) =>
        outcome := Pass;
    }

    /**
     * The host's content changed: synchronise the children with the list
     * getContentChildren returns, then, unless that threw, the anchoreds
     * with the list getContentAnchored returns. The anchoreds are matched
     * against their contents as they stand after the children's pass
     * (anchoredSnap), which differ from the original ones at most by
     * parts the children's pass disposed.
     */
    method ContentChanged(contentChildren: seq<Content>, contentAnchored: seq<Content>, ghost pool: set<VisualPart>,
                          ghost anchorPool: set<VisualPart>)
      returns (outcome: Outcome, ghost childSupply: seq<VisualPart>, ghost anchoredSupply: seq<VisualPart>,
               ghost anchoredSnap: seq<Option<Content>>)
      requires PoolValid(pool)
      requires ContentChildrenIn(host.children, pool)
      requires ListedIn(contentChildren, pool)
      requires forall p :: p in anchorPool ==> p.viewer == host.viewer
      requires ListedIn(contentAnchored, anchorPool)
      requires forall j :: 0 <= j < |host.anchoreds| && IsContentPart(host.anchoreds[j]) ==> host.anchoreds[j] in anchorPool
      modifies host`children, host`Nodes, host`anchoreds, host.viewer`visualPartMap, host.viewer`log
      modifies pool`parent, pool`active, AdaptersOf(pool)`active, (pool + anchorPool)`content, anchorPool`anchorages
      ensures |childSupply| == |contentChildren| && |anchoredSupply| == |contentAnchored|
      ensures var children := ContentSync.SyncChildren(old(host.children), IsContentPart,
                                                       old(ContentList(Filter(IsContentPart, host.children))),
                                                       contentChildren, childSupply);
              (children.Failure? ==> outcome == Fail(children.error) && host.anchoreds == old(host.anchoreds)) &&
              (children.Success? ==>
                 host.children == children.value &&
                 SupplyFits(contentChildren, childSupply, old(ContentList(Filter(IsContentPart, host.children))),
                            ContentSync.Table(old(Filter(IsContentPart, host.children)),
                                              old(ContentList(Filter(IsContentPart, host.children)))), false) &&
                 (forall i :: 0 <= i < |contentChildren| && childSupply[i] != host &&
                              contentChildren[i] !in host.viewer.contentPartMap
                    ==> fresh(childSupply[i])) &&
                 |anchoredSnap| == |Filter(IsContentPart, old(host.anchoreds))| &&
                 (forall j :: 0 <= j < |anchoredSnap| ==>
                    anchoredSnap[j] == old(ContentList(Filter(IsContentPart, host.anchoreds)))[j] || anchoredSnap[j] == None) &&
                 (outcome.Pass? ==>
                    host.anchoreds == ContentSync.SyncAnchored(old(host.anchoreds), IsContentPart, anchoredSnap,
                                                               contentAnchored, anchoredSupply) &&
                    SupplyFits(contentAnchored, anchoredSupply, anchoredSnap,
                               ContentSync.Table(Filter(IsContentPart, old(host.anchoreds)), anchoredSnap), true) &&
                    (forall i :: 0 <= i < |contentAnchored| && anchoredSupply[i] != host &&
                                 contentAnchored[i] !in host.viewer.contentPartMap ==>
                       fresh(anchoredSupply[i]) &&
                       (anchoredSupply[i].content == Some(contentAnchored[i]) || anchoredSupply[i].content == None))))
    {
      var before := Filter(IsContentPart, host.anchoreds);
      ghost var content0 := ContentList(before);
      FilterSatisfies(IsContentPart, host.anchoreds);
      forall j | 0 <= j < |before|
        ensures before[j] in anchorPool
      {
        assert before[j] in Filter(IsContentPart, host.anchoreds);
        var k :| 0 <= k < |host.anchoreds| && host.anchoreds[k] == before[j];
      }
      outcome, childSupply := SynchronizeContentChildren(contentChildren, pool);
      anchoredSupply := seq(|contentAnchored|, _ => host);
      anchoredSnap := [];
      if outcome.Pass? {
        anchoredSnap := ContentList(before);
        assert forall j :: 0 <= j < |before| ==> anchoredSnap[j] == content0[j] || anchoredSnap[j] == None;
        outcome, anchoredSupply := SynchronizeContentAnchored(contentAnchored, anchorPool);

      }
    }

    // ---- synchronizeContentChildren ----------------------------------------

    /**
     * One round of the main loop of synchronizeContentChildren for the
     * object at position i: the quick check against the snapshot, else
     * reorderChild of the part the table maps the object to, else addChild
     * of the part findOrCreatePartFor hands out. part is that added part
     * (the host when nothing is added); known grows by a new part.
     */
    method ChildStep(model: Content, i: nat, snap: seq<VisualPart>, ghost snapContent: seq<Option<Content>>,
                     table: map<Option<Content>, VisualPart>, ghost known: set<VisualPart>)
      returns (outcome: Outcome, ghost part: VisualPart, ghost known': set<VisualPart>)
      requires |snap| == |snapContent| && forall j :: 0 <= j < |snap| ==> snap[j].content == snapContent[j]
      requires PoolValid(known)
      requires forall k :: k in table ==> table[k] in known
      requires model in host.viewer.contentPartMap ==> host.viewer.contentPartMap[model] in known
      requires ContentChildrenIn(host.children, known)
      modifies host`children, host`Nodes, host.viewer`visualPartMap, host.viewer`log
      modifies known`parent, known`active, AdaptersOf(known)`active
      ensures ContentSync.ApplyChild(old(host.children), ContentSync.ChildAction(snapContent, table, model, i), i, part)
                == if outcome.Pass? then Success(host.children) else Failure(outcome.error)
      ensures known <= known' && fresh(known' - known) && PoolValid(known')
      ensures forall p :: p in known' - known ==> p.adapters == map[]
      ensures outcome.Pass? ==> ContentChildrenIn(host.children, known')
      ensures if ContentSync.ChildAction(snapContent, table, model, i).Insert?
              then Supplied(model, part, host.viewer.contentPartMap, known' - known)
              else part == host
    {
      part, known' := host, known;
      if i < |snap| && snap[i].content == Some(model) {
        outcome := Pass;
      } else if Some(model) in table {
        outcome := ReorderStep(table[Some(model)], i, known);
      } else {
        outcome, part, known' := InsertStep(model, i, known);
      }
    }

    /** reorderChild of a known part to position i. */
    method ReorderStep(p: VisualPart, i: nat, ghost known: set<VisualPart>) returns (outcome: Outcome)
      requires PoolValid(known) && p in known
      requires ContentChildrenIn(host.children, known)
      modifies host`children, host`Nodes, host.viewer`log
      ensures ContentSync.ApplyChild(old(host.children), ContentSync.Reorder(p), i, host)
                == if outcome.Pass? then Success(host.children) else Failure(outcome.error)
      ensures PoolValid(known)
      ensures outcome.Pass? ==> ContentChildrenIn(host.children, known)
    {
      ghost var before := host.children;
      outcome := host.ReorderChild(p, i);
      ContentChildrenMove(before, p, i, known);
    }

    /** findOrCreatePartFor, then addChild of that part at position i. */
    method InsertStep(model: Content, i: nat, ghost known: set<VisualPart>)
      returns (outcome: Outcome, part: VisualPart, ghost known': set<VisualPart>)
      requires PoolValid(known)
      requires model in host.viewer.contentPartMap ==> host.viewer.contentPartMap[model] in known
      requires ContentChildrenIn(host.children, known)
      modifies host`children, host`Nodes, host.viewer`visualPartMap, host.viewer`log
      modifies known`parent, known`active, AdaptersOf(known)`active
      ensures ContentSync.ApplyChild(old(host.children), ContentSync.Insert, i, part)
                == if outcome.Pass? then Success(host.children) else Failure(outcome.error)
      ensures known <= known' && fresh(known' - known) && PoolValid(known')
      ensures forall p :: p in known' - known ==> p.adapters == map[]
      ensures outcome.Pass? ==> ContentChildrenIn(host.children, known')
      ensures Supplied(model, part, host.viewer.contentPartMap, known' - known)
    {
      part := FindOrCreatePartFor(model);
      known' := known + {part};
      assert PoolValid(known') && Supplied(model, part, host.viewer.contentPartMap, known' - known);
      outcome := AddKnown(part, i, known');
    }

    /** addChild of a part of the pool at position i. */
    method AddKnown(part: VisualPart, i: nat, ghost known: set<VisualPart>) returns (outcome: Outcome)
      requires PoolValid(known) && part in known
      requires ContentChildrenIn(host.children, known)
      modifies host`children, host`Nodes, host.viewer`visualPartMap, host.viewer`log
      modifies known`parent, known`active, AdaptersOf(known)`active
      ensures ContentSync.ApplyChild(old(host.children), ContentSync.Insert, i, part)
                == if outcome.Pass? then Success(host.children) else Failure(outcome.error)
      ensures PoolValid(known)
      ensures outcome.Pass? ==> ContentChildrenIn(host.children, known)
    {
      ghost var before := host.children;
      AdaptersOfMono(part.Nodes, known);
      outcome := host.AddChild(part, i);
      if outcome.Pass? {
        ContentChildrenInsert(before, i, part, known);
      }
    }

    /**
     * A round of the main loop: ChildStep for the object at position i,
     * with the loop's bookkeeping carried from i to i + 1.
     */
    method ChildRound(contents: seq<Content>, i: nat, snap: seq<VisualPart>, ghost snapContent: seq<Option<Content>>,
                      table: map<Option<Content>, VisualPart>, ghost c0: seq<VisualPart>, ghost supply: seq<VisualPart>,
                      ghost cpm: map<Content, VisualPart>, ghost pool: set<VisualPart>, ghost known: set<VisualPart>)
      returns (outcome: Outcome, ghost supply': seq<VisualPart>, ghost known': set<VisualPart>)
      requires i < |contents| && |supply| == i
      requires ContentSync.ChildrenLoop(c0, snapContent, table, contents[..i], supply) == Success(host.children)
      requires |snap| == |snapContent| && forall j :: 0 <= j < |snap| ==> snap[j].content == snapContent[j]
      requires pool <= known && PoolValid(known)
      requires forall k :: k in table ==> table[k] in pool
      requires host.viewer.contentPartMap == cpm && (contents[i] in cpm ==> cpm[contents[i]] in pool)
      requires ContentChildrenIn(host.children, known)
      requires forall j :: 0 <= j < i ==> SuppliedFor(contents[j], supply[j], cpm, known - pool,
                                                        ContentSync.ChildAction(snapContent, table, contents[j], j).Insert?)
      modifies host`children, host`Nodes, host.viewer`visualPartMap, host.viewer`log
      modifies known`parent, known`active, AdaptersOf(known)`active
      ensures |supply'| == i + 1
      ensures ContentSync.ChildrenLoop(c0, snapContent, table, contents[..i + 1], supply')
                == if outcome.Pass? then Success(host.children) else Failure(outcome.error)
      ensures known <= known' && fresh(known' - known) && PoolValid(known')
      ensures forall p :: p in known' - known ==> p.adapters == map[]
      ensures outcome.Pass? ==> ContentChildrenIn(host.children, known')
      ensures forall j :: 0 <= j < i + 1 ==> SuppliedFor(contents[j], supply'[j], cpm, known' - pool,
                                                          ContentSync.ChildAction(snapContent, table, contents[j], j).Insert?)
    {
      ghost var part;
      outcome, part, known' := ChildStep(contents[i], i, snap, snapContent, table, known);
      ContentSync.LoopExtend(c0, snapContent, table, contents, supply, part);
      supply' := supply + [part];
      forall j | 0 <= j < i + 1
        ensures SuppliedFor(contents[j], supply'[j], cpm, known' - pool,
                            ContentSync.ChildAction(snapContent, table, contents[j], j).Insert?)
      {
        if j < i {
          assert SuppliedFor(contents[j], supply[j], cpm, known - pool,
                             ContentSync.ChildAction(snapContent, table, contents[j], j).Insert?);
        }
      }
    }

    /**
     * The main loop of synchronizeContentChildren over the objects. supply
     * records the part added at each insertion; known is the pool with the
     * parts the factory created.
     */
    method ChildrenLoop(contents: seq<Content>, snap: seq<VisualPart>, ghost snapContent: seq<Option<Content>>,
                        table: map<Option<Content>, VisualPart>, ghost pool: set<VisualPart>)
      returns (outcome: Outcome, ghost supply: seq<VisualPart>, ghost known: set<VisualPart>)
      requires |snap| == |snapContent| && forall j :: 0 <= j < |snap| ==> snap[j].content == snapContent[j]
      requires PoolValid(pool)
      requires forall k :: k in table ==> table[k] in pool
      requires ListedIn(contents, pool)
      requires ContentChildrenIn(host.children, pool)
      modifies host`children, host`Nodes, host.viewer`visualPartMap, host.viewer`log
      modifies pool`parent, pool`active, AdaptersOf(pool)`active
      ensures |supply| == |contents|
      ensures ContentSync.ChildrenLoop(old(host.children), snapContent, table, contents, supply)
                == if outcome.Pass? then Success(host.children) else Failure(outcome.error)
      ensures pool <= known && fresh(known - pool) && PoolValid(known)
      ensures forall p :: p in known - pool ==> p.adapters == map[]
      ensures outcome.Pass? ==> ContentChildrenIn(host.children, known)
      ensures outcome.Pass? ==>
                forall i :: 0 <= i < |contents| ==>
                  SuppliedFor(contents[i], supply[i], host.viewer.contentPartMap, known - pool,
                              ContentSync.ChildAction(snapContent, table, contents[i], i).Insert?)
    {
      ghost var c0 := host.children;
      ghost var cpm := host.viewer.contentPartMap;
      supply, known := [], pool;
      outcome := Pass;
      var i := 0;
      while i < |contents|
        invariant 0 <= i <= |contents| && |supply| == i && outcome.Pass?
        invariant ContentSync.ChildrenLoop(c0, snapContent, table, contents[..i], supply) == Success(host.children)
        invariant pool <= known && fresh(known - pool) && PoolValid(known)
        invariant forall p :: p in known - pool ==> p.adapters == map[]
        invariant ContentChildrenIn(host.children, known)
        invariant host.viewer.contentPartMap == cpm
        invariant forall j :: 0 <= j < |snap| ==> snap[j].content == snapContent[j]
        invariant forall j :: 0 <= j < i ==> SuppliedFor(contents[j], supply[j], cpm, known - pool,
                                                          ContentSync.ChildAction(snapContent, table, contents[j], j).Insert?)
      {
        assert AdaptersOf(known) <= AdaptersOf(pool);
        ghost var supply', known';
        outcome, supply', known' := ChildRound(contents, i, snap, snapContent, table, c0, supply, cpm, pool, known);
        supply, known := supply', known';
        if outcome.Fail? {
          ghost var padded: seq<VisualPart> := supply + seq(|contents| - i - 1, _ => host);
          assert padded[..i + 1] == supply;
          ContentSync.LoopFailureSticks(c0, snapContent, table, contents, padded, i + 1);
          supply := padded;
          return;
        }
        i := i + 1;
      }
      assert contents[..i] == contents;
    }


    /**
     * synchronizeContentChildren: the content-part children are brought in
     * line with contents by the main loop and the removal loop; an exception
     * from reorderChild or addChild ends it. supply holds the part added at
     * each insertion (the host where none is added): the viewer's part for
     * the object, or a new part from the factory that carries the object
     * unless the removal loop disposed of it.
     */
    method SynchronizeContentChildren(contents: seq<Content>, ghost pool: set<VisualPart>)
      returns (outcome: Outcome, ghost supply: seq<VisualPart>)
      requires PoolValid(pool)
      requires ContentChildrenIn(host.children, pool)
      requires ListedIn(contents, pool)
      modifies host`children, host`Nodes, host.viewer`visualPartMap, host.viewer`log
      modifies pool`parent, pool`active, AdaptersOf(pool)`active, pool`content
      ensures |supply| == |contents|
      ensures ContentSync.SyncChildren(old(host.children), IsContentPart, old(ContentList(Filter(IsContentPart, host.children))),
                                       contents, supply)
                == if outcome.Pass? then Success(host.children) else Failure(outcome.error)
      ensures outcome.Pass? ==>
                SupplyFits(contents, supply, old(ContentList(Filter(IsContentPart, host.children))),
                           ContentSync.Table(old(Filter(IsContentPart, host.children)),
                                             old(ContentList(Filter(IsContentPart, host.children)))), false)
      ensures outcome.Pass? ==>
                forall i :: 0 <= i < |contents| && supply[i] != host && contents[i] !in host.viewer.contentPartMap ==>
                  fresh(supply[i]) && supply[i].content in {Some(contents[i]), None}
      ensures outcome.Pass? ==>
                forall i :: 0 <= i < |contents| &&
                            ContentSync.ChildAction(old(ContentList(Filter(IsContentPart, host.children))),
                                                    ContentSync.Table(old(Filter(IsContentPart, host.children)),
                                                                      old(ContentList(Filter(IsContentPart, host.children)))),
                                                    contents[i], i).Insert?
                  ==> supply[i] != host
      ensures forall p :: p in pool ==> p.content == old(p.content) || p.content == None
    {
      var snap := Filter(IsContentPart, host.children);
      ghost var snapContent := ContentList(snap);
      var table := BuildTable(snap);
      TableInPool(host.children, snap, pool);
      ghost var known;
      ghost var cpm := host.viewer.contentPartMap;
      outcome, supply, known := ChildrenLoop(contents, snap, snapContent, table, pool);
      if outcome.Fail? {
        return;
      }
      ghost var mid := map p | p in known :: p.content;
      forall i | 0 <= i < |contents|
        ensures ContentSync.ChildAction(snapContent, table, contents[i], i).Insert? && contents[i] !in cpm ==>
                  supply[i] in known - pool && mid[supply[i]] == Some(contents[i])
      {
        assert SuppliedFor(contents[i], supply[i], cpm, known - pool,
                           ContentSync.ChildAction(snapContent, table, contents[i], i).Insert?);
      }
      assert AdaptersOf(known) <= AdaptersOf(pool);
      PruneContentChildren(|contents|, known);
    }

    /** The removal half of synchronizeContentChildren: the content parts from position n on go. */
    method PruneContentChildren(n: nat, ghost known: set<VisualPart>)
      requires PoolValid(known)
      requires ContentChildrenIn(host.children, known)
      modifies host`children, host.viewer`visualPartMap, host.viewer`log
      modifies known`parent, known`active, AdaptersOf(known)`active, known`content
      ensures host.children == ContentSync.RemoveEach(old(host.children), ContentSync.TrashOf(Filter(IsContentPart, old(host.children)), n))
      ensures forall p :: p in known ==> p.content == old(p.content) || p.content == None
    {
      var after := Filter(IsContentPart, host.children);
      var trash := CollectTrash(after, n);
      FilterSatisfies(IsContentPart, host.children);
      assert forall j :: 0 <= j < |trash| ==> trash[j] in after;
      PruneChildren(trash, known);
    }

    /**
     * The removal loop at the end of a synchronisation: removeChild of each
     * part of trash in turn, then disposeIfObsolete of it.
     */
    method PruneChildren(trash: seq<VisualPart>, ghost known: set<VisualPart>)
      requires PoolValid(known)
      requires forall j :: 0 <= j < |trash| ==> trash[j] in known
      modifies host`children, host.viewer`visualPartMap, host.viewer`log
      modifies known`parent, known`active, AdaptersOf(known)`active, known`content
      ensures host.children == ContentSync.RemoveEach(old(host.children), trash)
      ensures PoolValid(known)
      ensures forall j :: 0 <= j < |trash| && trash[j] in old(host.children) ==> trash[j].parent == null
      ensures forall j :: 0 <= j < |trash| ==>
                trash[j].content == if trash[j].parent == null && trash[j].anchorages == [] then None else old(trash[j].content)
      ensures forall p :: p in known && p !in trash ==> p.parent == old(p.parent) && p.content == old(p.content)
      ensures forall p :: p in known ==> p.content == old(p.content) || p.content == None
    {
      ghost var c0 := host.children;
      ghost var parent0 := map p | p in known :: p.parent;
      ghost var content0 := map p | p in known :: p.content;
      for k := 0 to |trash|
        invariant ContentSync.RemoveEach(host.children, trash[k..]) == ContentSync.RemoveEach(c0, trash)
        invariant PoolValid(known)
        invariant forall x :: x in c0 && x !in trash[..k] ==> x in host.children
        invariant forall j :: 0 <= j < k && trash[j] in c0 ==> trash[j].parent == null
        invariant forall j :: 0 <= j < k ==>
                    trash[j].content == if trash[j].parent == null && trash[j].anchorages == [] then None else content0[trash[j]]
        invariant forall p :: p in known && p !in trash[..k] ==> p.parent == parent0[p] && p.content == content0[p]
      {
        PruneRound(trash, k, known, c0, parent0, content0);
      }
      assert trash[..|trash|] == trash;
    }

    /** A round of the removal loop, with the loop's bookkeeping carried from k to k + 1. */
    method PruneRound(trash: seq<VisualPart>, k: nat, ghost known: set<VisualPart>, ghost c0: seq<VisualPart>,
                      ghost parent0: map<VisualPart, VisualPart?>, ghost content0: map<VisualPart, Option<Content>>)
      requires k < |trash| && forall j :: 0 <= j < |trash| ==> trash[j] in known
      requires known <= parent0.Keys && known <= content0.Keys
      requires PoolValid(known)
      requires forall x :: x in c0 && x !in trash[..k] ==> x in host.children
      requires forall j :: 0 <= j < k && trash[j] in c0 ==> trash[j].parent == null
      requires forall j :: 0 <= j < k ==>
                 trash[j].content == if trash[j].parent == null && trash[j].anchorages == [] then None else content0[trash[j]]
      requires forall p :: p in known && p !in trash[..k] ==> p.parent == parent0[p] && p.content == content0[p]
      modifies host`children, host.viewer`visualPartMap, host.viewer`log
      modifies {trash[k]}`parent, known`active, AdaptersOf(known)`active, {trash[k]}`content
      ensures host.children == RemoveFirst(old(host.children), trash[k])
      ensures ContentSync.RemoveEach(host.children, trash[k + 1..]) == ContentSync.RemoveEach(old(host.children), trash[k..])
      ensures PoolValid(known)
      ensures forall x :: x in c0 && x !in trash[..k + 1] ==> x in host.children
      ensures forall j :: 0 <= j < k + 1 && trash[j] in c0 ==> trash[j].parent == null
      ensures forall j :: 0 <= j < k + 1 ==>
                trash[j].content == if trash[j].parent == null && trash[j].anchorages == [] then None else content0[trash[j]]
      ensures forall p :: p in known && p !in trash[..k + 1] ==> p.parent == parent0[p] && p.content == content0[p]
    {
      ghost var before := host.children;
      var part := trash[k];
      PruneOne(part, known);
      assert trash[k..] == [part] + trash[k + 1..];
      assert trash[..k + 1] == trash[..k] + [part];
      forall x | x in c0 && x !in trash[..k + 1]
        ensures x in host.children
      {
        RemoveFirstKeepsOthers(before, part, x);
      }
    }

    /** removeChild of one part of the trash, then disposeIfObsolete of it. */
    method PruneOne(part: VisualPart, ghost known: set<VisualPart>)
      requires PoolValid(known) && part in known
      modifies host`children, host.viewer`visualPartMap, host.viewer`log
      modifies {part}`parent, known`active, AdaptersOf(known)`active, {part}`content
      ensures host.children == RemoveFirst(old(host.children), part)
      ensures PoolValid(known)
      ensures part.parent == if part in old(host.children) then null else old(part.parent)
      ensures part.content == if part.parent == null && part.anchorages == [] then None else old(part.content)
    {
      AdaptersOfMono(part.Nodes, known);
      assert part !in host.children ==> RemoveFirst(host.children, part) == host.children;
      var _ := host.RemoveChild(part);
      assert PoolValid(known);
      DisposeIfObsolete(part);
    }


    // ---- synchronizeContentAnchored ----------------------------------------

    /**
     * synchronizeContentAnchored: a part is added with addAnchored for each
     * object that neither passes the quick check nor has a snapshot part
     * (a part in the wrong place stays where it is), then the content
     * anchoreds from position |contents| on are removed with removeAnchored
     * and disposed of. An exception from removeAnchored ends it.
     */
    method SynchronizeContentAnchored(contents: seq<Content>, ghost pool: set<VisualPart>)
      returns (outcome: Outcome, ghost supply: seq<VisualPart>)
      requires forall p :: p in pool ==> p.viewer == host.viewer
      requires forall j :: 0 <= j < |host.anchoreds| && IsContentPart(host.anchoreds[j]) ==> host.anchoreds[j] in pool
      requires ListedIn(contents, pool)
      modifies host`anchoreds, host.viewer`visualPartMap, host.viewer`log, pool`anchorages, pool`content
      ensures |supply| == |contents|
      ensures outcome.Pass? ==>
                host.anchoreds == ContentSync.SyncAnchored(old(host.anchoreds), IsContentPart,
                                                           old(ContentList(Filter(IsContentPart, host.anchoreds))), contents, supply)
      ensures outcome.Fail? ==> outcome.error == IllegalArgument || outcome.error == NullPointer
      ensures SupplyFits(contents, supply, old(ContentList(Filter(IsContentPart, host.anchoreds))),
                         ContentSync.Table(old(Filter(IsContentPart, host.anchoreds)),
                                           old(ContentList(Filter(IsContentPart, host.anchoreds)))), true)
      ensures forall i :: 0 <= i < |contents| && supply[i] != host && contents[i] !in host.viewer.contentPartMap ==>
                fresh(supply[i]) && supply[i].content in {Some(contents[i]), None}
    {
      var snap := Filter(IsContentPart, host.anchoreds);
      ghost var snapContent := ContentList(snap);
      var table := BuildTable(snap);
      FilterSatisfies(IsContentPart, host.anchoreds);
      TableInPool(host.anchoreds, snap, pool);
      ghost var cpm := host.viewer.contentPartMap;
      ghost var known;
      supply, known := AnchoredLoop(contents, snap, snapContent, table, pool);
      ghost var mid := map p | p in known :: p.content;
      forall i | 0 <= i < |contents|
        ensures ContentSync.NeedsAnchored(snapContent, table, contents[i], i) && contents[i] !in cpm ==>
                  supply[i] in known - pool && mid[supply[i]] == Some(contents[i])
      {
        assert SuppliedFor(contents[i], supply[i], cpm, known - pool,
                           ContentSync.NeedsAnchored(snapContent, table, contents[i], i));
      }
      outcome := PruneTrailingAnchored(|contents|, known);
    }

    /** The tail of synchronizeContentAnchored: the content anchoreds from position n on are removed. */
    method PruneTrailingAnchored(n: nat, ghost known: set<VisualPart>) returns (outcome: Outcome)
      requires forall p :: p in known ==> p.viewer == host.viewer
      requires forall j :: 0 <= j < |host.anchoreds| && IsContentPart(host.anchoreds[j]) ==> host.anchoreds[j] in known
      modifies host`anchoreds, host.viewer`visualPartMap, host.viewer`log, known`anchorages, known`content
      ensures outcome.Pass? ==>
                host.anchoreds == ContentSync.RemoveEach(old(host.anchoreds),
                                                         ContentSync.TrashOf(Filter(IsContentPart, old(host.anchoreds)), n))
      ensures outcome.Fail? ==> outcome.error == IllegalArgument || outcome.error == NullPointer
      ensures forall p :: p in known ==> p.content == old(p.content) || p.content == None
    {
      var after := Filter(IsContentPart, host.anchoreds);
      var trash := CollectTrash(after, n);
      FilterSatisfies(IsContentPart, host.anchoreds);
      assert forall j :: 0 <= j < |trash| ==> trash[j] in after;
      outcome := PruneAnchored(trash, known);
    }

    /** The main loop of synchronizeContentAnchored: addAnchored of each missing part. */
    method AnchoredLoop(contents: seq<Content>, snap: seq<VisualPart>, ghost snapContent: seq<Option<Content>>,
                        table: map<Option<Content>, VisualPart>, ghost pool: set<VisualPart>)
      returns (ghost supply: seq<VisualPart>, ghost known: set<VisualPart>)
      requires |snap| == |snapContent| && forall j :: 0 <= j < |snap| ==> snap[j].content == snapContent[j]
      requires forall p :: p in pool ==> p.viewer == host.viewer
      requires ListedIn(contents, pool)
      requires forall j :: 0 <= j < |host.anchoreds| && IsContentPart(host.anchoreds[j]) ==> host.anchoreds[j] in pool
      modifies host`anchoreds, host.viewer`visualPartMap, host.viewer`log, pool`anchorages
      ensures |supply| == |contents|
      ensures host.anchoreds == ContentSync.AnchoredLoop(old(host.anchoreds), snapContent, table, contents, supply)
      ensures pool <= known && fresh(known - pool) && forall p :: p in known ==> p.viewer == host.viewer
      ensures forall j :: 0 <= j < |host.anchoreds| && IsContentPart(host.anchoreds[j]) ==> host.anchoreds[j] in known
      ensures forall i :: 0 <= i < |contents| ==>
                SuppliedFor(contents[i], supply[i], host.viewer.contentPartMap, known - pool,
                            ContentSync.NeedsAnchored(snapContent, table, contents[i], i))
    {
      ghost var a0 := host.anchoreds;
      ghost var cpm := host.viewer.contentPartMap;
      supply, known := [], pool;
      for i := 0 to |contents|
        invariant |supply| == i
        invariant host.anchoreds == ContentSync.AnchoredLoop(a0, snapContent, table, contents[..i], supply)
        invariant pool <= known && fresh(known - pool) && forall p :: p in known ==> p.viewer == host.viewer
        invariant forall j :: 0 <= j < |host.anchoreds| && IsContentPart(host.anchoreds[j]) ==> host.anchoreds[j] in known
        invariant host.viewer.contentPartMap == cpm
        invariant forall j :: 0 <= j < |snap| ==> snap[j].content == snapContent[j]
        invariant forall j :: 0 <= j < i ==> SuppliedFor(contents[j], supply[j], cpm, known - pool,
                                                          ContentSync.NeedsAnchored(snapContent, table, contents[j], j))
      {
        supply, known := AnchoredRound(contents, i, snap, snapContent, table, a0, supply, cpm, pool, known);
      }
      assert contents[..|contents|] == contents;
    }

    /** A round of the main loop of synchronizeContentAnchored, with the bookkeeping carried from i to i + 1. */
    method AnchoredRound(contents: seq<Content>, i: nat, snap: seq<VisualPart>, ghost snapContent: seq<Option<Content>>,
                         table: map<Option<Content>, VisualPart>, ghost a0: seq<VisualPart>, ghost supply: seq<VisualPart>,
                         ghost cpm: map<Content, VisualPart>, ghost pool: set<VisualPart>, ghost known: set<VisualPart>)
      returns (ghost supply': seq<VisualPart>, ghost known': set<VisualPart>)
      requires i < |contents| && |supply| == i
      requires host.anchoreds == ContentSync.AnchoredLoop(a0, snapContent, table, contents[..i], supply)
      requires |snap| == |snapContent| && forall j :: 0 <= j < |snap| ==> snap[j].content == snapContent[j]
      requires pool <= known && forall p :: p in known ==> p.viewer == host.viewer
      requires host.viewer.contentPartMap == cpm && (contents[i] in cpm ==> cpm[contents[i]] in pool)
      requires forall j :: 0 <= j < |host.anchoreds| && IsContentPart(host.anchoreds[j]) ==> host.anchoreds[j] in known
      requires forall j :: 0 <= j < i ==> SuppliedFor(contents[j], supply[j], cpm, known - pool,
                                                        ContentSync.NeedsAnchored(snapContent, table, contents[j], j))
      modifies host`anchoreds, host.viewer`visualPartMap, host.viewer`log, known`anchorages
      ensures |supply'| == i + 1
      ensures host.anchoreds == ContentSync.AnchoredLoop(a0, snapContent, table, contents[..i + 1], supply')
      ensures known <= known' && fresh(known' - known) && forall p :: p in known' ==> p.viewer == host.viewer
      ensures forall j :: 0 <= j < |host.anchoreds| && IsContentPart(host.anchoreds[j]) ==> host.anchoreds[j] in known'
      ensures forall j :: 0 <= j < i + 1 ==> SuppliedFor(contents[j], supply'[j], cpm, known' - pool,
                                                          ContentSync.NeedsAnchored(snapContent, table, contents[j], j))
    {
      var model := contents[i];
      ghost var part := host;
      known' := known;
      if i < |snap| && snap[i].content == Some(model) {
      } else if Some(model) in table {
        // the part is kept where it is
      } else {
        var created := FindOrCreatePartFor(model);
        part := created;
        known' := known + {created};
        host.AddAnchored(created);
      }
      assert contents[..i + 1][..i] == contents[..i] && (supply + [part])[..i] == supply;
      supply' := supply + [part];
      forall j | 0 <= j < i
        ensures SuppliedFor(contents[j], supply'[j], cpm, known' - pool,
                            ContentSync.NeedsAnchored(snapContent, table, contents[j], j))
      {
        assert SuppliedFor(contents[j], supply[j], cpm, known - pool,
                           ContentSync.NeedsAnchored(snapContent, table, contents[j], j));
      }
    }

    /** The removal loop of synchronizeContentAnchored: removeAnchored, then disposeIfObsolete, of each trash part. */
    method PruneAnchored(trash: seq<VisualPart>, ghost known: set<VisualPart>) returns (outcome: Outcome)
      requires forall p :: p in known ==> p.viewer == host.viewer
      requires forall j :: 0 <= j < |trash| ==> trash[j] in known
      modifies host`anchoreds, host.viewer`visualPartMap, host.viewer`log, known`anchorages, known`content
      ensures outcome.Pass? ==> host.anchoreds == ContentSync.RemoveEach(old(host.anchoreds), trash)
      ensures outcome.Fail? ==> outcome.error == IllegalArgument || outcome.error == NullPointer
      ensures outcome.Pass? ==> forall j :: 0 <= j < |trash| ==>
                trash[j].content == if trash[j].parent == null && trash[j].anchorages == [] then None else old(trash[j].content)
      ensures forall p :: p in known ==> p.content == old(p.content) || p.content == None
    {
      ghost var a0 := host.anchoreds;
      ghost var content0 := map p | p in known :: p.content;
      outcome := Pass;
      for k := 0 to |trash|
        invariant outcome.Pass?
        invariant ContentSync.RemoveEach(host.anchoreds, trash[k..]) == ContentSync.RemoveEach(a0, trash)
        invariant forall j :: 0 <= j < k ==>
                    trash[j].content == if trash[j].parent == null && trash[j].anchorages == [] then None else content0[trash[j]]
        invariant forall p :: p in known && p !in trash[..k] ==> p.content == content0[p]
      {
        outcome := UnanchorRound(trash, k, known, a0, content0);
        if outcome.Fail? {
          return;
        }
      }
      assert trash[..|trash|] == trash;
    }

    /** A round of the removal loop, with the loop's bookkeeping carried from k to k + 1. */
    method UnanchorRound(trash: seq<VisualPart>, k: nat, ghost known: set<VisualPart>, ghost a0: seq<VisualPart>,
                         ghost content0: map<VisualPart, Option<Content>>) returns (outcome: Outcome)
      requires k < |trash| && forall j :: 0 <= j < |trash| ==> trash[j] in known
      requires forall p :: p in known ==> p.viewer == host.viewer
      requires known <= content0.Keys
      requires ContentSync.RemoveEach(host.anchoreds, trash[k..]) == ContentSync.RemoveEach(a0, trash)
      requires forall j :: 0 <= j < k ==>
                 trash[j].content == if trash[j].parent == null && trash[j].anchorages == [] then None else content0[trash[j]]
      requires forall p :: p in known && p !in trash[..k] ==> p.content == content0[p]
      modifies host`anchoreds, host.viewer`visualPartMap, host.viewer`log, {trash[k]}`anchorages, {trash[k]}`content
      ensures outcome.Fail? ==> outcome.error == IllegalArgument || outcome.error == NullPointer
      ensures outcome.Pass? ==> ContentSync.RemoveEach(host.anchoreds, trash[k + 1..]) == ContentSync.RemoveEach(a0, trash)
      ensures outcome.Pass? ==> forall j :: 0 <= j < k + 1 ==>
                trash[j].content == if trash[j].parent == null && trash[j].anchorages == [] then None else content0[trash[j]]
      ensures outcome.Pass? ==> forall p :: p in known && p !in trash[..k + 1] ==> p.content == content0[p]
      ensures outcome.Fail? ==> forall p :: p in known ==> p.content == content0[p] || p.content == None
    {
      var part := trash[k];
      assert trash[..k + 1] == trash[..k] + [part];
      outcome := UnanchorOne(part);
      assert trash[k..] == [part] + trash[k + 1..];
    }

    /** removeAnchored of one trash part, then disposeIfObsolete of it when that did not throw. */
    method UnanchorOne(part: VisualPart) returns (outcome: Outcome)
      requires part.viewer == host.viewer
      modifies host`anchoreds, host.viewer`visualPartMap, host.viewer`log, part`anchorages, part`content
      ensures outcome.Pass? ==> host.anchoreds == RemoveFirst(old(host.anchoreds), part)
      ensures outcome.Pass? ==> host in old(part.anchorages)
      ensures outcome.Fail? ==> outcome.error == IllegalArgument || outcome.error == NullPointer
      ensures part.content == if outcome.Pass? && part.parent == null && part.anchorages == [] then None else old(part.content)
    {
      outcome := host.RemoveAnchored(part);
      if outcome.Pass? {
        DisposeIfObsolete(part);
      }
    }
  }

  /**
   * The part added for model: the viewer's part for it when there is one,
   * else one of the created parts, carrying model.
   */
  ghost predicate Supplied(model: Content, part: VisualPart, partMap: map<Content, VisualPart>, created: set<VisualPart>)
    reads part`content
  {
    (model in partMap ==> part == partMap[model]) &&
    (model !in partMap ==> part in created && part.kind == ContentPart && part.content == Some(model))
  }

  /** The parts the snapshot table maps to are content children of the host, hence in the pool. */
  lemma TableInPool(cs: seq<VisualPart>, snap: seq<VisualPart>, pool: set<VisualPart>)
    requires ContentChildrenIn(cs, pool) && snap == Filter(IsContentPart, cs)
    ensures forall k :: k in ContentSync.Table(snap, ContentList(snap)) ==> ContentSync.Table(snap, ContentList(snap))[k] in pool
  {
    FilterSatisfies(IsContentPart, cs);
    forall k | k in ContentSync.Table(snap, ContentList(snap))
      ensures ContentSync.Table(snap, ContentList(snap))[k] in pool
    {
      ContentSync.TableValues(snap, ContentList(snap), k);
    }
  }

  /** Every content part in ps is one of known. */
  ghost predicate ContentChildrenIn(ps: seq<VisualPart>, known: set<VisualPart>)
  {
    forall j :: 0 <= j < |ps| && IsContentPart(ps[j]) ==> ps[j] in known
  }

  lemma ContentChildrenMove(ps: seq<VisualPart>, x: VisualPart, i: int, known: set<VisualPart>)
    requires ContentChildrenIn(ps, known) && x in known
    ensures ContentChildrenIn(RemoveFirst(ps, x), known)
    ensures 0 <= i <= |RemoveFirst(ps, x)| ==> ContentChildrenIn(InsertAt(RemoveFirst(ps, x), i, x), known)
  {
    var r := RemoveFirst(ps, x);
    forall j | 0 <= j < |r| ensures r[j] in ps {
      RemoveFirstSubset(ps, x, r[j]);
    }
    if 0 <= i <= |r| {
      ContentChildrenInsert(r, i, x, known);
    }
  }

  lemma ContentChildrenInsert(ps: seq<VisualPart>, i: int, x: VisualPart, known: set<VisualPart>)
    requires ContentChildrenIn(ps, known) && x in known && 0 <= i <= |ps|
    ensures ContentChildrenIn(InsertAt(ps, i, x), known)
  {
    var r := InsertAt(ps, i, x);
    assert forall j :: 0 <= j < |r| ==> r[j] == if j < i then ps[j] else if j == i then x else ps[j - 1];
  }
}
