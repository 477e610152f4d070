# GEF4 MVC core in Dafny

This project models the core of the Eclipse GEF4 MVC framework and a few
neighbouring classes, and proves properties of the model.

- **Visual parts.** `AbstractVisualPart` is the tree of visual parts. It covers:
  - children, with insert, remove and reorder;
  - activation, which cascades through adapters and children;
  - adapters keyed by class;
  - anchorages and anchoreds;
  - registration in the viewer's visual-part map.
- **ContentBehavior.** This behavior keeps a part's children and anchoreds in line with its content model.
- **FXBendConnectionOperation.** This operation bends a connection: it tracks the explicit anchors, computes connection indices and hints anchor positions, and can execute, undo and redo.
- **AbstractBehavior.** The behavior lifecycle, with its handle and feedback bookkeeping.
- **AdapterKey.** Adapter keys: the factories, equality, hashing and the string form.
- **FXRootPart.** The root part: its layers, the layer index a child's visual goes to, and the registration of its visuals.
- **FXStaticAnchor.** A static anchor.
- **AbstractHoverTool.** The hover tool.
- **SelectionForwarder.** Forwards selections between the workbench and the viewer.
- **DotHtmlLabelJavaValidator.** The Graphviz HTML-label validator.
- **Graph Node.** The `Node` of the graph model, together with its builder.
- **AbstractFXGeometricElement.** The geometric element of the MVC FX example model.

Objects that the source updates in place are classes. Parts, behaviors, models, the root part, the bend operation and its connection and router, anchors, nodes and geometric elements are all classes. Their methods carry `modifies` clauses, and their contracts state the new state.

The pure parts of the model are datatypes, functions and lemmas. These are:
- the synchronisation rule of ContentBehavior;
- the anchor filtering and hinting of the bend operation;
- the label validator;
- adapter keys.

Loops in the source are loops in the model, proved against those functions.

Code the model cannot see becomes a parameter or an opaque type:
- JavaFX nodes, the content-part factory and `TypeToken`;
- `hashCode` and `toString` of foreign objects;
- the tables of `DotHtmlLabelHelper`.

Toolkit hooks and property-change events are recorded in ghost logs.

Modules:
- `common.dfy`:
  - `Wrappers` holds Option, Result and Outcome, and the Java exceptions;
  - `Lists` holds `java.util.List` operations on sequences;
  - `JavaInts` holds int arithmetic and `String.hashCode`.
- `behavior.dfy`: `Behaviors`, which covers adapters and AbstractBehavior.
- `adapter_key.dfy`: `AdapterKeys`.
- `visual_part.dfy`: `Parts`, the viewer and AbstractVisualPart.
- `content_sync.dfy`: `ContentSync`, the pure synchronisation rule and the corrected variants.
- `content_behavior.dfy`: `ContentBehaviors`.
- `bend_operation.dfy`: `BendOperations`.
- `static_anchor.dfy`: `Anchors`.
- `root_part.dfy`: `RootParts`.
- `hover_tool.dfy`: `HoverTools`.
- `selection_forwarder.dfy`: `SelectionForwarding`.
- `dot_html_label_validator.dfy`: `DotHtmlLabelValidation`.
- `graph_node.dfy`: `GraphNodes`.
- `geometric_element.dfy`: `GeometricElements`.

## Model

| member | source | states |
|---|---|---|
| AdapterKeys.GetForToken | org.eclipse.gef4.common/src/org/eclipse/gef4/common/adapt/AdapterKey.java:107-115 | a null key, then a null role, is rejected with NullPointerException; otherwise the key holds exactly the given token and role |
| AdapterKeys.GetForClass | org.eclipse.gef4.common/src/org/eclipse/gef4/common/adapt/AdapterKey.java:84-92 | the same checks, with the class turned into its TypeToken |
| AdapterKeys.GetDefaultForToken | org.eclipse.gef4.common/src/org/eclipse/gef4/common/adapt/AdapterKey.java:147-149 | a key for a token carries the default role; a null token is rejected |
| AdapterKeys.GetDefaultForClass | org.eclipse.gef4.common/src/org/eclipse/gef4/common/adapt/AdapterKey.java:130-132 | a key for a class carries the default role; a null class is rejected |
| AdapterKeys.GetKey | org.eclipse.gef4.common/src/org/eclipse/gef4/common/adapt/AdapterKey.java:58-60 | the token read back, with the key's role, rebuilds the same key through get(TypeToken, String) |
| AdapterKeys.GetRole | org.eclipse.gef4.common/src/org/eclipse/gef4/common/adapt/AdapterKey.java:67-69 | the role read back, with the key's token, rebuilds the same key through get(TypeToken, String) |
| AdapterKeys.FactoryRoundTrip | org.eclipse.gef4.common/src/org/eclipse/gef4/common/adapt/AdapterKey.java:58-69 | getKey and getRole read back what the factories were given |
| AdapterKeys.Equals | org.eclipse.gef4.common/src/org/eclipse/gef4/common/adapt/AdapterKey.java:152-161 | equal exactly when the other object is a key with the same token and role; never equal to null |
| AdapterKeys.EqualsIsAnEquivalence | org.eclipse.gef4.common/src/org/eclipse/gef4/common/adapt/AdapterKey.java:152-161 | equals is reflexive, symmetric and transitive |
| AdapterKeys.HashCode | org.eclipse.gef4.common/src/org/eclipse/gef4/common/adapt/AdapterKey.java:164-170 | the hash is 31 * (31 + hash(token)) + hash(role), computed in int arithmetic with wrap-around |
| AdapterKeys.EqualKeysHashEqually | org.eclipse.gef4.common/src/org/eclipse/gef4/common/adapt/AdapterKey.java:152-170 | equal keys have equal hash codes |
| AdapterKeys.ToString | org.eclipse.gef4.common/src/org/eclipse/gef4/common/adapt/AdapterKey.java:173-175 | the string form starts with "AdapterKey(", ends with ")", and is as long as the token and role with their frame |
| AdapterKeys.ToStringDistinguishesRoles | org.eclipse.gef4.common/src/org/eclipse/gef4/common/adapt/AdapterKey.java:173-175 | two keys whose tokens render alike have the same string form only if their roles agree |
| Behaviors.Adapter.Behavior | org.eclipse.gef4.mvc/src/org/eclipse/gef4/mvc/behaviors/AbstractBehavior.java:30-35 | a new behavior is inactive, with no host and no handle or feedback parts |
| Behaviors.Adapter.Activate | org.eclipse.gef4.mvc/src/org/eclipse/gef4/mvc/behaviors/AbstractBehavior.java:37-39 | activate sets the active flag and changes nothing else |
| Behaviors.Adapter.Deactivate | org.eclipse.gef4.mvc/src/org/eclipse/gef4/mvc/behaviors/AbstractBehavior.java:41-43 | deactivate clears the active flag and changes nothing else |
| Behaviors.Adapter.SetAdaptable | org.eclipse.gef4.mvc/src/org/eclipse/gef4/mvc/behaviors/AbstractBehavior.java:51-53 | setAdaptable sets the host |
| Behaviors.Adapter.SetHost | org.eclipse.gef4.mvc/src/org/eclipse/gef4/mvc/behaviors/AbstractBehavior.java:55-57 | setHost sets the host and nothing else |
| Behaviors.Adapter.AddHandles | org.eclipse.gef4.mvc/src/org/eclipse/gef4/mvc/behaviors/AbstractBehavior.java:68-72 | the created handle parts become the handle list; without a host getRoot throws NullPointerException, otherwise the parts are added as anchoreds of the anchorages |
| Behaviors.Adapter.RemoveHandles | org.eclipse.gef4.mvc/src/org/eclipse/gef4/mvc/behaviors/AbstractBehavior.java:74-80 | with no stored handles nothing changes; otherwise they are removed and the list is cleared |
| Behaviors.Adapter.AddFeedback | org.eclipse.gef4.mvc/src/org/eclipse/gef4/mvc/behaviors/AbstractBehavior.java:82-86 | the rule of addHandles, for feedback parts |
| Behaviors.Adapter.RemoveFeedback | org.eclipse.gef4.mvc/src/org/eclipse/gef4/mvc/behaviors/AbstractBehavior.java:88-94 | the rule of removeHandles, for feedback parts |
| Parts.VisualPart.constructor | org.eclipse.gef4.mvc/src/org/eclipse/gef4/mvc/parts/AbstractVisualPart.java:50-62 | a new part has no parent, children, anchorages, anchoreds or adapters, is inactive, and is a valid tree of one node |
| Parts.VisualPart.Activate | org.eclipse.gef4.mvc/src/org/eclipse/gef4/mvc/parts/AbstractVisualPart.java:74-88 | the log gains exactly the activation order: this part, then each child's subtree in order; a part ends active exactly when it was active or is named in that order; the activatable adapters of every part named end active, no active adapter is deactivated, and an adapter that becomes active is an activatable adapter of a part named |
| Parts.VisualPart.ActivateAdapters | org.eclipse.gef4.mvc/src/org/eclipse/gef4/mvc/parts/AbstractVisualPart.java:77-83 | every activatable adapter of the part is activated, whatever order the map yields |
| Parts.VisualPart.Deactivate | org.eclipse.gef4.mvc/src/org/eclipse/gef4/mvc/parts/AbstractVisualPart.java:159-173 | the log gains exactly the deactivation order: each child's subtree in order, then this part; a part ends active exactly when it was active and is not named in that order; the activatable adapters of every part named end inactive, no inactive adapter is activated, and an adapter that becomes inactive is an activatable adapter of a part named |
| Parts.VisualPart.DeactivateAdapters | org.eclipse.gef4.mvc/src/org/eclipse/gef4/mvc/parts/AbstractVisualPart.java:164-170 | every activatable adapter of the part is deactivated |
| Parts.VisualPart.ActivationParts | org.eclipse.gef4.mvc/src/org/eclipse/gef4/mvc/parts/AbstractVisualPart.java:74-88 | the activation log of a subtree names only parts of that subtree, this part first |
| Parts.VisualPart.DeactivationParts | org.eclipse.gef4.mvc/src/org/eclipse/gef4/mvc/parts/AbstractVisualPart.java:159-173 | the deactivation log of a subtree names only parts of that subtree, this part last |
| Parts.VisualPart.AddChild | org.eclipse.gef4.mvc/src/org/eclipse/gef4/mvc/parts/AbstractVisualPart.java:95-106 | a null child fails the assertion; an index past the list throws IndexOutOfBounds and changes nothing; otherwise the child is inserted at index with the others in order, its parent is this part (registering it), its visual is added and refreshed, and its subtree is activated when this part is active; the tree stays valid |
| Parts.VisualPart.AddChildAtEnd | org.eclipse.gef4.mvc/src/org/eclipse/gef4/mvc/parts/AbstractVisualPart.java:91-93 | addChild(child) appends, at index getChildren().size() |
| Parts.VisualPart.AddChildWithoutNotify | org.eclipse.gef4.mvc/src/org/eclipse/gef4/mvc/parts/AbstractVisualPart.java:136-140 | List.add(index, child): the child sits at index and the others keep their order |
| Parts.VisualPart.RemoveChild | org.eclipse.gef4.mvc/src/org/eclipse/gef4/mvc/parts/AbstractVisualPart.java:258-269 | a null child fails the assertion; a part that is not a child changes nothing; otherwise the child's subtree is deactivated when this part is active, its parent becomes null (unregistering it), its visual is removed, and the first occurrence is removed with the others in order; the tree stays valid |
| Parts.VisualPart.RemoveChildWithoutNotify | org.eclipse.gef4.mvc/src/org/eclipse/gef4/mvc/parts/AbstractVisualPart.java:279-284 | List.remove(child): the first occurrence goes and nothing else |
| Parts.VisualPart.ReorderChild | org.eclipse.gef4.mvc/src/org/eclipse/gef4/mvc/parts/AbstractVisualPart.java:314-319 | remove, then insert at index: the same children as a multiset with the child at index; an index past the shortened list throws IndexOutOfBounds, and no children throws NullPointerException |
| Parts.VisualPart.MoveChildWithoutNotify | org.eclipse.gef4.mvc/src/org/eclipse/gef4/mvc/parts/AbstractVisualPart.java:314-319 | remove, then insert at index |
| Parts.VisualPart.GetAdapter | org.eclipse.gef4.mvc/src/org/eclipse/gef4/mvc/parts/AbstractVisualPart.java:197-202 | the adapter stored under the key when the map has the key, else null; a non-null answer is one of the part's own adapters |
| Parts.VisualPart.SetAdapter | org.eclipse.gef4.mvc/src/org/eclipse/gef4/mvc/parts/AbstractVisualPart.java:214-225 | the adapter replaces any adapter under the same key, a bound adapter gets this part as its host, and it is activated exactly when this part is active |
| Parts.VisualPart.SetAdapterByClass | org.eclipse.gef4.mvc/src/org/eclipse/gef4/mvc/parts/AbstractVisualPart.java:229-232 | setAdapter(adapter) keys the adapter by its class; null throws NullPointerException |
| Parts.VisualPart.UnsetAdapter | org.eclipse.gef4.mvc/src/org/eclipse/gef4/mvc/parts/AbstractVisualPart.java:288-303 | an absent key changes nothing; otherwise the adapter is deactivated, loses its host, and is removed |
| Parts.VisualPart.GetRoot | org.eclipse.gef4.mvc/src/org/eclipse/gef4/mvc/parts/AbstractVisualPart.java:142-150 | any root found is a root part; a part that is not a root and has neither parent nor anchorage answers null |
| Parts.VisualPart.GetRootFollowsLinks | org.eclipse.gef4.mvc/src/org/eclipse/gef4/mvc/parts/AbstractVisualPart.java:142-150 | a part that is not a root answers its parent's root when it has a parent, and otherwise the root of its first anchorage |
| Parts.VisualPart.GetRootMoreFuel | org.eclipse.gef4.mvc/src/org/eclipse/gef4/mvc/parts/AbstractVisualPart.java:142-150 | once getRoot has an answer, following the links further gives the same answer |
| Parts.VisualPart.Register | org.eclipse.gef4.mvc/src/org/eclipse/gef4/mvc/parts/AbstractVisualPart.java:339-341 | register() goes through registerAtVisualPartMap: the part's visual maps to the part in the viewer's visual-part map |
| Parts.VisualPart.Unregister | org.eclipse.gef4.mvc/src/org/eclipse/gef4/mvc/parts/AbstractVisualPart.java:343-345 | unregister() goes through unregisterFromVisualPartMap: the part's visual is removed from the map |
| Parts.VisualPart.SetParent | org.eclipse.gef4.mvc/src/org/eclipse/gef4/mvc/parts/AbstractVisualPart.java:350-371 | the parent is set; the part is registered or unregistered so that it stays registered exactly while it has a parent or an anchorage; a property event is logged unless the parent stays the same |
| Parts.VisualPart.AddAnchorage | org.eclipse.gef4.mvc/src/org/eclipse/gef4/mvc/parts/AbstractVisualPart.java:442-459 | null is rejected; the anchorage is appended; the part registers when this is its first link, so registration stays in line with linkage |
| Parts.VisualPart.RemoveAnchorage | org.eclipse.gef4.mvc/src/org/eclipse/gef4/mvc/parts/AbstractVisualPart.java:470-487 | null and an absent anchorage are rejected; the anchorage is removed, and the part unregisters when it was the last link |
| Parts.VisualPart.AddAnchored | org.eclipse.gef4.mvc/src/org/eclipse/gef4/mvc/parts/AbstractVisualPart.java:388-398 | the anchored part is appended, gets this part as an anchorage, and its visual is attached and refreshed |
| Parts.VisualPart.RemoveAnchored | org.eclipse.gef4.mvc/src/org/eclipse/gef4/mvc/parts/AbstractVisualPart.java:419-427 | a part not anchored here is rejected with IllegalArgumentException and nothing changes; otherwise it loses this anchorage (unregistering when that was its last link), its visual is detached, and it leaves the anchoreds |
| ContentSync.KnownContentIsMoved | org.eclipse.gef4.mvc/src/org/eclipse/gef4/mvc/behaviors/ContentBehavior.java:97-117 | an object carried by a snapshot part is never handed to findOrCreatePartFor: it is skipped or its part (the last one carrying it) is reordered |
| ContentSync.ApplyChildPlaces | org.eclipse.gef4.mvc/src/org/eclipse/gef4/mvc/behaviors/ContentBehavior.java:106-117 | a reorder leaves the same parts with the moved part at i; an insertion puts the created part at i; the exceptions are those of reorderChild and addChild |
| ContentSync.LoopFailureSticks | org.eclipse.gef4.mvc/src/org/eclipse/gef4/mvc/behaviors/ContentBehavior.java:97-118 | the first exception ends the loop and is the result of the whole synchronisation |
| ContentSync.LoopKeepsParts | org.eclipse.gef4.mvc/src/org/eclipse/gef4/mvc/behaviors/ContentBehavior.java:97-118 | a completed loop leaves the old children plus the created parts, as a multiset |
| ContentSync.RemoveEachMultiset | org.eclipse.gef4.mvc/src/org/eclipse/gef4/mvc/behaviors/ContentBehavior.java:129-133 | removing each trash entry in turn takes away exactly the trash |
| ContentSync.PruneRemovesTrailingContent | org.eclipse.gef4.mvc/src/org/eclipse/gef4/mvc/behaviors/ContentBehavior.java:120-134 | the pruning removes the content parts from position n on and nothing else |
| ContentSync.SyncKeepsOtherChildren | org.eclipse.gef4.mvc/src/org/eclipse/gef4/mvc/behaviors/ContentBehavior.java:77-135 | children that are not content parts keep exactly their occurrences |
| ContentSync.InSyncChangesNothing | org.eclipse.gef4.mvc/src/org/eclipse/gef4/mvc/behaviors/ContentBehavior.java:77-135 | when the content-part children already carry the objects in order, nothing changes |
| ContentSync.AnchoredOnlyAppends | org.eclipse.gef4.mvc/src/org/eclipse/gef4/mvc/behaviors/ContentBehavior.java:175-197 | the anchored loop never reorders: the old anchoreds stay a prefix, and each appended part was made for an object no snapshot part carries |
| ContentSync.AnchoredInSyncChangesNothing | org.eclipse.gef4.mvc/src/org/eclipse/gef4/mvc/behaviors/ContentBehavior.java:158-214 | anchoreds that already carry the objects in order stay as they are |
| ContentSync.StaleQuickCheckKeepsWrongPart | org.eclipse.gef4.mvc/src/org/eclipse/gef4/mvc/behaviors/ContentBehavior.java:101-111 | as written: children carrying [A, B, C], synchronised to [C, B], end carrying [C, A] |
| ContentSync.SyncChildrenLiveConverges | org.eclipse.gef4.mvc/src/org/eclipse/gef4/mvc/behaviors/ContentBehavior.java:77-135 | with the quick check on the live children, the content-part children end carrying exactly the given objects, in order |
| ContentSync.AnchoredAppendThenPrune | org.eclipse.gef4.mvc/src/org/eclipse/gef4/mvc/behaviors/ContentBehavior.java:175-213 | as written: one anchored carrying A, synchronised to [B], keeps A's part and removes the new part for B |
| ContentSync.SyncAnchoredByContentExact | org.eclipse.gef4.mvc/src/org/eclipse/gef4/mvc/behaviors/ContentBehavior.java:158-214 | pruning by content: every given object is carried by a content anchored, and every content anchored carries a given object |
| ContentBehaviors.ContentBehavior.FindOrCreatePartFor | org.eclipse.gef4.mvc/src/org/eclipse/gef4/mvc/behaviors/ContentBehavior.java:137-150 | the viewer's part for the object, else a new part from the factory that carries the object |
| ContentBehaviors.ContentBehavior.DisposeIfObsolete | org.eclipse.gef4.mvc/src/org/eclipse/gef4/mvc/behaviors/ContentBehavior.java:216-221 | a part with neither parent nor anchorage loses its content; any other part is unchanged |
| ContentBehaviors.ContentBehavior.BuildTable | org.eclipse.gef4.mvc/src/org/eclipse/gef4/mvc/behaviors/ContentBehavior.java:84-94 | the loop builds the content-to-part table of the snapshot, later parts winning |
| ContentBehaviors.ContentBehavior.SynchronizeContentChildren | org.eclipse.gef4.mvc/src/org/eclipse/gef4/mvc/behaviors/ContentBehavior.java:77-135 | the host's children become the pure synchronisation result (or its exception); on success each object whose decision is an insertion was given the viewer's part for it when the map has one, else a fresh content part carrying it (or nothing, once the removal loop disposed of it), and every other object added no part |
| ContentBehaviors.ContentBehavior.SynchronizeContentAnchored | org.eclipse.gef4.mvc/src/org/eclipse/gef4/mvc/behaviors/ContentBehavior.java:158-214 | the host's anchoreds become the pure anchored synchronisation result when no removeAnchored throws; each object that needs appending was given the viewer's part for it when the map has one, else a fresh content part carrying it (or nothing, once disposed of), and every other object added no part |
| ContentBehaviors.ContentBehavior.PropertyChange | org.eclipse.gef4.mvc/src/org/eclipse/gef4/mvc/behaviors/ContentBehavior.java:59-69 | a contents change synchronises the children; a content change of a content-part host synchronises children, then anchoreds; another host kind throws ClassCastException; other properties change nothing; the part given to each object by either pass is stated as for the two synchronisations |
| BendOperations.Explicit | org.eclipse.gef4.mvc.fx/src/org/eclipse/gef4/mvc/fx/operations/FXBendConnectionOperation.java:188-198 | onlyExplicit keeps as many anchors as are explicit, never more than it was given |
| BendOperations.ExplicitKeepsExactlyExplicit | org.eclipse.gef4.mvc.fx/src/org/eclipse/gef4/mvc/fx/operations/FXBendConnectionOperation.java:188-198 | an anchor is kept exactly when it is in the list and explicit, with every copy |
| BendOperations.ExplicitIdempotent | org.eclipse.gef4.mvc.fx/src/org/eclipse/gef4/mvc/fx/operations/FXBendConnectionOperation.java:188-198 | filtering twice is filtering once |
| BendOperations.OnlyExplicit | org.eclipse.gef4.mvc.fx/src/org/eclipse/gef4/mvc/fx/operations/FXBendConnectionOperation.java:188-198 | the copy-then-remove loop yields exactly the explicit anchors |
| BendOperations.IndexFrom | org.eclipse.gef4.mvc.fx/src/org/eclipse/gef4/mvc/fx/operations/FXBendConnectionOperation.java:95-112 | the scan succeeds at the first position where the explicit count reaches k + 1, and otherwise ends in IllegalArgumentException |
| BendOperations.ConnectionIndexLocatesExplicit | org.eclipse.gef4.mvc.fx/src/org/eclipse/gef4/mvc/fx/operations/FXBendConnectionOperation.java:95-112 | getConnectionIndex(k) succeeds exactly when k is below the number of explicit anchors, and then names the position of the k-th explicit anchor |
| BendOperations.EndHintIntendedUsesLastExplicit | org.eclipse.gef4.mvc.fx/src/org/eclipse/gef4/mvc/fx/operations/FXBendConnectionOperation.java:159-175 | corrected: the end key gets the point of the last explicit anchor before the end anchor, or no hint when all before it are implicit |
| BendOperations.EndHintAgreesWithoutImplicit | org.eclipse.gef4.mvc.fx/src/org/eclipse/gef4/mvc/fx/operations/FXBendConnectionOperation.java:159-175 | with no implicit anchor, the end hint as written is the intended one |
| BendOperations.EndHintAsWrittenUsesImplicit | org.eclipse.gef4.mvc.fx/src/org/eclipse/gef4/mvc/fx/operations/FXBendConnectionOperation.java:165-166 | as written: for anchors [0, 1, 2, 3] with 1 implicit, the end hint takes the point of the implicit anchor 1 instead of 2 |
| BendOperations.AppliedReachesTarget | org.eclipse.gef4.mvc.fx/src/org/eclipse/gef4/mvc/fx/operations/FXBendConnectionOperation.java:62-66 | after execute (and, the same way, undo) installs an explicit-only list, the connection's explicit anchors are that list |
| BendOperations.BendConnectionOperation.constructor | org.eclipse.gef4.mvc.fx/src/org/eclipse/gef4/mvc/fx/operations/FXBendConnectionOperation.java:52-58 | both lists start as the connection's explicit anchors, so a new operation is a no-op |
| BendOperations.BendConnectionOperation.IsNoOp | org.eclipse.gef4.mvc.fx/src/org/eclipse/gef4/mvc/fx/operations/FXBendConnectionOperation.java:184-186 | a no-op exactly when the two lists agree element by element |
| BendOperations.BendConnectionOperation.IsContentRelevant | org.eclipse.gef4.mvc.fx/src/org/eclipse/gef4/mvc/fx/operations/FXBendConnectionOperation.java:179-181 | a bend is always content relevant |
| BendOperations.BendConnectionOperation.SetNewAnchors | org.eclipse.gef4.mvc.fx/src/org/eclipse/gef4/mvc/fx/operations/FXBendConnectionOperation.java:214-217 | the target becomes the explicit anchors of the argument |
| BendOperations.BendConnectionOperation.GetConnectionIndex | org.eclipse.gef4.mvc.fx/src/org/eclipse/gef4/mvc/fx/operations/FXBendConnectionOperation.java:95-112 | the counting loop computes the connection index |
| BendOperations.BendConnectionOperation.HintStart | org.eclipse.gef4.mvc.fx/src/org/eclipse/gef4/mvc/fx/operations/FXBendConnectionOperation.java:143-158 | the start key gets the point of the first explicit anchor after a dynamic start anchor; no explicit anchor throws IndexOutOfBounds |
| BendOperations.BendConnectionOperation.HintEnd | org.eclipse.gef4.mvc.fx/src/org/eclipse/gef4/mvc/fx/operations/FXBendConnectionOperation.java:159-175 | the end-hint loop as written: its hints are the end-hint function's |
| BendOperations.BendConnectionOperation.HintAnchorPositions | org.eclipse.gef4.mvc.fx/src/org/eclipse/gef4/mvc/fx/operations/FXBendConnectionOperation.java:140-176 | the start hint, then the end hint, for the current anchors |
| BendOperations.BendConnectionOperation.Execute | org.eclipse.gef4.mvc.fx/src/org/eclipse/gef4/mvc/fx/operations/FXBendConnectionOperation.java:61-74 | the connection's explicit anchors become newAnchors; the hints are set and the connection is routed |
| BendOperations.BendConnectionOperation.Redo | org.eclipse.gef4.mvc.fx/src/org/eclipse/gef4/mvc/fx/operations/FXBendConnectionOperation.java:201-204 | redo is execute |
| BendOperations.BendConnectionOperation.Undo | org.eclipse.gef4.mvc.fx/src/org/eclipse/gef4/mvc/fx/operations/FXBendConnectionOperation.java:225-238 | the connection's explicit anchors become the initial anchors again, whatever execute did |
| Anchors.StaticAnchor.Empty | org.eclipse.gef4.fx/src/org/eclipse/gef4/fx/anchors/FXStaticAnchor.java:29-31 | no anchorage, no attached key, no position |
| Anchors.StaticAnchor.constructor | org.eclipse.gef4.fx/src/org/eclipse/gef4/fx/anchors/FXStaticAnchor.java:33-41 | the key is attached and has the given position |
| Anchors.StaticAnchor.SetPosition | org.eclipse.gef4.fx/src/org/eclipse/gef4/fx/anchors/FXStaticAnchor.java:48-50 | the key reads back the given position; every other key keeps its position |
| Anchors.StaticAnchor.RecomputePositions | org.eclipse.gef4.fx/src/org/eclipse/gef4/fx/anchors/FXStaticAnchor.java:44-46 | nothing changes |
| RootParts.InsertKeepsLayer | org.eclipse.gef4.mvc.fx/src/org/eclipse/gef4/mvc/fx/parts/FXRootPart.java:77-108 | inserting a child at index inserts its visual into its layer after the visuals of the same kind before index |
| RootParts.UnregisterUndoesRegister | org.eclipse.gef4.mvc.fx/src/org/eclipse/gef4/mvc/fx/parts/FXRootPart.java:197-243 | unregistering undoes registering on every key not taken before |
| RootParts.FXRootPart.constructor | org.eclipse.gef4.mvc.fx/src/org/eclipse/gef4/mvc/fx/parts/FXRootPart.java:136-147 | createRootVisual: three empty layers and no viewer |
| RootParts.FXRootPart.LayerIndex | org.eclipse.gef4.mvc.fx/src/org/eclipse/gef4/mvc/fx/parts/FXRootPart.java:79-85 | the counting loop gives the number of children of the kind among the first index children that exist |
| RootParts.FXRootPart.AddChildVisual | org.eclipse.gef4.mvc.fx/src/org/eclipse/gef4/mvc/fx/parts/FXRootPart.java:77-108 | the visual goes into the layer of the child's kind at the counted index (IndexOutOfBounds past the end); the other layers are unchanged; every layer stays in line with the children after a child insertion |
| RootParts.FXRootPart.RemoveChildVisual | org.eclipse.gef4.mvc.fx/src/org/eclipse/gef4/mvc/fx/parts/FXRootPart.java:209-217 | the visual leaves the layer of the child's kind; the others are unchanged |
| RootParts.FXRootPart.RegisterAtVisualPartMap | org.eclipse.gef4.mvc.fx/src/org/eclipse/gef4/mvc/fx/parts/FXRootPart.java:197-206 | the stack pane, each layer and the scroll pane map to the root part |
| RootParts.FXRootPart.UnregisterFromVisualPartMap | org.eclipse.gef4.mvc.fx/src/org/eclipse/gef4/mvc/fx/parts/FXRootPart.java:234-243 | exactly those keys are removed |
| RootParts.FXRootPart.SetViewer | org.eclipse.gef4.mvc.fx/src/org/eclipse/gef4/mvc/fx/parts/FXRootPart.java:220-231 | the old registration goes; a viewer that is not an FX viewer is rejected with IllegalArgumentException; otherwise the viewer is set and the visuals registered with it |
| HoverTools.HoverTool.Hover | org.eclipse.gef4.mvc/src/org/eclipse/gef4/mvc/tools/AbstractHoverTool.java:65-75 | null, or a part whose hover policy allows it, becomes the hover; otherwise the hover is unchanged |
| HoverTools.HoverTool.PropertyChange | org.eclipse.gef4.mvc/src/org/eclipse/gef4/mvc/tools/AbstractHoverTool.java:50-63 | a contents change clears the hover; a selection holding the hovered part clears it; any other event leaves it |
| SelectionForwarding.PartsFor | org.eclipse.gef4.mvc.fx.ui/src/org/eclipse/gef4/mvc/fx/ui/parts/SelectionForwarder.java:94-120 | the parts found are no more than the elements, and each is the mapped part of a selected element |
| SelectionForwarding.PartsForAllMapped | org.eclipse.gef4.mvc.fx.ui/src/org/eclipse/gef4/mvc/fx/ui/parts/SelectionForwarder.java:94-120 | when every element has a part, the parts are the lookups, position by position |
| SelectionForwarding.RoundTrip | org.eclipse.gef4.mvc.fx.ui/src/org/eclipse/gef4/mvc/fx/ui/parts/SelectionForwarder.java:67-120 | forwarding parts to the workbench and back yields the same parts when each is the viewer's part for its content |
| SelectionForwarding.SelectionForwarder.PropertyChange | org.eclipse.gef4.mvc.fx.ui/src/org/eclipse/gef4/mvc/fx/ui/parts/SelectionForwarder.java:67-91 | a selection change puts the contents of the selected parts into the provider (an empty selection for null); no provider throws NullPointerException; other events change nothing |
| SelectionForwarding.SelectionForwarder.LookUpParts | org.eclipse.gef4.mvc.fx.ui/src/org/eclipse/gef4/mvc/fx/ui/parts/SelectionForwarder.java:103-112 | the lookup loop computes the parts for the elements |
| SelectionForwarding.SelectionForwarder.SelectionChanged | org.eclipse.gef4.mvc.fx.ui/src/org/eclipse/gef4/mvc/fx/ui/parts/SelectionForwarder.java:94-120 | an empty structured selection clears the model; otherwise the model selects the found parts only when they differ from its selection; no model throws |
| SelectionForwarding.NewSelectionForwarder | org.eclipse.gef4.mvc.fx.ui/src/org/eclipse/gef4/mvc/fx/ui/parts/SelectionForwarder.java:36-54 | a null viewer is rejected with IllegalArgumentException; otherwise the forwarder holds the provider, viewer and model |
| DotHtmlLabelValidation.TrimEmptyIff | org.eclipse.gef.dot/src/org/eclipse/gef/dot/internal/language/validation/DotHtmlLabelJavaValidator.java:102-103 | text.trim() is empty exactly when every character is at most U+0020 |
| DotHtmlLabelValidation.ParseIntRoundTrip | org.eclipse.gef.dot/src/org/eclipse/gef/dot/internal/language/validation/DotHtmlLabelJavaValidator.java:360-378 | Integer.parseInt reads back every int that %d writes |
| DotHtmlLabelValidation.NumberAcceptsExactlyRange | org.eclipse.gef.dot/src/org/eclipse/gef/dot/internal/language/validation/DotHtmlLabelJavaValidator.java:360-378 | an int written in decimal passes the number check exactly when it lies between minimum and maximum |
| DotHtmlLabelValidation.EnumAcceptsAllowed | org.eclipse.gef.dot/src/org/eclipse/gef/dot/internal/language/validation/DotHtmlLabelJavaValidator.java:345-358 | a value that upper-cases to an allowed value passes; others fail, with "one of " only when several values are allowed |
| DotHtmlLabelValidation.EnumIgnoresCase | org.eclipse.gef.dot/src/org/eclipse/gef/dot/internal/language/validation/DotHtmlLabelJavaValidator.java:345-358 | the enum check ignores the case of the value |
| DotHtmlLabelValidation.SidesIgnoresCase | org.eclipse.gef.dot/src/org/eclipse/gef/dot/internal/language/validation/DotHtmlLabelJavaValidator.java:380-394 | the sides check ignores the case of the value |
| DotHtmlLabelValidation.CheckSides | org.eclipse.gef.dot/src/org/eclipse/gef/dot/internal/language/validation/DotHtmlLabelJavaValidator.java:380-394 | the loop rejects the empty value and any value with a character outside L, T, R, B (upper-cased), and accepts the rest |
| DotHtmlLabelValidation.UncheckedPairsPass | org.eclipse.gef.dot/src/org/eclipse/gef/dot/internal/language/validation/DotHtmlLabelJavaValidator.java:235-343 | values of attributes of tags other than BR, IMG, TABLE and TD are never rejected |
| DotHtmlLabelValidation.TableBorderRange | org.eclipse.gef.dot/src/org/eclipse/gef/dot/internal/language/validation/DotHtmlLabelJavaValidator.java:259-266 | TABLE BORDER accepts 255 and rejects 256, whatever the case of the names |
| DotHtmlLabelValidation.CellSpanRange | org.eclipse.gef.dot/src/org/eclipse/gef/dot/internal/language/validation/DotHtmlLabelJavaValidator.java:299-320 | TD COLSPAN rejects 0 and accepts 1 |
| DotHtmlLabelValidation.RemoveDoubleQuotesStrips | org.eclipse.gef.dot/src/org/eclipse/gef/dot/internal/language/validation/DotHtmlLabelJavaValidator.java:214-222 | at most one character goes from each end; a value without quotes at its ends is kept; a quoted value loses exactly its quotes |
| DotHtmlLabelValidation.TagClosedIgnoresCase | org.eclipse.gef.dot/src/org/eclipse/gef/dot/internal/language/validation/DotHtmlLabelJavaValidator.java:50-59 | a tag without a close name, such as a self-closing tag, throws NullPointerException; otherwise at most one error, reported exactly when the close name differs from the name ignoring case |
| DotHtmlLabelValidation.SelfClosingRule | org.eclipse.gef.dot/src/org/eclipse/gef/dot/internal/language/validation/DotHtmlLabelJavaValidator.java:69-79 | an error exactly for a self-closing tag whose upper-cased name is listed as not self-closing |
| DotHtmlLabelValidation.CheckStringLiteralIsAllowed | org.eclipse.gef.dot/src/org/eclipse/gef/dot/internal/language/validation/DotHtmlLabelJavaValidator.java:90-111 | the loop over the children reports the errors of the string-literal rule |
| DotHtmlLabelValidation.StringLiteralErrorsCount | org.eclipse.gef.dot/src/org/eclipse/gef/dot/internal/language/validation/DotHtmlLabelJavaValidator.java:90-111 | one error per child with non-blank text, only for BR, HR, IMG, TABLE, TR and VR; whitespace-only text is never reported |
| DotHtmlLabelValidation.TagNameAcceptedIff | org.eclipse.gef.dot/src/org/eclipse/gef/dot/internal/language/validation/DotHtmlLabelJavaValidator.java:122-154 | a tag passes exactly when it is known and allowed inside its parent (the root key without one), ignoring case |
| DotHtmlLabelValidation.AttributeNameIgnoresCase | org.eclipse.gef.dot/src/org/eclipse/gef/dot/internal/language/validation/DotHtmlLabelJavaValidator.java:166-183 | the attribute-name check does not depend on the case of the tag or attribute name |
| DotHtmlLabelValidation.AttributeValueIgnoresQuotes | org.eclipse.gef.dot/src/org/eclipse/gef/dot/internal/language/validation/DotHtmlLabelJavaValidator.java:194-222 | a quoted value is accepted exactly when the bare value passes the rule for its tag and attribute |
| GraphNodes.Builder.Attr | org.eclipse.gef4.graph/src/org/eclipse/gef4/graph/Node.java:22-25 | the value is put under the key, overwriting any earlier one, and the same builder is returned |
| GraphNodes.Builder.AttrByKey | org.eclipse.gef4.graph/src/org/eclipse/gef4/graph/Node.java:27-29 | the same, under the key's string form |
| GraphNodes.Builder.Build | org.eclipse.gef4.graph/src/org/eclipse/gef4/graph/Node.java:31-33 | a new node over the builder's own attribute map, not a copy |
| GraphNodes.Node.constructor | org.eclipse.gef4.graph/src/org/eclipse/gef4/graph/Node.java:40-42 | the node holds the given map and no nested graph |
| GraphNodes.Node.Empty | org.eclipse.gef4.graph/src/org/eclipse/gef4/graph/Node.java:44-46 | a new node has a new, empty attribute map |
| GraphNodes.EqualsIsEquivalence | org.eclipse.gef4.graph/src/org/eclipse/gef4/graph/Node.java:52-60 | equals is reflexive, symmetric and transitive, and false for null and non-nodes |
| GraphNodes.EqualNodesHashEqually | org.eclipse.gef4.graph/src/org/eclipse/gef4/graph/Node.java:52-65 | equal nodes have equal hash codes |
| GraphNodes.BuildThenPut | org.eclipse.gef4.graph/src/org/eclipse/gef4/graph/Node.java:20-42 | a put through the builder after build shows in the built node, and a later put under the same key wins |
| GraphNodes.NestedGraphReadsBack | org.eclipse.gef4.graph/src/org/eclipse/gef4/graph/Node.java:72-78 | a new node has no nested graph; getNestedGraph reads back the last value set |
| GeometricElements.EventsFor | org.eclipse.gef4.mvc.fx.ui.example/src/org/eclipse/gef4/mvc/fx/ui/example/model/AbstractFXGeometricElement.java:100-110 | a change fires at most one event, and none exactly when the old value is non-null and equal to the new one |
| GeometricElements.FiresExactlyOnChange | org.eclipse.gef4.mvc.fx.ui.example/src/org/eclipse/gef4/mvc/fx/ui/example/model/AbstractFXGeometricElement.java:100-110 | setting an equal non-null value fires nothing; a different value or a change from null fires once |
| GeometricElements.GeometricElement.constructor | org.eclipse.gef4.mvc.fx.ui.example/src/org/eclipse/gef4/mvc/fx/ui/example/model/AbstractFXGeometricElement.java:36-63 | black stroke, width 0.5, no effect or transform, empty anchored lists, and the geometry set with its event |
| GeometricElements.GeometricElement.WithStyle | org.eclipse.gef4.mvc.fx.ui.example/src/org/eclipse/gef4/mvc/fx/ui/example/model/AbstractFXGeometricElement.java:53-59 | the given geometry and style; the transform stays null |
| GeometricElements.GeometricElement.WithTransform | org.eclipse.gef4.mvc.fx.ui.example/src/org/eclipse/gef4/mvc/fx/ui/example/model/AbstractFXGeometricElement.java:44-51 | the given geometry, transform and style; a geometry event, then a transform event |
| GeometricElements.GeometricElement.Anchoreds | org.eclipse.gef4.mvc.fx.ui.example/src/org/eclipse/gef4/mvc/fx/ui/example/model/AbstractFXGeometricElement.java:75-80 | the source anchoreds followed by the target anchoreds, and nothing else |
| GeometricElements.GeometricElement.AddSourceAnchored | org.eclipse.gef4.mvc.fx.ui.example/src/org/eclipse/gef4/mvc/fx/ui/example/model/AbstractFXGeometricElement.java:65-68 | appends to the source list only; in getAnchoreds it lands after the other sources |
| GeometricElements.GeometricElement.AddTargetAnchored | org.eclipse.gef4.mvc.fx.ui.example/src/org/eclipse/gef4/mvc/fx/ui/example/model/AbstractFXGeometricElement.java:70-73 | appends to the target list only, and so to the end of getAnchoreds |
| GeometricElements.GeometricElement.SetGeometry | org.eclipse.gef4.mvc.fx.ui.example/src/org/eclipse/gef4/mvc/fx/ui/example/model/AbstractFXGeometricElement.java:100-104 | stores the geometry and fires a change from the old value to the new one |
| GeometricElements.GeometricElement.SetTransform | org.eclipse.gef4.mvc.fx.ui.example/src/org/eclipse/gef4/mvc/fx/ui/example/model/AbstractFXGeometricElement.java:106-110 | stores the transform and fires a change from the old value to the new one |
| GeometricElements.GeometricElement.SetEffect | org.eclipse.gef4.mvc.fx.ui.example/src/org/eclipse/gef4/mvc/fx/ui/example/model/AbstractFXGeometricElement.java:116-118 | stores the effect, without an event |
| GeometricElements.GeometricElement.SetStroke | org.eclipse.gef4.mvc.fx.ui.example/src/org/eclipse/gef4/mvc/fx/ui/example/model/AbstractFXGeometricElement.java:124-126 | stores the stroke, without an event |
| GeometricElements.GeometricElement.SetStrokeWidth | org.eclipse.gef4.mvc.fx.ui.example/src/org/eclipse/gef4/mvc/fx/ui/example/model/AbstractFXGeometricElement.java:132-134 | stores the stroke width, without an event |

## Left out

- Toolkit code is recorded rather than modelled. The JavaFX visual hooks, the layer panes and the scroll pane are opaque values, and the calls to them go to ghost logs. `router.route`, the `System.out` output of `hintAnchorPositions` and Xtext's `reportRangeBasedError` are treated the same way.
- Property-change listener registration and delivery are not modelled. This covers `addPropertyChangeListener`, `removePropertyChangeListener`, `registerListeners`, `unregisterListeners` and `dispose`. Events that would be fired are kept in ghost logs.
- `addChildren`, `removeChildren`, `addAnchoreds` and `removeAnchoreds` are not modelled. They are plain loops over `addChild` and the other single-item operations.
- `getViewer()` through `getRoot()` is simplified: each part holds its viewer, and tree operations require the child's viewer to be the parent's.
- Parts.VisualPart.GetRoot: it takes a step bound (fuel), because the parent and anchorage links are not proved acyclic outside the footprint.
- Parts.VisualPart.GetRoot: a root part answers itself. This stands for the root part's own `getRoot`; `AbstractRootPart` is not part of this model, and `AbstractVisualPart.getRoot` alone has no such case.
- Parts.VisualPart.AddChild: the empty sequence stands for the null child list here too. In Java, an `addChild` at an index past the end of a part with no children throws after `addChildWithoutNotify` created the list, which leaves a non-null empty list. The model cannot tell that state from "no children"; the ReorderChild line below names the one call where the two differ.
- Parts.VisualPart.ReorderChild: the empty sequence stands for the null child list. In Java, when the only child is reordered to an index past the end, `ArrayList.add` throws after the list was re-created, which leaves a non-null empty list. A later `reorderChild` there succeeds at index 0, where the model reports NullPointerException.
- Parts.VisualPart.AddAnchored: the anchored part is never null. Java's `addAnchored(null)` appends null and then throws NullPointerException at `addAnchorage`; that path is not modelled.
- Behaviors.Adapter.AddHandles: the anchoreds are recorded against the host, not `getHost().getRoot()`, because the adapter does not see the part class. Only a missing host is modelled as the NullPointerException; a host without a root is not.
- Behaviors.Adapter.RemoveHandles: as for AddHandles, the host stands for `getHost().getRoot()`.
- Behaviors.Adapter.AddFeedback: as for AddHandles, the host stands for `getHost().getRoot()`.
- Behaviors.Adapter.RemoveFeedback: as for AddHandles, the host stands for `getHost().getRoot()`.
- AdapterKeys.HashCode: `String.hashCode` is summed over Dafny characters (Unicode scalar values), not UTF-16 code units. The two agree on strings within the Basic Multilingual Plane.
- ContentBehaviors.ContentBehavior.SynchronizeContentChildren: a precondition excludes a listed object that the content-part map sends to the host itself or, while the host is active, to one of the host's ancestors. Java's `addChild` would then make the host its own child or descendant, a cycle the tree model cannot represent. Map entries for objects not listed are unconstrained, and so are the anchored contents, whose parts may be the host or any of its ancestors.
- ContentBehaviors.ContentBehavior.PropertyChange: it inherits that exclusion from SynchronizeContentChildren.
- ContentBehaviors.ContentBehavior.SynchronizeContentChildren: after an exception only the exception is stated. Java then leaves the child that `reorderChild` was moving removed from the list. The parts given to each object are stated only on success.
- ContentBehaviors.ContentBehavior.SynchronizeContentAnchored: the resulting anchoreds are stated only when no `removeAnchored` throws. When one does, the model states only the outcome.
- ContentBehaviors.ContentBehavior.PropertyChange: the anchored pass is stated against the anchoreds' contents after the children's pass. The children's pass may already have disposed of some of those parts.
- ContentBehavior:
  - `filterParts` is a filter on the part kind;
  - the content model's `getContentChildren` and `getContentAnchored` are inputs;
  - `setContent` only stores the content, and the viewer's content-part map is not updated by it;
  - the quick check compares contents with Dafny equality, which stands for Java identity;
  - the factory is a function from the content to the new part's visual.
- RootParts.FXRootPart.constructor: the default tool policies and behaviors the constructor installs with `setAdapter` are not modelled. Their classes are not part of this model; only `createRootVisual` is.
- `AbstractRootPart.setViewer` is taken to store the viewer. `createRootVisual` receives the toolkit nodes it would build as parameters.
- The bend operation's connection is never null, so the null checks of `execute` and `undo` are not modelled. `getPoint(i)` is a fixed function of the anchor at position i. FXConnection is not part of this model: its `setAnchors` is assumed to store the list exactly as given, and the ensures of execute, undo and redo rely on that.
- BendOperations.BendConnectionOperation.SetNewAnchors: the argument is a value. In Java `getNewAnchors()` hands out the live list. So `setNewAnchors(getNewAnchors())` clears that list before copying from it and leaves it empty, and a caller holding the list can add implicit anchors to it afterwards. Neither aliasing effect is modelled.
- BendOperations.Router: the router's `isImplicitAnchor` is modelled as a fixed function `isImplicit` of the anchor. A router whose answer depends on state that changes between calls is not modelled.
- BendOperations.BendConnectionOperation.HintEnd: it models the end hint as written, with the index of the last explicit anchor, so execute and undo carry that behaviour too. The corrected end hint is proved separately.
- The base anchor's `attach` is modelled as a set of attached keys. Position computation of other anchor kinds is not part of this model.
- The hover policy of a part is a fixed function of the part.
- `SelectionModel.select` is taken to replace the selection. The workbench selection is a list of contents, or another kind of selection.
- Case conversion: `toUpperCase` and `equalsIgnoreCase` are modelled on ASCII letters only.
- Integer parsing: `Integer.parseInt` accepts only ASCII digits here.
- The HTML-label grammar is not part of this model. A tag's close name is an input, None where the parser sets none; a self-closing tag such as `<BR/>` is assumed to have none, so checkTagIsClosed throws on it.
- `DotHtmlLabelHelper`'s tables are parameters. The allowed parents are a list, because Java's set iteration order is unspecified.
- `checkStringLiteralIsAllowed` uses `Arrays.binarySearch` on a sorted array. The model treats that as membership.
- `Node.toString` is not modelled; it is a debugging string.
- GraphNodes.Node.HashCode: `HashMap.hashCode` is a parameter. The model states that equal nodes hash alike, not the hash's value.
- Node attribute values are compared with Dafny equality in place of `Object.equals`.
- The geometric element's stroke width is a `real`. No arithmetic is done on it, and NaN is not represented.
- Paints other than plain colours are opaque.

## Findings

| source | as written | input that shows it | evidently intended | confidence | as-written member | corrected member |
|---|---|---|---|---|---|---|
| org.eclipse.gef4.mvc/src/org/eclipse/gef4/mvc/behaviors/ContentBehavior.java:101 | the quick check compares the object with the snapshot taken before the loop, although `reorderChild` has since shifted the children | content-part children carrying [A, B, C], synchronised to [C, B]: the children end carrying [C, A] | the check reads the live content-part children, so the children end carrying exactly the given objects in order | not executed | ContentSync.StaleQuickCheckKeepsWrongPart | ContentSync.SyncChildrenLiveConverges |
| org.eclipse.gef4.mvc/src/org/eclipse/gef4/mvc/behaviors/ContentBehavior.java:186-212 | missing parts are appended at the end of the anchoreds, and the pruning then removes content anchoreds by position | one content anchored carrying A, synchronised to [B]: A's part stays and the new part for B is removed | the anchoreds that carry an object no longer listed are removed | not executed | ContentSync.AnchoredAppendThenPrune | ContentSync.SyncAnchoredByContentExact |
| org.eclipse.gef4.mvc.fx/src/org/eclipse/gef4/mvc/fx/operations/FXBendConnectionOperation.java:165-166 | the end hint takes `getPoint(explicitAnchors.size() - 2)`, a position in the explicit list used as a position in the full list | anchors [0, 1, 2, 3] with only 1 implicit and a dynamic end anchor: the hint is the point of the implicit anchor 1 | the point of the last explicit anchor before the end, the one the loop found (2) | not executed | BendOperations.EndHintAsWrittenUsesImplicit | BendOperations.EndHintIntendedUsesLastExplicit |

The content-behavior and bend-operation methods follow the code as written. The corrected definitions are proved alongside them.
