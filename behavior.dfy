// Adapters of visual parts, and the lifecycle of AbstractBehavior.
//
// A part's adapter map holds arbitrary objects; what the part tree needs to
// know about one is whether it is IActivatable and whether it is
// IAdaptable.Bound. Behaviors (AbstractBehavior) are both, and carry the
// host link and the handle/feedback part lists.

module Behaviors {
  import opened Wrappers

  /** The runtime class of an adapter, as returned by getClass(). */
  type ClassKey(==, !new)

  /**
   * A call into BehaviorUtils (not part of this model): the anchoreds are
   * added to, or removed from, the anchorages by way of the host's root.
   */
  datatype UtilsCall =
    | AnchoredsAdded(host: object, anchorages: seq<object>, anchoreds: seq<object>)
    | AnchoredsRemoved(host: object, anchorages: seq<object>, anchoreds: seq<object>)

  class Adapter {
    const runtimeClass: ClassKey
    /** The adapter implements IActivatable. */
    const activatable: bool
    /** The adapter implements IAdaptable.Bound. */
    const bound: bool

    var active: bool
    var host: object?
    var handleParts: seq<object>
    var feedbackParts: seq<object>
    ghost var calls: seq<UtilsCall>

    /** A behavior: activatable and bound, inactive, without host or parts. */
    constructor Behavior(cls: ClassKey)
      ensures runtimeClass == cls && activatable && bound
      ensures !active && host == null && handleParts == [] && feedbackParts == [] && calls == []
    {
      runtimeClass := cls;
      activatable := true;
      bound := true;
      active := false;
      host := null;
      handleParts := [];
      feedbackParts := [];
      calls := [];
    }

    /** Any other adapter object (a policy, a tool policy, a provider). */
    constructor Plain(cls: ClassKey, isActivatable: bool, isBound: bool)
      ensures runtimeClass == cls && activatable == isActivatable && bound == isBound
      ensures !active && host == null && handleParts == [] && feedbackParts == [] && calls == []
    {
      runtimeClass := cls;
      activatable := isActivatable;
      bound := isBound;
      active := false;
      host := null;
      handleParts := [];
      feedbackParts := [];
      calls := [];
    }

    method Activate()
      modifies this`active
      ensures IsActive()
    {
      active := true;
    }

    method Deactivate()
      modifies this`active
      ensures !IsActive()
    {
      active := false;
    }

    function IsActive(): bool
      reads this`active
    {
      active
    }

    /** setAdaptable delegates to setHost. */
    method SetAdaptable(adaptable: object?)
      modifies this`host
      ensures GetHost() == adaptable && GetAdaptable() == adaptable
    {
      SetHost(adaptable);
    }

    method SetHost(newHost: object?)
      modifies this`host
      ensures GetHost() == newHost
    {
      host := newHost;
    }

    function GetHost(): object?
      reads this`host
    {
      host
    }

    /** getAdaptable answers getHost. */
    function GetAdaptable(): (r: object?)
      reads this`host
      ensures r == GetHost()
    {
      GetHost()
    }

    /**
     * addHandles: `created` is what BehaviorUtils.createHandles returns. The
     * list is stored before the host's root is asked for, so a missing host
     * leaves the new list stored and ends in a NullPointerException.
     */
    method AddHandles(anchorages: seq<object>, created: seq<object>) returns (outcome: Outcome)
      modifies this`handleParts, this`calls
      ensures handleParts == created
      ensures outcome == (if host == null then Fail(NullPointer) else Pass)
      ensures calls == old(calls) + (if host == null then [] else [AnchoredsAdded(host, anchorages, created)])
    {
      handleParts := created;
      if host == null {
        return Fail(NullPointer);
      }
      calls := calls + [AnchoredsAdded(host, anchorages, handleParts)];
      return Pass;
    }

    /** removeHandles: nothing to do without stored handles; otherwise detach them and clear the list. */
    method RemoveHandles(anchorages: seq<object>) returns (outcome: Outcome)
      modifies this`handleParts, this`calls
      ensures old(handleParts) == [] ==> outcome == Pass && handleParts == [] && calls == old(calls)
      ensures old(handleParts) != [] && host == null ==>
        outcome == Fail(NullPointer) && handleParts == old(handleParts) && calls == old(calls)
      ensures old(handleParts) != [] && host != null ==>
        outcome == Pass && handleParts == [] && calls == old(calls) + [AnchoredsRemoved(host, anchorages, old(handleParts))]
    {
      if handleParts == [] {
        return Pass;
      }
      if host == null {
        return Fail(NullPointer);
      }
      calls := calls + [AnchoredsRemoved(host, anchorages, handleParts)];
      handleParts := [];
      return Pass;
    }

    /** addFeedback: the rule of addHandles, for feedback parts. */
    method AddFeedback(targets: seq<object>, created: seq<object>) returns (outcome: Outcome)
      modifies this`feedbackParts, this`calls
      ensures feedbackParts == created
      ensures outcome == (if host == null then Fail(NullPointer) else Pass)
      ensures calls == old(calls) + (if host == null then [] else [AnchoredsAdded(host, targets, created)])
    {
      feedbackParts := created;
      if host == null {
        return Fail(NullPointer);
      }
      calls := calls + [AnchoredsAdded(host, targets, feedbackParts)];
      return Pass;
    }

    /** removeFeedback: the rule of removeHandles, for feedback parts. */
    method RemoveFeedback(targets: seq<object>) returns (outcome: Outcome)
      modifies this`feedbackParts, this`calls
      ensures old(feedbackParts) == [] ==> outcome == Pass && feedbackParts == [] && calls == old(calls)
      ensures old(feedbackParts) != [] && host == null ==>
        outcome == Fail(NullPointer) && feedbackParts == old(feedbackParts) && calls == old(calls)
      ensures old(feedbackParts) != [] && host != null ==>
        outcome == Pass && feedbackParts == [] && calls == old(calls) + [AnchoredsRemoved(host, targets, old(feedbackParts))]
    {
      if feedbackParts == [] {
        return Pass;
      }
      if host == null {
        return Fail(NullPointer);
      }
      calls := calls + [AnchoredsRemoved(host, targets, feedbackParts)];
      feedbackParts := [];
      return Pass;
    }
  }
}
