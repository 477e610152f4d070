// FXBendConnectionOperation: an undoable edit of a connection's anchor
// list. The operation keeps only explicit anchors (those the connection's
// router does not mark implicit): a snapshot taken at construction, restored
// by undo, and a target list, installed by execute and redo. After
// installing a list it hands position hints for dynamic start and end
// anchors to the router and asks it to route.
//
// The connection's anchor list runs from the start anchor to the end
// anchor, and getPoint(i) is the position of the anchor at i, taken here as
// a fixed function of the anchor.

module BendOperations {
  import opened Wrappers
  import opened Lists
  import opened Anchors

  // ---- onlyExplicit, as a value ------------------------------------------

  /** The test onlyExplicit applies to each anchor. */
  function ExplicitTest<A>(isImplicit: A -> bool): A -> bool
  {
    a => !isImplicit(a)
  }

  /** onlyExplicit: the anchors the router does not mark implicit, in order. */
  function Explicit<A>(isImplicit: A -> bool, anchors: seq<A>): (r: seq<A>)
    ensures |r| == Count(ExplicitTest(isImplicit), anchors) <= |anchors|
  {
    FilterSatisfies(ExplicitTest(isImplicit), anchors);
    Filter(ExplicitTest(isImplicit), anchors)
  }

  /** onlyExplicit keeps every copy of an explicit anchor and no implicit one. */
  lemma ExplicitKeepsExactlyExplicit<A>(isImplicit: A -> bool, anchors: seq<A>, a: A)
    ensures a in Explicit(isImplicit, anchors) <==> a in anchors && !isImplicit(a)
    ensures multiset(Explicit(isImplicit, anchors))[a] == if isImplicit(a) then 0 else multiset(anchors)[a]
  {
    FilterSatisfies(ExplicitTest(isImplicit), anchors);
    FilterMultiset(ExplicitTest(isImplicit), anchors, a);
  }

  /** Filtering an already filtered list changes nothing. */
  lemma ExplicitIdempotent<A>(isImplicit: A -> bool, anchors: seq<A>)
    ensures Explicit(isImplicit, Explicit(isImplicit, anchors)) == Explicit(isImplicit, anchors)
  {
    FilterIdempotent(ExplicitTest(isImplicit), anchors);
  }

  /** Filtering one more anchor appends it when it is explicit. */
  lemma ExplicitStep<A>(isImplicit: A -> bool, anchors: seq<A>, i: nat)
    requires i < |anchors|
    ensures Explicit(isImplicit, anchors[..i + 1])
              == Explicit(isImplicit, anchors[..i]) + if isImplicit(anchors[i]) then [] else [anchors[i]]
  {
    assert anchors[..i + 1] == anchors[..i] + [anchors[i]];
    FilterAppend(ExplicitTest(isImplicit), anchors[..i], [anchors[i]]);
  }

  /** One round of the removal loop of onlyExplicit keeps its invariant from i to i + 1. */
  lemma OnlyExplicitRound<A>(isImplicit: A -> bool, anchors: seq<A>, i: nat, explicit: seq<A>, j: nat)
    requires i < |anchors|
    requires explicit == Explicit(isImplicit, anchors[..i]) + anchors[i..]
    requires j == |Explicit(isImplicit, anchors[..i])|
    ensures j < |explicit| && explicit[j] == anchors[i]
    ensures isImplicit(anchors[i]) ==>
              explicit[..j] + explicit[j + 1..] == Explicit(isImplicit, anchors[..i + 1]) + anchors[i + 1..] &&
              j == |Explicit(isImplicit, anchors[..i + 1])|
    ensures !isImplicit(anchors[i]) ==>
              explicit == Explicit(isImplicit, anchors[..i + 1]) + anchors[i + 1..] &&
              j + 1 == |Explicit(isImplicit, anchors[..i + 1])|
  {
    ExplicitStep(isImplicit, anchors, i);
    assert anchors[i..] == [anchors[i]] + anchors[i + 1..];
  }

  /**
   * onlyExplicit: copy the list, then walk it with an iterator and remove
   * every anchor the router marks implicit.
   */
  method OnlyExplicit<A>(isImplicit: A -> bool, anchors: seq<A>) returns (explicit: seq<A>)
    ensures explicit == Explicit(isImplicit, anchors)
  {
    explicit := anchors;
    var i, j := 0, 0;
    while i < |anchors|
      invariant 0 <= i <= |anchors|
      invariant explicit == Explicit(isImplicit, anchors[..i]) + anchors[i..]
      invariant j == |Explicit(isImplicit, anchors[..i])|
    {
      OnlyExplicitRound(isImplicit, anchors, i, explicit, j);
      if isImplicit(explicit[j]) {
        explicit := explicit[..j] + explicit[j + 1..];
      } else {
        j := j + 1;
      }
      i := i + 1;
    }
    assert anchors[..|anchors|] == anchors;
  }

  // ---- getConnectionIndex, as a value ------------------------------------

  /** How many anchors among those at positions 0 to i are explicit. */
  function CountThrough<A>(isImplicit: A -> bool, anchors: seq<A>, i: nat): nat
    requires i < |anchors|
  {
    Count(ExplicitTest(isImplicit), anchors[..i + 1])
  }

  /**
   * The answer of getConnectionIndex when the search starts at i: the least
   * position from i on whose prefix up to and including it holds k + 1
   * explicit anchors.
   */
  function IndexFrom<A>(isImplicit: A -> bool, anchors: seq<A>, k: int, i: nat): (r: Result<nat>)
    decreases |anchors| - i
    ensures r.Success? ==>
              i <= r.value < |anchors| && CountThrough(isImplicit, anchors, r.value) == k + 1 &&
              forall j :: i <= j < r.value ==> CountThrough(isImplicit, anchors, j) != k + 1
    ensures r.Failure? ==>
              r.error == IllegalArgument &&
              forall j :: i <= j < |anchors| ==> CountThrough(isImplicit, anchors, j) != k + 1
  {
    if i >= |anchors| then Failure(IllegalArgument)
    else if CountThrough(isImplicit, anchors, i) == k + 1 then Success(i)
    else IndexFrom(isImplicit, anchors, k, i + 1)
  }

  /** getConnectionIndex(k): where the anchor counted as the k-th explicit one sits. */
  function ConnectionIndex<A>(isImplicit: A -> bool, anchors: seq<A>, k: int): Result<nat>
  {
    IndexFrom(isImplicit, anchors, k, 0)
  }

  /** While no prefix up to j reaches k + 1 explicit anchors, the count stays at most k. */
  lemma {:induction false} CountStaysBelow<A>(isImplicit: A -> bool, anchors: seq<A>, k: int, j: nat)
    requires 0 <= k && j <= |anchors|
    requires forall i :: 0 <= i < j ==> CountThrough(isImplicit, anchors, i) != k + 1
    ensures Count(ExplicitTest(isImplicit), anchors[..j]) <= k
  {
    if j > 0 {
      CountStaysBelow(isImplicit, anchors, k, j - 1);
      CountPrefixStep(ExplicitTest(isImplicit), anchors, j - 1);
      assert CountThrough(isImplicit, anchors, j - 1) != k + 1;
    }
  }

  /**
   * For 0 <= k, getConnectionIndex(k) answers exactly when there are more
   * than k explicit anchors, and then the anchor at the answer is the k-th
   * explicit anchor.
   */
  lemma ConnectionIndexLocatesExplicit<A>(isImplicit: A -> bool, anchors: seq<A>, k: nat)
    ensures ConnectionIndex(isImplicit, anchors, k).Success? <==> k < |Explicit(isImplicit, anchors)|
    ensures ConnectionIndex(isImplicit, anchors, k).Success? ==>
              anchors[ConnectionIndex(isImplicit, anchors, k).value] == Explicit(isImplicit, anchors)[k]
  {
    var test := ExplicitTest(isImplicit);
    var r := ConnectionIndex(isImplicit, anchors, k);
    if r.Failure? {
      CountStaysBelow(isImplicit, anchors, k, |anchors|);
      assert anchors[..|anchors|] == anchors;
    } else {
      var i := r.value;
      CountStaysBelow(isImplicit, anchors, k, i);
      CountPrefixStep(test, anchors, i);
      ExplicitStep(isImplicit, anchors, i);
      assert anchors == anchors[..i + 1] + anchors[i + 1..];
      FilterAppend(test, anchors[..i + 1], anchors[i + 1..]);
    }
  }

  // ---- hintAnchorPositions, as a value -----------------------------------

  /** The first explicit anchor at or after i (the start-hint search). */
  function FirstExplicitFrom<A>(isImplicit: A -> bool, anchors: seq<A>, i: nat): (r: Option<nat>)
    decreases |anchors| - i
    ensures r.Some? ==>
              i <= r.value < |anchors| && !isImplicit(anchors[r.value]) &&
              forall j :: i <= j < r.value ==> isImplicit(anchors[j])
    ensures r.None? ==> forall j :: i <= j < |anchors| ==> isImplicit(anchors[j])
  {
    if i >= |anchors| then None
    else if !isImplicit(anchors[i]) then Some(i)
    else FirstExplicitFrom(isImplicit, anchors, i + 1)
  }

  /** The last explicit anchor at or before i (the end-hint search). */
  function LastExplicitDownFrom<A>(isImplicit: A -> bool, anchors: seq<A>, i: int): (r: Option<nat>)
    requires i < |anchors|
    decreases i + 1
    ensures r.Some? ==>
              r.value <= i && !isImplicit(anchors[r.value]) &&
              forall j :: r.value < j <= i ==> isImplicit(anchors[j])
    ensures r.None? ==> forall j :: 0 <= j <= i ==> isImplicit(anchors[j])
  {
    if i < 0 then None
    else if !isImplicit(anchors[i]) then Some(i)
    else LastExplicitDownFrom(isImplicit, anchors, i - 1)
  }

  /**
   * The start hint: when the start anchor is dynamic and is the first
   * explicit anchor, the start key is hinted with the point of the first
   * explicit anchor after it. explicitAnchors.get(0) throws when no anchor
   * is explicit.
   */
  function StartHint<A(==), K, P>(isImplicit: A -> bool, isDynamic: A -> bool, pointOf: A -> P,
                                  anchors: seq<A>, key: K, hints: map<K, P>): Result<map<K, P>>
  {
    if |anchors| == 0 || !isDynamic(anchors[0]) then Success(hints)
    else
      var explicit := Explicit(isImplicit, anchors);
      if |explicit| == 0 then Failure(IndexOutOfBounds)
      else if explicit[0] != anchors[0] then Success(hints)
      else match FirstExplicitFrom(isImplicit, anchors, 1)
        case None => Success(hints)
        case Some(i) => Success(hints[key := pointOf(anchors[i])])
  }

  /**
   * The end hint as written: when the end anchor is dynamic and is the last
   * explicit anchor, and some explicit anchor precedes it, the end key is
   * hinted with getPoint(explicitAnchors.size() - 2), an index into the
   * explicit list used as a position in the full anchor list.
   */
  function EndHint<A(==), K, P>(isImplicit: A -> bool, isDynamic: A -> bool, pointOf: A -> P,
                                anchors: seq<A>, key: K, hints: map<K, P>): Result<map<K, P>>
  {
    if |anchors| == 0 || !isDynamic(anchors[|anchors| - 1]) then Success(hints)
    else
      var explicit := Explicit(isImplicit, anchors);
      if |explicit| == 0 then Failure(IndexOutOfBounds)
      else if explicit[|explicit| - 1] != anchors[|anchors| - 1] then Success(hints)
      else match LastExplicitDownFrom(isImplicit, anchors, |anchors| - 2)
        case None => Success(hints)
        case Some(_) =>
          if |explicit| < 2 then Failure(IndexOutOfBounds)
          else Success(hints[key := pointOf(anchors[|explicit| - 2])])
  }

  /**
   * The end hint as evidently intended, mirroring the start hint: the point
   * of the last explicit anchor before the end anchor, the one the search
   * found.
   */
  function EndHintIntended<A(==), K, P>(isImplicit: A -> bool, isDynamic: A -> bool, pointOf: A -> P,
                                        anchors: seq<A>, key: K, hints: map<K, P>): Result<map<K, P>>
  {
    if |anchors| == 0 || !isDynamic(anchors[|anchors| - 1]) then Success(hints)
    else
      var explicit := Explicit(isImplicit, anchors);
      if |explicit| == 0 then Failure(IndexOutOfBounds)
      else if explicit[|explicit| - 1] != anchors[|anchors| - 1] then Success(hints)
      else match LastExplicitDownFrom(isImplicit, anchors, |anchors| - 2)
        case None => Success(hints)
        case Some(i) => Success(hints[key := pointOf(anchors[i])])
  }

  /**
   * The intended end hint, when the dynamic end anchor is the last explicit
   * one: the point of the last explicit anchor before it, or no hint when
   * every anchor before it is implicit.
   */
  lemma EndHintIntendedUsesLastExplicit<A, K, P>(isImplicit: A -> bool, isDynamic: A -> bool, pointOf: A -> P,
                                                     anchors: seq<A>, key: K, hints: map<K, P>)
    requires 0 < |anchors| && isDynamic(anchors[|anchors| - 1]) && !isImplicit(anchors[|anchors| - 1])
    ensures (forall j :: 0 <= j < |anchors| - 1 ==> isImplicit(anchors[j])) ==>
              EndHintIntended(isImplicit, isDynamic, pointOf, anchors, key, hints) == Success(hints)
    ensures forall i :: 0 <= i < |anchors| - 1 && !isImplicit(anchors[i]) &&
                        (forall j :: i < j < |anchors| - 1 ==> isImplicit(anchors[j])) ==>
              EndHintIntended(isImplicit, isDynamic, pointOf, anchors, key, hints) == Success(hints[key := pointOf(anchors[i])])
  {
    var n := |anchors|;
    ExplicitStep(isImplicit, anchors, n - 1);
    assert anchors[..n] == anchors;
    var r := LastExplicitDownFrom(isImplicit, anchors, n - 2);
    forall i | 0 <= i < n - 1 && !isImplicit(anchors[i]) && (forall j :: i < j < n - 1 ==> isImplicit(anchors[j]))
      ensures r == Some(i)
    {
    }
  }

  /** With no implicit anchor, the end hint as written is the intended one. */
  lemma EndHintAgreesWithoutImplicit<A, K, P>(isImplicit: A -> bool, isDynamic: A -> bool, pointOf: A -> P,
                                                  anchors: seq<A>, key: K, hints: map<K, P>)
    requires forall i :: 0 <= i < |anchors| ==> !isImplicit(anchors[i])
    ensures EndHint(isImplicit, isDynamic, pointOf, anchors, key, hints)
              == EndHintIntended(isImplicit, isDynamic, pointOf, anchors, key, hints)
  {
    FilterAllPass(ExplicitTest(isImplicit), anchors);
  }

  /**
   * The end hint as written can take the point of an implicit anchor: for
   * anchors [0, 1, 2, 3] where only 1 is implicit and every anchor is
   * dynamic, it hints the point of anchor 1, where the last explicit anchor
   * before the end is 2.
   */
  lemma EndHintAsWrittenUsesImplicit()
    ensures var isImplicit := (a: int) => a == 1;
            var isDynamic := (a: int) => true;
            var pointOf := (a: int) => a;
            EndHint(isImplicit, isDynamic, pointOf, [0, 1, 2, 3], "end", map[]) == Success(map["end" := 1]) &&
            EndHintIntended(isImplicit, isDynamic, pointOf, [0, 1, 2, 3], "end", map[]) == Success(map["end" := 2]) &&
            isImplicit(1)
  {
    var isImplicit := (a: int) => a == 1;
    var test := ExplicitTest(isImplicit);
    var s: seq<int> := [0, 1, 2, 3];
    assert s[1..] == [1, 2, 3] && s[1..][1..] == [2, 3] && s[1..][1..][1..] == [3] && s[1..][1..][1..][1..] == [];
    assert Filter(test, s) == [0, 2, 3];
  }

  /** Both hints in order; an exception in the end hint leaves the start hint in place. */
  function Hints<A(==), K, P>(isImplicit: A -> bool, isDynamic: A -> bool, pointOf: A -> P,
                              anchors: seq<A>, startKey: K, endKey: K, hints: map<K, P>): (map<K, P>, Outcome)
  {
    match StartHint(isImplicit, isDynamic, pointOf, anchors, startKey, hints)
    case Failure(e) => (hints, Fail(e))
    case Success(h) =>
      match EndHint(isImplicit, isDynamic, pointOf, anchors, endKey, h)
      case Failure(e) => (h, Fail(e))
      case Success(h') => (h', Pass)
  }

  /** The anchors after execute or undo: the target is set only when the explicit anchors differ from it. */
  function Applied<A(==)>(isImplicit: A -> bool, target: seq<A>, current: seq<A>): seq<A>
  {
    if Explicit(isImplicit, current) != target then target else current
  }

  /** Applying an explicit-only target leaves exactly that target as the explicit anchors. */
  lemma AppliedReachesTarget<A>(isImplicit: A -> bool, target: seq<A>, current: seq<A>)
    requires target == Explicit(isImplicit, target)
    ensures Explicit(isImplicit, Applied(isImplicit, target, current)) == target
    ensures Explicit(isImplicit, current) == target ==> Applied(isImplicit, target, current) == current
  {
  }

  // ---- the objects -------------------------------------------------------

  /** An IAnchor; lists compare anchors by identity. */
  type Anchor(==, !new)

  class Router {
    const isImplicit: Anchor -> bool
    /** positionHintsProperty() */
    var hints: map<AnchorKey, Point>
    /** The anchor lists route(connection) has been called with. */
    ghost var routed: seq<seq<Anchor>>

    constructor(isImplicit: Anchor -> bool)
      ensures this.isImplicit == isImplicit && hints == map[] && routed == []
    {
      this.isImplicit := isImplicit;
      hints := map[];
      routed := [];
    }

    /** route(connection): recorded, not modelled. */
    method Route(connection: Connection)
      modifies this`routed
      ensures routed == old(routed) + [connection.anchors]
    {
      routed := routed + [connection.anchors];
    }
  }

  class Connection {
    const router: Router
    const startKey: AnchorKey
    const endKey: AnchorKey
    /** Whether an anchor is a DynamicAnchor. */
    const isDynamic: Anchor -> bool
    /** The point the connection computes for an anchor. */
    const pointOf: Anchor -> Point
    var anchors: seq<Anchor>

    constructor(router: Router, startKey: AnchorKey, endKey: AnchorKey, isDynamic: Anchor -> bool,
                pointOf: Anchor -> Point, anchors: seq<Anchor>)
      ensures this.router == router && this.startKey == startKey && this.endKey == endKey
      ensures this.isDynamic == isDynamic && this.pointOf == pointOf && this.anchors == anchors
    {
      this.router := router;
      this.startKey := startKey;
      this.endKey := endKey;
      this.isDynamic := isDynamic;
      this.pointOf := pointOf;
      this.anchors := anchors;
    }

    method SetAnchors(anchors: seq<Anchor>)
      modifies this`anchors
      ensures this.anchors == anchors
    {
      this.anchors := anchors;
    }
  }

  class BendConnectionOperation {
    const connection: Connection
    const initialAnchors: seq<Anchor>
    var newAnchors: seq<Anchor>

    /** Both lists hold explicit anchors only. */
    ghost predicate Valid()
      reads this`newAnchors
    {
      initialAnchors == Explicit(connection.router.isImplicit, initialAnchors) &&
      newAnchors == Explicit(connection.router.isImplicit, newAnchors)
    }

    /** Both lists start as the connection's explicit anchors. */
    constructor(connection: Connection)
      ensures this.connection == connection
      ensures initialAnchors == Explicit(connection.router.isImplicit, connection.anchors)
      ensures newAnchors == initialAnchors
      ensures Valid() && IsNoOp()
    {
      this.connection := connection;
      var explicit := OnlyExplicit(connection.router.isImplicit, connection.anchors);
      initialAnchors := explicit;
      newAnchors := explicit;
      new;
      ExplicitIdempotent(connection.router.isImplicit, connection.anchors);
    }

    /** isNoOp: the two lists are equal element by element. */
    function IsNoOp(): (r: bool)
      reads this`newAnchors
      ensures r <==> |initialAnchors| == |newAnchors| &&
                     forall i :: 0 <= i < |initialAnchors| ==> initialAnchors[i] == newAnchors[i]
    {
      initialAnchors == newAnchors
    }

    /** isContentRelevant: a bend always changes content. */
    function IsContentRelevant(): (r: bool)
      ensures r
    {
      true
    }

    /** setNewAnchors: the target becomes the explicit anchors of the argument. */
    method SetNewAnchors(anchors: seq<Anchor>)
      requires Valid()
      modifies this`newAnchors
      ensures newAnchors == Explicit(connection.router.isImplicit, anchors)
      ensures Valid()
    {
      newAnchors := OnlyExplicit(connection.router.isImplicit, anchors);
      ExplicitIdempotent(connection.router.isImplicit, anchors);
    }

    /** getConnectionIndex, by the counting loop over the connection's points. */
    method GetConnectionIndex(explicitAnchorIndex: int) returns (r: Result<nat>)
      ensures r == ConnectionIndex(connection.router.isImplicit, connection.anchors, explicitAnchorIndex)
    {
      var isImplicit := connection.router.isImplicit;
      var anchors := connection.anchors;
      var explicitCount := -1;
      for i := 0 to |anchors|
        invariant explicitCount == Count(ExplicitTest(isImplicit), anchors[..i]) - 1
        invariant ConnectionIndex(isImplicit, anchors, explicitAnchorIndex) == IndexFrom(isImplicit, anchors, explicitAnchorIndex, i)
      {
        CountPrefixStep(ExplicitTest(isImplicit), anchors, i);
        if !isImplicit(anchors[i]) {
          explicitCount := explicitCount + 1;
        }
        if explicitCount == explicitAnchorIndex {
          return Success(i);
        }
      }
      return Failure(IllegalArgument);
    }

    /** The start-hint half of hintAnchorPositions. */
    method HintStart(anchors: seq<Anchor>, explicit: seq<Anchor>) returns (outcome: Outcome)
      requires explicit == Explicit(connection.router.isImplicit, anchors)
      modifies connection.router`hints
      ensures var r := StartHint(connection.router.isImplicit, connection.isDynamic, connection.pointOf,
                                 anchors, connection.startKey, old(connection.router.hints));
              if r.Success? then outcome == Pass && connection.router.hints == r.value
              else outcome == Fail(r.error) && connection.router.hints == old(connection.router.hints)
    {
      var router := connection.router;
      outcome := Pass;
      if |anchors| > 0 && connection.isDynamic(anchors[0]) {
        if |explicit| == 0 {
          return Fail(IndexOutOfBounds);
        }
        if explicit[0] == anchors[0] {
          var i := 1;
          while i < |anchors|
            invariant 1 <= i <= |anchors|
            invariant FirstExplicitFrom(router.isImplicit, anchors, 1) == FirstExplicitFrom(router.isImplicit, anchors, i)
            invariant router.hints == old(router.hints)
          {
            if !router.isImplicit(anchors[i]) {
              router.hints := router.hints[connection.startKey := connection.pointOf(anchors[i])];
              break;
            }
            i := i + 1;
          }
        }
      }
    }

    /** The end-hint half of hintAnchorPositions, as written. */
    method HintEnd(anchors: seq<Anchor>, explicit: seq<Anchor>) returns (outcome: Outcome)
      requires explicit == Explicit(connection.router.isImplicit, anchors)
      modifies connection.router`hints
      ensures var r := EndHint(connection.router.isImplicit, connection.isDynamic, connection.pointOf,
                               anchors, connection.endKey, old(connection.router.hints));
              if r.Success? then outcome == Pass && connection.router.hints == r.value
              else outcome == Fail(r.error) && connection.router.hints == old(connection.router.hints)
    {
      var router := connection.router;
      outcome := Pass;
      if |anchors| > 0 && connection.isDynamic(anchors[|anchors| - 1]) {
        if |explicit| == 0 {
          return Fail(IndexOutOfBounds);
        }
        if explicit[|explicit| - 1] == anchors[|anchors| - 1] {
          var i := |anchors| - 2;
          while i >= 0
            invariant -1 <= i <= |anchors| - 2
            invariant LastExplicitDownFrom(router.isImplicit, anchors, |anchors| - 2)
                        == LastExplicitDownFrom(router.isImplicit, anchors, i)
            invariant router.hints == old(router.hints)
          {
            if !router.isImplicit(anchors[i]) {
              if |explicit| < 2 {
                return Fail(IndexOutOfBounds);
              }
              router.hints := router.hints[connection.endKey := connection.pointOf(anchors[|explicit| - 2])];
              break;
            }
            i := i - 1;
          }
        }
      }
    }

    /** hintAnchorPositions: the start hint, then the end hint, for the current anchors. */
    method HintAnchorPositions() returns (outcome: Outcome)
      modifies connection.router`hints
      ensures (connection.router.hints, outcome)
                == Hints(connection.router.isImplicit, connection.isDynamic, connection.pointOf, connection.anchors,
                         connection.startKey, connection.endKey, old(connection.router.hints))
    {
      var anchors := connection.anchors;
      var explicit := OnlyExplicit(connection.router.isImplicit, anchors);
      outcome := HintStart(anchors, explicit);
      if outcome.Pass? {
        outcome := HintEnd(anchors, explicit);
      }
    }

    /** Set target if the explicit anchors differ from it, hint, then route. */
    method Apply(target: seq<Anchor>) returns (outcome: Outcome)
      requires target == Explicit(connection.router.isImplicit, target)
      modifies connection`anchors, connection.router`hints, connection.router`routed
      ensures connection.anchors == Applied(connection.router.isImplicit, target, old(connection.anchors))
      ensures Explicit(connection.router.isImplicit, connection.anchors) == target
      ensures (connection.router.hints, outcome)
                == Hints(connection.router.isImplicit, connection.isDynamic, connection.pointOf, connection.anchors,
                         connection.startKey, connection.endKey, old(connection.router.hints))
      ensures connection.router.routed == old(connection.router.routed) + if outcome.Pass? then [connection.anchors] else []
    {
      var current := OnlyExplicit(connection.router.isImplicit, connection.anchors);
      if current != target {
        connection.SetAnchors(target);
      }
      AppliedReachesTarget(connection.router.isImplicit, target, old(connection.anchors));
      outcome := HintAnchorPositions();
      if outcome.Pass? {
        connection.router.Route(connection);
      }
    }

    /** execute: install newAnchors; afterwards they are the explicit anchors. */
    method Execute() returns (outcome: Outcome)
      requires Valid()
      modifies connection`anchors, connection.router`hints, connection.router`routed
      ensures connection.anchors == Applied(connection.router.isImplicit, newAnchors, old(connection.anchors))
      ensures Explicit(connection.router.isImplicit, connection.anchors) == newAnchors
      ensures (connection.router.hints, outcome)
                == Hints(connection.router.isImplicit, connection.isDynamic, connection.pointOf, connection.anchors,
                         connection.startKey, connection.endKey, old(connection.router.hints))
      ensures connection.router.routed == old(connection.router.routed) + if outcome.Pass? then [connection.anchors] else []
    {
      outcome := Apply(newAnchors);
    }

    /** redo: the same as execute. */
    method Redo() returns (outcome: Outcome)
      requires Valid()
      modifies connection`anchors, connection.router`hints, connection.router`routed
      ensures connection.anchors == Applied(connection.router.isImplicit, newAnchors, old(connection.anchors))
      ensures Explicit(connection.router.isImplicit, connection.anchors) == newAnchors
      ensures (connection.router.hints, outcome)
                == Hints(connection.router.isImplicit, connection.isDynamic, connection.pointOf, connection.anchors,
                         connection.startKey, connection.endKey, old(connection.router.hints))
      ensures connection.router.routed == old(connection.router.routed) + if outcome.Pass? then [connection.anchors] else []
    {
      outcome := Execute();
    }

    /** undo: reinstall the snapshot; afterwards it is again the explicit anchors, whatever execute did. */
    method Undo() returns (outcome: Outcome)
      requires Valid()
      modifies connection`anchors, connection.router`hints, connection.router`routed
      ensures connection.anchors == Applied(connection.router.isImplicit, initialAnchors, old(connection.anchors))
      ensures Explicit(connection.router.isImplicit, connection.anchors) == initialAnchors
      ensures (connection.router.hints, outcome)
                == Hints(connection.router.isImplicit, connection.isDynamic, connection.pointOf, connection.anchors,
                         connection.startKey, connection.endKey, old(connection.router.hints))
      ensures connection.router.routed == old(connection.router.routed) + if outcome.Pass? then [connection.anchors] else []
    {
      outcome := Apply(initialAnchors);
    }
  }
}
