// The list surgery ContentBehavior performs on a host's children and
// anchoreds, as functions over parts P and content objects C. The
// ContentBehavior class runs the same steps on visual parts and is proved to
// end in the state these functions compute.
//
// Inputs of the functions: the host's list before synchronisation (cs), the
// content-part test (isContent), the contents of the content parts filtered
// out of cs before the loop (snapContent, one per part; None is a null
// content), the content objects to synchronise with (contents) and, per
// position, the part findOrCreatePartFor hands out there (supply; only read
// where a part is inserted or appended).

module ContentSync {
  import opened Wrappers
  import opened Lists

  /** The last position of x in s, or -1. */
  function LastIndexOf<T(==)>(s: seq<T>, x: T): (r: int)
    ensures -1 <= r < |s|
    ensures r == -1 <==> x !in s
    ensures 0 <= r ==> s[r] == x && x !in s[r + 1..]
  {
    if |s| == 0 then -1
    else if s[|s| - 1] == x then |s| - 1
    else
      var t := s[..|s| - 1];
      assert s == t + [s[|s| - 1]];
      var r := LastIndexOf(t, x);
      assert 0 <= r ==> s[r + 1..] == t[r + 1..] + [s[|s| - 1]];
      r
  }

  /**
   * modelToEditPart: the snapshot parts keyed by their content. When two
   * parts carry the same content, the later one wins.
   */
  function Table<P, C(==, !new)>(snap: seq<P>, snapContent: seq<Option<C>>): (t: map<Option<C>, P>)
    requires |snap| == |snapContent|
    ensures forall k :: k in t <==> k in snapContent
    ensures forall k :: k in t ==> t[k] == snap[LastIndexOf(snapContent, k)]
  {
    if |snap| == 0 then map[]
    else
      var n := |snap| - 1;
      assert forall k :: k in snapContent <==> k in snapContent[..n] || k == snapContent[n] by {
        assert snapContent == snapContent[..n] + [snapContent[n]];
      }
      Table(snap[..n], snapContent[..n])[snapContent[n] := snap[n]]
  }

  /** What synchronizeContentChildren does for one content object. */
  datatype Action<P> =
    | Skip            // the quick check found it in place
    | Reorder(part: P) // a snapshot part carries it: reorderChild
    | Insert          // findOrCreatePartFor, then addChild

  /**
   * The decision for the object model at position i: the quick check reads
   * the snapshot, not the live children; a miss consults the table.
   */
  function ChildAction<P, C(==, !new)>(snapContent: seq<Option<C>>, table: map<Option<C>, P>, model: C, i: nat): Action<P>
  {
    if i < |snapContent| && snapContent[i] == Some(model) then Skip
    else if Some(model) in table then Reorder(table[Some(model)])
    else Insert
  }

  /**
   * The effect of one action on the children: reorderChild (which throws on
   * an empty list, and for an index past the shortened list) or addChild
   * (which throws for an index past the list).
   */
  function ApplyChild<P(==)>(cs: seq<P>, a: Action<P>, i: nat, created: P): Result<seq<P>>
  {
    match a
    case Skip => Success(cs)
    case Reorder(p) =>
      if cs == [] then Failure(NullPointer)
      else if i <= |RemoveFirst(cs, p)| then Success(InsertAt(RemoveFirst(cs, p), i, p))
      else Failure(IndexOutOfBounds)
    case Insert =>
      if i <= |cs| then Success(InsertAt(cs, i, created)) else Failure(IndexOutOfBounds)
  }

  /** The main loop over the content objects; the first exception ends it. */
  function ChildrenLoop<P(==), C(==, !new)>(cs: seq<P>, snapContent: seq<Option<C>>, table: map<Option<C>, P>,
                                      contents: seq<C>, supply: seq<P>): Result<seq<P>>
    requires |supply| == |contents|
  {
    if |contents| == 0 then Success(cs)
    else
      var n := |contents| - 1;
      match ChildrenLoop(cs, snapContent, table, contents[..n], supply[..n])
      case Failure(e) => Failure(e)
      case Success(c) => ApplyChild(c, ChildAction(snapContent, table, contents[n], n), n, supply[n])
  }

  /** One more round of the loop, for a caller that runs it step by step. */
  lemma LoopExtend<P, C(!new)>(cs: seq<P>, snapContent: seq<Option<C>>, table: map<Option<C>, P>,
                               contents: seq<C>, supply: seq<P>, part: P)
    requires |supply| < |contents|
    ensures ChildrenLoop(cs, snapContent, table, contents[..|supply| + 1], supply + [part])
              == match ChildrenLoop(cs, snapContent, table, contents[..|supply|], supply)
                 case Failure(e) => Failure(e)
                 case Success(c) => ApplyChild(c, ChildAction(snapContent, table, contents[|supply|], |supply|), |supply|, part)
  {
    var n := |supply|;
    assert contents[..n + 1][..n] == contents[..n] && (supply + [part])[..n] == supply;
  }

  /** An exception ends the loop: a failed prefix fails the whole run with the same exception. */
  lemma {:induction false} LoopFailureSticks<P, C(!new)>(cs: seq<P>, snapContent: seq<Option<C>>, table: map<Option<C>, P>,
                                                        contents: seq<C>, supply: seq<P>, k: nat)
    requires |supply| == |contents| && k <= |contents|
    requires ChildrenLoop(cs, snapContent, table, contents[..k], supply[..k]).Failure?
    ensures ChildrenLoop(cs, snapContent, table, contents, supply)
              == ChildrenLoop(cs, snapContent, table, contents[..k], supply[..k])
  {
    if k == |contents| {
      assert contents[..k] == contents && supply[..k] == supply;
    } else {
      var n := |contents| - 1;
      assert contents[..n][..k] == contents[..k] && supply[..n][..k] == supply[..k];
      LoopFailureSticks(cs, snapContent, table, contents[..n], supply[..n], k);
    }
  }

  /** The trash list: the content parts from position n on. */
  function TrashOf<P>(parts: seq<P>, n: nat): seq<P>
  {
    if n < |parts| then parts[n..] else []
  }

  /** removeChild (or removeAnchored) of each trash entry in turn. */
  function RemoveEach<P(==)>(cs: seq<P>, trash: seq<P>): seq<P>
    decreases |trash|
  {
    if |trash| == 0 then cs else RemoveEach(RemoveFirst(cs, trash[0]), trash[1..])
  }

  /** synchronizeContentChildren: the loop, then the pruning of trailing content parts. */
  function SyncChildren<P(==), C(==, !new)>(cs: seq<P>, isContent: P -> bool, snapContent: seq<Option<C>>,
                                      contents: seq<C>, supply: seq<P>): Result<seq<P>>
    requires |snapContent| == |Filter(isContent, cs)| && |supply| == |contents|
  {
    match ChildrenLoop(cs, snapContent, Table(Filter(isContent, cs), snapContent), contents, supply)
    case Failure(e) => Failure(e)
    case Success(c) => Success(RemoveEach(c, TrashOf(Filter(isContent, c), |contents|)))
  }

  /**
   * synchronizeContentAnchored's decision: a part is appended only when the
   * quick check misses and no snapshot part carries the object (the
   * reorder is commented out).
   */
  predicate NeedsAnchored<P, C(==, !new)>(snapContent: seq<Option<C>>, table: map<Option<C>, P>, model: C, i: nat)
  {
    !(i < |snapContent| && snapContent[i] == Some(model)) && Some(model) !in table
  }

  function AnchoredLoop<P, C(==, !new)>(anchoreds: seq<P>, snapContent: seq<Option<C>>, table: map<Option<C>, P>,
                                  contents: seq<C>, supply: seq<P>): seq<P>
    requires |supply| == |contents|
  {
    if |contents| == 0 then anchoreds
    else
      var n := |contents| - 1;
      var a := AnchoredLoop(anchoreds, snapContent, table, contents[..n], supply[..n]);
      if NeedsAnchored(snapContent, table, contents[n], n) then a + [supply[n]] else a
  }

  /** synchronizeContentAnchored: append the missing parts, then prune trailing content parts. */
  function SyncAnchored<P(==), C(==, !new)>(anchoreds: seq<P>, isContent: P -> bool, snapContent: seq<Option<C>>,
                                      contents: seq<C>, supply: seq<P>): seq<P>
    requires |snapContent| == |Filter(isContent, anchoreds)| && |supply| == |contents|
  {
    var c := AnchoredLoop(anchoreds, snapContent, Table(Filter(isContent, anchoreds), snapContent), contents, supply);
    RemoveEach(c, TrashOf(Filter(isContent, c), |contents|))
  }

  // ---------------------------------------------------------------------
  // Properties of the code as written

  /** The table holds a snapshot part for every carried content, never a new one. */
  lemma TableValues<P, C(!new)>(snap: seq<P>, snapContent: seq<Option<C>>, k: Option<C>)
    requires |snap| == |snapContent| && k in Table(snap, snapContent)
    ensures Table(snap, snapContent)[k] in snap
  {
    var j := LastIndexOf(snapContent, k);
    assert Table(snap, snapContent)[k] == snap[j];
  }

  /**
   * A content object carried by a snapshot part is never handed to
   * findOrCreatePartFor: it is skipped or reordered, and a reorder moves the
   * last snapshot part carrying it.
   */
  lemma KnownContentIsMoved<P, C(!new)>(snap: seq<P>, snapContent: seq<Option<C>>, model: C, i: nat)
    requires |snap| == |snapContent|
    ensures ChildAction(snapContent, Table(snap, snapContent), model, i).Insert? <==> Some(model) !in snapContent
    ensures ChildAction(snapContent, Table(snap, snapContent), model, i).Reorder? ==>
              ChildAction(snapContent, Table(snap, snapContent), model, i).part
                == snap[LastIndexOf(snapContent, Some(model))]
  {
  }

  /**
   * One step of the loop: a reorder of a present part leaves the same parts
   * with that part at i; an insertion adds the created part at i; the
   * exceptions are those of reorderChild and addChild.
   */
  lemma ApplyChildPlaces<P>(cs: seq<P>, a: Action<P>, i: nat, created: P)
    ensures a.Skip? ==> ApplyChild(cs, a, i, created) == Success(cs)
    ensures a.Reorder? && cs == [] ==> ApplyChild(cs, a, i, created) == Failure(NullPointer)
    ensures a.Reorder? && a.part in cs ==>
              (ApplyChild(cs, a, i, created).Success? <==> i < |cs|)
    ensures a.Reorder? && a.part in cs && i < |cs| ==>
              var c := ApplyChild(cs, a, i, created).value;
              |c| == |cs| && c[i] == a.part && multiset(c) == multiset(cs)
    ensures a.Insert? ==> (ApplyChild(cs, a, i, created).Success? <==> i <= |cs|)
    ensures a.Insert? && i <= |cs| ==>
              var c := ApplyChild(cs, a, i, created).value;
              |c| == |cs| + 1 && c[i] == created && multiset(c) == multiset(cs) + multiset{created}
  {
    if a.Reorder? && a.part in cs {
      RemoveFirstLength(cs, a.part);
      if i < |cs| {
        MoveKeepsElements(cs, a.part, i);
      }
    }
    if a.Insert? && i <= |cs| {
      InsertAtMultiset(cs, i, created);
    }
  }

  /** The parts findOrCreatePartFor hands out during the loop, in order. */
  function Created<P, C(==, !new)>(snapContent: seq<Option<C>>, table: map<Option<C>, P>,
                                   contents: seq<C>, supply: seq<P>): seq<P>
    requires |supply| == |contents|
  {
    if |contents| == 0 then []
    else
      var n := |contents| - 1;
      Created(snapContent, table, contents[..n], supply[..n])
        + (if ChildAction(snapContent, table, contents[n], n).Insert? then [supply[n]] else [])
  }

  /**
   * The loop only moves the host's parts and adds the created ones: when it
   * completes, the children are the old children plus the created parts.
   */
  lemma {:induction false} LoopKeepsParts<P, C(!new)>(cs: seq<P>, snapContent: seq<Option<C>>, table: map<Option<C>, P>,
                                                         contents: seq<C>, supply: seq<P>)
    requires |supply| == |contents|
    requires forall k :: k in table ==> table[k] in cs
    ensures ChildrenLoop(cs, snapContent, table, contents, supply).Success? ==>
              multiset(ChildrenLoop(cs, snapContent, table, contents, supply).value)
                == multiset(cs) + multiset(Created(snapContent, table, contents, supply))
  {
    if |contents| > 0 {
      var n := |contents| - 1;
      LoopKeepsParts(cs, snapContent, table, contents[..n], supply[..n]);
      var prev := ChildrenLoop(cs, snapContent, table, contents[..n], supply[..n]);
      if prev.Success? {
        var a := ChildAction(snapContent, table, contents[n], n);
        var before := Created(snapContent, table, contents[..n], supply[..n]);
        assert ChildrenLoop(cs, snapContent, table, contents, supply) == ApplyChild(prev.value, a, n, supply[n]);
        assert Created(snapContent, table, contents, supply) == before + (if a.Insert? then [supply[n]] else []);
        StepKeepsParts(cs, prev.value, a, n, supply[n], before);
      }
    }
  }

  /** One round of the loop keeps the parts, moving one or adding the created one. */
  lemma StepKeepsParts<P>(cs: seq<P>, prev: seq<P>, a: Action<P>, i: nat, part: P, before: seq<P>)
    requires multiset(prev) == multiset(cs) + multiset(before)
    requires a.Reorder? ==> a.part in cs
    ensures ApplyChild(prev, a, i, part).Success? ==>
              multiset(ApplyChild(prev, a, i, part).value) == multiset(cs) + multiset(before + (if a.Insert? then [part] else []))
  {
    ApplyChildPlaces(prev, a, i, part);
    if a.Reorder? {
      assert a.part in multiset(cs);
      assert a.part in multiset(prev);
    }
  }

  /** Removing each trash entry in turn takes away exactly the trash, as a multiset. */
  lemma {:induction false} RemoveEachMultiset<P>(cs: seq<P>, trash: seq<P>)
    ensures multiset(RemoveEach(cs, trash)) == multiset(cs) - multiset(trash)
    decreases |trash|
  {
    if |trash| > 0 {
      var x, rest := trash[0], trash[1..];
      var r := RemoveFirst(cs, x);
      RemoveFirstMultiset(cs, x);
      RemoveEachMultiset(r, rest);
      assert RemoveEach(cs, trash) == RemoveEach(r, rest);
      assert trash == [x] + rest;
      MultisetDifferenceStep(multiset(cs), x, multiset(rest));
    }
  }

  lemma MultisetDifferenceStep<T>(m: multiset<T>, x: T, t: multiset<T>)
    ensures (m - multiset{x}) - t == m - (multiset{x} + t)
  {
    forall y ensures ((m - multiset{x}) - t)[y] == (m - (multiset{x} + t))[y] {
    }
  }

  /**
   * The pruning step removes the content parts from position n on and
   * nothing else: a part that is not a content part keeps its occurrences.
   */
  lemma PruneRemovesTrailingContent<P>(c: seq<P>, isContent: P -> bool, n: nat)
    ensures multiset(RemoveEach(c, TrashOf(Filter(isContent, c), n)))
              == multiset(c) - multiset(TrashOf(Filter(isContent, c), n))
    ensures forall x :: !isContent(x) ==>
              multiset(RemoveEach(c, TrashOf(Filter(isContent, c), n)))[x] == multiset(c)[x]
  {
    RemoveEachMultiset(c, TrashOf(Filter(isContent, c), n));
    forall x | !isContent(x)
      ensures multiset(TrashOf(Filter(isContent, c), n))[x] == 0
    {
      TrashIsContent(c, isContent, n, x);
    }
  }

  lemma TrashIsContent<P>(c: seq<P>, isContent: P -> bool, n: nat, x: P)
    requires !isContent(x)
    ensures multiset(TrashOf(Filter(isContent, c), n))[x] == 0
  {
    var f := Filter(isContent, c);
    FilterMultiset(isContent, c, x);
    if n < |f| {
      assert f == f[..n] + f[n..];
    }
  }

  /**
   * synchronizeContentChildren keeps every child that is not a content part
   * and not handed out by findOrCreatePartFor: exactly as many occurrences
   * as before.
   */
  lemma SyncKeepsOtherChildren<P, C(!new)>(cs: seq<P>, isContent: P -> bool, snapContent: seq<Option<C>>,
                                              contents: seq<C>, supply: seq<P>, x: P)
    requires |snapContent| == |Filter(isContent, cs)| && |supply| == |contents|
    requires !isContent(x) && x !in supply
    ensures SyncChildren(cs, isContent, snapContent, contents, supply).Success? ==>
              multiset(SyncChildren(cs, isContent, snapContent, contents, supply).value)[x] == multiset(cs)[x]
  {
    var snap := Filter(isContent, cs);
    var table := Table(snap, snapContent);
    FilterSatisfies(isContent, cs);
    forall k | k in table ensures table[k] in cs {
      TableValues(snap, snapContent, k);
    }
    LoopKeepsParts(cs, snapContent, table, contents, supply);
    var loop := ChildrenLoop(cs, snapContent, table, contents, supply);
    if loop.Success? {
      CreatedFromSupply(snapContent, table, contents, supply);
      assert x !in multiset(Created(snapContent, table, contents, supply));
      PruneRemovesTrailingContent(loop.value, isContent, |contents|);
    }
  }

  lemma {:induction false} CreatedFromSupply<P, C(!new)>(snapContent: seq<Option<C>>, table: map<Option<C>, P>,
                                                            contents: seq<C>, supply: seq<P>)
    requires |supply| == |contents|
    ensures forall x :: x in Created(snapContent, table, contents, supply) ==> x in supply
  {
    if |contents| > 0 {
      var n := |contents| - 1;
      CreatedFromSupply(snapContent, table, contents[..n], supply[..n]);
      assert forall x :: x in supply[..n] ==> x in supply;
    }
  }

  /** A loop over objects each found in place by the quick check changes nothing. */
  lemma {:induction false} LoopInPlace<P, C(!new)>(cs: seq<P>, snapContent: seq<Option<C>>, table: map<Option<C>, P>,
                                                      contents: seq<C>, supply: seq<P>)
    requires |supply| == |contents| <= |snapContent|
    requires forall i :: 0 <= i < |contents| ==> snapContent[i] == Some(contents[i])
    ensures ChildrenLoop(cs, snapContent, table, contents, supply) == Success(cs)
  {
    if |contents| > 0 {
      var n := |contents| - 1;
      LoopInPlace(cs, snapContent, table, contents[..n], supply[..n]);
    }
  }

  /**
   * When the host's content-part children already carry the given contents
   * in order, synchronizeContentChildren leaves the children as they are.
   */
  lemma InSyncChangesNothing<P, C(!new)>(cs: seq<P>, isContent: P -> bool, snapContent: seq<Option<C>>,
                                            contents: seq<C>, supply: seq<P>)
    requires |snapContent| == |Filter(isContent, cs)| == |contents| == |supply|
    requires forall i :: 0 <= i < |contents| ==> snapContent[i] == Some(contents[i])
    ensures SyncChildren(cs, isContent, snapContent, contents, supply) == Success(cs)
  {
    LoopInPlace(cs, snapContent, Table(Filter(isContent, cs), snapContent), contents, supply);
    assert TrashOf(Filter(isContent, cs), |contents|) == [];
  }

  /**
   * synchronizeContentAnchored never reorders: the old anchoreds stay a
   * prefix, and each appended part was handed out for an object that no
   * snapshot part carries.
   */
  lemma {:induction false} AnchoredOnlyAppends<P, C(!new)>(anchoreds: seq<P>, snap: seq<P>, snapContent: seq<Option<C>>,
                                                          contents: seq<C>, supply: seq<P>)
    requires |snap| == |snapContent| && |supply| == |contents|
    ensures var a := AnchoredLoop(anchoreds, snapContent, Table(snap, snapContent), contents, supply);
            anchoreds <= a &&
            forall x :: x in a[|anchoreds|..] ==>
              exists j :: 0 <= j < |contents| && supply[j] == x && Some(contents[j]) !in snapContent
  {
    if |contents| > 0 {
      var n := |contents| - 1;
      var table := Table(snap, snapContent);
      AnchoredOnlyAppends(anchoreds, snap, snapContent, contents[..n], supply[..n]);
      var prev := AnchoredLoop(anchoreds, snapContent, table, contents[..n], supply[..n]);
      if NeedsAnchored(snapContent, table, contents[n], n) {
        assert (prev + [supply[n]])[|anchoreds|..] == prev[|anchoreds|..] + [supply[n]];
      }
    }
  }

  /** An anchored loop over objects each found in place appends nothing. */
  lemma {:induction false} AnchoredLoopInPlace<P, C(!new)>(anchoreds: seq<P>, snapContent: seq<Option<C>>, table: map<Option<C>, P>,
                                                          contents: seq<C>, supply: seq<P>)
    requires |supply| == |contents| <= |snapContent|
    requires forall i :: 0 <= i < |contents| ==> snapContent[i] == Some(contents[i])
    ensures AnchoredLoop(anchoreds, snapContent, table, contents, supply) == anchoreds
  {
    if |contents| > 0 {
      var n := |contents| - 1;
      AnchoredLoopInPlace(anchoreds, snapContent, table, contents[..n], supply[..n]);
    }
  }

  /**
   * When the content-part anchoreds already carry the given contents in
   * order, synchronizeContentAnchored leaves the anchoreds as they are.
   */
  lemma AnchoredInSyncChangesNothing<P, C(!new)>(anchoreds: seq<P>, isContent: P -> bool, snapContent: seq<Option<C>>,
                                                contents: seq<C>, supply: seq<P>)
    requires |snapContent| == |Filter(isContent, anchoreds)| == |contents| == |supply|
    requires forall i :: 0 <= i < |contents| ==> snapContent[i] == Some(contents[i])
    ensures SyncAnchored(anchoreds, isContent, snapContent, contents, supply) == anchoreds
  {
    AnchoredLoopInPlace(anchoreds, snapContent, Table(Filter(isContent, anchoreds), snapContent), contents, supply);
    assert TrashOf(Filter(isContent, anchoreds), |contents|) == [];
  }

  // ---------------------------------------------------------------------
  // Finding: the quick check reads a stale snapshot

  /**
   * As written: three content children carrying A, B, C, synchronised to
   * [C, B]. The reorder of C's part shifts A's part to position 1, where the
   * snapshot still says B; the quick check skips, and the pruning then
   * removes B's part. The children end carrying [C, A].
   */
  lemma StaleQuickCheckKeepsWrongPart()
    ensures SyncChildren([1, 2, 3], (p: int) => true, [Some('A'), Some('B'), Some('C')], ['C', 'B'], [0, 0])
              == Success([3, 1])
  {
    var isContent := (p: int) => true;
    StaleLoopAll(isContent);
    StalePrune(isContent);
  }

  lemma StaleLoopAll(isContent: int -> bool)
    requires forall p :: isContent(p)
    ensures var snapContent := [Some('A'), Some('B'), Some('C')];
            ChildrenLoop([1, 2, 3], snapContent, Table(Filter(isContent, [1, 2, 3]), snapContent), ['C', 'B'], [0, 0])
              == Success([3, 1, 2])
  {
    FilterAllPass(isContent, [1, 2, 3]);
    StaleLoop();
  }

  /** The pruning of the example: the content part at position 2 goes. */
  lemma StalePrune(isContent: int -> bool)
    requires forall p :: isContent(p)
    ensures RemoveEach([3, 1, 2], TrashOf(Filter(isContent, [3, 1, 2]), 2)) == [3, 1]
  {
    FilterAllPass(isContent, [3, 1, 2]);
    assert TrashOf([3, 1, 2], 2) == [2];
    assert RemoveFirst([3, 1, 2], 2) == [3, 1] by { assert IndexOf([3, 1, 2], 2) == 2; }
    assert RemoveEach([3, 1, 2], [2]) == RemoveEach([3, 1], []);
  }

  /** The loop of the example: C's part moves to the front, and B is skipped. */
  lemma StaleLoop()
    ensures ChildrenLoop([1, 2, 3], [Some('A'), Some('B'), Some('C')], Table([1, 2, 3], [Some('A'), Some('B'), Some('C')]),
                         ['C', 'B'], [0, 0]) == Success([3, 1, 2])
  {
    var cs, snapContent := [1, 2, 3], [Some('A'), Some('B'), Some('C')];
    var table := Table(cs, snapContent);
    StaleFirstRound();
    assert ChildAction(snapContent, table, 'B', 1) == Skip;
    assert ['C', 'B'][..1] == ['C'];
    assert [0, 0][..1] == [0];
  }

  lemma StaleFirstRound()
    ensures ChildrenLoop([1, 2, 3], [Some('A'), Some('B'), Some('C')], Table([1, 2, 3], [Some('A'), Some('B'), Some('C')]),
                         ['C'], [0]) == Success([3, 1, 2])
  {
    var cs, snapContent := [1, 2, 3], [Some('A'), Some('B'), Some('C')];
    var table := Table(cs, snapContent);
    assert LastIndexOf(snapContent, Some('C')) == 2;
    assert ChildAction(snapContent, table, 'C', 0) == Reorder(3);
    assert RemoveFirst(cs, 3) == [1, 2] by { assert IndexOf(cs, 3) == 2; }
    assert ['C'][..0] == [];
    assert InsertAt([1, 2], 0, 3) == [3, 1, 2];
  }

  /** The contents of a list of parts, position by position. */
  function ContentsOf<P, C>(contentOf: P -> Option<C>, ps: seq<P>): (r: seq<Option<C>>)
    ensures |r| == |ps|
    ensures forall j :: 0 <= j < |ps| ==> r[j] == contentOf(ps[j])
  {
    seq(|ps|, j requires 0 <= j < |ps| => contentOf(ps[j]))
  }

  /** Corrected loop: the quick check reads the live content-part children. */
  function ChildrenLoopLive<P(==), C(==, !new)>(cs: seq<P>, isContent: P -> bool, contentOf: P -> Option<C>,
                                               table: map<Option<C>, P>, contents: seq<C>, supply: seq<P>): Result<seq<P>>
    requires |supply| == |contents|
  {
    if |contents| == 0 then Success(cs)
    else
      var n := |contents| - 1;
      match ChildrenLoopLive(cs, isContent, contentOf, table, contents[..n], supply[..n])
      case Failure(e) => Failure(e)
      case Success(c) =>
        ApplyChild(c, ChildAction(ContentsOf(contentOf, Filter(isContent, c)), table, contents[n], n), n, supply[n])
  }

  /** Corrected synchronizeContentChildren: live quick check, same table and pruning. */
  function SyncChildrenLive<P(==), C(==, !new)>(cs: seq<P>, isContent: P -> bool, contentOf: P -> Option<C>,
                                               contents: seq<C>, supply: seq<P>): Result<seq<P>>
    requires |supply| == |contents|
  {
    var snap := Filter(isContent, cs);
    match ChildrenLoopLive(cs, isContent, contentOf, Table(snap, ContentsOf(contentOf, snap)), contents, supply)
    case Failure(e) => Failure(e)
    case Success(c) => Success(RemoveEach(c, TrashOf(Filter(isContent, c), |contents|)))
  }

  /** The first |contents| parts of c carry contents, in order. */
  ghost predicate CarriesPrefix<P, C>(c: seq<P>, contentOf: P -> Option<C>, contents: seq<C>)
  {
    |contents| <= |c| && forall j :: 0 <= j < |contents| ==> contentOf(c[j]) == Some(contents[j])
  }

  /** What holds of the children after each round of the corrected loop. */
  ghost predicate LiveLoopState<P, C(!new)>(c: seq<P>, cs: seq<P>, isContent: P -> bool, contentOf: P -> Option<C>,
                                                contents: seq<C>, used: seq<P>)
  {
    CarriesPrefix(c, contentOf, contents) && Distinct(c) &&
    (forall j :: 0 <= j < |c| ==> isContent(c[j])) &&
    (forall j :: 0 <= j < |cs| ==> cs[j] in c) &&
    (forall j :: 0 <= j < |c| ==> c[j] in cs || c[j] in used)
  }

  /** Removing the tail of a list without duplicates, entry by entry, leaves its head. */
  lemma {:induction false} RemoveTail<P>(s: seq<P>, n: nat)
    requires Distinct(s) && n <= |s|
    ensures RemoveEach(s, s[n..]) == s[..n]
    decreases |s| - n
  {
    if n < |s| {
      var x := s[n];
      assert x !in s[..n];
      assert IndexOf(s, x) == n;
      var t := s[..n] + s[n + 1..];
      assert RemoveFirst(s, x) == t;
      assert s[n..][1..] == t[n..];
      assert t[..n] == s[..n];
      RemoveTail(t, n);
    }
  }

  /** One round of the corrected loop keeps the loop state. */
  lemma LiveStep<P, C(!new)>(c: seq<P>, cs: seq<P>, isContent: P -> bool, contentOf: P -> Option<C>,
                            table: map<Option<C>, P>, contents: seq<C>, supply: seq<P>)
    requires |supply| == |contents| > 0
    requires forall k :: k in table ==> table[k] in cs && contentOf(table[k]) == k
    requires forall j :: 0 <= j < |supply| ==>
               isContent(supply[j]) && contentOf(supply[j]) == Some(contents[j]) && supply[j] !in cs
    requires Distinct(supply) && Distinct(contents)
    requires LiveLoopState(c, cs, isContent, contentOf, contents[..|contents| - 1], supply[..|contents| - 1])
    ensures var n := |contents| - 1;
            var r := ApplyChild(c, ChildAction(ContentsOf(contentOf, Filter(isContent, c)), table, contents[n], n), n, supply[n]);
            r.Success? && LiveLoopState(r.value, cs, isContent, contentOf, contents, supply)
  {
    var n := |contents| - 1;
    var live := ContentsOf(contentOf, Filter(isContent, c));
    assert live == ContentsOf(contentOf, c) by {
      FilterAllPass(isContent, c);
    }
    var a := ChildAction(live, table, contents[n], n);
    if a.Skip? {
      LiveSkip(c, cs, isContent, contentOf, contents, supply);
    } else if a.Reorder? {
      LiveReorder(c, cs, isContent, contentOf, contents, supply, a.part);
    } else {
      LiveInsert(c, cs, isContent, contentOf, contents, supply);
    }
  }

  /** The live quick check hits: the prefix grows by one. */
  lemma LiveSkip<P, C(!new)>(c: seq<P>, cs: seq<P>, isContent: P -> bool, contentOf: P -> Option<C>,
                            contents: seq<C>, supply: seq<P>)
    requires |supply| == |contents| > 0
    requires |contents| - 1 < |c| && contentOf(c[|contents| - 1]) == Some(contents[|contents| - 1])
    requires LiveLoopState(c, cs, isContent, contentOf, contents[..|contents| - 1], supply[..|contents| - 1])
    ensures LiveLoopState(c, cs, isContent, contentOf, contents, supply)
  {
    var n := |contents| - 1;
    assert forall x :: x in supply[..n] ==> x in supply;
  }

  /** A reorder in the corrected loop: the part carrying the object moves to n. */
  lemma LiveReorder<P, C(!new)>(c: seq<P>, cs: seq<P>, isContent: P -> bool, contentOf: P -> Option<C>,
                               contents: seq<C>, supply: seq<P>, p: P)
    requires |supply| == |contents| > 0
    requires p in cs && contentOf(p) == Some(contents[|contents| - 1])
    requires Distinct(contents)
    requires LiveLoopState(c, cs, isContent, contentOf, contents[..|contents| - 1], supply[..|contents| - 1])
    ensures var n := |contents| - 1;
            c != [] && n <= |RemoveFirst(c, p)| &&
            LiveLoopState(InsertAt(RemoveFirst(c, p), n, p), cs, isContent, contentOf, contents, supply)
  {
    var n := |contents| - 1;
    assert p in c;
    var k := IndexOf(c, p);
    assert forall j :: 0 <= j < n ==> c[j] != p by {
      forall j | 0 <= j < n ensures c[j] != p {
        assert contentOf(c[j]) == Some(contents[j]);
        assert contents[j] != contents[n];
      }
    }
    var r := RemoveFirst(c, p);
    var c' := InsertAt(r, n, p);
    assert CarriesPrefix(c', contentOf, contents) by {
      assert r == c[..k] + c[k + 1..];
      assert forall j :: 0 <= j < n ==> c'[j] == c[j];
      assert c'[n] == p;
    }
    assert Distinct(c') by {
      DistinctRemove(c, p);
      DistinctInsert(r, n, p);
    }
    assert forall x :: x in c' <==> x in c by {
      forall x ensures x in c' <==> x in c {
        InsertAtMembers(r, n, p, x);
        if x != p && x in r {
          RemoveFirstSubset(c, p, x);
        }
        if x != p && x in c {
          RemoveFirstKeepsOthers(c, p, x);
        }
      }
    }
    assert forall j :: 0 <= j < |c'| ==> isContent(c'[j]) by {
      forall j | 0 <= j < |c'| ensures isContent(c'[j]) {
        assert c'[j] in c';
      }
    }
    assert forall j :: 0 <= j < |cs| ==> cs[j] in c';
    assert forall j :: 0 <= j < |c'| ==> c'[j] in cs || c'[j] in supply by {
      forall j | 0 <= j < |c'| ensures c'[j] in cs || c'[j] in supply {
        assert c'[j] in c;
        var i :| 0 <= i < |c| && c[i] == c'[j];
        assert c[i] in supply[..n] ==> c[i] in supply;
      }
    }
  }

  /** An insertion in the corrected loop: the new part goes to n. */
  lemma LiveInsert<P, C(!new)>(c: seq<P>, cs: seq<P>, isContent: P -> bool, contentOf: P -> Option<C>,
                              contents: seq<C>, supply: seq<P>)
    requires |supply| == |contents| > 0
    requires forall j :: 0 <= j < |supply| ==>
               isContent(supply[j]) && contentOf(supply[j]) == Some(contents[j]) && supply[j] !in cs
    requires Distinct(supply)
    requires LiveLoopState(c, cs, isContent, contentOf, contents[..|contents| - 1], supply[..|contents| - 1])
    ensures var n := |contents| - 1;
            n <= |c| && LiveLoopState(InsertAt(c, n, supply[n]), cs, isContent, contentOf, contents, supply)
  {
    var n := |contents| - 1;
    var q := supply[n];
    assert q !in supply[..n];
    assert q !in c;
    var c' := InsertAt(c, n, q);
    assert CarriesPrefix(c', contentOf, contents) by {
      assert forall j :: 0 <= j < n ==> c'[j] == c[j];
      assert c'[n] == q;
    }
    assert Distinct(c') by {
      DistinctInsert(c, n, q);
    }
    forall j | 0 <= j < |c'|
      ensures isContent(c'[j]) && (c'[j] in cs || c'[j] in supply)
    {
      InsertAtMembers(c, n, q, c'[j]);
      if c'[j] != q {
        var i :| 0 <= i < |c| && c[i] == c'[j];
        assert c[i] in supply[..n] ==> c[i] in supply;
      }
    }
    forall j | 0 <= j < |cs|
      ensures cs[j] in c'
    {
      InsertAtMembers(c, n, q, cs[j]);
    }
  }

  /** The corrected loop runs to the end, keeping the loop state. */
  lemma {:induction false} LiveLoop<P, C(!new)>(cs: seq<P>, isContent: P -> bool, contentOf: P -> Option<C>,
                                               table: map<Option<C>, P>, contents: seq<C>, supply: seq<P>)
    requires |supply| == |contents|
    requires forall k :: k in table ==> table[k] in cs && contentOf(table[k]) == k
    requires forall j :: 0 <= j < |supply| ==>
               isContent(supply[j]) && contentOf(supply[j]) == Some(contents[j]) && supply[j] !in cs
    requires Distinct(cs) && Distinct(supply) && Distinct(contents)
    requires forall j :: 0 <= j < |cs| ==> isContent(cs[j])
    ensures var r := ChildrenLoopLive(cs, isContent, contentOf, table, contents, supply);
            r.Success? && LiveLoopState(r.value, cs, isContent, contentOf, contents, supply)
  {
    if |contents| > 0 {
      var n := |contents| - 1;
      LiveLoop(cs, isContent, contentOf, table, contents[..n], supply[..n]);
      var c := ChildrenLoopLive(cs, isContent, contentOf, table, contents[..n], supply[..n]).value;
      assert contents[..n][..n] == contents[..n] && supply[..n][..n] == supply[..n];
      LiveStep(c, cs, isContent, contentOf, table, contents, supply);
    }
  }

  /**
   * The corrected synchronisation converges: with distinct content objects,
   * content-part children without duplicates, and created parts that are new
   * and carry their object, the children end carrying exactly the given
   * contents, in order.
   */
  lemma SyncChildrenLiveConverges<P, C(!new)>(cs: seq<P>, isContent: P -> bool, contentOf: P -> Option<C>,
                                             contents: seq<C>, supply: seq<P>)
    requires |supply| == |contents|
    requires forall j :: 0 <= j < |cs| ==> isContent(cs[j])
    requires forall j :: 0 <= j < |supply| ==>
               isContent(supply[j]) && contentOf(supply[j]) == Some(contents[j]) && supply[j] !in cs
    requires Distinct(cs) && Distinct(supply) && Distinct(contents)
    ensures SyncChildrenLive(cs, isContent, contentOf, contents, supply).Success?
    ensures ContentsOf(contentOf, SyncChildrenLive(cs, isContent, contentOf, contents, supply).value)
              == seq(|contents|, j requires 0 <= j < |contents| => Some(contents[j]))
  {
    FilterAllPass(isContent, cs);
    var snapContent := ContentsOf(contentOf, cs);
    var table := Table(cs, snapContent);
    forall k | k in table ensures table[k] in cs && contentOf(table[k]) == k {
      var j := LastIndexOf(snapContent, k);
    }
    LiveLoop(cs, isContent, contentOf, table, contents, supply);
    var c := ChildrenLoopLive(cs, isContent, contentOf, table, contents, supply).value;
    FilterAllPass(isContent, c);
    var n := |contents|;
    if n < |c| {
      RemoveTail(c, n);
    } else {
      assert c[..n] == c;
    }
  }

  // ---------------------------------------------------------------------
  // Finding: appended anchoreds fall into the pruned tail

  /**
   * As written: one content anchored carrying A, synchronised to [B]. The
   * part for B is appended after A's part, and the pruning keeps the first
   * content anchored: A's part stays and B's part is removed again.
   */
  lemma AnchoredAppendThenPrune()
    ensures SyncAnchored([1], (p: int) => true, [Some('A')], ['B'], [2]) == [1]
  {
    var isContent := (p: int) => true;
    assert AnchoredLoop([1], [Some('A')], Table(Filter(isContent, [1]), [Some('A')]), ['B'], [2]) == [1, 2] by {
      FilterAllPass(isContent, [1]);
      assert ['B'][..0] == [];
      assert NeedsAnchored([Some('A')], Table([1], [Some('A')]), 'B', 0);
    }
    assert RemoveEach([1, 2], TrashOf(Filter(isContent, [1, 2]), 1)) == [1] by {
      FilterAllPass(isContent, [1, 2]);
      assert TrashOf([1, 2], 1) == [2];
      assert RemoveFirst([1, 2], 2) == [1] by { assert IndexOf([1, 2], 2) == 1; }
      assert RemoveEach([1, 2], [2]) == RemoveEach([1], []);
    }
  }

  /** A content part whose content is not among the given objects. */
  function Unlisted<P, C(==)>(isContent: P -> bool, contentOf: P -> Option<C>, contents: seq<C>): P -> bool
  {
    (x: P) => isContent(x) && (contentOf(x).None? || contentOf(x).value !in contents)
  }

  /**
   * Corrected synchronizeContentAnchored: the same appending loop, then the
   * removal of every content anchored whose content is not listed.
   */
  function SyncAnchoredByContent<P(==), C(==, !new)>(anchoreds: seq<P>, isContent: P -> bool, contentOf: P -> Option<C>,
                                                    contents: seq<C>, supply: seq<P>): seq<P>
    requires |supply| == |contents|
  {
    var snap := Filter(isContent, anchoreds);
    var snapContent := ContentsOf(contentOf, snap);
    var c := AnchoredLoop(anchoreds, snapContent, Table(snap, snapContent), contents, supply);
    RemoveEach(c, Filter(Unlisted(isContent, contentOf, contents), c))
  }

  /** Some content part in c carries m. */
  ghost predicate Carried<P, C>(c: seq<P>, isContent: P -> bool, contentOf: P -> Option<C>, m: C)
  {
    exists i :: 0 <= i < |c| && isContent(c[i]) && contentOf(c[i]) == Some(m)
  }

  /** After the appending loop, every given object is carried by some content anchored. */
  lemma {:induction false} AnchoredLoopCarries<P, C(!new)>(anchoreds: seq<P>, isContent: P -> bool, contentOf: P -> Option<C>,
                                                          contents: seq<C>, supply: seq<P>)
    requires |supply| == |contents|
    requires forall j :: 0 <= j < |supply| ==> isContent(supply[j]) && contentOf(supply[j]) == Some(contents[j])
    ensures var snap := Filter(isContent, anchoreds);
            var snapContent := ContentsOf(contentOf, snap);
            var c := AnchoredLoop(anchoreds, snapContent, Table(snap, snapContent), contents, supply);
            forall j :: 0 <= j < |contents| ==> Carried(c, isContent, contentOf, contents[j])
  {
    var snap := Filter(isContent, anchoreds);
    var snapContent := ContentsOf(contentOf, snap);
    var table := Table(snap, snapContent);
    if |contents| > 0 {
      var n := |contents| - 1;
      AnchoredLoopCarries(anchoreds, isContent, contentOf, contents[..n], supply[..n]);
      var prev := AnchoredLoop(anchoreds, snapContent, table, contents[..n], supply[..n]);
      var c := AnchoredLoop(anchoreds, snapContent, table, contents, supply);
      assert prev <= c;
      forall j | 0 <= j < n ensures Carried(c, isContent, contentOf, contents[j]) {
        assert Carried(prev, isContent, contentOf, contents[..n][j]);
        var i :| 0 <= i < |prev| && isContent(prev[i]) && contentOf(prev[i]) == Some(contents[j]);
        assert c[i] == prev[i];
      }
      var m := contents[n];
      if NeedsAnchored(snapContent, table, m, n) {
        assert c[|c| - 1] == supply[n];
      } else {
        FilterSatisfies(isContent, anchoreds);
        AnchoredOnlyAppends(anchoreds, snap, snapContent, contents, supply);
        var x := if n < |snapContent| && snapContent[n] == Some(m) then snap[n] else table[Some(m)];
        assert x in snap && contentOf(x) == Some(m) by {
          if !(n < |snapContent| && snapContent[n] == Some(m)) {
            TableValues(snap, snapContent, Some(m));
            assert snapContent[LastIndexOf(snapContent, Some(m))] == Some(m);
          }
        }
        assert x in anchoreds && isContent(x);
        var i :| 0 <= i < |anchoreds| && anchoreds[i] == x;
        assert c[i] == x;
      }
    }
  }

  /** Removing every part that fails a test drops exactly those parts. */
  lemma RemoveFiltered<P>(c: seq<P>, bad: P -> bool, x: P)
    ensures multiset(RemoveEach(c, Filter(bad, c)))[x] == if bad(x) then 0 else multiset(c)[x]
  {
    RemoveEachMultiset(c, Filter(bad, c));
    FilterMultiset(bad, c, x);
  }

  /**
   * The corrected synchronisation ends with the listed contents: every given
   * object is carried by a content anchored, and every content anchored
   * carries a given object.
   */
  lemma SyncAnchoredByContentExact<P, C(!new)>(anchoreds: seq<P>, isContent: P -> bool, contentOf: P -> Option<C>,
                                              contents: seq<C>, supply: seq<P>)
    requires |supply| == |contents|
    requires forall j :: 0 <= j < |supply| ==> isContent(supply[j]) && contentOf(supply[j]) == Some(contents[j])
    ensures var r := SyncAnchoredByContent(anchoreds, isContent, contentOf, contents, supply);
            (forall j :: 0 <= j < |contents| ==> Carried(r, isContent, contentOf, contents[j])) &&
            (forall i :: 0 <= i < |r| && isContent(r[i]) ==> contentOf(r[i]).Some? && contentOf(r[i]).value in contents)
  {
    var snap := Filter(isContent, anchoreds);
    var snapContent := ContentsOf(contentOf, snap);
    var c := AnchoredLoop(anchoreds, snapContent, Table(snap, snapContent), contents, supply);
    AnchoredLoopCarries(anchoreds, isContent, contentOf, contents, supply);
    PruneUnlistedExact(c, isContent, contentOf, contents);
  }

  /** The removal of the unlisted content parts keeps a carrier of every listed object and no other content part. */
  lemma PruneUnlistedExact<P, C(!new)>(c: seq<P>, isContent: P -> bool, contentOf: P -> Option<C>, contents: seq<C>)
    requires forall j :: 0 <= j < |contents| ==> Carried(c, isContent, contentOf, contents[j])
    ensures var r := RemoveEach(c, Filter(Unlisted(isContent, contentOf, contents), c));
            (forall j :: 0 <= j < |contents| ==> Carried(r, isContent, contentOf, contents[j])) &&
            (forall i :: 0 <= i < |r| && isContent(r[i]) ==> contentOf(r[i]).Some? && contentOf(r[i]).value in contents)
  {
    var bad := Unlisted(isContent, contentOf, contents);
    var r := RemoveEach(c, Filter(bad, c));
    forall j | 0 <= j < |contents| ensures Carried(r, isContent, contentOf, contents[j]) {
      assert Carried(c, isContent, contentOf, contents[j]);
      var i :| 0 <= i < |c| && isContent(c[i]) && contentOf(c[i]) == Some(contents[j]);
      assert !bad(c[i]);
      RemoveFiltered(c, bad, c[i]);
      assert c[i] in multiset(c);
      assert c[i] in multiset(r);
      var k :| 0 <= k < |r| && r[k] == c[i];
    }
    PruneKeepsListed(c, isContent, contentOf, contents);
  }

  lemma PruneKeepsListed<P, C(!new)>(c: seq<P>, isContent: P -> bool, contentOf: P -> Option<C>, contents: seq<C>)
    ensures var r := RemoveEach(c, Filter(Unlisted(isContent, contentOf, contents), c));
            forall i :: 0 <= i < |r| && isContent(r[i]) ==> contentOf(r[i]).Some? && contentOf(r[i]).value in contents
  {
    var bad := Unlisted(isContent, contentOf, contents);
    var r := RemoveEach(c, Filter(bad, c));
    forall i | 0 <= i < |r| && isContent(r[i]) ensures contentOf(r[i]).Some? && contentOf(r[i]).value in contents {
      assert multiset(r)[r[i]] > 0;
      RemoveFiltered(c, bad, r[i]);
    }
  }

}
