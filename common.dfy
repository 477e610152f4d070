// Shared vocabulary: optional values, Java exceptions, java.util.List
// operations on sequences, and Java's 32-bit int arithmetic.

module Wrappers {

  datatype Option<T> = None | Some(value: T)

  /** The unchecked Java exceptions that the modelled code throws or lets escape. */
  datatype JavaException =
    | IllegalArgument
    | NullPointer
    | IndexOutOfBounds
    /** org.eclipse.core.runtime.AssertionFailedException, thrown by Assert.isNotNull. */
    | AssertionFailed
    | ClassCast

  /** A value, or the exception thrown instead of returning one. */
  datatype Result<T> = Success(value: T) | Failure(error: JavaException)

  /** The outcome of a void Java method: normal completion or an exception. */
  datatype Outcome = Pass | Fail(error: JavaException)
}

/** java.util.List operations, read on immutable sequences. */
module Lists {

  /** List.indexOf: the first position of x, or -1. */
  function IndexOf<T(==)>(s: seq<T>, x: T): (r: int)
    ensures -1 <= r < |s|
    ensures r == -1 <==> x !in s
    ensures 0 <= r ==> s[r] == x && x !in s[..r]
  {
    if |s| == 0 then -1
    else if s[0] == x then 0
    else
      var k := IndexOf(s[1..], x);
      assert k >= 0 ==> s[1..][..k] == s[1..k + 1];
      if k < 0 then -1 else k + 1
  }

  /** List.remove(Object): drops the first occurrence of x, if any. */
  function RemoveFirst<T(==)>(s: seq<T>, x: T): seq<T>
  {
    var k := IndexOf(s, x);
    if k < 0 then s else s[..k] + s[k + 1..]
  }

  /** List.add(int, E): inserts x so that it sits at position i. */
  function InsertAt<T>(s: seq<T>, i: nat, x: T): seq<T>
    requires i <= |s|
  {
    s[..i] + [x] + s[i..]
  }

  /** The elements of s that satisfy p, in their original order. */
  function Filter<T>(p: T -> bool, s: seq<T>): seq<T>
  {
    if |s| == 0 then []
    else if p(s[0]) then [s[0]] + Filter(p, s[1..])
    else Filter(p, s[1..])
  }

  /** How many elements of s satisfy p. */
  function Count<T>(p: T -> bool, s: seq<T>): nat
  {
    if |s| == 0 then 0
    else (if p(s[0]) then 1 else 0) + Count(p, s[1..])
  }

  /** Removing x keeps every other element, in the same relative order. */
  lemma RemoveFirstKeepsOthers<T>(s: seq<T>, x: T, y: T)
    requires y in s && y != x
    ensures y in RemoveFirst(s, x)
  {
    var k := IndexOf(s, x);
    if k >= 0 {
      var j :| 0 <= j < |s| && s[j] == y;
      assert j != k;
      if j < k {
        assert RemoveFirst(s, x)[j] == y;
      } else {
        assert RemoveFirst(s, x)[j - 1] == y;
      }
    }
  }

  lemma RemoveFirstLength<T>(s: seq<T>, x: T)
    ensures |RemoveFirst(s, x)| == if x in s then |s| - 1 else |s|
  {
  }

  lemma RemoveFirstSubset<T>(s: seq<T>, x: T, y: T)
    requires y in RemoveFirst(s, x)
    ensures y in s
  {
    var k := IndexOf(s, x);
    if k >= 0 {
      assert y in s[..k] || y in s[k + 1..];
    }
  }

  /** List.remove(Object) takes away exactly one occurrence, when there is one. */
  lemma RemoveFirstMultiset<T>(s: seq<T>, x: T)
    ensures multiset(RemoveFirst(s, x)) == multiset(s) - multiset{x}
  {
    var k := IndexOf(s, x);
    if k >= 0 {
      assert s == s[..k] + [x] + s[k + 1..];
      assert multiset(s) == multiset(s[..k]) + multiset{x} + multiset(s[k + 1..]);
    } else {
      assert multiset(s)[x] == 0;
    }
  }

  lemma InsertAtMultiset<T>(s: seq<T>, i: nat, x: T)
    requires i <= |s|
    ensures multiset(InsertAt(s, i, x)) == multiset(s) + multiset{x}
  {
    assert s == s[..i] + s[i..];
  }

  /** Removing an element that was just inserted, and was not there before, gives back the list. */
  lemma InsertThenRemove<T>(s: seq<T>, i: nat, x: T)
    requires i <= |s| && x !in s
    ensures RemoveFirst(InsertAt(s, i, x), x) == s
  {
    var t := InsertAt(s, i, x);
    assert t[i] == x;
    assert x !in t[..i] by {
      assert t[..i] == s[..i];
    }
    assert IndexOf(t, x) == i;
    assert t[..i] + t[i + 1..] == s[..i] + s[i..];
    assert s == s[..i] + s[i..];
  }

  /** Moving an element of s to position i keeps the elements and puts it at i. */
  lemma MoveKeepsElements<T>(s: seq<T>, x: T, i: nat)
    requires x in s && i < |s|
    ensures |RemoveFirst(s, x)| == |s| - 1
    ensures multiset(InsertAt(RemoveFirst(s, x), i, x)) == multiset(s)
    ensures InsertAt(RemoveFirst(s, x), i, x)[i] == x
  {
    RemoveFirstLength(s, x);
    RemoveFirstMultiset(s, x);
    InsertAtMultiset(RemoveFirst(s, x), i, x);
    assert x in multiset(s);
  }

  lemma InsertAtMembers<T>(s: seq<T>, i: nat, x: T, y: T)
    requires i <= |s|
    ensures y in InsertAt(s, i, x) <==> y == x || y in s
  {
    assert s == s[..i] + s[i..];
  }

  lemma {:induction false} FilterSatisfies<T>(p: T -> bool, s: seq<T>)
    ensures forall x :: x in Filter(p, s) ==> p(x) && x in s
    ensures forall x :: x in s && p(x) ==> x in Filter(p, s)
    ensures |Filter(p, s)| == Count(p, s) <= |s|
  {
    if |s| > 0 {
      FilterSatisfies(p, s[1..]);
    }
  }

  lemma {:induction false} FilterAppend<T>(p: T -> bool, s: seq<T>, t: seq<T>)
    ensures Filter(p, s + t) == Filter(p, s) + Filter(p, t)
  {
    if |s| == 0 {
      assert s + t == t;
    } else {
      assert (s + t)[1..] == s[1..] + t;
      FilterAppend(p, s[1..], t);
    }
  }

  lemma {:induction false} FilterIdempotent<T>(p: T -> bool, s: seq<T>)
    ensures Filter(p, Filter(p, s)) == Filter(p, s)
  {
    if |s| > 0 {
      FilterIdempotent(p, s[1..]);
      if p(s[0]) {
        assert ([s[0]] + Filter(p, s[1..]))[1..] == Filter(p, s[1..]);
      }
    }
  }

  lemma {:induction false} FilterAllPass<T>(p: T -> bool, s: seq<T>)
    requires forall i :: 0 <= i < |s| ==> p(s[i])
    ensures Filter(p, s) == s
  {
    if |s| > 0 {
      FilterAllPass(p, s[1..]);
    }
  }

  /** Filter keeps every occurrence of an element that passes and none of one that fails. */
  lemma {:induction false} FilterMultiset<T>(p: T -> bool, s: seq<T>, x: T)
    ensures multiset(Filter(p, s))[x] == if p(x) then multiset(s)[x] else 0
  {
    if |s| > 0 {
      FilterMultiset(p, s[1..], x);
      assert s == [s[0]] + s[1..];
    }
  }

  /** No element occurs twice. */
  predicate Distinct<T(==)>(s: seq<T>)
  {
    forall i, j :: 0 <= i < j < |s| ==> s[i] != s[j]
  }

  /** Removing an element from a list without duplicates leaves none, and no copy of it. */
  lemma DistinctRemove<T>(s: seq<T>, x: T)
    requires Distinct(s)
    ensures Distinct(RemoveFirst(s, x)) && x !in RemoveFirst(s, x)
  {
    var k := IndexOf(s, x);
    if k >= 0 {
      var r := RemoveFirst(s, x);
      assert forall i :: 0 <= i < |r| ==> r[i] == s[if i < k then i else i + 1];
    }
  }

  /** Inserting a new element into a list without duplicates leaves none. */
  lemma DistinctInsert<T>(s: seq<T>, i: nat, x: T)
    requires Distinct(s) && x !in s && i <= |s|
    ensures Distinct(InsertAt(s, i, x))
  {
    var r := InsertAt(s, i, x);
    assert forall j :: 0 <= j < |r| ==> r[j] == if j < i then s[j] else if j == i then x else s[j - 1];
  }

  lemma {:induction false} CountAppend<T>(p: T -> bool, s: seq<T>, t: seq<T>)
    ensures Count(p, s + t) == Count(p, s) + Count(p, t)
  {
    if |s| == 0 {
      assert s + t == t;
    } else {
      assert (s + t)[1..] == s[1..] + t;
      CountAppend(p, s[1..], t);
    }
  }

  lemma {:induction false} CountPrefixStep<T>(p: T -> bool, s: seq<T>, i: nat)
    requires i < |s|
    ensures Count(p, s[..i + 1]) == Count(p, s[..i]) + (if p(s[i]) then 1 else 0)
  {
    assert s[..i + 1] == s[..i] + [s[i]];
    CountAppend(p, s[..i], [s[i]]);
  }

  lemma {:induction false} CountBound<T>(p: T -> bool, s: seq<T>)
    ensures Count(p, s) <= |s|
  {
    if |s| > 0 {
      CountBound(p, s[1..]);
    }
  }
}

/** Java's 32-bit two's-complement int arithmetic. */
module JavaInts {

  const TWO_32: int := 0x1_0000_0000
  const INT_MIN: int := -0x8000_0000
  const INT_MAX: int := 0x7fff_ffff

  predicate IsInt32(x: int) { INT_MIN <= x <= INT_MAX }

  /** The int value a Java int expression with mathematical value x evaluates to. */
  function Wrap(x: int): (r: int)
    ensures IsInt32(r)
    ensures (x - r) % TWO_32 == 0
    ensures IsInt32(x) ==> r == x
  {
    (x - INT_MIN) % TWO_32 + INT_MIN
  }

  /** Wrapping after every step of a sum of products equals wrapping once at the end. */
  lemma WrapAbsorbs(x: int, y: int, k: int)
    ensures Wrap(k * Wrap(x) + y) == Wrap(k * x + y)
  {
    var d := x - Wrap(x);
    assert d % TWO_32 == 0;
    var q := d / TWO_32;
    assert d == q * TWO_32;
    assert k * x + y == (k * Wrap(x) + y) + (k * q) * TWO_32;
    ShiftInvariant(k * Wrap(x) + y, k * q);
  }

  lemma ShiftInvariant(a: int, m: int)
    ensures Wrap(a + m * TWO_32) == Wrap(a)
  {
    assert (a + m * TWO_32 - INT_MIN) % TWO_32 == (a - INT_MIN) % TWO_32;
  }

  /** String.hashCode: s[0]*31^(n-1) + ... + s[n-1], in int arithmetic. */
  function StringHash(s: string): (r: int)
    ensures IsInt32(r)
  {
    if |s| == 0 then 0 else Wrap(31 * StringHash(s[..|s| - 1]) + s[|s| - 1] as int)
  }
}
