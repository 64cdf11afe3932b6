/**
 * The list of registered `RequestManager`s that a Glide instance keeps, as pure
 * sequence operations: what `ArrayList.contains`, `ArrayList.add`,
 * `ArrayList.remove(Object)` and the search loop of `removeFromManagers` compute.
 */
module Managers {
  import opened Base

  /** A request manager, compared by identity (RequestManager keeps `Object.equals`). */
  datatype RequestManager = RequestManager(id: nat)

  /** Whatever a request manager may be tracking (a view target). */
  datatype Target = Target(id: nat)

  predicate NoDuplicates<X(==)>(s: seq<X>) {
    forall i, j :: 0 <= i < j < |s| ==> s[i] != s[j]
  }

  /** Position of the first occurrence of `x` in `s`. */
  function IndexOf<X(==)>(s: seq<X>, x: X): (i: nat)
    requires x in s
    ensures i < |s| && s[i] == x && x !in s[..i]
  {
    if s[0] == x then 0
    else
      var k := IndexOf(s[1..], x);
      assert s[..k + 1] == [s[0]] + s[1..][..k];
      k + 1
  }

  /** `List.remove(Object)`: drops the first occurrence of `x`, if any. */
  function RemoveFirst<X(==)>(s: seq<X>, x: X): (r: seq<X>)
    ensures x !in s ==> r == s
    ensures x in s ==> r == s[..IndexOf(s, x)] + s[IndexOf(s, x) + 1..]
  {
    if s == [] then []
    else if s[0] == x then s[1..]
    else
      var rest := RemoveFirst(s[1..], x);
      assert x in s ==> [s[0]] + rest == s[..IndexOf(s, x)] + s[IndexOf(s, x) + 1..] by {
        if x in s {
          IndexOfTail(s, x);
          ConsCut(s, IndexOf(s[1..], x));
        }
      }
      [s[0]] + rest
  }

  lemma IndexOfTail<X>(s: seq<X>, x: X)
    requires x in s && s[0] != x
    ensures x in s[1..] && IndexOf(s, x) == IndexOf(s[1..], x) + 1
  {
  }

  /** Cutting slot `k + 1` out of `s` is keeping `s[0]` and cutting slot `k` out of the tail. */
  lemma ConsCut<X>(s: seq<X>, k: nat)
    requires k + 1 < |s|
    ensures [s[0]] + (s[1..][..k] + s[1..][k + 1..]) == s[..k + 1] + s[k + 2..]
  {
    assert s[1..][..k] == s[1..k + 1];
    assert s[1..][k + 1..] == s[k + 2..];
    assert s[..k + 1] == [s[0]] + s[1..k + 1];
  }

  /**
   * Index of the first manager in list order whose `untrack(target)` answers true,
   * or None when none of them does.
   */
  function FirstAccepting(managers: seq<RequestManager>, target: Target,
                          untrack: (RequestManager, Target) -> bool): (r: Option<nat>)
    ensures r.Some? ==> r.value < |managers| && untrack(managers[r.value], target)
    ensures r.Some? ==> forall j :: 0 <= j < r.value ==> !untrack(managers[j], target)
    ensures r.None? <==> forall j :: 0 <= j < |managers| ==> !untrack(managers[j], target)
  {
    if managers == [] then None
    else if untrack(managers[0], target) then Some(0)
    else
      match FirstAccepting(managers[1..], target, untrack)
      case None => None
      case Some(k) => Some(k + 1)
  }

  /** Registering a manager that is not yet present keeps the list free of duplicates. */
  lemma AppendKeepsNoDuplicates<X>(s: seq<X>, x: X)
    requires NoDuplicates(s) && x !in s
    ensures NoDuplicates(s + [x])
  {
    forall i, j | 0 <= i < j < |s| + 1
      ensures (s + [x])[i] != (s + [x])[j]
    {
      if j == |s| {
        assert (s + [x])[i] == s[i];
      }
    }
  }

  /**
   * Unregistering a present manager from a duplicate-free list removes exactly that
   * manager: every other manager stays, the list stays duplicate-free, and the
   * survivors keep their relative order (they are the list with one slot cut out).
   */
  lemma {:induction false} RemovePresentExactly<X>(s: seq<X>, x: X)
    requires NoDuplicates(s) && x in s
    ensures |RemoveFirst(s, x)| == |s| - 1
    ensures x !in RemoveFirst(s, x)
    ensures forall y :: y != x ==> (y in RemoveFirst(s, x) <==> y in s)
    ensures NoDuplicates(RemoveFirst(s, x))
  {
    var i := IndexOf(s, x);
    CutOutLength(s, i);
    CutOutDropsOnlyIt(s, i);
    CutOutKeepsOthers(s, i);
    CutOutKeepsNoDuplicates(s, i);
  }

  lemma CutOutLength<X>(s: seq<X>, i: nat)
    requires i < |s|
    ensures |s[..i] + s[i + 1..]| == |s| - 1
  {
  }

  /** Cutting slot `i` out of a duplicate-free list leaves no copy of `s[i]`. */
  lemma CutOutDropsOnlyIt<X>(s: seq<X>, i: nat)
    requires NoDuplicates(s) && i < |s|
    ensures s[i] !in s[..i] + s[i + 1..]
  {
    var r := s[..i] + s[i + 1..];
    CutOut(s, i);
    forall k | 0 <= k < |r|
      ensures r[k] != s[i]
    {
      assert r[k] == s[if k < i then k else k + 1];
    }
  }

  /** Cutting slot `i` out of `s` keeps every value other than `s[i]`, and adds none. */
  lemma CutOutKeepsOthers<X>(s: seq<X>, i: nat)
    requires i < |s|
    ensures forall y :: y != s[i] ==> (y in s[..i] + s[i + 1..] <==> y in s)
  {
    var r := s[..i] + s[i + 1..];
    CutOut(s, i);
    forall y | y != s[i] && y in s
      ensures y in r
    {
      var k :| 0 <= k < |s| && s[k] == y;
      assert r[if k < i then k else k - 1] == y;
    }
  }

  /** Cutting a slot out of a duplicate-free list leaves it duplicate-free. */
  lemma CutOutKeepsNoDuplicates<X>(s: seq<X>, i: nat)
    requires NoDuplicates(s) && i < |s|
    ensures NoDuplicates(s[..i] + s[i + 1..])
  {
    var r := s[..i] + s[i + 1..];
    CutOut(s, i);
    forall a, b | 0 <= a < b < |r|
      ensures r[a] != r[b]
    {
      assert r[a] == s[if a < i then a else a + 1];
      assert r[b] == s[if b < i then b else b + 1];
    }
  }

  /** Cutting slot `i` out of `s`: the elements before it keep their index, the later ones move down by one. */
  lemma CutOut<X>(s: seq<X>, i: nat)
    requires i < |s|
    ensures forall k :: 0 <= k < |s| - 1 ==> (s[..i] + s[i + 1..])[k] == if k < i then s[k] else s[k + 1]
  {
  }

  /** Unregistering the manager just registered restores the previous list. */
  lemma {:induction false} RegisterThenUnregister<X>(s: seq<X>, x: X)
    requires x !in s
    ensures RemoveFirst(s + [x], x) == s
  {
    assert IndexOf(s + [x], x) == |s|;
    assert (s + [x])[..|s|] == s;
  }
}
