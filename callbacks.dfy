/**
  Callback lists. A callback is an opaque handle compared by equality (the
  delegate equality that List.Remove uses), so the same handle may appear
  several times in one list.
 */
module Callbacks {

  type CallbackId(==, !new)

  /** The position of the first occurrence of `x` in `s`. */
  function IndexOf(s: seq<CallbackId>, x: CallbackId): (i: nat)
    requires x in s
    ensures i < |s| && s[i] == x
    ensures x !in s[..i]
  {
    if s[0] == x then 0 else 1 + IndexOf(s[1..], x)
  }

  /**
    List.Remove: drops the first element equal to `x`, or leaves the list as it
    is when there is none.
   */
  function RemoveFirst(s: seq<CallbackId>, x: CallbackId): (r: seq<CallbackId>)
    ensures x !in s ==> r == s
    ensures x in s ==> r == s[..IndexOf(s, x)] + s[IndexOf(s, x) + 1..]
  {
    if s == [] then []
    else if s[0] == x then s[1..]
    else [s[0]] + RemoveFirst(s[1..], x)
  }

  /** Removal takes away exactly one occurrence of `x` when there is one, and nothing else. */
  lemma RemoveFirstMultiset(s: seq<CallbackId>, x: CallbackId)
    requires x in s
    ensures multiset(s) == multiset(RemoveFirst(s, x)) + multiset{x}
  {
    var i := IndexOf(s, x);
    var before, after := s[..i], s[i + 1..];
    assert s == before + [x] + after;
    assert RemoveFirst(s, x) == before + after;
    assert multiset(s) == multiset(before) + multiset{x} + multiset(after);
  }

  /** Removal shortens the list by one exactly when `x` occurs in it. */
  lemma RemoveFirstLength(s: seq<CallbackId>, x: CallbackId)
    ensures |RemoveFirst(s, x)| == if x in s then |s| - 1 else |s|
  {
  }

  /** Removal empties a list only when that list was the single element `x` or was already empty. */
  lemma RemoveFirstEmpty(s: seq<CallbackId>, x: CallbackId)
    ensures RemoveFirst(s, x) == [] <==> s == [] || s == [x]
  {
    if x in s {
      RemoveFirstLength(s, x);
      if |s| == 1 {
        assert s[0] == x;
        assert s == [x];
      }
    }
  }

  /** Removing a callback just appended to a list that did not hold it gives back the list. */
  lemma RemoveFirstAppended(s: seq<CallbackId>, x: CallbackId)
    requires x !in s
    ensures RemoveFirst(s + [x], x) == s
  {
    assert IndexOf(s + [x], x) == |s|;
    assert (s + [x])[..|s|] == s;
  }
}
