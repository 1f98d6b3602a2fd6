/** Value-level meaning of the list traversals of threadsafe_list.h: which elements
    `remove_if` keeps, and where `find_first_if` stops.  The heap model in
    threadsafe_list.dfy is proved against these functions. */
module ListSpec {

  /** The elements of `s` that do not satisfy `p`, in their original order. */
  function RemoveMatching<T>(p: T -> bool, s: seq<T>): (r: seq<T>)
    ensures |r| <= |s|
    decreases |s|
  {
    if s == [] then [] else (if p(s[0]) then [] else [s[0]]) + RemoveMatching(p, s[1..])
  }

  /** Position of the first element of `s` satisfying `p`, or `|s|` when there is none. */
  function IndexOfFirst<T>(p: T -> bool, s: seq<T>): (k: nat)
    ensures k <= |s|
    ensures k < |s| ==> p(s[k])
    ensures forall j :: 0 <= j < k ==> !p(s[j])
    decreases |s|
  {
    if s == [] then 0 else if p(s[0]) then 0 else 1 + IndexOfFirst(p, s[1..])
  }

  /** Removing from a concatenation removes from each part separately. */
  lemma {:induction false} RemoveMatchingAppend<T>(p: T -> bool, a: seq<T>, b: seq<T>)
    ensures RemoveMatching(p, a + b) == RemoveMatching(p, a) + RemoveMatching(p, b)
    decreases |a|
  {
    if a == [] {
      assert a + b == b;
    } else {
      assert (a + b)[1..] == a[1..] + b;
      RemoveMatchingAppend(p, a[1..], b);
    }
  }

  /** No element left behind satisfies `p`, including the later members of a run of
      adjacent matches. */
  lemma {:induction false} RemoveMatchingNoneLeft<T>(p: T -> bool, s: seq<T>)
    ensures forall i :: 0 <= i < |RemoveMatching(p, s)| ==> !p(RemoveMatching(p, s)[i])
    decreases |s|
  {
    if s != [] {
      RemoveMatchingNoneLeft(p, s[1..]);
    }
  }

  /** An element survives exactly when it was present and does not satisfy `p`. */
  lemma {:induction false} RemoveMatchingMembers<T>(p: T -> bool, s: seq<T>, x: T)
    ensures x in RemoveMatching(p, s) <==> x in s && !p(x)
    decreases |s|
  {
    if s != [] {
      RemoveMatchingMembers(p, s[1..], x);
      assert s == [s[0]] + s[1..];
    }
  }

  /** Nothing is removed exactly when no element satisfies `p`. */
  lemma {:induction false} RemoveMatchingNothing<T>(p: T -> bool, s: seq<T>)
    ensures RemoveMatching(p, s) == s <==> forall i :: 0 <= i < |s| ==> !p(s[i])
    decreases |s|
  {
    if s != [] {
      RemoveMatchingNothing(p, s[1..]);
      if p(s[0]) {
        assert |RemoveMatching(p, s)| < |s|;
      } else {
        assert s == [s[0]] + s[1..];
        assert forall i :: 1 <= i < |s| ==> s[i] == s[1..][i - 1];
      }
    }
  }

  /** A second removal with the same predicate removes nothing. */
  lemma RemoveMatchingIdempotent<T>(p: T -> bool, s: seq<T>)
    ensures RemoveMatching(p, RemoveMatching(p, s)) == RemoveMatching(p, s)
  {
    RemoveMatchingNoneLeft(p, s);
    RemoveMatchingNothing(p, RemoveMatching(p, s));
  }

  /** After removing the elements satisfying `p`, a search for `p` finds nothing. */
  lemma SearchAfterRemoveFindsNothing<T>(p: T -> bool, s: seq<T>)
    ensures IndexOfFirst(p, RemoveMatching(p, s)) == |RemoveMatching(p, s)|
  {
    RemoveMatchingNoneLeft(p, s);
  }
}
