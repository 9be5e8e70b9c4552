/**
 * std::swap of two elements of a vector, shared by the particle
 * collections and the sorting algorithms.
 */
module Swaps {

  /** `s` with the elements at i and j exchanged. */
  function Swap<E>(s: seq<E>, i: nat, j: nat): (r: seq<E>)
    requires i < |s| && j < |s|
    ensures |r| == |s| && multiset(r) == multiset(s)
    ensures r[i] == s[j] && r[j] == s[i]
    ensures forall k :: 0 <= k < |s| && k != i && k != j ==> r[k] == s[k]
  {
    s[i := s[j]][j := s[i]]
  }

  /** Swapping the same pair twice restores the sequence. */
  lemma SwapTwice<E>(s: seq<E>, i: nat, j: nat)
    requires i < |s| && j < |s|
    ensures Swap(Swap(s, i, j), i, j) == s
  {
  }
}
