/** Sequence helpers standing for JavaScript's `Array.prototype.filter` and `Array.prototype.some`. */
module Seqs {

  /** `r` lists indices in strictly increasing order. */
  predicate StrictlyIncreasing(r: seq<nat>) {
    forall k, l :: 0 <= k < l < |r| ==> r[k] < r[l]
  }

  /** The elements of `s` that satisfy `p`, in their original order (`s.filter(p)`). */
  function Filter<T>(s: seq<T>, p: T -> bool): (r: seq<T>)
    ensures |r| <= |s|
    ensures forall x :: x in r ==> x in s && p(x)
    decreases |s|
  {
    if s == [] then []
    else Filter(s[..|s| - 1], p) + (if p(s[|s| - 1]) then [s[|s| - 1]] else [])
  }

  /** The positions in `s` of the elements that satisfy `p`, in increasing order. */
  function Indices<T>(s: seq<T>, p: T -> bool): (r: seq<nat>)
    ensures StrictlyIncreasing(r)
    ensures forall k :: 0 <= k < |r| ==> r[k] < |s| && p(s[r[k]])
    ensures forall i :: 0 <= i < |s| && p(s[i]) ==> i in r
    decreases |s|
  {
    if s == [] then []
    else Indices(s[..|s| - 1], p) + (if p(s[|s| - 1]) then [|s| - 1] else [])
  }

  /** Filtering keeps exactly the elements at `Indices(s, p)`: a subsequence, nothing added, nothing reordered. */
  lemma {:induction false} FilterIsSubsequence<T>(s: seq<T>, p: T -> bool)
    ensures |Filter(s, p)| == |Indices(s, p)|
    ensures forall k :: 0 <= k < |Filter(s, p)| ==> Filter(s, p)[k] == s[Indices(s, p)[k]]
    decreases |s|
  {
    if s != [] {
      var init := s[..|s| - 1];
      FilterIsSubsequence(init, p);
      assert forall i :: 0 <= i < |init| ==> init[i] == s[i];
    }
  }

  /** The first element kept by a filter is the first element of `s` that satisfies `p`. */
  lemma FilterHead<T>(s: seq<T>, p: T -> bool)
    ensures Filter(s, p) == [] <==> forall i :: 0 <= i < |s| ==> !p(s[i])
    ensures Filter(s, p) != [] ==>
      exists i :: 0 <= i < |s| && p(s[i]) && Filter(s, p)[0] == s[i] && forall j :: 0 <= j < i ==> !p(s[j])
  {
    FilterIsSubsequence(s, p);
    var idx := Indices(s, p);
    if Filter(s, p) != [] {
      var i := idx[0];
      assert forall j :: 0 <= j < i ==> j !in idx;
    }
  }

  /** Whether some element of `s` satisfies `p` (`s.some(p)`). */
  function Any<T>(s: seq<T>, p: T -> bool): (r: bool)
    ensures r <==> exists i :: 0 <= i < |s| && p(s[i])
    decreases |s|
  {
    if s == [] then false
    else p(s[0]) || Any(s[1..], p)
  }
}
