/** Ownership lookup on the ring. The ring's hash values are searched with an
    external binary search; this module states its contract: the position of
    the first point whose hash value is at least the request hash, wrapping to
    position 0 when there is none. */
module RingSearch {
  import opened RingTypes

  /** The ring's order: strictly ascending, hence pairwise distinct, hash values. */
  ghost predicate StrictlyAscending(hs: seq<uint64>)
  {
    forall i, j :: 0 <= i < j < |hs| ==> hs[i] < hs[j]
  }

  /** First position at or after `from` whose value is at least h, or |hs| when none is. */
  function FirstAtLeastFrom(hs: seq<uint64>, h: uint64, from: nat): (i: nat)
    requires from <= |hs|
    ensures from <= i <= |hs|
    ensures forall k :: from <= k < i ==> hs[k] < h
    ensures i < |hs| ==> hs[i] >= h
    decreases |hs| - from
  {
    if from == |hs| then |hs|
    else if hs[from] >= h then from
    else FirstAtLeastFrom(hs, h, from + 1)
  }

  /** `search.BinarySearch(ring, h)` as its callers rely on it. */
  function BinarySearch(hs: seq<uint64>, h: uint64): (i: nat)
    requires |hs| > 0
    ensures i < |hs|
    ensures (exists k :: 0 <= k < |hs| && hs[k] >= h) ==>
              hs[i] >= h && forall k :: 0 <= k < i ==> hs[k] < h
    ensures (forall k :: 0 <= k < |hs| ==> hs[k] < h) ==> i == 0
  {
    var i := FirstAtLeastFrom(hs, h, 0);
    if i == |hs| then 0 else i
  }

  /** On a sorted ring the owner is the clockwise successor of h: the point with
      the smallest hash value at least h, or point 0 when h is above every point. */
  lemma OwnerIsClockwiseSuccessor(hs: seq<uint64>, h: uint64)
    requires |hs| > 0 && StrictlyAscending(hs)
    ensures var i := BinarySearch(hs, h);
      (hs[|hs| - 1] >= h ==> hs[i] >= h && forall k :: 0 <= k < |hs| && hs[k] >= h ==> hs[i] <= hs[k])
      && (hs[|hs| - 1] < h ==> i == 0)
  {
    var i := BinarySearch(hs, h);
    if hs[|hs| - 1] >= h {
      forall k | 0 <= k < |hs| && hs[k] >= h ensures hs[i] <= hs[k] {
        if i < k {
          assert hs[i] < hs[k];
        }
      }
    } else {
      forall k | 0 <= k < |hs| ensures hs[k] < h {
        if k < |hs| - 1 {
          assert hs[k] < hs[|hs| - 1];
        }
      }
    }
  }
}
