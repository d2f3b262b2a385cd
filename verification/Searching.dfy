/** The binary searches of the standard library on increasing lists. */
module Searching {

  predicate Increasing(indices: seq<int>) {
    forall i :: 0 < i < |indices| ==> indices[i - 1] < indices[i]
  }

  /** indices.binary_search(&index).is_ok() on indices[lo..hi]. */
  predicate BinarySearch(indices: seq<int>, index: int, lo: nat, hi: nat)
    requires lo <= hi <= |indices|
    decreases hi - lo
  {
    if lo == hi then false
    else
      var mid := lo + (hi - lo) / 2;
      if indices[mid] == index then true
      else if indices[mid] < index then BinarySearch(indices, index, mid + 1, hi)
      else BinarySearch(indices, index, lo, mid)
  }

  /** indices.partition_point(|n| *n <= index) on indices[lo..hi]. */
  function PartitionPoint(indices: seq<int>, index: int, lo: nat, hi: nat): (k: nat)
    requires lo <= hi <= |indices|
    ensures lo <= k <= hi
    decreases hi - lo
  {
    if lo == hi then lo
    else
      var mid := lo + (hi - lo) / 2;
      if indices[mid] <= index then PartitionPoint(indices, index, mid + 1, hi)
      else PartitionPoint(indices, index, lo, mid)
  }

  lemma {:induction false} IncreasingPair(indices: seq<int>, i: nat, j: nat)
    requires Increasing(indices) && i < j < |indices|
    ensures indices[i] < indices[j]
    decreases j
  {
    if i + 1 < j {
      IncreasingPair(indices, i, j - 1);
    }
  }

  lemma {:induction false} BinarySearchFinds(indices: seq<int>, index: int, lo: nat, hi: nat)
    requires lo <= hi <= |indices| && Increasing(indices)
    ensures BinarySearch(indices, index, lo, hi) <==> exists k :: lo <= k < hi && indices[k] == index
    decreases hi - lo
  {
    if lo < hi {
      var mid := lo + (hi - lo) / 2;
      BinarySearchFinds(indices, index, mid + 1, hi);
      BinarySearchFinds(indices, index, lo, mid);
      forall k | lo <= k < hi && k != mid
        ensures k < mid ==> indices[k] < indices[mid]
        ensures mid < k ==> indices[mid] < indices[k]
      {
        if k < mid {
          IncreasingPair(indices, k, mid);
        } else {
          IncreasingPair(indices, mid, k);
        }
      }
    }
  }

  lemma {:induction false} PartitionPointSplits(indices: seq<int>, index: int, lo: nat, hi: nat)
    requires lo <= hi <= |indices| && Increasing(indices)
    ensures
      var k := PartitionPoint(indices, index, lo, hi);
      (forall i :: lo <= i < k ==> indices[i] <= index) && (forall i :: k <= i < hi ==> index < indices[i])
    decreases hi - lo
  {
    if lo < hi {
      var mid := lo + (hi - lo) / 2;
      PartitionPointSplits(indices, index, mid + 1, hi);
      PartitionPointSplits(indices, index, lo, mid);
      forall k | lo <= k < hi && k != mid
        ensures k < mid ==> indices[k] < indices[mid]
        ensures mid < k ==> indices[mid] < indices[k]
      {
        if k < mid {
          IncreasingPair(indices, k, mid);
        } else {
          IncreasingPair(indices, mid, k);
        }
      }
    }
  }
}
