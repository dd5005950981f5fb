/**
 The two-pointer variant of "find k closest elements": start from the whole
 array and drop the end that is farther from `x` (the right end on a tie)
 until k elements remain. It returns the same sequence as the binary search.
 */
module TwoPointer {
  import opened WindowSpec

  /** Every element of `arr[lo..hi+1]` is preferred to (or as good as) every
      element already dropped from either end. */
  ghost predicate KeptBeatDropped(arr: seq<int>, x: int, lo: int, hi: int) {
    && 0 <= lo
    && hi < |arr|
    && forall i, j ::
      lo <= i <= hi && 0 <= j < |arr| && !(lo <= j <= hi) ==>
        NoFarther(arr[i], arr[j], x)
  }

  /** Dropping the left end when it is strictly farther than the right end:
      everything that stays is preferred to it. */
  lemma DropLeftIsSound(arr: seq<int>, x: int, lo: int, hi: int)
    requires Sorted(arr)
    requires 0 <= lo < hi < |arr|
    requires Dist(arr[lo], x) > Dist(arr[hi], x)
    ensures forall m :: lo < m <= hi ==> NoFarther(arr[m], arr[lo], x)
  {
    forall m | lo < m <= hi
      ensures NoFarther(arr[m], arr[lo], x)
    {
      assert arr[lo] <= arr[m] <= arr[hi];
    }
  }

  /** Dropping the right end when it is at least as far as the left end:
      everything that stays is preferred to it. */
  lemma DropRightIsSound(arr: seq<int>, x: int, lo: int, hi: int)
    requires Sorted(arr)
    requires 0 <= lo < hi < |arr|
    requires Dist(arr[lo], x) <= Dist(arr[hi], x)
    ensures forall m :: lo <= m < hi ==> NoFarther(arr[m], arr[hi], x)
  {
    forall m | lo <= m < hi
      ensures NoFarther(arr[m], arr[hi], x)
    {
      assert arr[lo] <= arr[m] <= arr[hi];
    }
  }

  /** The shrinking window: the result is the same sequence the binary
      search returns. */
  method FindClosestTwoPointer(arr: seq<int>, k: int, x: int) returns (r: seq<int>)
    requires Sorted(arr)
    requires 1 <= k <= |arr|
    ensures |r| == k
    ensures r == ClosestK(arr, k, x)
  {
    var left, right := 0, |arr| - 1;
    while right - left + 1 > k
      invariant 0 <= left <= right < |arr|
      invariant right - left + 1 >= k
      invariant KeptBeatDropped(arr, x, left, right)
      decreases right - left
    {
      if Dist(arr[left], x) > Dist(arr[right], x) {
        DropLeftIsSound(arr, x, left, right);
        left := left + 1;
      } else {
        DropRightIsSound(arr, x, left, right);
        right := right - 1;
      }
    }
    r := arr[left..right + 1];
    assert IsClosestWindow(arr, k, x, left);
  }
}
