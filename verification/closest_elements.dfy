/**
 `Solution.findClosestElements`: a binary search over the start of a
 length-k window of an ascending array, followed by the slice at that start.
 */
module ClosestElements {
  import opened WindowSpec

  /** The binary search: bisects the candidate starts `[0, |arr| - k]` on
      `ShiftRight` and returns the first start at which moving the window
      right does not help. */
  method FindWindowStart(arr: seq<int>, k: int, x: int) returns (left: int)
    requires Sorted(arr)
    requires 1 <= k <= |arr|
    ensures 0 <= left <= |arr| - k
    ensures forall i :: 0 <= i < left ==> ShiftRight(arr, k, x, i)
    ensures forall i :: left <= i < |arr| - k ==> !ShiftRight(arr, k, x, i)
    ensures left == FirstStart(arr, k, x)
    ensures IsClosestWindow(arr, k, x, left)
  {
    left := 0;
    var right := |arr| - k;
    while left < right
      invariant 0 <= left <= right <= |arr| - k
      invariant forall i :: 0 <= i < left ==> ShiftRight(arr, k, x, i)
      invariant forall i :: right <= i < |arr| - k ==> !ShiftRight(arr, k, x, i)
      decreases right - left
    {
      var mid := (left + right) / 2;
      if x - arr[mid] > arr[mid + k] - x {
        // Moving right helps from mid, hence from every start before it.
        forall i | left <= i <= mid
          ensures ShiftRight(arr, k, x, i)
        {
          ShiftRightMonotone(arr, k, x, i, mid);
        }
        left := mid + 1;
      } else {
        // Moving right does not help from mid, hence from no start after it.
        forall i | mid <= i < right
          ensures !ShiftRight(arr, k, x, i)
        {
          if ShiftRight(arr, k, x, i) {
            ShiftRightMonotone(arr, k, x, mid, i);
          }
        }
        right := mid;
      }
    }
    BoundaryIsFirstStart(arr, k, x, left);
    FirstStartIsClosest(arr, k, x);
  }

  /** The k elements of `arr` closest to `x`, in ascending order, ties to
      the smaller value. */
  method FindClosestElements(arr: seq<int>, k: int, x: int) returns (r: seq<int>)
    requires Sorted(arr)
    requires 1 <= k <= |arr|
    ensures |r| == k
    ensures Sorted(r)
    ensures exists lo :: IsClosestWindow(arr, k, x, lo) && r == arr[lo..lo + k]
    ensures r == ClosestK(arr, k, x)
  {
    var left := FindWindowStart(arr, k, x);
    r := arr[left..left + k];
  }
}
