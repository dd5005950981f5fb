# Find k closest elements

A Dafny model of `Solution.findClosestElements`: given an ascending integer
array `arr`, a window size `k` and a target `x`, return the `k` elements of
`arr` closest to `x`, in ascending order, with ties going to the smaller
value.

The implementation bisects the candidate window starts `[0, |arr| - k]`. At a
midpoint `mid` it asks whether the element just past the window's right edge,
`arr[mid + k]`, is strictly closer to `x` than the window's left element
`arr[mid]` (the signed test `x - arr[mid] > arr[mid + k] - x`). If so the
search moves right of `mid`, otherwise it keeps `mid` as the upper bound. It
returns the slice of length `k` at the converged start.

Modules:

- `WindowSpec` (window_spec.dfy): the vocabulary and the reference answer.
  - `Sorted` and `Dist` (`abs(a - x)`).
  - `NoFarther`: the preference order, by distance and then by the smaller value.
  - `ShiftRight`: the search's decision at one start.
  - `IsClosestWindow`: every element inside the window is preferred to every element outside it.
  - A linear scan, `ScanFrom` and `FirstStart`, for the first start where moving right does not help.
  - `ClosestK`: the unique answer.
- `ClosestElements` (closest_elements.dfy): the binary search, `FindWindowStart`, and the slice, `FindClosestElements`.
- `TwoPointer` (two_pointer.dfy): the shrinking-window variant that the source keeps as commented-out code. It is proved to return the same sequence.
- `LiteralCases` (literal_cases.dfy): the five worked examples of the demonstration harness.

The main chain of results is:

1. `ShiftRight` holds on a prefix of the starts and fails after it.
2. The binary search therefore stops at the boundary of that prefix, the same start the linear scan finds.
3. A window whose start sits on that boundary holds k closest elements.
4. Any two windows of k closest elements hold the same sequence. So `ClosestK` is well defined, and both implementations return it.

Python integers are unbounded, as are Dafny's. The midpoint `(left + right) // 2` is taken on non-negative operands, so floor division and Dafny's `/` agree there.

## Model

| member | source | states |
|---|---|---|
| WindowSpec.ShiftRightMonotone | Ex2_find_k_closest_elements.py:28-33 | On a sorted array, if moving the window right helps from start `j`, it helps from every earlier start. The search's decision is true on a prefix of the starts and false after it. |
| WindowSpec.ScanFrom | Ex2_find_k_closest_elements.py:28-33 | A linear reference for the search. It returns a start `s` in `[i, |arr|-k]` such that moving right helps at every start in `[i, s)` and does not help at `s` itself, unless `s` is the last start. |
| WindowSpec.FirstStart | Ex2_find_k_closest_elements.py:27-33 | Over the whole start range `[0, |arr|-k]`, it returns the start where moving right helps before it and does not help at it. |
| WindowSpec.BoundaryIsFirstStart | Ex2_find_k_closest_elements.py:28-33 | Any start with that boundary property is the start the linear scan returns. The boundary is unique. |
| WindowSpec.BoundaryIsClosest | Ex2_find_k_closest_elements.py:28-34 | On a sorted array, a start where moving right helps at the previous start and does not help at this one bounds a window in which every element is preferred to every element outside it. Preference is by distance, and ties go to the smaller value. |
| WindowSpec.FirstStartIsClosest | Ex2_find_k_closest_elements.py:27-34 | The boundary start bounds a window of k closest elements. |
| WindowSpec.ClosestWindowUnique | Ex2_find_k_closest_elements.py:49-51 | Any two windows of k closest elements hold equal sequences, even when duplicates make several starts qualify. |
| WindowSpec.ClosestK | Ex2_find_k_closest_elements.py:3 | The answer has exactly k elements and is ascending. It is the contents of some window of k closest elements, and it equals the contents of every such window. |
| WindowSpec.TieGoesToSmaller | Ex2_find_k_closest_elements.py:30-33 | Take two elements at equal distance from `x`. A window of k closest elements that holds the larger one also holds the smaller one. |
| ClosestElements.FindWindowStart | Ex2_find_k_closest_elements.py:26-33 | The binary search stays in bounds and terminates. Its result `left` lies in `[0, |arr|-k]`. Moving right helps at every start before `left` and at none from `left` on. `left` is the linear scan's start and bounds a window of k closest elements. |
| ClosestElements.FindClosestElements | Ex2_find_k_closest_elements.py:26-34 | The result has length k and is ascending. It is a slice `arr[lo..lo+k]` of a window of k closest elements, and it equals `ClosestK`. |
| TwoPointer.DropLeftIsSound | Ex2_find_k_closest_elements.py:55-56 | When the left end is strictly farther from `x` than the right end, every element that stays is preferred to the dropped left end. |
| TwoPointer.DropRightIsSound | Ex2_find_k_closest_elements.py:57-58 | When the left end is no farther than the right end, every element that stays is preferred to the dropped right end. This case covers ties. |
| TwoPointer.FindClosestTwoPointer | Ex2_find_k_closest_elements.py:53-59 | The shrinking-window variant returns k elements, and they are the same sequence `ClosestK` that the binary search returns. |
| LiteralCases.TieKeepsSmallerWindow | Ex2_find_k_closest_elements.py:107-111 | `[1,2,3,4,5]`, `k = 4`, `x = 3` gives `[1,2,3,4]`: the tie between 1 and 5 goes to 1. |
| LiteralCases.TargetBelowAll | Ex2_find_k_closest_elements.py:113-117 | `[1,1,2,3,4,5]`, `k = 4`, `x = -1` gives `[1,1,2,3]`. |
| LiteralCases.TargetBetweenElements | Ex2_find_k_closest_elements.py:119-123 | `[10,20,30,40,50]`, `k = 3`, `x = 35` gives `[20,30,40]`. |
| LiteralCases.TargetAboveAll | Ex2_find_k_closest_elements.py:125-129 | `[1,2,3,4,5]`, `k = 4`, `x = 6` gives `[2,3,4,5]`. |
| LiteralCases.SingleElement | Ex2_find_k_closest_elements.py:131-135 | `[1]`, `k = 1`, `x = 1` gives `[1]`. |

## Left out

- Out-of-range `k`: the operations require `1 <= k <= |arr|`. The code has no guard for other values. With `k > |arr|` it returns the whole array. With `k = 0` it returns an empty list. With `k < 0` it can index out of range or wrap through negative indices. An explicit invalid-argument error is described for the routine, but the code does not raise one. The model follows the code and treats these inputs as outside the contract.
- Sortedness of `arr` is a precondition. The code assumes it and never checks it.
- The max-heap variant (lines 75-84) is left out. It depends on the behaviour of Python's `heapq` library, which is not part of this model.
- The brute-force variant (lines 100-101) is left out. It sorts `arr` in place with a library key sort, which is a foreign call and a mutation.
- The `__main__` demonstration (lines 104-135) prints to standard output. Its five cases appear only as the `LiteralCases` lemmas.
- Python list identity and slice copying are left out. Results are values of type `seq<int>`.
- The exponentiation exercise in `Ex1_pow(x,n).py` is a separate routine over floating-point values. It is not part of this model.
