/**
 The five worked examples of `findClosestElements`, stated about the unique
 answer `ClosestK` that both implementations return. Each proof names the
 start at which the binary search stops and shows that it bounds a window
 of k closest elements.
 */
module LiteralCases {
  import opened WindowSpec

  /** `[1,2,3,4,5], k = 4, x = 3`: 1 and 5 are equally far from 3, and the
      tie goes to the smaller value. */
  lemma TieKeepsSmallerWindow()
    ensures ClosestK([1, 2, 3, 4, 5], 4, 3) == [1, 2, 3, 4]
  {
    var arr := [1, 2, 3, 4, 5];
    assert !ShiftRight(arr, 4, 3, 0);
    BoundaryIsClosest(arr, 4, 3, 0);
  }

  /** `[1,1,2,3,4,5], k = 4, x = -1`: a target below every element selects
      the leftmost window. */
  lemma TargetBelowAll()
    ensures ClosestK([1, 1, 2, 3, 4, 5], 4, -1) == [1, 1, 2, 3]
  {
    var arr := [1, 1, 2, 3, 4, 5];
    assert !ShiftRight(arr, 4, -1, 0);
    BoundaryIsClosest(arr, 4, -1, 0);
  }

  /** `[10,20,30,40,50], k = 3, x = 35`: a target between two elements. */
  lemma TargetBetweenElements()
    ensures ClosestK([10, 20, 30, 40, 50], 3, 35) == [20, 30, 40]
  {
    var arr := [10, 20, 30, 40, 50];
    assert ShiftRight(arr, 3, 35, 0);
    assert !ShiftRight(arr, 3, 35, 1);
    BoundaryIsClosest(arr, 3, 35, 1);
  }

  /** `[1,2,3,4,5], k = 4, x = 6`: a target above every element selects the
      rightmost window. */
  lemma TargetAboveAll()
    ensures ClosestK([1, 2, 3, 4, 5], 4, 6) == [2, 3, 4, 5]
  {
    var arr := [1, 2, 3, 4, 5];
    assert ShiftRight(arr, 4, 6, 0);
    BoundaryIsClosest(arr, 4, 6, 1);
  }

  /** `[1], k = 1, x = 1`: the only window. */
  lemma SingleElement()
    ensures ClosestK([1], 1, 1) == [1]
  {
    BoundaryIsClosest([1], 1, 1, 0);
  }
}
