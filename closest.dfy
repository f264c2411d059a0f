/** `findClosestIndex`: a linear scan for the entry nearest to a target. */
module Closest {
  import opened Numeric

  function Distance(a: real, target: real): real {
    Abs(a - target)
  }

  /**
   * `i` is the first index of `arr` whose entry is nearest to `target`: no entry is
   * nearer, and every entry before it is strictly farther.
   */
  predicate IsFirstClosest(arr: seq<real>, target: real, i: int) {
    && 0 <= i < |arr|
    && (forall j | 0 <= j < |arr| :: Distance(arr[i], target) <= Distance(arr[j], target))
    && (forall j | 0 <= j < i :: Distance(arr[i], target) < Distance(arr[j], target))
  }

  /** At most one index is the first nearest one. */
  lemma FirstClosestUnique(arr: seq<real>, target: real, i: int, k: int)
    requires IsFirstClosest(arr, target, i) && IsFirstClosest(arr, target, k)
    ensures i == k
  {
    // both are nearest, so their entries are equally near, and neither can come first
    assert Distance(arr[i], target) == Distance(arr[k], target);
  }

  /**
   * A reference definition of the scan for use in specifications: the answer for
   * all but the last entry, replaced by the last index only when its entry is strictly
   * nearer.
   */
  function ClosestIndex(arr: seq<real>, target: real): (i: nat)
    requires |arr| > 0
    ensures IsFirstClosest(arr, target, i)
  {
    if |arr| == 1 then 0
    else
      var k := ClosestIndex(arr[..|arr| - 1], target);
      if Distance(arr[|arr| - 1], target) < Distance(arr[k], target) then |arr| - 1 else k
  }

  /**
   * `findClosestIndex(arr, target)`: for a non-empty `arr` the first index whose entry
   * is nearest to `target` (the strict `<` keeps the earlier of two equally near
   * entries). On an empty array the loop does not run and 0 comes back.
   */
  method FindClosestIndex(arr: seq<real>, target: real) returns (closestIndex: nat)
    ensures |arr| == 0 ==> closestIndex == 0
    ensures |arr| > 0 ==> IsFirstClosest(arr, target, closestIndex)
  {
    closestIndex := 0;
    if |arr| == 0 {
      // the source reads `arr[0]` as undefined here, so its distance is NaN; the loop
      // below does not run and the result is 0 either way
      return;
    }
    var closestDiff := Distance(arr[0], target);
    var i := 1;
    while i < |arr|
      invariant 1 <= i <= |arr|
      invariant closestIndex < i
      invariant closestDiff == Distance(arr[closestIndex], target)
      invariant forall j | 0 <= j < i :: closestDiff <= Distance(arr[j], target)
      invariant forall j | 0 <= j < closestIndex :: closestDiff < Distance(arr[j], target)
    {
      var diff := Distance(arr[i], target);
      if diff < closestDiff {
        closestDiff := diff;
        closestIndex := i;
      }
      i := i + 1;
    }
  }

  /** The scan and the reference definition agree. */
  lemma FindAgreesWithReference(arr: seq<real>, target: real, i: int)
    requires |arr| > 0 && IsFirstClosest(arr, target, i)
    ensures i == ClosestIndex(arr, target)
  {
    FirstClosestUnique(arr, target, i, ClosestIndex(arr, target));
  }
}
