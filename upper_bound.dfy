/** Binary search for the "upper bound" of a value in a sorted list: the
    smallest element that is at least the value, together with the number of
    halving steps taken (Task_2.py). */
module UpperBound {

  datatype Option<T> = None | Some(value: T)

  /** The list is in non-decreasing order. */
  predicate Sorted(arr: seq<int>)
  {
    forall a, b :: 0 <= a < b < |arr| ==> arr[a] <= arr[b]
  }

  /** The number of binary digits of `n`: how many times `n` can be halved
      (rounding down) before it reaches 0. */
  function BitLength(n: nat): (r: nat)
    ensures n == 0 <==> r == 0
  {
    if n == 0 then 0 else 1 + BitLength(n / 2)
  }

  /** BitLength is monotone. */
  lemma {:induction false} BitLengthMonotone(a: nat, b: nat)
    requires a <= b
    ensures BitLength(a) <= BitLength(b)
  {
    if a > 0 {
      BitLengthMonotone(a / 2, b / 2);
    }
  }

  /** The reference definition: the first element, scanning from the left,
      that is at least `x`, or None when there is none. */
  function FirstAtLeast(arr: seq<int>, x: int): Option<int>
  {
    if arr == [] then None
    else if arr[0] >= x then Some(arr[0])
    else FirstAtLeast(arr[1..], x)
  }

  /** In a sorted list, FirstAtLeast is the least element that is at least
      `x`, and it is None exactly when every element is below `x`. */
  lemma {:induction false} FirstAtLeastIsLeast(arr: seq<int>, x: int)
    requires Sorted(arr)
    ensures FirstAtLeast(arr, x).None? <==> forall e :: e in arr ==> e < x
    ensures FirstAtLeast(arr, x).Some? ==>
              FirstAtLeast(arr, x).value in arr && FirstAtLeast(arr, x).value >= x &&
              forall e :: e in arr && e >= x ==> FirstAtLeast(arr, x).value <= e
  {
    if arr != [] {
      var rest := arr[1..];
      assert arr == [arr[0]] + rest;
      assert arr[0] in arr;
      FirstAtLeastIsLeast(rest, x);
      if arr[0] >= x {
        forall e | e in arr ensures arr[0] <= e {
          var i :| 0 <= i < |arr| && arr[i] == e;
          assert arr[0] <= arr[i];
        }
      } else {
        forall e | e in arr ensures e == arr[0] || e in rest {
          var i :| 0 <= i < |arr| && arr[i] == e;
          if i > 0 {
            assert rest[i - 1] == e;
          }
        }
        forall e | e in rest ensures e in arr {
          var i :| 0 <= i < |rest| && rest[i] == e;
          assert arr[i + 1] == e;
        }
      }
    }
  }

  /** When the sorted list splits at `k` into elements below `x` and elements
      at least `x`, FirstAtLeast is the element at the split, if any. */
  lemma {:induction false} FirstAtLeastAtSplit(arr: seq<int>, x: int, k: nat)
    requires k <= |arr|
    requires forall i :: 0 <= i < k ==> arr[i] < x
    requires k < |arr| ==> arr[k] >= x
    ensures FirstAtLeast(arr, x) == if k < |arr| then Some(arr[k]) else None
  {
    if k > 0 {
      FirstAtLeastAtSplit(arr[1..], x, k - 1);
    }
  }

  /** Halves the search range [left, right] until it is empty, remembering
      the last probed element that is at least `x`. Returns the number of
      halving steps and that element. The result is always an element of the
      list that is at least `x`; for a sorted list it is the smallest such
      element, and the number of steps is at most the bit length of the
      list's length. */
  method BinarySearchUpperBound(arr: seq<int>, x: int) returns (iterations: nat, result: Option<int>)
    ensures iterations <= BitLength(|arr|)
    ensures |arr| > 0 ==> iterations >= 1
    ensures result.Some? ==> result.value in arr && result.value >= x
    ensures Sorted(arr) ==> result == FirstAtLeast(arr, x)
  {
    var left, right := 0, |arr| - 1;
    iterations := 0;
    result := None;

    while left <= right
      invariant 0 <= left <= right + 1 <= |arr|
      // the last probed element at least `x` sits just past the range
      invariant result == if right + 1 < |arr| then Some(arr[right + 1]) else None
      invariant right + 1 < |arr| ==> arr[right + 1] >= x
      invariant forall i :: 0 <= i < left ==> (Sorted(arr) ==> arr[i] < x)
      invariant iterations + BitLength(right - left + 1) <= BitLength(|arr|)
      invariant iterations == 0 ==> left == 0 && right == |arr| - 1
      decreases right - left
    {
      ghost var size := right - left + 1;
      iterations := iterations + 1;
      var mid := (left + right) / 2;
      if arr[mid] == x {
        result := Some(arr[mid]);
        right := mid - 1;
      } else if arr[mid] < x {
        forall i | 0 <= i <= mid ensures Sorted(arr) ==> arr[i] < x {
          if Sorted(arr) {
            assert arr[i] <= arr[mid];
          }
        }
        left := mid + 1;
      } else {
        result := Some(arr[mid]);
        right := mid - 1;
      }
      // the range at least halves, so it has one binary digit fewer
      BitLengthMonotone(right - left + 1, size / 2);
    }

    if result.None? {
      // nothing probed was at least `x`, so the range ran off the right end
      if left < |arr| {
        assert false;
      } else {
        result := None;
      }
    }

    if Sorted(arr) {
      forall i | right + 1 <= i < |arr| ensures arr[i] >= x {
        assert arr[right + 1] <= arr[i];
      }
      FirstAtLeastAtSplit(arr, x, left);
    }
  }
}
