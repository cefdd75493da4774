/**
 * The maximum-gain scanner of SalemFinance.py: Kadane's scan for the
 * contiguous run of closing prices (in cents) with the largest sum.
 */
module MaxSubarray {

  /** The sum of arr[lo..hi]; zero when the range is empty. */
  function RangeSum(arr: seq<int>, lo: int, hi: int): (sum: int)
    requires 0 <= lo && hi <= |arr|
    decreases hi - lo
  {
    if hi <= lo then 0 else RangeSum(arr, lo, hi - 1) + arr[hi - 1]
  }

  /** The sum of the run arr[i..j] with both ends included. */
  function WindowSum(arr: seq<int>, i: int, j: int): (sum: int)
    requires 0 <= i <= j < |arr|
  {
    RangeSum(arr, i, j + 1)
  }

  /**
   * What kadane returns, characterised without reference to the scan:
   * arr[start..end] (both ends included) has the largest sum `best` of all
   * non-empty contiguous runs; `end` is the first index at which a run with
   * that sum ends, and `start` is the first index from which a run to `end`
   * reaches it.
   */
  ghost predicate IsFirstMaxWindow(arr: seq<int>, start: int, end: int, best: int) {
    && 0 <= start <= end < |arr|
    && best == WindowSum(arr, start, end)
    && (forall i, j :: 0 <= i <= j < |arr| ==> WindowSum(arr, i, j) <= best)
    && (forall i, j :: 0 <= i <= j < end ==> WindowSum(arr, i, j) < best)
    && (forall i :: 0 <= i < start ==> WindowSum(arr, i, end) < best)
  }

  /**
   * kadane: max_current is the largest sum of a run ending at i, begun at s;
   * the window is replaced only when max_current strictly beats max_global.
   */
  method Kadane(arr: seq<int>) returns (start: int, end: int, maxGlobal: int)
    requires |arr| >= 1
    ensures IsFirstMaxWindow(arr, start, end, maxGlobal)
  {
    var maxCurrent := arr[0];
    maxGlobal := arr[0];
    start, end := 0, 0;
    var s := 0;

    for i := 1 to |arr|
      invariant 0 <= s < i
      invariant maxCurrent == RangeSum(arr, s, i)
      invariant forall k :: 0 <= k < i ==> RangeSum(arr, k, i) <= maxCurrent
      invariant forall k :: 0 <= k < s ==> RangeSum(arr, k, i) < maxCurrent
      invariant 0 <= start <= end < i
      invariant maxGlobal == WindowSum(arr, start, end)
      invariant forall p, q :: 0 <= p <= q < i ==> WindowSum(arr, p, q) <= maxGlobal
      invariant forall p, q :: 0 <= p <= q < end ==> WindowSum(arr, p, q) < maxGlobal
      invariant forall k :: 0 <= k < start ==> WindowSum(arr, k, end) < maxGlobal
    {
      forall k | 0 <= k <= i ensures WindowSum(arr, k, i) == RangeSum(arr, k, i) + arr[i] {
        assert k == i ==> RangeSum(arr, k, i) == 0;
      }
      if arr[i] > maxCurrent + arr[i] {
        maxCurrent := arr[i];
        s := i;
      } else {
        maxCurrent := maxCurrent + arr[i];
      }

      if maxCurrent > maxGlobal {
        maxGlobal := maxCurrent;
        start := s;
        end := i;
      }
    }
  }

  /** The characterisation admits one answer only, so it pins kadane's result down. */
  lemma FirstMaxWindowUnique(arr: seq<int>, s1: int, e1: int, b1: int, s2: int, e2: int, b2: int)
    requires IsFirstMaxWindow(arr, s1, e1, b1) && IsFirstMaxWindow(arr, s2, e2, b2)
    ensures s1 == s2 && e1 == e2 && b1 == b2
  {
    assert b1 <= b2 && b2 <= b1;
    assert !(e1 < e2) && !(e2 < e1);
  }

  /**
   * When every price is negative, the window is the single first occurrence
   * of the largest element.
   */
  lemma AllNegativeWindow(arr: seq<int>, start: int, end: int, best: int)
    requires IsFirstMaxWindow(arr, start, end, best)
    requires forall i :: 0 <= i < |arr| ==> arr[i] < 0
    ensures start == end && best == arr[end]
    ensures forall i :: 0 <= i < |arr| ==> arr[i] <= arr[end]
    ensures forall i :: 0 <= i < end ==> arr[i] < arr[end]
  {
    SingleWindow(arr, end);
    if start < end {
      NegativeRunShrinks(arr, start, end);
      assert false;
    }
    forall i | 0 <= i < |arr| ensures arr[i] <= arr[end] {
      SingleWindow(arr, i);
    }
    forall i | 0 <= i < end ensures arr[i] < arr[end] {
      SingleWindow(arr, i);
    }
  }

  /** A run of one element sums to that element. */
  lemma SingleWindow(arr: seq<int>, i: int)
    requires 0 <= i < |arr|
    ensures WindowSum(arr, i, i) == arr[i]
  {
    assert RangeSum(arr, i, i) == 0;
  }

  /** Over negative elements, dropping the first element of a run raises its sum. */
  lemma {:induction false} NegativeRunShrinks(arr: seq<int>, i: int, j: int)
    requires 0 <= i < j < |arr|
    requires forall k :: 0 <= k < |arr| ==> arr[k] < 0
    ensures WindowSum(arr, i, j) < WindowSum(arr, i + 1, j)
    decreases j - i
  {
    if i < j - 1 {
      NegativeRunShrinks(arr, i, j - 1);
    } else {
      assert RangeSum(arr, i, j) == arr[i] by {
        assert RangeSum(arr, i, i) == 0;
      }
      SingleWindow(arr, j);
    }
  }

  /** The example of [2, -1, 2, 3, -4, 5]: the whole array, with sum 7. */
  lemma WholeArrayExample()
    ensures IsFirstMaxWindow([2, -1, 2, 3, -4, 5], 0, 5, 7)
  {
    var arr := [2, -1, 2, 3, -4, 5];
    assert WindowSum(arr, 0, 5) == 7;
    forall i, j | 0 <= i <= j < |arr| ensures WindowSum(arr, i, j) <= 7 {
    }
  }
}
