/** In-place quicksort of an int array with a two-pointer partition
    (`quickSort`, `partition`).

    The array is a `seq<int>`; each method returns the array as it is after
    the call. Index ranges are inclusive, `[low, high]`, as in `quickSort`. */
module QuickSort {

  /** `b` agrees with `a` at every index outside `[low, high]`. */
  ghost predicate SameOutside(a: seq<int>, b: seq<int>, low: int, high: int)
    requires |a| == |b|
  {
    forall k :: 0 <= k < |a| && !(low <= k <= high) ==> b[k] == a[k]
  }

  ghost predicate SortedBetween(a: seq<int>, low: int, high: int)
  {
    forall x, y :: low <= x < y <= high && 0 <= x && y < |a| ==> a[x] <= a[y]
  }

  /** Exchanges two entries. */
  function Swap(a: seq<int>, i: int, j: int): (b: seq<int>)
    requires 0 <= i < |a| && 0 <= j < |a|
    ensures |b| == |a| && b[i] == a[j] && b[j] == a[i]
    ensures forall k :: 0 <= k < |a| && k != i && k != j ==> b[k] == a[k]
    ensures multiset(b) == multiset(a)
  {
    a[i := a[j]][j := a[i]]
  }

  /** `partition(arr, low, high)`: the pivot is `arr[low]`; `i` scans up over
      entries `<=` the pivot, `j` scans down over entries `>` it, misplaced
      pairs are exchanged, and finally the pivot is exchanged into slot `j`. */
  method Partition(a: seq<int>, low: int, high: int) returns (b: seq<int>, j: int)
    requires 0 <= low <= high < |a|
    ensures low <= j <= high
    ensures |b| == |a| && b[j] == a[low]
    ensures forall k :: low <= k < j ==> b[k] <= b[j]
    ensures forall k :: j < k <= high ==> b[k] > b[j]
    ensures SameOutside(a, b, low, high)
    ensures multiset(b) == multiset(a)
  {
    var pivot := a[low];
    b := a;
    var i := low + 1;
    j := high;
    while i <= j
      invariant low + 1 <= i <= j + 1
      invariant low <= j <= high
      invariant |b| == |a| && b[low] == pivot
      invariant forall k :: low + 1 <= k < i ==> b[k] <= pivot
      invariant forall k :: j < k <= high ==> b[k] > pivot
      invariant SameOutside(a, b, low + 1, high)
      invariant multiset(b) == multiset(a)
      decreases j + 1 - i
    {
      if b[i] <= pivot {
        i := i + 1;
      } else if b[j] > pivot {
        j := j - 1;
      } else {
        b := Swap(b, i, j);
        i := i + 1;
        j := j - 1;
      }
    }
    b := Swap(b, low, j);
  }

  /** `quickSort(arr, low, high)`: sorts `arr[low..high]` in place. A range
      with `low >= high` is left alone; otherwise the range must lie inside
      the array. */
  method Sort(a: seq<int>, low: int, high: int) returns (b: seq<int>)
    requires low >= high || (0 <= low && high < |a|)
    ensures |b| == |a|
    ensures low >= high ==> b == a
    ensures SameOutside(a, b, low, high)
    ensures multiset(b) == multiset(a)
    ensures low < high ==> multiset(b[low..high + 1]) == multiset(a[low..high + 1])
    ensures SortedBetween(b, low, high)
    decreases high - low
  {
    if low >= high {
      return a;
    }
    var b1, p := Partition(a, low, high);
    var b2 := Sort(b1, low, p - 1);
    b := Sort(b2, p + 1, high);
    SortedStep(b1, b2, b, low, p, high);
    assert SameOutside(a, b, low, high);
    SegmentPermutation(a, b, low, high);
  }

  /** The sortedness argument of the recursive case: after partitioning
      into `b1` at `p`, sorting the left part gives `b2` and sorting the
      right part gives `b`. */
  lemma SortedStep(b1: seq<int>, b2: seq<int>, b: seq<int>, low: int, p: int, high: int)
    requires 0 <= low <= p <= high < |b1| == |b2| == |b|
    requires forall k :: low <= k < p ==> b1[k] <= b1[p]
    requires forall k :: p < k <= high ==> b1[k] > b1[p]
    requires SameOutside(b1, b2, low, p - 1) && SortedBetween(b2, low, p - 1)
    requires low < p - 1 ==> multiset(b2[low..p]) == multiset(b1[low..p])
    requires low >= p - 1 ==> b2 == b1
    requires SameOutside(b2, b, p + 1, high) && SortedBetween(b, p + 1, high)
    requires p + 1 < high ==> multiset(b[p + 1..high + 1]) == multiset(b2[p + 1..high + 1])
    requires p + 1 >= high ==> b == b2
    ensures SortedBetween(b, low, high)
  {
    var pivot := b1[p];
    assert b[p] == pivot;
    assert forall k :: p < k <= high ==> b2[k] == b1[k];
    if low < p - 1 {
      BoundsCarry(b1, b2, low, p - 1, pivot, true);
    }
    if p + 1 < high {
      BoundsCarry(b2, b, p + 1, high, pivot, false);
    }
    assert forall k :: low <= k < p ==> b[k] == b2[k];
    assert SortedBetween(b, low, p - 1);
    SortedAroundPivot(b, low, p, high);
  }

  /** Two sorted runs split by an entry that bounds the left one from above
      and the right one strictly from below form one sorted run. */
  lemma SortedAroundPivot(b: seq<int>, low: int, p: int, high: int)
    requires 0 <= low <= p <= high < |b|
    requires forall k :: low <= k < p ==> b[k] <= b[p]
    requires forall k :: p < k <= high ==> b[k] > b[p]
    requires SortedBetween(b, low, p - 1) && SortedBetween(b, p + 1, high)
    ensures SortedBetween(b, low, high)
  {
  }

  /** A bound on every entry of a range carries over to a permutation of
      that range; `below` selects `<=` (true) or `>` (false). */
  lemma BoundsCarry(s: seq<int>, t: seq<int>, low: int, high: int, pivot: int, below: bool)
    requires 0 <= low <= high < |s| == |t|
    requires multiset(t[low..high + 1]) == multiset(s[low..high + 1])
    requires forall k :: low <= k <= high ==> if below then s[k] <= pivot else s[k] > pivot
    ensures forall k :: low <= k <= high ==> if below then t[k] <= pivot else t[k] > pivot
  {
    forall k | low <= k <= high
      ensures if below then t[k] <= pivot else t[k] > pivot
    {
      assert t[k] == t[low..high + 1][k - low];
      assert t[k] in multiset(s[low..high + 1]);
      var m :| low <= m <= high && s[m] == t[k] by {
        assert t[k] in s[low..high + 1];
        var m' :| 0 <= m' < high + 1 - low && s[low..high + 1][m'] == t[k];
        assert s[low + m'] == t[k];
      }
    }
  }

  /** Equal multisets and equal outside `[low, high]` give equal multisets on it. */
  lemma SegmentPermutation(a: seq<int>, b: seq<int>, low: int, high: int)
    requires 0 <= low <= high < |a| == |b|
    requires multiset(a) == multiset(b)
    requires SameOutside(a, b, low, high)
    ensures multiset(b[low..high + 1]) == multiset(a[low..high + 1])
  {
    assert a == a[..low] + a[low..high + 1] + a[high + 1..];
    assert b == b[..low] + b[low..high + 1] + b[high + 1..];
    assert a[..low] == b[..low];
    assert a[high + 1..] == b[high + 1..];
    var m1, m3 := multiset(a[..low]), multiset(a[high + 1..]);
    assert multiset(a) == m1 + multiset(a[low..high + 1]) + m3;
    assert multiset(b) == m1 + multiset(b[low..high + 1]) + m3;
    Cancel(multiset(b[low..high + 1]), multiset(a[low..high + 1]), m1, m3);
  }

  lemma Cancel(x: multiset<int>, y: multiset<int>, m1: multiset<int>, m3: multiset<int>)
    requires m1 + x + m3 == m1 + y + m3
    ensures x == y
  {
    forall e
      ensures x[e] == y[e]
    {
      assert (m1 + x + m3)[e] == (m1 + y + m3)[e];
    }
  }
}
