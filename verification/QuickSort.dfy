/** merge_quick_sort.c: the quick sort, whose partition scans run without bound checks. */
module QuickSort {
  const INSERTION_THRESHOLD := 16

  ghost predicate SortedRange(s: seq<int>, left: int, right: int)
    requires 0 <= left && right < |s|
  {
    forall i, j :: left <= i < j <= right ==> s[i] <= s[j]
  }

  /** t rearranges the places left..right of s and nothing else. */
  ghost predicate Rearranged(s: seq<int>, t: seq<int>, left: int, right: int) {
    && |s| == |t| && multiset(s) == multiset(t)
    && forall i :: 0 <= i < |s| && !(left <= i <= right) ==> s[i] == t[i]
  }

  lemma RearrangedTrans(a: seq<int>, b: seq<int>, c: seq<int>, left: int, right: int)
    requires Rearranged(a, b, left, right) && Rearranged(b, c, left, right)
    ensures Rearranged(a, c, left, right)
  {
  }

  lemma RearrangedWider(a: seq<int>, b: seq<int>, left: int, right: int, l: int, r: int)
    requires Rearranged(a, b, left, right) && l <= left && right <= r
    ensures Rearranged(a, b, l, r)
  {
  }

  function Swapped(s: seq<int>, i: int, j: int): (t: seq<int>)
    requires 0 <= i < |s| && 0 <= j < |s|
    ensures |t| == |s|
  {
    s[i := s[j]][j := s[i]]
  }

  lemma SwapRearranges(s: seq<int>, i: int, j: int, left: int, right: int)
    requires 0 <= left <= i <= right < |s| && left <= j <= right
    ensures Rearranged(s, Swapped(s, i, j), left, right)
  {
  }

  lemma RearrangedSelf(s: seq<int>, left: int, right: int)
    ensures Rearranged(s, s, left, right)
  {
  }

  lemma Cancel(a: multiset<int>, b: multiset<int>, b': multiset<int>, c: multiset<int>)
    requires a + b + c == a + b' + c
    ensures b == b'
  {
    assert b == (a + b + c) - a - c;
  }

  /** What holds of all elements of a range still holds after rearranging the range. */
  lemma RangeKeeps(s: seq<int>, t: seq<int>, left: int, right: int, lo: int, hi: int)
    requires Rearranged(s, t, left, right) && 0 <= left && right < |s|
    requires forall i :: left <= i <= right ==> lo <= s[i] <= hi
    ensures forall i :: left <= i <= right ==> lo <= t[i] <= hi
  {
    if left <= right {
      assert s == s[..left] + s[left..right + 1] + s[right + 1..];
      assert t == t[..left] + t[left..right + 1] + t[right + 1..];
      assert s[..left] == t[..left] && s[right + 1..] == t[right + 1..];
      assert multiset(s) == multiset(s[..left]) + multiset(s[left..right + 1]) + multiset(s[right + 1..]);
      assert multiset(t) == multiset(t[..left]) + multiset(t[left..right + 1]) + multiset(t[right + 1..]);
      Cancel(multiset(s[..left]), multiset(s[left..right + 1]), multiset(t[left..right + 1]), multiset(s[right + 1..]));
      forall i | left <= i <= right ensures lo <= t[i] <= hi {
        assert t[left..right + 1][i - left] == t[i];
        assert t[i] in multiset(s[left..right + 1]);
        var k :| 0 <= k < right + 1 - left && s[left..right + 1][k] == t[i];
        assert s[left + k] == t[i];
      }
    }
  }

  method Swap(arr: array<int>, i: int, j: int, ghost left: int, ghost right: int)
    requires 0 <= left <= i <= right < arr.Length && left <= j <= right
    modifies arr
    ensures arr[..] == Swapped(old(arr[..]), i, j) && Rearranged(old(arr[..]), arr[..], left, right)
  {
    SwapRearranges(arr[..], i, j, left, right);
    var t := arr[i];
    arr[i] := arr[j];
    arr[j] := t;
  }

  /** The first, middle and last element in order, and the middle one, the pivot, moved next to the last. */
  method MedianOfThree(arr: array<int>, left: int, right: int) returns (pivot: int)
    requires 0 <= left && left + 2 <= right < arr.Length
    modifies arr
    ensures pivot == arr[right - 1] && arr[left] <= pivot <= arr[right]
    ensures Rearranged(old(arr[..]), arr[..], left, right)
  {
    hide Rearranged;
    var mid := left + (right - left) / 2;
    ghost var s := arr[..];
    RearrangedSelf(s, left, right);
    if arr[left] > arr[mid] { SwapStep(arr, left, mid, left, right, s); }
    if arr[left] > arr[right] { SwapStep(arr, left, right, left, right, s); }
    if arr[mid] > arr[right] { SwapStep(arr, mid, right, left, right, s); }
    SwapStep(arr, mid, right - 1, left, right, s);
    pivot := arr[right - 1];
  }

  method SwapStep(arr: array<int>, i: int, j: int, ghost left: int, ghost right: int, ghost s: seq<int>)
    requires 0 <= left <= i <= right < arr.Length && left <= j <= right && Rearranged(s, arr[..], left, right)
    modifies arr
    ensures arr[..] == Swapped(old(arr[..]), i, j) && Rearranged(s, arr[..], left, right)
    ensures arr[i] == old(arr[j]) && arr[j] == old(arr[i]) && forall k :: 0 <= k < arr.Length && k != i && k != j ==> arr[k] == old(arr[k])
  {
    ghost var b := arr[..];
    Swap(arr, i, j, left, right);
    RearrangedTrans(s, b, arr[..], left, right);
    assert forall k :: 0 <= k < arr.Length ==> arr[k] == Swapped(b, i, j)[k];
  }

  /** Left of place p everything is at most the element there, right of it everything is at least that. */
  ghost predicate Partitioned(s: seq<int>, left: int, right: int, p: int)
    requires 0 <= left <= p <= right < |s|
  {
    (forall k :: left <= k < p ==> s[k] <= s[p]) && (forall k :: p < k <= right ==> s[p] <= s[k])
  }

  /** Between the two scans' positions nothing is known; outside them everything is on its side, and the ends stop the scans. */
  ghost predicate Scanning(s: seq<int>, left: int, right: int, pivot: int, i: int, j: int) {
    && 0 <= left <= i < j <= right - 1 && right < |s|
    && (forall k :: left <= k <= i ==> s[k] <= pivot) && (forall k :: j <= k <= right ==> pivot <= s[k])
    && s[right - 1] == pivot
  }

  lemma ExchangeKeepsScanning(s: seq<int>, left: int, right: int, pivot: int, i: int, j: int)
    requires 0 <= left < i < j < right - 1 && right < |s| && s[right - 1] == pivot
    requires (forall k :: left <= k < i ==> s[k] <= pivot) && (forall k :: j < k <= right ==> pivot <= s[k])
    requires s[i] >= pivot && s[j] <= pivot
    ensures Scanning(Swapped(s, i, j), left, right, pivot, i, j)
  {
  }

  lemma PivotPlaced(s: seq<int>, left: int, right: int, pivot: int, i: int)
    requires 0 <= left < i <= right - 1 && right < |s| && s[right - 1] == pivot && s[i] >= pivot
    requires (forall k :: left <= k < i ==> s[k] <= pivot) && (forall k :: i < k <= right ==> pivot <= s[k])
    ensures Partitioned(Swapped(s, i, right - 1), left, right, i)
  {
  }

  /** Neither scan leaves the range: the pivot stops the one, the first element the other. */
  method Partition(arr: array<int>, left: int, right: int) returns (p: int)
    requires 0 <= left < right < arr.Length
    modifies arr
    ensures Rearranged(old(arr[..]), arr[..], left, right)
    ensures left <= p <= right && Partitioned(arr[..], left, right, p)
    ensures right - left >= 2 ==> left < p < right
  {
    hide Rearranged;
    ghost var s := arr[..];
    RearrangedSelf(s, left, right);
    if right - left < 2 {
      if arr[left] > arr[right] { SwapStep(arr, left, right, left, right, s); }
      return left;
    }
    var pivot := MedianOfThree(arr, left, right);
    var i, j := left, right - 1;
    while true
      invariant Scanning(arr[..], left, right, pivot, i, j)
      invariant Rearranged(s, arr[..], left, right)
      decreases j - i
    {
      i, j := Scan(arr, left, right, pivot, i, j);
      if i >= j { break; }
      ExchangeKeepsScanning(arr[..], left, right, pivot, i, j);
      SwapStep(arr, i, j, left, right, s);
    }
    PivotPlaced(arr[..], left, right, pivot, i);
    SwapStep(arr, i, right - 1, left, right, s);
    return i;
  }

  /** The two unguarded inner loops. */
  method Scan(arr: array<int>, ghost left: int, ghost right: int, pivot: int, i0: int, j0: int) returns (i: int, j: int)
    requires Scanning(arr[..], left, right, pivot, i0, j0)
    ensures i0 < i <= j0 && i0 <= j < j0
    ensures arr[i] >= pivot && arr[j] <= pivot
    ensures (forall k :: left <= k < i ==> arr[k] <= pivot) && (forall k :: j < k <= right ==> pivot <= arr[k])
  {
    i, j := i0 + 1, j0 - 1;
    assert arr[..][i0] <= pivot && arr[..][j0] >= pivot;
    while arr[i] < pivot
      invariant i0 < i <= j0
      invariant forall k :: left <= k < i ==> arr[k] <= pivot
      decreases j0 - i
    {
      i := i + 1;
    }
    while arr[j] > pivot
      invariant i0 <= j < j0
      invariant forall k :: j < k <= right ==> pivot <= arr[k]
      decreases j - i0
    {
      j := j - 1;
    }
  }

  // ----- Short ranges

  /** Places left..i but for place p, whose element is below those after it, are in order. */
  ghost predicate Gap(s: seq<int>, left: int, i: int, p: int) {
    && 0 <= left <= p <= i < |s|
    && (forall k, l :: left <= k < l <= i && k != p && l != p ==> s[k] <= s[l])
    && (forall k :: p < k <= i ==> s[p] < s[k])
  }

  lemma GapShifts(s: seq<int>, left: int, i: int, p: int)
    requires Gap(s, left, i, p) && p > left && s[p - 1] > s[p]
    ensures Gap(Swapped(s, p - 1, p), left, i, p - 1)
  {
  }

  /** s is the array with the key put back at place p. */
  ghost predicate Filled(a: seq<int>, p: int, key: int, s: seq<int>) {
    0 <= p < |a| && s == a[p := key]
  }

  /** While places shift: s, the array with the key put back at place j + 1, rearranges start. */
  ghost predicate Shifting(start: seq<int>, a: seq<int>, s: seq<int>, left: int, i: int, j: int, key: int) {
    0 <= left <= j + 1 && j < i && Filled(a, j + 1, key, s) && Gap(s, left, i, j + 1) && Rearranged(start, s, left, i)
  }

  lemma ShiftingStarts(s: seq<int>, left: int, i: int)
    requires 0 <= left < i < |s| && SortedRange(s, left, i - 1)
    ensures Shifting(s, s, s, left, i, i - 1, s[i])
  {
    RearrangedSelf(s, left, i);
  }

  lemma ShiftingStep(start: seq<int>, a: seq<int>, s: seq<int>, left: int, i: int, j: int, key: int) returns (t: seq<int>)
    requires Shifting(start, a, s, left, i, j, key) && left <= j && j + 1 < |a| && a[j] > key
    ensures Shifting(start, a[j + 1 := a[j]], t, left, i, j - 1, key)
  {
    hide Rearranged;
    t := Swapped(s, j, j + 1);
    GapShifts(s, left, i, j + 1);
    SwapRearranges(s, j, j + 1, left, i);
    RearrangedTrans(start, s, t, left, i);
    assert t == a[j + 1 := a[j]][j := key];
  }

  lemma ShiftingEnds(start: seq<int>, a: seq<int>, s: seq<int>, left: int, i: int, j: int, key: int)
    requires Shifting(start, a, s, left, i, j, key) && i < |a| && (j < left || a[j] <= key)
    ensures a[j + 1 := key] == s && SortedRange(s, left, i) && Rearranged(start, s, left, i)
  {
    hide Rearranged;
    assert s[j + 1] == key && (j >= left ==> s[j] == a[j]);
  }

  /** One shift, with the array it leaves. */
  method ShiftOne(arr: array<int>, ghost left: int, ghost i: int, j: int, ghost key: int, ghost start: seq<int>, ghost s: seq<int>)
    returns (ghost t: seq<int>)
    requires 0 <= left <= j && j + 1 < arr.Length && arr[j] > key && Shifting(start, arr[..], s, left, i, j, key)
    modifies arr
    ensures Shifting(start, arr[..], t, left, i, j - 1, key)
  {
    hide *;
    ghost var a := arr[..];
    t := ShiftingStep(start, a, s, left, i, j, key);
    Write(arr, j + 1, arr[j]);
  }

  method InsertKey(arr: array<int>, left: int, i: int)
    requires 0 <= left < i < arr.Length && SortedRange(arr[..], left, i - 1)
    modifies arr
    ensures SortedRange(arr[..], left, i) && Rearranged(old(arr[..]), arr[..], left, i)
  {
    ghost var start, s := arr[..], arr[..];
    hide *;
    ShiftingStarts(start, left, i);
    var key := arr[i];
    var j := i - 1;
    while j >= left && arr[j] > key
      invariant left - 1 <= j < i && Shifting(start, arr[..], s, left, i, j, key)
    {
      s := ShiftOne(arr, left, i, j, key, start, s);
      j := j - 1;
    }
    ghost var a := arr[..];
    ShiftingEnds(start, a, s, left, i, j, key);
    Write(arr, j + 1, key);
    assert arr[..] == s;
  }

  method Write(arr: array<int>, i: int, value: int)
    requires 0 <= i < arr.Length
    modifies arr
    ensures arr[..] == old(arr[..])[i := value]
  {
    arr[i] := value;
  }

  method InsertionSortRange(arr: array<int>, left: int, right: int)
    requires 0 <= left && right < arr.Length
    modifies arr
    ensures SortedRange(arr[..], left, right) && Rearranged(old(arr[..]), arr[..], left, right)
  {
    hide Rearranged;
    ghost var start := arr[..];
    RearrangedSelf(start, left, right);
    var i := left + 1;
    while i <= right
      invariant left + 1 <= i && (i <= right + 1 || right <= left)
      invariant left < right ==> SortedRange(arr[..], left, i - 1)
      invariant Rearranged(start, arr[..], left, right)
    {
      ghost var before := arr[..];
      InsertKey(arr, left, i);
      RearrangedWider(before, arr[..], left, i, left, right);
      RearrangedTrans(start, before, arr[..], left, right);
      i := i + 1;
    }
  }

  // ----- The recursion

  lemma PartsSorted(s: seq<int>, left: int, right: int, p: int)
    requires 0 <= left < p < right < |s| && Partitioned(s, left, right, p)
    requires SortedRange(s, left, p - 1) && SortedRange(s, p + 1, right)
    ensures SortedRange(s, left, right)
  {
  }

  /** Sorting one side of the pivot leaves the partition and the other side alone. */
  lemma StillPartitioned(s: seq<int>, t: seq<int>, left: int, right: int, p: int)
    requires 0 <= left < p < right < |s| && Partitioned(s, left, right, p)
    requires Rearranged(s, t, left, p - 1) || Rearranged(s, t, p + 1, right)
    ensures Partitioned(t, left, right, p) && Rearranged(s, t, left, right)
  {
    if Rearranged(s, t, left, p - 1) {
      var lo := Least(s, left, p - 1);
      RangeKeeps(s, t, left, p - 1, lo, s[p]);
    } else {
      var hi := Greatest(s, p + 1, right);
      RangeKeeps(s, t, p + 1, right, s[p], hi);
    }
  }

  lemma {:induction false} Least(s: seq<int>, left: int, right: int) returns (lo: int)
    requires 0 <= left <= right < |s|
    ensures forall i :: left <= i <= right ==> lo <= s[i]
    decreases right - left
  {
    lo := s[left];
    if left < right {
      var rest := Least(s, left + 1, right);
      if rest < lo { lo := rest; }
    }
  }

  lemma {:induction false} Greatest(s: seq<int>, left: int, right: int) returns (hi: int)
    requires 0 <= left <= right < |s|
    ensures forall i :: left <= i <= right ==> s[i] <= hi
    decreases right - left
  {
    hi := s[left];
    if left < right {
      var rest := Greatest(s, left + 1, right);
      if rest > hi { hi := rest; }
    }
  }

  method QuickSortHelper(arr: array<int>, left: int, right: int)
    requires 0 <= left <= right + 1 && right < arr.Length
    modifies arr
    ensures SortedRange(arr[..], left, right) && Rearranged(old(arr[..]), arr[..], left, right)
    decreases right - left + 1
  {
    if right - left < INSERTION_THRESHOLD {
      InsertionSortRange(arr, left, right);
      return;
    }
    hide Rearranged, Partitioned, SortedRange;
    ghost var s0 := arr[..];
    var p := Partition(arr, left, right);
    ghost var s1 := arr[..];
    QuickSortHelper(arr, left, p - 1);
    ghost var s2 := arr[..];
    StillPartitioned(s1, s2, left, right, p);
    QuickSortHelper(arr, p + 1, right);
    ghost var s3 := arr[..];
    StillPartitioned(s2, s3, left, right, p);
    OtherSideSorted(s2, s3, left, p - 1, p + 1, right);
    PartsSorted(s3, left, right, p);
    RearrangedTrans(s0, s1, s2, left, right);
    RearrangedTrans(s0, s2, s3, left, right);
  }

  lemma OtherSideSorted(s: seq<int>, t: seq<int>, left: int, end: int, start: int, right: int)
    requires Rearranged(s, t, start, right) && 0 <= left && end < start && end < |s| && SortedRange(s, left, end)
    ensures SortedRange(t, left, end)
  {
  }

  /** quick_sort sorts every array. */
  method Sort(arr: array<int>)
    modifies arr
    ensures forall i, j :: 0 <= i < j < arr.Length ==> arr[i] <= arr[j]
    ensures multiset(arr[..]) == multiset(old(arr[..]))
  {
    if arr.Length <= 1 { return; }
    QuickSortHelper(arr, 0, arr.Length - 1);
    assert forall i, j :: 0 <= i < j < arr.Length ==> arr[..][i] <= arr[..][j];
  }
}
