/** simple_sorts.c: the sorts that count their writes, and what the counts measure. */
module SimpleSorts {
  /** Elements of s greater than x. */
  function Above(s: seq<int>, x: int): nat {
    if s == [] then 0 else Above(s[..|s| - 1], x) + if s[|s| - 1] > x then 1 else 0
  }

  /** Pairs i < j with s[i] > s[j]. */
  function Inversions(s: seq<int>): nat {
    if s == [] then 0 else Inversions(s[..|s| - 1]) + Above(s[..|s| - 1], s[|s| - 1])
  }

  ghost predicate Sorted(s: seq<int>) {
    forall i, j :: 0 <= i < j < |s| ==> s[i] <= s[j]
  }

  ghost predicate Permutation(s: seq<int>, t: seq<int>) {
    multiset(s) == multiset(t)
  }

  // ----- Inversions

  lemma {:induction false} AboveZero(s: seq<int>, x: int)
    ensures Above(s, x) == 0 <==> forall i :: 0 <= i < |s| ==> s[i] <= x
  {
    if s != [] {
      AboveZero(s[..|s| - 1], x);
      assert forall i :: 0 <= i < |s| - 1 ==> s[i] == s[..|s| - 1][i];
    }
  }

  /** Exactly the sorted sequences have no inversion. */
  lemma {:induction false} SortedIff(s: seq<int>)
    ensures Sorted(s) <==> Inversions(s) == 0
  {
    if s != [] {
      var r := s[..|s| - 1];
      SortedIff(r);
      AboveZero(r, s[|s| - 1]);
      assert forall i :: 0 <= i < |r| ==> s[i] == r[i];
    }
  }

  function Swapped(s: seq<int>, j: nat): (t: seq<int>)
    requires j + 1 < |s|
    ensures |t| == |s|
  {
    s[j := s[j + 1]][j + 1 := s[j]]
  }

  lemma {:induction false} AboveSwap(s: seq<int>, j: nat, x: int)
    requires j + 1 < |s|
    ensures Above(Swapped(s, j), x) == Above(s, x)
  {
    var r := s[..|s| - 1];
    var t := Swapped(s, j);
    if j + 2 == |s| {
      assert t[..|s| - 1][..j] == r[..j] && t[..|s| - 1] == r[..j] + [s[j + 1]] && r == r[..j] + [s[j]];
    } else {
      AboveSwap(r, j, x);
      assert t[..|s| - 1] == Swapped(r, j);
    }
  }

  /** Exchanging two neighbours that are out of order removes exactly one inversion. */
  lemma {:induction false} SwapRemovesOne(s: seq<int>, j: nat)
    requires j + 1 < |s| && s[j] > s[j + 1]
    ensures Inversions(Swapped(s, j)) == Inversions(s) - 1
  {
    var r := s[..|s| - 1];
    var t := Swapped(s, j);
    if j + 2 == |s| {
      var p := s[..j];
      assert r == p + [s[j]] && t[..|s| - 1] == p + [s[j + 1]];
      assert r[..|r| - 1] == p && (p + [s[j + 1]])[..|p|] == p;
    } else {
      SwapRemovesOne(r, j);
      AboveSwap(r, j, s[|s| - 1]);
      assert t[..|s| - 1] == Swapped(r, j);
    }
  }

  lemma SwapPermutes(s: seq<int>, j: nat)
    requires j + 1 < |s|
    ensures Permutation(Swapped(s, j), s)
    ensures forall t :: Permutation(s, t) ==> Permutation(Swapped(s, j), t)
  {
    assert s == s[..j] + [s[j], s[j + 1]] + s[j + 2..];
    assert Swapped(s, j) == s[..j] + [s[j + 1], s[j]] + s[j + 2..];
  }

  class SortStats {
    var comparisons: nat
    var writes: nat

    constructor ()
      ensures comparisons == 0 && writes == 0
    {
      comparisons, writes := 0, 0;
    }
  }

  /** Positions from m on hold the largest elements in order. */
  ghost predicate Settled(s: seq<int>, m: int) {
    forall i, j :: 0 <= i < j < |s| && j >= m ==> s[i] <= s[j]
  }

  method WriteAndCount(arr: array<int>, stats: SortStats, i: nat, value: int)
    requires i < arr.Length
    modifies arr, stats`writes
    ensures arr[..] == old(arr[..])[i := value] && stats.writes == old(stats.writes) + 1
  {
    stats.writes := stats.writes + 1;
    arr[i] := value;
  }

  /** One exchange of neighbours, counted as two writes. */
  method Exchange(arr: array<int>, stats: SortStats, j: nat)
    requires j + 1 < arr.Length
    modifies arr, stats`writes
    ensures arr[..] == Swapped(old(arr[..]), j) && stats.writes == old(stats.writes) + 2
  {
    var tmp := arr[j];
    WriteAndCount(arr, stats, j, arr[j + 1]);
    WriteAndCount(arr, stats, j + 1, tmp);
  }

  // ----- Bubble sort

  /** The most larger elements in front of any one element. */
  function Depth(s: seq<int>): nat {
    if s == [] then 0 else
      var before, last := Depth(s[..|s| - 1]), Above(s[..|s| - 1], s[|s| - 1]);
      if last > before then last else before
  }

  lemma {:induction false} DepthZero(s: seq<int>)
    ensures Depth(s) == 0 <==> Sorted(s)
  {
    if s != [] {
      var r := s[..|s| - 1];
      DepthZero(r);
      AboveZero(r, s[|s| - 1]);
      assert forall i :: 0 <= i < |r| ==> s[i] == r[i];
    }
  }

  lemma {:induction false} AboveAtMost(s: seq<int>, x: int)
    ensures Above(s, x) <= |s|
  {
    if s != [] { AboveAtMost(s[..|s| - 1], x); }
  }

  lemma {:induction false} DepthBelow(s: seq<int>)
    requires s != []
    ensures Depth(s) <= |s| - 1
  {
    var r := s[..|s| - 1];
    AboveAtMost(r, s[|s| - 1]);
    if r != [] { DepthBelow(r); }
  }

  ghost predicate SameAbove(s: seq<int>, t: seq<int>) {
    forall x :: Above(s, x) == Above(t, x)
  }

  function Less(n: nat): nat {
    if n == 0 then 0 else n - 1
  }

  /** The element now at k, which came from the place on its right, has lost one larger element in front of it
      if it had any. */
  ghost predicate LostOne(s: seq<int>, t: seq<int>, k: nat) {
    k + 1 < |s| && k < |t| && Above(t[..k], t[k]) == Less(Above(s[..k + 1], s[k + 1]))
  }

  /** Within a pass over the first m places of s. */
  ghost predicate Passing(s: seq<int>, t: seq<int>, m: int, j: int) {
    && 0 <= j < m <= |s| && |t| == |s| && t[j + 1..] == s[j + 1..]
    && SameAbove(t[..j + 1], s[..j + 1]) && (forall k :: 0 <= k <= j ==> t[k] <= t[j])
    && forall k: nat :: k < j ==> LostOne(s, t, k)
  }

  lemma PassingStarts(s: seq<int>, m: int)
    requires 1 <= m <= |s|
    ensures Passing(s, s, m, 0)
  {
  }

  lemma PassingSwap(s: seq<int>, t: seq<int>, m: int, j: nat)
    requires Passing(s, t, m, j) && j + 1 < m && t[j] > t[j + 1]
    ensures Passing(s, Swapped(t, j), m, j + 1)
  {
    var t' := Swapped(t, j);
    assert t[j + 1] == t[j + 1..][0] == s[j + 1];
    assert t'[j + 2..] == t[j + 1..][1..] && s[j + 2..] == s[j + 1..][1..];
    var a, b := t'[..j + 2], s[..j + 2];
    forall x ensures Above(a, x) == Above(b, x) {
      AboveSwap(t[..j + 2], j, x);
      assert Swapped(t[..j + 2], j) == t'[..j + 2];
      AppendAbove(t, s, j, x);
    }
    forall k: nat | k < j + 1 ensures LostOne(s, t', k) {
      assert t'[..k] == t[..k];
      if k < j {
        assert LostOne(s, t, k);
      } else {
        assert t[..j + 1][..j] == t[..j];
        assert Above(t[..j + 1], s[j + 1]) == Above(t[..j], s[j + 1]) + 1;
        assert Above(t[..j + 1], s[j + 1]) == Above(s[..j + 1], s[j + 1]);
      }
    }
  }

  lemma AppendAbove(t: seq<int>, s: seq<int>, j: nat, x: int)
    requires |t| == |s| && j + 1 < |s| && t[j + 1] == s[j + 1] && SameAbove(t[..j + 1], s[..j + 1])
    ensures Above(t[..j + 2], x) == Above(s[..j + 2], x)
  {
    assert t[..j + 2][..j + 1] == t[..j + 1] && s[..j + 2][..j + 1] == s[..j + 1];
    assert Above(t[..j + 1], x) == Above(s[..j + 1], x);
  }

  lemma PassingKeep(s: seq<int>, t: seq<int>, m: int, j: nat)
    requires Passing(s, t, m, j) && j + 1 < m && t[j] <= t[j + 1]
    ensures Passing(s, t, m, j + 1)
  {
    assert t[j + 1] == t[j + 1..][0] == s[j + 1];
    assert t[j + 2..] == t[j + 1..][1..] && s[j + 2..] == s[j + 1..][1..];
    var a, b := t[..j + 2], s[..j + 2];
    forall x ensures Above(a, x) == Above(b, x) { AppendAbove(t, s, j, x); }
    AboveZero(t[..j], t[j]);
    AboveZero(t[..j + 1], t[j + 1]);
    assert Above(t[..j + 1], s[j + 1]) == Above(s[..j + 1], s[j + 1]);
  }

  /** A pass takes one off the depth. */
  lemma PassEnds(s: seq<int>, t: seq<int>, m: int)
    requires Passing(s, t, m, m - 1) && Settled(s, m)
    ensures Depth(t) == Less(Depth(s))
  {
    PassFront(s, t, m, m - 1);
    PassLast(s, t, m);
    SettledDepth(s, m, |s|);
    PassSettles(s, t, m);
    SettledDepth(t, m, |t|);
    assert s[..|s|] == s && t[..|t|] == t;
  }

  lemma PassLast(s: seq<int>, t: seq<int>, m: int)
    requires Passing(s, t, m, m - 1)
    ensures Depth(t[..m]) == Depth(t[..m - 1]) && s[..m - 1 + 1] == s[..m]
  {
    AboveZero(t[..m - 1], t[m - 1]);
    assert t[..m][..m - 1] == t[..m - 1];
  }

  lemma PassSettles(s: seq<int>, t: seq<int>, m: int)
    requires Passing(s, t, m, m - 1) && Settled(s, m)
    ensures Settled(t, m)
  {
    hide Passing, Above, SameAbove;
    PassingIs(s, t, m);
    forall i, j | 0 <= i < j < |t| && j >= m ensures t[i] <= t[j] {
      assert t[j] == t[m..][j - m] == s[j];
      if i >= m {
        assert t[i] == t[m..][i - m] == s[i];
      } else {
        AboveZero(s[..m], s[j]);
        AboveZero(t[..m], s[j]);
        assert Above(t[..m], s[j]) == 0;
        assert t[..m][i] == t[i];
      }
    }
  }

  lemma PassingIs(s: seq<int>, t: seq<int>, m: int)
    requires Passing(s, t, m, m - 1)
    ensures 1 <= m <= |s| == |t| && t[m..] == s[m..] && forall x :: Above(t[..m], x) == Above(s[..m], x)
  {
    var a, b := t[..m], s[..m];
    assert t[..m - 1 + 1] == a && s[..m - 1 + 1] == b;
    forall x ensures Above(a, x) == Above(b, x) {}
  }

  lemma {:induction false} PassFront(s: seq<int>, t: seq<int>, m: int, k: nat)
    requires Passing(s, t, m, m - 1) && k < m
    ensures Depth(t[..k]) == Less(Depth(s[..k + 1]))
  {
    assert s[..k + 1][..k] == s[..k];
    if k > 0 {
      PassFront(s, t, m, k - 1);
      assert LostOne(s, t, k - 1);
      assert t[..k][..k - 1] == t[..k - 1];
    }
  }

  lemma {:induction false} SettledDepth(s: seq<int>, m: int, n: nat)
    requires Settled(s, m) && 0 <= m <= n <= |s|
    ensures Depth(s[..n]) == Depth(s[..m])
  {
    if n > m {
      SettledDepth(s, m, n - 1);
      AboveZero(s[..n - 1], s[n - 1]);
      assert s[..n][..n - 1] == s[..n - 1];
    }
  }

  /** Comparisons of the first p passes over n elements. */
  function Rounds(n: nat, p: nat): nat
    requires p <= n
  {
    if p == 0 then 0 else Rounds(n, p - 1) + n - p
  }

  lemma {:induction false} RoundsAre(n: nat, p: nat)
    requires p <= n
    ensures 2 * Rounds(n, p) == p * (2 * n - 1 - p)
  {
    if p > 0 {
      RoundsAre(n, p - 1);
      assert p * (2 * n - 1 - p) == (p - 1) * (2 * n - p) + 2 * (n - p);
    }
  }

  /** Passes until one makes no exchange, and at most n - 1. */
  function Passes(s: seq<int>): (p: nat)
    ensures p <= |s|
  {
    if |s| <= 1 then 0 else if Depth(s) + 1 < |s| then Depth(s) + 1 else |s| - 1
  }

  /** Between n - 1 comparisons, exactly on a sorted array, and n(n - 1)/2. */
  lemma ComparisonBounds(s: seq<int>)
    requires |s| >= 1
    ensures |s| - 1 <= Rounds(|s|, Passes(s)) && 2 * Rounds(|s|, Passes(s)) <= |s| * (|s| - 1)
    ensures |s| > 2 ==> (Rounds(|s|, Passes(s)) == |s| - 1 <==> Sorted(s))
  {
    var n, p := |s|, Passes(s);
    DepthZero(s);
    RoundsGrow(n, if p == 0 then 0 else 1, p);
    RoundsGrow(n, p, n);
    RoundsAre(n, n);
    if p > 1 { RoundsGrow(n, 2, p); }
    assert p > 0 ==> Rounds(n, 1) == n - 1;
    assert p > 1 ==> Rounds(n, 2) == n - 1 + n - 2;
    assert n * (2 * n - 1 - n) == n * (n - 1);
  }

  lemma {:induction false} RoundsGrow(n: nat, p: nat, q: nat)
    requires p <= q <= n
    ensures Rounds(n, p) <= Rounds(n, q)
    decreases q
  {
    if p < q { RoundsGrow(n, p, q - 1); }
  }

  /** Within a pass over the first m places: the element at j is the largest so far. */
  ghost predicate Bubbling(s: seq<int>, m: int, j: int, swapped: bool) {
    && 0 <= j < m <= |s| && Settled(s, m)
    && (forall k :: 0 <= k < j ==> s[k] <= s[j])
    && (!swapped ==> forall k, l :: 0 <= k < l <= j ==> s[k] <= s[l])
  }

  lemma BubbleSwap(s: seq<int>, m: int, j: nat, swapped: bool)
    requires Bubbling(s, m, j, swapped) && j + 1 < m && s[j] > s[j + 1]
    ensures Bubbling(Swapped(s, j), m, j + 1, true)
  {
  }

  lemma BubbleKeep(s: seq<int>, m: int, j: nat, swapped: bool)
    requires Bubbling(s, m, j, swapped) && j + 1 < m && s[j] <= s[j + 1]
    ensures Bubbling(s, m, j + 1, swapped)
  {
  }

  lemma BubbleEnds(s: seq<int>, m: int, swapped: bool)
    requires Bubbling(s, m, m - 1, swapped)
    ensures Settled(s, m - 1) && (!swapped ==> Sorted(s))
  {
  }

  lemma BubbleStarts(s: seq<int>, m: int)
    requires 1 <= m <= |s| && Settled(s, m)
    ensures Bubbling(s, m, 0, false) && Permutation(s, s)
  {
  }

  /** The largest of the first m elements goes to place m - 1; something is exchanged exactly if the array was
      not in order yet. */
  method BubblePass(arr: array<int>, stats: SortStats, m: nat) returns (swapped: bool)
    requires 1 <= m <= arr.Length && Settled(arr[..], m)
    modifies arr, stats
    ensures Settled(arr[..], m - 1) && Permutation(arr[..], old(arr[..]))
    ensures stats.writes + 2 * Inversions(arr[..]) == old(stats.writes) + 2 * Inversions(old(arr[..]))
    ensures stats.comparisons == old(stats.comparisons) + m - 1
    ensures Depth(arr[..]) == Less(Depth(old(arr[..]))) && (swapped <==> Depth(old(arr[..])) > 0)
    ensures !swapped ==> Sorted(arr[..])
  {
    swapped := false;
    hide *;
    ghost var start := arr[..];
    BubbleStarts(start, m);
    PassingStarts(start, m);
    for j := 0 to m - 1
      invariant Bubbling(arr[..], m, j, swapped) && Passing(start, arr[..], m, j)
      invariant Permutation(arr[..], start)
      invariant if swapped then Inversions(arr[..]) < Inversions(start) else arr[..] == start
      invariant stats.writes + 2 * Inversions(arr[..]) == old(stats.writes) + 2 * Inversions(start)
      invariant stats.comparisons == old(stats.comparisons) + j
    {
      ghost var s := arr[..];
      stats.comparisons := stats.comparisons + 1;
      if arr[j] > arr[j + 1] {
        SwapRemovesOne(s, j);
        SwapPermutes(s, j);
        BubbleSwap(s, m, j, swapped);
        PassingSwap(start, s, m, j);
        Exchange(arr, stats, j);
        swapped := true;
      } else {
        BubbleKeep(s, m, j, swapped);
        PassingKeep(start, s, m, j);
      }
    }
    BubbleEnds(arr[..], m, swapped);
    PassEnds(start, arr[..], m);
    SortedIff(start);
    DepthZero(start);
  }

  /** Bubble sort writes exactly twice per inversion, and makes one pass more than the most larger elements
      in front of any element, but at most n - 1. */
  method BubbleSort(arr: array<int>, stats: SortStats)
    modifies arr, stats
    ensures Sorted(arr[..]) && Permutation(arr[..], old(arr[..]))
    ensures stats.writes == old(stats.writes) + 2 * Inversions(old(arr[..]))
    ensures stats.comparisons == old(stats.comparisons) + Rounds(arr.Length, Passes(old(arr[..])))
  {
    hide Inversions, Depth;
    ghost var start := arr[..];
    if start != [] { DepthBelow(start); }
    var i := 0;
    while i < arr.Length - 1
      invariant 0 <= i <= arr.Length && Settled(arr[..], arr.Length - i) && (i == 0 || i < arr.Length)
      invariant Permutation(arr[..], start)
      invariant stats.writes + 2 * Inversions(arr[..]) == old(stats.writes) + 2 * Inversions(start)
      invariant stats.comparisons == old(stats.comparisons) + Rounds(arr.Length, i)
      invariant Depth(arr[..]) + i == Depth(start)
    {
      var swapped := BubblePass(arr, stats, arr.Length - i);
      SortedIff(arr[..]);
      if !swapped { return; }
      i := i + 1;
    }
    SortedIff(arr[..]);
  }

  // ----- Insertion sort

  /** The first i + 1 places are in order but for place p, whose element is below those after it. */
  ghost predicate Gap(s: seq<int>, i: int, p: int) {
    && 0 <= p <= i < |s|
    && (forall k, l :: 0 <= k < l <= i && k != p && l != p ==> s[k] <= s[l])
    && (forall k :: p < k <= i ==> s[p] < s[k])
  }

  lemma GapOpens(s: seq<int>, i: int)
    requires 0 <= i < |s| && Sorted(s[..i])
    ensures Gap(s, i, i)
  {
    forall k, l | 0 <= k < l < i ensures s[k] <= s[l] { assert s[..i][k] <= s[..i][l]; }
  }

  lemma GapShifts(s: seq<int>, i: int, p: int)
    requires Gap(s, i, p) && p > 0 && s[p - 1] > s[p]
    ensures Gap(Swapped(s, p - 1), i, p - 1)
  {
  }

  lemma GapCloses(s: seq<int>, i: int, p: int)
    requires Gap(s, i, p) && (p == 0 || s[p - 1] <= s[p])
    ensures Sorted(s[..i + 1])
  {
  }

  /** s is the array with the key put back at place p. */
  ghost predicate Filled(a: seq<int>, p: int, key: int, s: seq<int>) {
    0 <= p < |a| && s == a[p := key]
  }

  lemma FilledIs(a: seq<int>, p: int, key: int, s: seq<int>)
    requires Filled(a, p, key, s)
    ensures |s| == |a| && s[p] == key && (p > 0 ==> s[p - 1] == a[p - 1])
    ensures 0 <= p < |a| && a[p := key] == s
  {
  }

  lemma FilledShifts(a: seq<int>, j: nat, key: int, s: seq<int>)
    requires Filled(a, j + 1, key, s)
    ensures |s| == |a| && j + 1 < |a| && Filled(a[j + 1 := a[j]], j, key, Swapped(s, j))
  {
  }

  /** One shift is one exchange: of the elements, the order, the count. */
  lemma ShiftIsSwap(a: seq<int>, i: int, j: nat, key: int, s: seq<int>)
    requires Filled(a, j + 1, key, s) && Gap(s, i, j + 1) && a[j] > key
    ensures |s| == |a| && Filled(a[j + 1 := a[j]], j, key, Swapped(s, j)) && Gap(Swapped(s, j), i, j)
    ensures (forall t :: Permutation(s, t) ==> Permutation(Swapped(s, j), t)) && Inversions(Swapped(s, j)) == Inversions(s) - 1
  {
    hide *;
    FilledIs(a, j + 1, key, s);
    FilledShifts(a, j, key, s);
    SwapRemovesOne(s, j);
    SwapPermutes(s, j);
    GapShifts(s, i, j + 1);
  }

  lemma FilledStarts(s: seq<int>, i: int)
    requires 0 <= i < |s| && Sorted(s[..i])
    ensures Gap(s, i, i) && Filled(s, i, s[i], s) && Permutation(s, s)
  {
    GapOpens(s, i);
  }

  /** Elements after the first that are below all elements in front of them. */
  function Minima(s: seq<int>): nat {
    if |s| <= 1 then 0 else
      Minima(s[..|s| - 1]) + if Above(s[..|s| - 1], s[|s| - 1]) == |s| - 1 then 1 else 0
  }

  lemma {:induction false} AboveAll(s: seq<int>, x: int)
    ensures Above(s, x) == |s| <==> forall k :: 0 <= k < |s| ==> s[k] > x
  {
    if s != [] {
      AboveAll(s[..|s| - 1], x);
      AboveAtMost(s[..|s| - 1], x);
      assert forall k :: 0 <= k < |s| - 1 ==> s[k] == s[..|s| - 1][k];
    }
  }

  ghost predicate BelowAll(s: seq<int>, i: nat) {
    i < |s| && forall k :: 0 <= k < i ==> s[k] > s[i]
  }

  /** s is start with element i moved to place p. */
  ghost predicate Moved(start: seq<int>, s: seq<int>, i: int, p: int) {
    0 <= p <= i < |start| && s == start[..p] + [start[i]] + start[p..i] + start[i + 1..]
  }

  lemma MovedStarts(s: seq<int>, i: int)
    requires 0 <= i < |s|
    ensures Moved(s, s, i, i)
  {
    assert s == s[..i] + [s[i]] + s[i..i] + s[i + 1..];
  }

  lemma MovedShifts(start: seq<int>, s: seq<int>, i: int, j: nat)
    requires Moved(start, s, i, j + 1)
    ensures j + 1 < |s| && Moved(start, Swapped(s, j), i, j)
  {
    var t := start[..j] + [start[i]] + start[j..i] + start[i + 1..];
    assert |t| == |s| && forall k :: 0 <= k < |t| ==> t[k] == Swapped(s, j)[k];
  }

  /** The move permutes the first i + 1 places, leaves the rest, and goes to the front exactly if the element is
      below all in front of it. */
  lemma MovedEnds(start: seq<int>, s: seq<int>, i: int, p: int)
    requires Moved(start, s, i, p) && Gap(s, i, p) && (p == 0 || s[p - 1] <= s[p])
    ensures |s| == |start| && multiset(s[..i + 1]) == multiset(start[..i + 1]) && s[i + 1..] == start[i + 1..]
    ensures p == 0 <==> BelowAll(start, i)
  {
    assert s[..i + 1] == start[..p] + [start[i]] + start[p..i];
    assert start[..i + 1] == start[..p] + start[p..i] + [start[i]];
    if p == 0 {
      forall k | 0 <= k < i ensures start[k] > start[i] { assert s[k + 1] == start[k]; }
    } else {
      assert s[p - 1] == start[p - 1];
    }
  }

  /** Behind a permuted front, the next element has as many larger elements in front. */
  lemma SameMinimum(s: seq<int>, t: seq<int>, i: nat)
    requires |t| == |s| && i < |s| && multiset(t[..i]) == multiset(s[..i]) && t[i..] == s[i..]
    ensures BelowAll(t, i) <==> Above(s[..i], s[i]) == i
  {
    hide Above;
    assert t[i] == t[i..][0] == s[i..][0];
    AboveAll(s[..i], s[i]);
    if forall k :: 0 <= k < i ==> t[k] > t[i] { StayAbove(t[..i], s[..i], t[i]); }
    if forall k :: 0 <= k < i ==> s[..i][k] > s[i] { StayAbove(s[..i], t[..i], s[i]); }
    assert forall k :: 0 <= k < i ==> t[k] == t[..i][k];
  }

  lemma StayAbove(a: seq<int>, b: seq<int>, x: int)
    requires multiset(a) == multiset(b) && forall k :: 0 <= k < |a| ==> a[k] > x
    ensures forall k :: 0 <= k < |b| ==> b[k] > x
  {
    forall k | 0 <= k < |b| ensures b[k] > x { assert b[k] in multiset(b); assert b[k] in a; }
  }

  /** The first i + 1 places of t are those of s in order; the rest is the same. */
  ghost predicate Inserted(s: seq<int>, t: seq<int>, i: nat) {
    && i < |s| == |t| && Sorted(t[..i + 1]) && multiset(t[..i + 1]) == multiset(s[..i + 1]) && t[i + 1..] == s[i + 1..]
    && Permutation(t, s)
  }

  /** While places shift: s is the array with the key put back at j + 1. */
  ghost predicate Shifting(start: seq<int>, a: seq<int>, s: seq<int>, i: int, j: int, key: int) {
    -1 <= j < i && Filled(a, j + 1, key, s) && Gap(s, i, j + 1) && Moved(start, s, i, j + 1) && Permutation(s, start)
  }

  lemma ShiftingStarts(start: seq<int>, i: nat)
    requires i < |start| && Sorted(start[..i])
    ensures Shifting(start, start, start, i, i - 1, start[i])
  {
    FilledStarts(start, i);
    MovedStarts(start, i);
  }

  lemma ShiftingStep(start: seq<int>, a: seq<int>, s: seq<int>, i: int, j: nat, key: int)
    requires Shifting(start, a, s, i, j, key) && j + 1 < |a| && a[j] > key
    ensures j + 1 < |s| && Shifting(start, a[j + 1 := a[j]], Swapped(s, j), i, j - 1, key)
    ensures Inversions(Swapped(s, j)) == Inversions(s) - 1
  {
    hide Filled, Gap, Moved, Permutation, Inversions, Swapped;
    ShiftIsSwap(a, i, j, key, s);
    MovedShifts(start, s, i, j);
  }

  lemma ShiftingEnds(start: seq<int>, a: seq<int>, s: seq<int>, i: nat, j: int, key: int)
    requires Shifting(start, a, s, i, j, key) && i < |a| == |start| && (j >= 0 ==> a[j] <= key)
    ensures j + 1 < |a| && a[j + 1 := key] == s && Inserted(start, s, i) && (j == -1 <==> BelowAll(start, i))
  {
    hide Filled, Gap, Moved, Permutation, Sorted;
    FilledIs(a, j + 1, key, s);
    GapCloses(s, i, j + 1);
    MovedEnds(start, s, i, j + 1);
  }

  /** With the key thought to be back in the gap, every shift is an exchange of neighbours. */
  method InsertKey(arr: array<int>, stats: SortStats, i: nat)
    requires i < arr.Length && Sorted(arr[..][..i])
    modifies arr, stats
    ensures Inserted(old(arr[..]), arr[..], i)
    ensures stats.writes + Inversions(arr[..]) == old(stats.writes) + Inversions(old(arr[..])) + 1
    ensures stats.comparisons - old(stats.comparisons) ==
            stats.writes - old(stats.writes) - if BelowAll(old(arr[..]), i) then 1 else 0
  {
    hide *;
    ghost var start, s := arr[..], arr[..];
    ShiftingStarts(start, i);
    var key := arr[i];
    var j := i - 1;
    while j >= 0 && arr[j] > key
      invariant -1 <= j < i && Shifting(start, arr[..], s, i, j, key)
      invariant stats.writes + Inversions(s) == old(stats.writes) + Inversions(start)
      invariant stats.comparisons - old(stats.comparisons) == stats.writes - old(stats.writes)
    {
      stats.comparisons := stats.comparisons + 1;
      ShiftingStep(start, arr[..], s, i, j, key);
      WriteAndCount(arr, stats, j + 1, arr[j]);
      s := Swapped(s, j);
      j := j - 1;
    }
    if j >= 0 { stats.comparisons := stats.comparisons + 1; }
    ShiftingEnds(start, arr[..], s, i, j, key);
    WriteAndCount(arr, stats, j + 1, key);
  }

  /** The first i places are sorted, the rest is untouched. */
  ghost predicate Sorting(start: seq<int>, s: seq<int>, i: nat) {
    |s| == |start| && i <= |s| && Sorted(s[..i]) && multiset(s[..i]) == multiset(start[..i]) && s[i..] == start[i..]
  }

  lemma SortingStep(start: seq<int>, s: seq<int>, i: nat, t: seq<int>)
    requires Sorting(start, s, i) && i < |s| && Inserted(s, t, i) && Permutation(s, start)
    ensures Sorting(start, t, i + 1) && Permutation(t, start)
  {
    assert s[i] == s[i..][0] == start[i..][0];
    assert s[..i + 1] == s[..i] + [s[i]] && start[..i + 1] == start[..i] + [start[i]];
    assert s[i + 1..] == s[i..][1..] && start[i + 1..] == start[i..][1..];
  }

  lemma MinimaStep(start: seq<int>, i: nat)
    requires 1 <= i < |start|
    ensures Minima(start[..i + 1]) == Minima(start[..i]) + if Above(start[..i], start[i]) == i then 1 else 0
  {
    assert start[..i + 1][..i] == start[..i];
  }

  /** Insertion sort writes once per inversion and once per element after the first, and compares once per write
      except for the elements that go all the way to the front. */
  method InsertionSort(arr: array<int>, stats: SortStats)
    modifies arr, stats
    ensures Sorted(arr[..]) && Permutation(arr[..], old(arr[..]))
    ensures stats.writes == old(stats.writes) + Inversions(old(arr[..])) + if arr.Length == 0 then 0 else arr.Length - 1
    ensures stats.comparisons - old(stats.comparisons) == stats.writes - old(stats.writes) - Minima(old(arr[..]))
  {
    hide *;
    ghost var start := arr[..];
    if arr.Length == 0 { SortingEmpty(start); return; }
    SortingFirst(start);
    var i := 1;
    while i < arr.Length
      invariant 1 <= i <= arr.Length && Sorting(start, arr[..], i) && Permutation(arr[..], start)
      invariant stats.writes + Inversions(arr[..]) == old(stats.writes) + Inversions(start) + i - 1
      invariant stats.comparisons - old(stats.comparisons) == stats.writes - old(stats.writes) - Minima(start[..i])
    {
      ghost var s := arr[..];
      SortingIs(start, s, i);
      SameMinimum(start, s, i);
      InsertKey(arr, stats, i);
      SortingStep(start, s, i, arr[..]);
      MinimaStep(start, i);
      i := i + 1;
    }
    SortingIs(start, arr[..], i);
    assert arr[..][..i] == arr[..] && start[..i] == start;
    SortedIff(arr[..]);
  }

  lemma SortingIs(start: seq<int>, s: seq<int>, i: nat)
    requires Sorting(start, s, i)
    ensures |s| == |start| && i <= |s| && Sorted(s[..i]) && multiset(s[..i]) == multiset(start[..i]) && s[i..] == start[i..]
  {
  }

  lemma SortingFirst(s: seq<int>)
    requires s != []
    ensures Sorting(s, s, 1) && Permutation(s, s) && Minima(s[..1]) == 0
  {
  }

  lemma SortingEmpty(s: seq<int>)
    requires s == []
    ensures Sorted(s) && Permutation(s, s) && Minima(s) == 0 && Inversions(s) == 0
  {
  }
}
