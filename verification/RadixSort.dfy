/** non_comparison_sorts.c: counting sort, and the four-pass radix sort of 32-bit integers. */
module RadixSort {
  type Key = int -> int

  /** The elements with key b, in their order. */
  function Bucket(s: seq<int>, key: Key, b: int): seq<int> {
    if s == [] then []
    else Bucket(s[..|s| - 1], key, b) + if key(s[|s| - 1]) == b then [s[|s| - 1]] else []
  }

  /** Buckets 0 to n - 1, one after the other: the stable arrangement by key. */
  function Buckets(s: seq<int>, key: Key, n: nat): seq<int> {
    if n == 0 then [] else Buckets(s, key, n - 1) + Bucket(s, key, n - 1)
  }

  ghost predicate KeysBelow(s: seq<int>, key: Key, n: int) {
    forall i :: 0 <= i < |s| ==> 0 <= key(s[i]) < n
  }

  ghost predicate SortedBy(s: seq<int>, f: int -> int) {
    forall i, j :: 0 <= i < j < |s| ==> f(s[i]) <= f(s[j])
  }

  // ----- What the arrangement is

  lemma {:induction false} BucketElements(s: seq<int>, key: Key, b: int)
    ensures forall i :: 0 <= i < |Bucket(s, key, b)| ==> key(Bucket(s, key, b)[i]) == b && Bucket(s, key, b)[i] in s
  {
    if s != [] { BucketElements(s[..|s| - 1], key, b); }
  }

  lemma {:induction false} BucketSorted(s: seq<int>, key: Key, b: int, g: int -> int)
    requires SortedBy(s, g)
    ensures SortedBy(Bucket(s, key, b), g)
  {
    if s != [] {
      BucketSorted(s[..|s| - 1], key, b, g);
      BucketElements(s[..|s| - 1], key, b);
    }
  }

  lemma {:induction false} BucketConcat(s: seq<int>, t: seq<int>, key: Key, b: int)
    ensures Bucket(s + t, key, b) == Bucket(s, key, b) + Bucket(t, key, b)
  {
    if t == [] {
      assert s + t == s;
    } else {
      assert (s + t)[..|s + t| - 1] == s + t[..|t| - 1];
      BucketConcat(s, t[..|t| - 1], key, b);
    }
  }

  lemma {:induction false} BucketOfBucket(s: seq<int>, key: Key, b: int, c: int)
    ensures Bucket(Bucket(s, key, c), key, b) == if b == c then Bucket(s, key, c) else []
  {
    if s != [] {
      var init, x := s[..|s| - 1], s[|s| - 1];
      BucketOfBucket(init, key, b, c);
      BucketConcat(Bucket(init, key, c), if key(x) == c then [x] else [], key, b);
      assert [x][..0] == [];
    }
  }

  lemma BucketEmpty(key: Key, b: int)
    ensures Bucket([], key, b) == []
  {
  }

  /** Stability: elements with equal keys keep their order. */
  lemma {:induction false} Stable(s: seq<int>, key: Key, n: nat, b: int)
    ensures Bucket(Buckets(s, key, n), key, b) == if 0 <= b < n then Bucket(s, key, b) else []
  {
    hide Bucket;
    if n == 0 {
      BucketEmpty(key, b);
    } else {
      Stable(s, key, n - 1, b);
      BucketConcat(Buckets(s, key, n - 1), Bucket(s, key, n - 1), key, b);
      BucketOfBucket(s, key, b, n - 1);
    }
  }

  lemma BucketAdd(s: seq<int>, x: int, key: Key, b: int)
    ensures Bucket(s + [x], key, b) == Bucket(s, key, b) + if key(x) == b then [x] else []
  {
    assert (s + [x])[..|s|] == s;
  }

  lemma NoneOf(s: seq<int>, key: Key)
    ensures Buckets(s, key, 0) == []
  {
  }

  lemma BucketsNext(s: seq<int>, key: Key, n: nat)
    requires n > 0
    ensures Buckets(s, key, n) == Buckets(s, key, n - 1) + Bucket(s, key, n - 1)
  {
  }

  lemma {:induction false} BucketsAdd(s: seq<int>, x: int, key: Key, n: nat)
    ensures multiset(Buckets(s + [x], key, n)) == multiset(Buckets(s, key, n)) + if 0 <= key(x) < n then multiset{x} else multiset{}
  {
    hide Bucket, Buckets;
    if n == 0 {
      NoneOf(s, key);
      NoneOf(s + [x], key);
    } else {
      BucketsNext(s, key, n);
      BucketsNext(s + [x], key, n);
      BucketsAdd(s, x, key, n - 1);
      BucketAdd(s, x, key, n - 1);
      var added := if 0 <= key(x) < n - 1 then multiset{x} else multiset{};
      Joined(Buckets(s + [x], key, n - 1), Buckets(s, key, n - 1), Bucket(s, key, n - 1),
             if key(x) == n - 1 then [x] else [], added);
    }
  }

  lemma Joined(a': seq<int>, a: seq<int>, b: seq<int>, c: seq<int>, m: multiset<int>)
    requires multiset(a') == multiset(a) + m
    ensures multiset(a' + (b + c)) == multiset(a + b) + (m + multiset(c))
  {
  }

  /** Nothing is lost or invented. */
  lemma {:induction false} Permutes(s: seq<int>, key: Key, n: nat)
    requires KeysBelow(s, key, n)
    ensures multiset(Buckets(s, key, n)) == multiset(s) && |Buckets(s, key, n)| == |s|
  {
    if s == [] {
      NoBuckets(key, n);
    } else {
      var init, x := s[..|s| - 1], s[|s| - 1];
      Permutes(init, key, n);
      BucketsAdd(init, x, key, n);
      assert s == init + [x];
    }
    assert |multiset(Buckets(s, key, n))| == |multiset(s)|;
  }

  lemma {:induction false} NoBuckets(key: Key, n: nat)
    ensures Buckets([], key, n) == []
  {
    if n > 0 { NoBuckets(key, n - 1); }
  }

  lemma {:induction false} BucketsElements(s: seq<int>, key: Key, n: nat)
    ensures forall i :: 0 <= i < |Buckets(s, key, n)| ==> Buckets(s, key, n)[i] in s && 0 <= key(Buckets(s, key, n)[i]) < n
  {
    if n > 0 {
      BucketsElements(s, key, n - 1);
      BucketElements(s, key, n - 1);
    }
  }

  lemma SortedConcat(a: seq<int>, b: seq<int>, f: int -> int)
    requires SortedBy(a, f) && SortedBy(b, f) && forall i, j :: 0 <= i < |a| && 0 <= j < |b| ==> f(a[i]) <= f(b[j])
    ensures SortedBy(a + b, f)
  {
  }

  /** On the elements of s, f compares keys first and then g. */
  ghost predicate Refines(s: seq<int>, key: Key, g: int -> int, f: int -> int) {
    && (forall x, y :: x in s && y in s && key(x) < key(y) ==> f(x) <= f(y))
    && (forall x, y :: x in s && y in s && key(x) == key(y) && g(x) <= g(y) ==> f(x) <= f(y))
  }

  lemma RefinesAt(s: seq<int>, key: Key, g: int -> int, f: int -> int, x: int, y: int)
    requires Refines(s, key, g, f) && x in s && y in s && (key(x) < key(y) || (key(x) == key(y) && g(x) <= g(y)))
    ensures f(x) <= f(y)
  {
  }

  lemma BucketRefined(s: seq<int>, key: Key, b: int, g: int -> int, f: int -> int)
    requires SortedBy(s, g) && Refines(s, key, g, f)
    ensures SortedBy(Bucket(s, key, b), f)
  {
    hide Bucket;
    var t := Bucket(s, key, b);
    BucketElements(s, key, b);
    BucketSorted(s, key, b, g);
    forall i, j | 0 <= i < j < |t| ensures f(t[i]) <= f(t[j]) {
      RefinesAt(s, key, g, f, t[i], t[j]);
    }
  }

  lemma BucketsBelow(s: seq<int>, key: Key, n: nat, g: int -> int, f: int -> int)
    requires Refines(s, key, g, f)
    ensures var a, b := Buckets(s, key, n), Bucket(s, key, n);
      forall i, j :: 0 <= i < |a| && 0 <= j < |b| ==> f(a[i]) <= f(b[j])
  {
    hide Bucket, Buckets;
    var a, b := Buckets(s, key, n), Bucket(s, key, n);
    BucketsElements(s, key, n);
    BucketElements(s, key, n);
    forall i, j | 0 <= i < |a| && 0 <= j < |b| ensures f(a[i]) <= f(b[j]) {
      RefinesAt(s, key, g, f, a[i], b[j]);
    }
  }

  /** A pass by key refines an order g into any order f that compares keys first and then g. */
  lemma {:induction false} PassSorts(s: seq<int>, key: Key, n: nat, g: int -> int, f: int -> int)
    requires SortedBy(s, g) && Refines(s, key, g, f)
    ensures SortedBy(Buckets(s, key, n), f)
  {
    if n > 0 {
      hide Bucket, Refines, SortedBy;
      PassSorts(s, key, n - 1, g, f);
      BucketRefined(s, key, n - 1, g, f);
      BucketsBelow(s, key, n - 1, g, f);
      SortedConcat(Buckets(s, key, n - 1), Bucket(s, key, n - 1), f);
    }
  }

  // ----- Where each element goes

  function Start(s: seq<int>, key: Key, b: nat): nat {
    |Buckets(s, key, b)|
  }

  /** The place of element j: after all smaller keys and the equal keys before it. */
  function Place(s: seq<int>, key: Key, j: nat): nat
    requires j < |s| && key(s[j]) >= 0
  {
    Start(s, key, key(s[j])) + |Bucket(s[..j], key, key(s[j]))|
  }

  lemma PlaceIs(s: seq<int>, key: Key, j: nat)
    requires j < |s| && key(s[j]) >= 0
    ensures Place(s, key, j) == Start(s, key, key(s[j])) + |Bucket(s[..j], key, key(s[j]))|
  {
  }

  lemma {:induction false} StartMonotone(s: seq<int>, key: Key, a: nat, b: nat)
    requires a < b
    ensures Start(s, key, a) + |Bucket(s, key, a)| <= Start(s, key, b)
    ensures Buckets(s, key, a) + Bucket(s, key, a) <= Buckets(s, key, b)
    decreases b
  {
    if a < b - 1 { StartMonotone(s, key, a, b - 1); }
  }

  lemma BucketPrefix(s: seq<int>, key: Key, b: int, i: nat, j: nat)
    requires i <= j <= |s|
    ensures Bucket(s[..i], key, b) <= Bucket(s[..j], key, b)
    ensures i < j && key(s[i]) == b ==> |Bucket(s[..i], key, b)| < |Bucket(s[..j], key, b)| && Bucket(s[..j], key, b)[|Bucket(s[..i], key, b)|] == s[i]
  {
    assert s[..j] == s[..i] + s[i..j];
    BucketConcat(s[..i], s[i..j], key, b);
    if i < j && key(s[i]) == b {
      assert s[i..j] == [s[i]] + s[i + 1..j];
      BucketConcat([s[i]], s[i + 1..j], key, b);
      assert [s[i]][..0] == [];
      assert Bucket([s[i]], key, b) == [s[i]];
    }
  }

  /** Element j is at its place in the arrangement. */
  lemma PlaceHolds(s: seq<int>, key: Key, n: nat, j: nat)
    requires j < |s| && 0 <= key(s[j]) < n
    ensures Place(s, key, j) < |Buckets(s, key, n)| && Buckets(s, key, n)[Place(s, key, j)] == s[j]
    ensures |Bucket(s[..j], key, key(s[j]))| < |Bucket(s, key, key(s[j]))|
  {
    var b := key(s[j]);
    assert s[..|s|] == s;
    BucketPrefix(s, key, b, j, |s|);
    StartMonotone(s, key, b, n);
  }

  lemma PlacesDiffer(s: seq<int>, key: Key, i: nat, j: nat)
    requires i < j < |s| && key(s[i]) >= 0 && key(s[j]) >= 0
    ensures Place(s, key, i) != Place(s, key, j)
  {
    var a, b := key(s[i]), key(s[j]);
    PlaceHolds(s, key, a + 1, i);
    PlaceHolds(s, key, b + 1, j);
    if a < b { StartMonotone(s, key, a, b); }
    else if b < a { StartMonotone(s, key, b, a); }
    else { BucketPrefix(s, key, a, i, j); }
  }

  /** Every place is some element's place. */
  lemma {:induction false} PlaceOf(s: seq<int>, key: Key, n: nat, p: nat) returns (j: nat)
    requires KeysBelow(s, key, n) && p < |Buckets(s, key, n)|
    ensures j < |s| && Place(s, key, j) == p
  {
    var b := BucketAt(s, key, n, p);
    j := Nth(s, key, b, p - Start(s, key, b));
  }

  lemma {:induction false} BucketAt(s: seq<int>, key: Key, n: nat, p: nat) returns (b: nat)
    requires p < |Buckets(s, key, n)|
    ensures b < n && Start(s, key, b) <= p < Start(s, key, b) + |Bucket(s, key, b)|
  {
    if p >= Start(s, key, n - 1) { b := n - 1; } else { b := BucketAt(s, key, n - 1, p); }
  }

  lemma {:induction false} Nth(s: seq<int>, key: Key, b: int, r: nat) returns (j: nat)
    requires r < |Bucket(s, key, b)|
    ensures j < |s| && key(s[j]) == b && |Bucket(s[..j], key, b)| == r
  {
    var init := s[..|s| - 1];
    if r < |Bucket(init, key, b)| {
      j := Nth(init, key, b, r);
      assert init[..j] == s[..j];
    } else {
      j := |s| - 1;
    }
  }

  // ----- The prefix-sum pass

  method Count(arr: array<int>, key: Key, K: nat) returns (count: array<int>)
    requires KeysBelow(arr[..], key, K)
    ensures fresh(count) && count.Length == K
    ensures forall b :: 0 <= b < K ==> count[b] == |Bucket(arr[..], key, b)|
  {
    count := new int[K](_ => 0);
    for i := 0 to arr.Length
      invariant forall b :: 0 <= b < K ==> count[b] == |Bucket(arr[..i], key, b)|
    {
      assert arr[..i + 1] == arr[..i] + [arr[i]];
      forall b | 0 <= b < K ensures Bucket(arr[..i + 1], key, b) == Bucket(arr[..i], key, b) + if key(arr[i]) == b then [arr[i]] else [] {
        BucketAdd(arr[..i], arr[i], key, b);
      }
      var b := key(arr[..][i]);
      count[b] := count[b] + 1;
    }
    assert arr[..arr.Length] == arr[..];
  }

  lemma StartZero(s: seq<int>, key: Key)
    ensures Start(s, key, 0) == 0
  {
  }

  lemma StartNext(s: seq<int>, key: Key, i: nat)
    requires i > 0
    ensures Start(s, key, i) == Start(s, key, i - 1) + |Bucket(s, key, i - 1)|
  {
  }

  method Accumulate(ghost s: seq<int>, key: Key, count: array<int>)
    requires forall b :: 0 <= b < count.Length ==> count[b] == |Bucket(s, key, b)|
    modifies count
    ensures forall b :: 0 <= b < count.Length ==> count[b] == Start(s, key, b) + |Bucket(s, key, b)|
  {
    hide Bucket, Start;
    if count.Length > 0 { StartZero(s, key); }
    var i := 1;
    while i < count.Length
      invariant 1 <= i && (count.Length == 0 || i <= count.Length)
      invariant forall b :: 0 <= b < i && b < count.Length ==> count[b] == Start(s, key, b) + |Bucket(s, key, b)|
      invariant forall b :: i <= b < count.Length ==> count[b] == |Bucket(s, key, b)|
    {
      StartNext(s, key, i);
      count[i] := count[i] + count[i - 1];
      i := i + 1;
    }
  }

  ghost predicate Placed(s: seq<int>, key: Key, out: seq<int>, j: int)
    requires 0 <= j < |s|
  {
    key(s[j]) >= 0 && Place(s, key, j) < |out| && out[Place(s, key, j)] == s[j]
  }

  /** The elements from i on are in place, and each count is the end of the places left for its key. */
  ghost predicate Placing(s: seq<int>, key: Key, K: nat, count: seq<int>, out: seq<int>, i: nat) {
    && i <= |s| == |out| && |count| == K && KeysBelow(s, key, K)
    && (forall b :: 0 <= b < K ==> count[b] == Start(s, key, b) + |Bucket(s[..i], key, b)|)
    && forall j :: i <= j < |s| ==> Placed(s, key, out, j)
  }

  lemma PlacingStarts(s: seq<int>, key: Key, K: nat, count: seq<int>, out: seq<int>)
    requires |s| == |out| && |count| == K && KeysBelow(s, key, K)
    requires forall b :: 0 <= b < K ==> count[b] == Start(s, key, b) + |Bucket(s, key, b)|
    ensures Placing(s, key, K, count, out, |s|)
  {
    assert s[..|s|] == s;
  }

  lemma PlacingCounts(s: seq<int>, key: Key, K: nat, count: seq<int>, out: seq<int>, i: nat)
    requires Placing(s, key, K, count, out, i + 1)
    ensures 0 <= key(s[i]) < K && count[key(s[i])] == Place(s, key, i) + 1 && Place(s, key, i) < |out|
    ensures forall b :: 0 <= b < K ==>
              count[key(s[i]) := count[key(s[i])] - 1][b] == Start(s, key, b) + |Bucket(s[..i], key, b)|
  {
    hide Bucket, Start, Place;
    var k := key(s[i]);
    assert s[..i + 1] == s[..i] + [s[i]];
    forall b | 0 <= b < K ensures |Bucket(s[..i + 1], key, b)| == |Bucket(s[..i], key, b)| + if k == b then 1 else 0 {
      BucketAdd(s[..i], s[i], key, b);
    }
    PlaceIs(s, key, i);
    PlaceHolds(s, key, K, i);
    Permutes(s, key, K);
  }

  lemma PlacingStep(s: seq<int>, key: Key, K: nat, count: seq<int>, out: seq<int>, i: nat)
    requires Placing(s, key, K, count, out, i + 1)
    ensures 0 <= key(s[i]) < K && 0 <= count[key(s[i])] - 1 < |out|
    ensures var k, p := key(s[i]), count[key(s[i])] - 1; Placing(s, key, K, count[k := p], out[p := s[i]], i)
  {
    hide Bucket, Start, Place;
    PlacingCounts(s, key, K, count, out, i);
    var p := Place(s, key, i);
    var out' := out[p := s[i]];
    forall j | i <= j < |s| ensures Placed(s, key, out', j) {
      if i < j {
        assert Placed(s, key, out, j);
        PlacesDiffer(s, key, i, j);
      }
    }
  }

  lemma PlacingEnds(s: seq<int>, key: Key, K: nat, count: seq<int>, out: seq<int>)
    requires Placing(s, key, K, count, out, 0)
    ensures out == Buckets(s, key, K)
  {
    hide Bucket, Start, Place, Buckets;
    Permutes(s, key, K);
    forall p | 0 <= p < |out| ensures out[p] == Buckets(s, key, K)[p] {
      var j := PlaceOf(s, key, K, p);
      PlaceHolds(s, key, K, j);
      assert Placed(s, key, out, j);
    }
  }

  /** Counts of the keys, then running totals, then right-to-left placement: the stable arrangement. */
  method CountingPass(arr: array<int>, output: array<int>, key: Key, K: nat)
    requires output.Length == arr.Length && output != arr && KeysBelow(arr[..], key, K)
    modifies output
    ensures output[..] == Buckets(arr[..], key, K)
  {
    hide *;
    ghost var s := arr[..];
    var count := Count(arr, key, K);
    Accumulate(s, key, count);
    var i := arr.Length;
    PlacingStarts(s, key, K, count[..], output[..]);
    while i > 0
      invariant 0 <= i <= arr.Length && arr[..] == s && Placing(s, key, K, count[..], output[..], i)
    {
      i := i - 1;
      ghost var c, out := count[..], output[..];
      PlacingStep(s, key, K, c, out, i);
      var b := key(arr[i]);
      count[b] := count[b] - 1;
      output[count[b]] := arr[i];
      assert count[..] == c[b := c[b] - 1] && output[..] == out[c[b] - 1 := s[i]];
    }
    PlacingEnds(s, key, K, count[..], output[..]);
  }

  lemma ArrangedIsSorted(s: seq<int>, key: Key, n: nat)
    requires KeysBelow(s, key, n)
    ensures SortedBy(Buckets(s, key, n), key) && multiset(Buckets(s, key, n)) == multiset(s)
  {
    hide Bucket, Buckets;
    Permutes(s, key, n);
    PassSorts(s, key, n, _ => 0, key);
  }

  /** Counting sort of values between 0 and maxVal; short arrays and a negative bound are left alone. */
  method CountingSort(arr: array<int>, maxVal: int)
    requires arr.Length > 1 && maxVal >= 0 ==> forall i :: 0 <= i < arr.Length ==> 0 <= arr[i] <= maxVal
    modifies arr
    ensures multiset(arr[..]) == multiset(old(arr[..]))
    ensures arr.Length <= 1 || maxVal >= 0 ==> SortedBy(arr[..], x => x)
    ensures arr.Length <= 1 || maxVal < 0 ==> arr[..] == old(arr[..])
  {
    hide Bucket, Buckets;
    if arr.Length <= 1 || maxVal < 0 { return; }
    ghost var s := arr[..];
    var id := x => x;
    var output := new int[arr.Length];
    CountingPass(arr, output, id, maxVal + 1);
    ArrangedIsSorted(s, id, maxVal + 1);
    ghost var sorted := output[..];
    forall i | 0 <= i < arr.Length { arr[i] := output[i]; }
    assert arr[..] == sorted;
  }

  // ----- Four passes over 32-bit values

  const TWO31 := 0x8000_0000
  const TWO32 := 0x1_0000_0000

  ghost predicate Int32s(s: seq<int>) {
    forall i :: 0 <= i < |s| ==> -TWO31 <= s[i] < TWO31
  }

  /** The conversion of a signed value to unsigned int: modulo 2 to the 32. */
  function ToUnsigned(x: int): int {
    x % TWO32
  }

  function Pow2(n: nat): int
    ensures Pow2(n) > 0
  {
    if n == 0 then 1 else 2 * Pow2(n - 1)
  }

  /** The byte of x that starts at bit `exp`. */
  function Digit(exp: nat): Key {
    x => (ToUnsigned(x) / Pow2(exp)) % 256
  }

  /** The bits of x below bit `exp`. */
  ghost function LowBits(exp: nat): int -> int {
    x => ToUnsigned(x) % Pow2(exp)
  }

  lemma Pow2Byte(exp: nat)
    ensures Pow2(exp + 8) == 256 * Pow2(exp)
  {
    assert Pow2(exp + 4) == 16 * Pow2(exp) by {
      assert Pow2(exp + 2) == 4 * Pow2(exp);
    }
    assert Pow2(exp + 6) == 4 * Pow2(exp + 4);
  }

  lemma Distribute(p: int, a: int, d: int)
    ensures p * (256 * a + d) == (256 * p) * a + p * d
  {
    assert p * (256 * a + d) == p * (256 * a) + p * d;
  }

  lemma Split(u: int, p: int)
    requires u >= 0 && p > 0
    ensures u % (256 * p) == p * ((u / p) % 256) + u % p
  {
    SplitParts(u, p, u / p, u % p, (u / p) / 256, (u / p) % 256);
  }

  lemma SplitParts(u: int, p: int, q: int, r: int, a: int, d: int)
    requires p > 0 && u == p * q + r && q == 256 * a + d && 0 <= r < p && 0 <= d < 256 && a >= 0
    ensures u % (256 * p) == p * d + r
  {
    Distribute(p, a, d);
    AtLeast(p, d, 255);
    Remainder(256 * p, a, p * d + r, u);
  }

  lemma AtLeast(m: int, a: int, b: int)
    requires 0 <= a <= b && m > 0
    ensures 0 <= m * a <= m * b
  {
    assert m * b == m * a + m * (b - a);
  }

  lemma Remainder(m: int, a: int, r: int, x: int)
    requires 0 <= r < m && x == m * a + r && a >= 0
    ensures x % m == r
  {
    var q, t := x / m, x % m;
    QuotientUnique(m, a, q, r, t);
  }

  lemma QuotientUnique(m: int, a: int, q: int, r: int, t: int)
    requires 0 <= r < m && 0 <= t < m && m * a + r == m * q + t && a >= 0 && q >= 0
    ensures r == t
  {
    if a < q { AtLeast(m, a + 1, q); } else if q < a { AtLeast(m, q + 1, a); }
  }

  /** One more byte: an order by the low bits, refined by the next byte, is an order by 8 more bits. */
  lemma DigitRefines(exp: nat, x: int, y: int)
    requires Digit(exp)(x) < Digit(exp)(y) || (Digit(exp)(x) == Digit(exp)(y) && LowBits(exp)(x) <= LowBits(exp)(y))
    ensures LowBits(exp + 8)(x) <= LowBits(exp + 8)(y)
  {
    Pow2Byte(exp);
    DigitThenRest(ToUnsigned(x), ToUnsigned(y), Pow2(exp));
  }

  lemma DigitThenRest(u: int, v: int, p: int)
    requires u >= 0 && v >= 0 && p > 0
    requires (u / p) % 256 < (v / p) % 256 || ((u / p) % 256 == (v / p) % 256 && u % p <= v % p)
    ensures u % (256 * p) <= v % (256 * p)
  {
    Split(u, p);
    Split(v, p);
    FirstThenSecond(p, (u / p) % 256, u % p, (v / p) % 256, v % p);
  }

  lemma FirstThenSecond(p: int, d: int, r: int, e: int, t: int)
    requires 0 <= r < p && 0 <= t < p && 0 <= d
    requires d < e || (d == e && r <= t)
    ensures p * d + r <= p * e + t
  {
    if d < e {
      AtLeast(p, d + 1, e);
      assert p * (d + 1) == p * d + p;
    }
  }

  lemma DigitBelow(s: seq<int>, exp: nat)
    ensures KeysBelow(s, Digit(exp), 256)
  {
  }

  lemma NoBits(s: seq<int>, exp: nat)
    requires exp == 0
    ensures SortedBy(s, LowBits(exp))
  {
    forall i, j | 0 <= i < j < |s| ensures LowBits(exp)(s[i]) <= LowBits(exp)(s[j]) {
      assert Pow2(exp) == 1;
    }
  }

  lemma AllBits(x: int)
    ensures LowBits(32)(x) == ToUnsigned(x)
  {
    Pow2Byte(0);
    Pow2Byte(8);
    Pow2Byte(16);
    Pow2Byte(24);
  }

  /** One stable pass by the next byte turns an order by `exp` bits into an order by 8 more. */
  lemma PassRefines(s: seq<int>, exp: nat)
    requires SortedBy(s, LowBits(exp))
    ensures SortedBy(Buckets(s, Digit(exp), 256), LowBits(exp + 8))
    ensures multiset(Buckets(s, Digit(exp), 256)) == multiset(s) && |Buckets(s, Digit(exp), 256)| == |s|
  {
    hide Bucket, Buckets, Digit, LowBits, Pow2, ToUnsigned;
    DigitBelow(s, exp);
    Permutes(s, Digit(exp), 256);
    forall x, y | Digit(exp)(x) < Digit(exp)(y) || (Digit(exp)(x) == Digit(exp)(y) && LowBits(exp)(x) <= LowBits(exp)(y))
      ensures LowBits(exp + 8)(x) <= LowBits(exp + 8)(y)
    {
      DigitRefines(exp, x, y);
    }
    PassSorts(s, Digit(exp), 256, LowBits(exp), LowBits(exp + 8));
  }

  /** Four stable passes order any 32-bit values by their unsigned reading. */
  method RadixSortUnsigned(arr: array<int>)
    modifies arr
    ensures multiset(arr[..]) == multiset(old(arr[..]))
    ensures SortedBy(arr[..], ToUnsigned)
  {
    hide Bucket, Buckets, Digit, LowBits, Pow2, ToUnsigned;
    var output := new int[arr.Length];
    var exp := 0;
    assert SortedBy(arr[..], LowBits(0)) by { NoBits(arr[..], 0); }
    while exp < 32
      invariant (exp == 0 || exp == 8 || exp == 16 || exp == 24 || exp == 32) && arr != output
      invariant multiset(arr[..]) == multiset(old(arr[..]))
      invariant SortedBy(arr[..], LowBits(exp))
    {
      assert KeysBelow(arr[..], Digit(exp), 256) by { DigitBelow(arr[..], exp); }
      ghost var s := arr[..];
      CountingPass(arr, output, Digit(exp), 256);
      PassRefines(s, exp);
      ghost var sorted := output[..];
      forall i | 0 <= i < arr.Length { arr[i] := output[i]; }
      assert arr[..] == sorted;
      exp := exp + 8;
    }
    forall x ensures LowBits(exp)(x) == ToUnsigned(x) { AllBits(x); }
  }

  // ----- Signed values

  /** Exclusive or with the sign bit. */
  function Flip(x: int): int {
    if x >= 0 then x - TWO31 else x + TWO31
  }

  lemma FlipMeans(x: int)
    requires -TWO31 <= x < TWO31
    ensures -TWO31 <= Flip(x) < TWO31 && Flip(Flip(x)) == x && ToUnsigned(Flip(x)) == x + TWO31
  {
  }

  function FlipAll(s: seq<int>): seq<int> {
    seq(|s|, i requires 0 <= i < |s| => Flip(s[i]))
  }

  lemma {:induction false} FlipCounts(s: seq<int>, x: int)
    requires Int32s(s) && -TWO31 <= x < TWO31
    ensures multiset(FlipAll(s))[x] == multiset(s)[Flip(x)]
  {
    if s != [] {
      var init, y := s[..|s| - 1], s[|s| - 1];
      FlipCounts(init, x);
      assert s == init + [y] && FlipAll(s) == FlipAll(init) + [Flip(y)];
      FlipMeans(x);
      FlipMeans(y);
    }
  }

  /** Flipping, permuting and flipping back is a permutation. */
  lemma FlipBack(s: seq<int>, t: seq<int>)
    requires Int32s(s) && Int32s(t) && multiset(t) == multiset(FlipAll(s))
    ensures multiset(FlipAll(t)) == multiset(s)
  {
    forall x ensures multiset(FlipAll(t))[x] == multiset(s)[x] {
      if -TWO31 <= x < TWO31 {
        FlipMeans(x);
        FlipCounts(t, x);
        FlipCounts(s, Flip(x));
      } else {
        forall i | 0 <= i < |t| ensures FlipAll(t)[i] != x { FlipMeans(t[i]); }
        assert x !in multiset(FlipAll(t)) && x !in multiset(s);
      }
    }
  }

  lemma Unflipped(s: seq<int>, t: seq<int>)
    requires Int32s(s) && multiset(t) == multiset(FlipAll(s)) && SortedBy(t, ToUnsigned)
    ensures multiset(FlipAll(t)) == multiset(s) && SortedBy(FlipAll(t), x => x)
  {
    hide Flip, ToUnsigned;
    forall i | 0 <= i < |t| ensures -TWO31 <= t[i] < TWO31 {
      assert t[i] in multiset(t);
      var j :| 0 <= j < |s| && FlipAll(s)[j] == t[i];
      FlipMeans(s[j]);
    }
    FlipBack(s, t);
    forall i, j | 0 <= i < j < |t| ensures FlipAll(t)[i] <= FlipAll(t)[j] {
      FlipMeans(t[i]);
      FlipMeans(t[j]);
      FlipMeans(Flip(t[i]));
      FlipMeans(Flip(t[j]));
    }
  }

  method FlipArray(arr: array<int>)
    modifies arr
    ensures arr[..] == FlipAll(old(arr[..]))
  {
    for i := 0 to arr.Length
      invariant forall j :: 0 <= j < i ==> arr[j] == Flip(old(arr[j]))
      invariant forall j :: i <= j < arr.Length ==> arr[j] == old(arr[j])
    {
      arr[i] := Flip(arr[i]);
    }
  }

  /** Radix sort sorts every array of signed 32-bit integers. */
  method RadixSort(arr: array<int>)
    requires Int32s(arr[..])
    modifies arr
    ensures multiset(arr[..]) == multiset(old(arr[..]))
    ensures SortedBy(arr[..], x => x)
  {
    hide Flip, ToUnsigned;
    ghost var s := arr[..];
    FlipArray(arr);
    RadixSortUnsigned(arr);
    ghost var t := arr[..];
    FlipArray(arr);
    Unflipped(s, t);
  }
}
