/** The array heap of dijkstra.c: `heap_push` and `heap_pop`. */
module DistanceHeap {
  datatype HeapNode = HeapNode(dist: int, node: nat)

  predicate IsChild(p: int, k: int) {
    0 <= p && (k == 2 * p + 1 || k == 2 * p + 2)
  }

  ghost predicate Ordered(s: seq<HeapNode>) {
    forall p, k {:trigger IsChild(p, k)} :: IsChild(p, k) && k < |s| ==> s[p].dist <= s[k].dist
  }

  /** The children of the entry at `hole` are no nearer than its parent. */
  ghost predicate Bridged(s: seq<HeapNode>, hole: int) {
    forall p, k {:trigger IsChild(p, hole), IsChild(hole, k)} :: IsChild(p, hole) && IsChild(hole, k) && k < |s| ==>
      s[p].dist <= s[k].dist
  }

  /** Ordered, except perhaps between the entry at `hole` and its parent. */
  ghost predicate OrderedBut(s: seq<HeapNode>, hole: int) {
    && (forall p, k {:trigger IsChild(p, k)} :: IsChild(p, k) && k < |s| && k != hole ==> s[p].dist <= s[k].dist)
    && Bridged(s, hole)
  }

  /** Ordered, except perhaps between the entry at `hole` and its children. */
  ghost predicate OrderedBelow(s: seq<HeapNode>, hole: int) {
    && (forall p, k {:trigger IsChild(p, k)} :: IsChild(p, k) && k < |s| && p != hole ==> s[p].dist <= s[k].dist)
    && Bridged(s, hole)
  }

  lemma {:induction false} RootIsLeast(s: seq<HeapNode>, k: nat)
    requires Ordered(s) && k < |s|
    ensures s[0].dist <= s[k].dist
  {
    if k > 0 {
      assert IsChild((k - 1) / 2, k);
      RootIsLeast(s, (k - 1) / 2);
    }
  }

  function Swap(s: seq<HeapNode>, i: nat, j: nat): seq<HeapNode>
    requires i < |s| && j < |s|
  {
    s[i := s[j]][j := s[i]]
  }

  lemma SwapSame(s: seq<HeapNode>, i: nat, j: nat)
    requires i < |s| && j < |s|
    ensures |Swap(s, i, j)| == |s| && multiset(Swap(s, i, j)) == multiset(s)
  {
  }

  lemma SwapUp(s: seq<HeapNode>, i: nat, p: nat)
    requires i < |s| && IsChild(p, i) && OrderedBut(s, i) && s[i].dist < s[p].dist
    ensures OrderedBut(Swap(s, i, p), p)
  {
    var t := Swap(s, i, p);
    forall q, k | IsChild(q, k) && k < |t| && k != p ensures t[q].dist <= t[k].dist {
      if q == i { assert IsChild(p, i) && IsChild(i, k); }
    }
    forall g, k | IsChild(g, p) && IsChild(p, k) && k < |t| ensures t[g].dist <= t[k].dist {
      assert s[g].dist <= s[p].dist;
    }
  }

  lemma SwapDown(s: seq<HeapNode>, i: nat, c: nat)
    requires c < |s| && IsChild(i, c) && OrderedBelow(s, i) && s[c].dist < s[i].dist
    requires 2 * i + 1 < |s| ==> s[c].dist <= s[2 * i + 1].dist
    requires 2 * i + 2 < |s| ==> s[c].dist <= s[2 * i + 2].dist
    ensures OrderedBelow(Swap(s, i, c), c)
  {
    var t := Swap(s, i, c);
    forall q, k | IsChild(q, k) && k < |t| && q != c ensures t[q].dist <= t[k].dist {
      if k == i { assert IsChild(q, i) && IsChild(i, c); }
    }
    forall g, k | IsChild(g, c) && IsChild(c, k) && k < |t| ensures t[g].dist <= t[k].dist {
      assert g == i && s[c].dist <= s[k].dist;
    }
  }

  lemma StopUp(s: seq<HeapNode>, i: nat)
    requires i < |s| && OrderedBut(s, i)
    requires i == 0 || s[(i - 1) / 2].dist <= s[i].dist
    ensures Ordered(s)
  {
    forall q, k | IsChild(q, k) && k < |s| ensures s[q].dist <= s[k].dist {
      if k == i { assert q == (i - 1) / 2; }
    }
  }

  lemma StopDown(s: seq<HeapNode>, i: nat)
    requires i < |s| && OrderedBelow(s, i)
    requires 2 * i + 1 < |s| ==> s[i].dist <= s[2 * i + 1].dist
    requires 2 * i + 2 < |s| ==> s[i].dist <= s[2 * i + 2].dist
    ensures Ordered(s)
  {
  }

  lemma NothingOrdered(s: seq<HeapNode>)
    requires s == []
    ensures Ordered(s)
  {
  }

  lemma AppendLast(s: seq<HeapNode>, x: HeapNode)
    requires Ordered(s)
    ensures OrderedBut(s + [x], |s|)
  {
  }

  /** The last entry moved to the root. */
  function Replaced(s: seq<HeapNode>): seq<HeapNode>
    requires s != []
  {
    if |s| == 1 then [] else s[0 := s[|s| - 1]][..|s| - 1]
  }

  lemma ReplacedIs(a: seq<HeapNode>, n: nat)
    requires n < |a|
    ensures a[0 := a[n]][..n] == Replaced(a[..n + 1])
  {
  }

  lemma ReplacedSame(s: seq<HeapNode>)
    requires s != []
    ensures multiset(Replaced(s)) == multiset(s) - multiset{s[0]} && s[0] in multiset(s)
  {
    var n := |s| - 1;
    if n == 0 {
      assert s == [s[0]];
    } else {
      assert s == [s[0]] + s[1..n] + [s[n]];
      assert Replaced(s) == [s[n]] + s[1..n];
    }
  }

  lemma ReplacedOrder(s: seq<HeapNode>)
    requires s != [] && Ordered(s)
    ensures OrderedBelow(Replaced(s), 0)
  {
    forall p, k | IsChild(p, k) && k < |s| - 1 && p != 0 ensures Replaced(s)[p].dist <= Replaced(s)[k].dist {
      assert s[p].dist <= s[k].dist;
    }
  }

  lemma RootIsLeastOfAll(s: seq<HeapNode>)
    requires s != [] && Ordered(s)
    ensures forall x :: x in multiset(s) ==> s[0].dist <= x.dist
  {
    forall x | x in multiset(s) ensures s[0].dist <= x.dist {
      assert x in s;
      var k :| 0 <= k < |s| && s[k] == x;
      RootIsLeast(s, k);
    }
  }

  class Heap {
    const heap: array<HeapNode>
    var size: nat

    ghost predicate Valid()
      reads this, heap
    {
      size <= heap.Length && Ordered(heap[..size])
    }

    ghost function Entries(): multiset<HeapNode>
      reads this, heap
      requires Valid()
    {
      multiset(heap[..size])
    }

    constructor (capacity: nat)
      ensures Valid() && size == 0 && heap.Length == capacity && fresh(heap) && Entries() == multiset{}
    {
      heap := new HeapNode[capacity](_ => HeapNode(0, 0));
      size := 0;
    }

    method SwapAt(i: nat, j: nat)
      requires size <= heap.Length && i < size && j < size
      modifies heap
      ensures heap[..size] == Swap(old(heap[..size]), i, j)
    {
      heap[i], heap[j] := heap[j], heap[i];
    }

    /** `heap_push`; the array must have room. */
    method Push(dist: int, node: nat)
      requires Valid() && size < heap.Length
      modifies this, heap
      ensures Valid() && size == old(size) + 1
      ensures Entries() == old(Entries()) + multiset{HeapNode(dist, node)}
    {
      hide OrderedBut, Ordered, Swap;
      ghost var before := heap[..size];
      var i := size;
      size := size + 1;
      heap[i] := HeapNode(dist, node);
      AppendLast(before, HeapNode(dist, node));
      assert heap[..size] == before + [HeapNode(dist, node)];
      while i > 0
        invariant i < size == old(size) + 1 && OrderedBut(heap[..size], i)
        invariant multiset(heap[..size]) == multiset(before) + multiset{HeapNode(dist, node)}
      {
        var p := (i - 1) / 2;
        if heap[p].dist <= heap[i].dist { break; }
        ghost var s := heap[..size];
        SwapUp(s, i, p);
        SwapSame(s, i, p);
        SwapAt(i, p);
        i := p;
      }
      StopUp(heap[..size], i);
    }

    /** `heap_pop`: the entry returned is a nearest one. */
    method Pop() returns (ret: HeapNode)
      requires Valid() && size > 0
      modifies this, heap
      ensures Valid() && size == old(size) - 1
      ensures ret in old(Entries()) && Entries() == old(Entries()) - multiset{ret}
      ensures forall x :: x in old(Entries()) ==> ret.dist <= x.dist
    {
      hide Ordered, OrderedBelow, Replaced;
      ghost var before, all := heap[..size], heap[..];
      ret := heap[0];
      RootIsLeastOfAll(before);
      ReplacedSame(before);
      ReplacedOrder(before);
      size := size - 1;
      heap[0] := heap[size];
      assert heap[..] == all[0 := all[size]];
      ReplacedIs(all, size);
      SiftDown();
    }

    /** The nearest of entry i and its children. */
    method Nearest(i: nat) returns (s: nat)
      requires i < size <= heap.Length
      ensures s < size && (s == i || (IsChild(i, s) && heap[s].dist < heap[i].dist))
      ensures 2 * i + 1 < size ==> heap[s].dist <= heap[2 * i + 1].dist
      ensures 2 * i + 2 < size ==> heap[s].dist <= heap[2 * i + 2].dist
    {
      var l, r := 2 * i + 1, 2 * i + 2;
      s := i;
      if l < size && heap[l].dist < heap[s].dist { s := l; }
      if r < size && heap[r].dist < heap[s].dist { s := r; }
    }

    /** The sift-down loop of `heap_pop`. */
    method SiftDown()
      requires size <= heap.Length && OrderedBelow(heap[..size], 0)
      modifies heap
      ensures Valid() && Entries() == multiset(old(heap[..size]))
    {
      hide OrderedBelow, Ordered, Swap;
      if size == 0 {
        NothingOrdered(heap[..size]);
        return;
      }
      var i := 0;
      while true
        invariant i < size && OrderedBelow(heap[..size], i)
        invariant multiset(heap[..size]) == multiset(old(heap[..size]))
        decreases size - i
      {
        var s := Nearest(i);
        ghost var h := heap[..size];
        if s == i { break; }
        SwapDown(h, i, s);
        SwapSame(h, i, s);
        SwapAt(i, s);
        i := s;
      }
      StopDown(heap[..size], i);
    }
  }
}
