/** dijkstra.c: adjacency lists, the lazy-deletion heap, shortest paths with non-negative weights,
    and path printing. */
module Dijkstra {
  import opened Walks
  import opened DistanceHeap

  const MAX_E := 10000

  /** The last index below i whose edge leaves u, or -1. */
  function Previous(from: seq<nat>, i: nat, u: nat): (r: int)
    requires i <= |from|
    ensures -1 <= r < i && (r >= 0 ==> from[r] == u) && forall j :: r < j < i ==> from[j] != u
  {
    if i == 0 then -1 else if from[i - 1] == u then i - 1 else Previous(from, i - 1, u)
  }

  lemma {:induction false} PreviousAppend(from: seq<nat>, i: nat, u: nat, v: nat)
    requires i <= |from|
    ensures Previous(from + [v], i, u) == Previous(from, i, u)
  {
    if i > 0 { PreviousAppend(from, i - 1, u, v); }
  }

  /** `head[u]` is the newest edge of u, and `nxt[i]` the newest one before i with the same tail. */
  ghost predicate Linked(from: seq<nat>, head: seq<int>, nxt: seq<int>) {
    && |from| <= |nxt|
    && (forall u :: 0 <= u < |head| ==> head[u] == Previous(from, |from|, u))
    && (forall i :: 0 <= i < |from| ==> nxt[i] == Previous(from, i, from[i]))
  }

  lemma LinkFront(from: seq<nat>, head: seq<int>, nxt: seq<int>, u: nat)
    requires Linked(from, head, nxt) && u < |head| && |from| < |nxt|
    ensures Linked(from + [u], head[u := |from|], nxt[|from| := head[u]])
  {
    forall x, i | 0 <= i <= |from| ensures Previous(from + [u], i, x) == Previous(from, i, x) {
      PreviousAppend(from, i, x, u);
    }
  }

  ghost function EdgeList(from: seq<nat>, to: seq<nat>, weight: seq<int>): (es: seq<Edge>)
    requires |from| <= |to| == |weight|
    ensures |es| == |from|
  {
    seq(|from|, i requires 0 <= i < |from| => Edge(from[i], to[i], weight[i]))
  }

  /** The arrays `edges`, `head` and `nxt`; `from` remembers where each edge starts. */
  class Graph {
    const to: array<nat>
    const weight: array<int>
    const head: array<int>
    const nxt: array<int>
    var count: nat
    ghost var from: seq<nat>

    ghost predicate Valid()
      reads this, to, weight, head, nxt
    {
      && to.Length == weight.Length == nxt.Length == MAX_E && count == |from| <= MAX_E
      && head != weight && head != nxt && weight != nxt
      && Linked(from, head[..], nxt[..])
      && (forall i :: 0 <= i < count ==> from[i] < head.Length && to[i] < head.Length)
    }

    ghost function Edges(): (es: seq<Edge>)
      reads this, to, weight, head, nxt
      requires Valid()
      ensures |es| == count
    {
      EdgeList(from, to[..], weight[..])
    }

    constructor (V: nat)
      ensures Valid() && head.Length == V && Edges() == []
      ensures fresh(to) && fresh(weight) && fresh(head) && fresh(nxt)
    {
      to := new nat[MAX_E](_ => 0);
      weight := new int[MAX_E](_ => 0);
      head := new int[V](_ => -1);
      nxt := new int[MAX_E](_ => 0);
      count := 0;
      from := [];
    }

    /** `add_edge` prepends to the list of u. */
    method AddEdge(u: nat, v: nat, w: int)
      requires Valid() && count < MAX_E && u < head.Length && v < head.Length
      modifies this, to, weight, head, nxt
      ensures Valid() && Edges() == old(Edges()) + [Edge(u, v, w)]
    {
      hide Linked;
      ghost var head0, nxt0, from0 := head[..], nxt[..], from;
      LinkFront(from, head0, nxt0, u);
      to[count] := v;
      weight[count] := w;
      nxt[count] := head[u];
      head[u] := count;
      count := count + 1;
      from := from + [u];
      assert head[..] == head0[u := |from0|] && nxt[..] == nxt0[|from0| := head0[u]];
    }
  }

  // ----- The run, seen through its tables

  /** The tables, the heap entries, the vertices expanded so far in order, the edges whose
      relaxation pushed an entry, and the number of pops. */
  datatype View = View(d: seq<int>, par: seq<int>, heap: multiset<HeapNode>, order: seq<nat>, used: set<nat>, pops: nat)

  ghost predicate NonNegative(es: seq<Edge>) {
    forall e :: e in es ==> e.w >= 0
  }

  ghost predicate TablesOk(V: nat, es: seq<Edge>, src: nat, d: seq<int>) {
    && src < V == |d| && d[src] == 0
    && Sound(EdgeSet(es), src, d)
    && forall v :: 0 <= v < V ==> d[v] >= 0
  }

  /** Entries are never nearer than the table, every finite unexpanded vertex has its one exact
      entry, and expanded vertices, which have none, are no farther than any entry. */
  ghost predicate HeapOk(d: seq<int>, heap: multiset<HeapNode>, order: seq<nat>) {
    && (forall x :: x in heap ==> x.node < |d| && d[x.node] <= x.dist < INF)
    && (forall v {:trigger d[v]} :: 0 <= v < |d| && d[v] != INF && v !in order ==> heap[HeapNode(d[v], v)] == 1)
    && (forall v :: v in order ==> v < |d| && d[v] != INF && HeapNode(d[v], v) !in heap)
    && (forall v, x :: v in order && x in heap ==> d[v] <= x.dist)
  }

  ghost predicate Distinct(order: seq<nat>) {
    forall i, j :: 0 <= i < j < |order| ==> order[i] != order[j]
  }

  /** Edge i has been relaxed: its tail is expanded and, if that is u, the scan of u is past it. */
  ghost predicate Scanned(es: seq<Edge>, order: seq<nat>, u: nat, b: int, i: nat)
    requires i < |es|
  {
    es[i].from in order && (es[i].from != u || i >= b)
  }

  ghost predicate EdgesOk(es: seq<Edge>, d: seq<int>, order: seq<nat>, u: nat, b: int) {
    forall i {:trigger Scanned(es, order, u, b, i)} :: 0 <= i < |es| && Scanned(es, order, u, b, i) ==>
      es[i].from < |d| && es[i].to < |d| && d[es[i].to] <= d[es[i].from] + es[i].w
  }

  /** Every entry beyond the first was pushed by a different scanned edge. */
  ghost predicate CountOk(es: seq<Edge>, s: View, u: nat, b: int) {
    && (forall i :: i in s.used ==> i < |es| && Scanned(es, s.order, u, b, i))
    && |s.heap| + s.pops == 1 + |s.used| && (s.pops == 0 ==> s.order == [])
  }

  ghost predicate ExpandedBefore(order: seq<nat>, p: int, v: nat) {
    exists i :: 0 <= i < |order| && order[i] == p && forall j :: 0 <= j <= i ==> order[j] != v
  }

  /** A parent was expanded before its child, along an edge that accounts for the distance. */
  ghost predicate ParentsOk(es: seq<Edge>, src: nat, d: seq<int>, par: seq<int>, order: seq<nat>) {
    && |par| == |d|
    && forall v :: 0 <= v < |d| ==>
         if v == src || d[v] == INF then par[v] == -1
         else LastStep(EdgeSet(es), d, par[v], v) && ExpandedBefore(order, par[v], v)
  }

  ghost predicate Inv(V: nat, es: seq<Edge>, src: nat, s: View, u: nat, b: int) {
    && TablesOk(V, es, src, s.d) && HeapOk(s.d, s.heap, s.order) && Distinct(s.order)
    && EdgesOk(es, s.d, s.order, u, b) && CountOk(es, s, u, b) && ParentsOk(es, src, s.d, s.par, s.order)
  }

  ghost predicate GraphOk(V: nat, es: seq<Edge>, src: nat) {
    NonNegative(es) && InRange(V, EdgeSet(es)) && FitsBelow(EdgeSet(es), src, INF)
  }

  lemma Begins(V: nat, es: seq<Edge>, src: nat, s: View)
    requires src < V && |s.d| == |s.par| == V && s.d[src] == 0
    requires forall v :: 0 <= v < V ==> s.par[v] == -1 && (v != src ==> s.d[v] == INF)
    requires s.heap == multiset{HeapNode(0, src)} && s.order == [] && s.used == {} && s.pops == 0
    ensures Inv(V, es, src, s, 0, 0)
  {
    assert WalkIn(EdgeSet(es), [], src, src) && Sum([]) == 0;
  }

  /** An entry farther than the table is skipped. */
  lemma PopsStale(V: nat, es: seq<Edge>, src: nat, s: View, x: HeapNode)
    requires Inv(V, es, src, s, 0, 0) && x in s.heap && x.dist > s.d[x.node]
    ensures Inv(V, es, src, s.(heap := s.heap - multiset{x}, pops := s.pops + 1), 0, 0)
  {
    hide TablesOk, EdgesOk, ParentsOk, Scanned, HeapOk, CountOk, Distinct;
    StaleHeap(s.d, s.heap, s.order, x);
    PopCounted(es, s, x);
  }

  lemma StaleHeap(d: seq<int>, heap: multiset<HeapNode>, order: seq<nat>, x: HeapNode)
    requires HeapOk(d, heap, order) && x in heap && x.dist > d[x.node]
    ensures HeapOk(d, heap - multiset{x}, order)
  {
    forall y | y in heap - multiset{x} ensures y in heap {}
  }

  lemma PopCounted(es: seq<Edge>, s: View, x: HeapNode)
    requires CountOk(es, s, 0, 0) && x in s.heap
    ensures CountOk(es, s.(heap := s.heap - multiset{x}, pops := s.pops + 1), 0, 0)
  {
    assert |s.heap - multiset{x}| == |s.heap| - 1;
  }

  /** u was expanded last, and no expanded vertex is farther. */
  ghost predicate Latest(d: seq<int>, order: seq<nat>, u: nat) {
    u < |d| && u in order && d[u] != INF && forall v :: v in order ==> v < |d| && d[v] <= d[u]
  }

  lemma FreshHeap(d: seq<int>, heap: multiset<HeapNode>, order: seq<nat>, x: HeapNode)
    requires HeapOk(d, heap, order) && x in heap && x.dist <= d[x.node] && forall y :: y in heap ==> x.dist <= y.dist
    ensures x.node < |d| && x == HeapNode(d[x.node], x.node) && x.node !in order
    ensures HeapOk(d, heap - multiset{x}, order + [x.node]) && Latest(d, order + [x.node], x.node)
  {
    var heap', order' := heap - multiset{x}, order + [x.node];
    forall y | y in heap' ensures y in heap {}
    forall v | v in order' ensures v in order || v == x.node {}
  }

  /** An entry that agrees with the table expands its vertex, for the first and only time. */
  lemma PopsFresh(V: nat, es: seq<Edge>, src: nat, s: View, x: HeapNode)
    requires Inv(V, es, src, s, 0, 0) && x in s.heap && x.dist <= s.d[x.node]
    requires forall y :: y in s.heap ==> x.dist <= y.dist
    ensures x.node < V && x.node !in s.order && Latest(s.d, s.order + [x.node], x.node)
    ensures Inv(V, es, src, s.(heap := s.heap - multiset{x}, pops := s.pops + 1, order := s.order + [x.node]), x.node, |es|)
  {
    hide TablesOk, EdgesOk, ParentsOk, Scanned, HeapOk, CountOk, Distinct, Latest;
    assert |s.d| == V by { TableSize(V, es, src, s.d); }
    FreshHeap(s.d, s.heap, s.order, x);
    ParentsLonger(es, src, s.d, s.par, s.order, x.node);
    LongerDistinct(s.order, x.node);
    EdgesLonger(es, s.d, s.order, x.node);
    PopCounted(es, s, x);
    CountLonger(es, s.(heap := s.heap - multiset{x}, pops := s.pops + 1), x.node);
  }

  lemma LongerDistinct(order: seq<nat>, u: nat)
    requires Distinct(order) && u !in order
    ensures Distinct(order + [u])
  {
  }

  lemma EdgesLonger(es: seq<Edge>, d: seq<int>, order: seq<nat>, u: nat)
    requires EdgesOk(es, d, order, 0, 0) && u !in order
    ensures EdgesOk(es, d, order + [u], u, |es|)
  {
    hide Scanned;
    ScannedLonger(es, order, u);
  }

  lemma CountLonger(es: seq<Edge>, s: View, u: nat)
    requires CountOk(es, s, 0, 0) && u !in s.order && s.pops > 0
    ensures CountOk(es, s.(order := s.order + [u]), u, |es|)
  {
    hide Scanned;
    ScannedLonger(es, s.order, u);
  }

  lemma TableSize(V: nat, es: seq<Edge>, src: nat, d: seq<int>)
    requires TablesOk(V, es, src, d)
    ensures |d| == V && src < V && d[src] == 0 && forall v :: 0 <= v < V ==> 0 <= d[v] <= INF
  {
  }

  lemma ParentSize(es: seq<Edge>, src: nat, d: seq<int>, par: seq<int>, order: seq<nat>)
    requires ParentsOk(es, src, d, par, order)
    ensures |par| == |d|
  {
  }

  lemma ParentsLonger(es: seq<Edge>, src: nat, d: seq<int>, par: seq<int>, order: seq<nat>, u: nat)
    requires ParentsOk(es, src, d, par, order)
    ensures ParentsOk(es, src, d, par, order + [u])
  {
    forall p: int, v: nat | ExpandedBefore(order, p, v) ensures ExpandedBefore(order + [u], p, v) {
      var i :| 0 <= i < |order| && order[i] == p && forall j :: 0 <= j <= i ==> order[j] != v;
      assert (order + [u])[i] == p;
    }
  }

  lemma ScannedLonger(es: seq<Edge>, order: seq<nat>, u: nat)
    requires u !in order
    ensures forall i :: 0 <= i < |es| ==> (Scanned(es, order, 0, 0, i) <==> Scanned(es, order + [u], u, |es|, i))
  {
  }

  // ----- Scanning the edges of the expanded vertex

  lemma RelaxTables(V: nat, es: seq<Edge>, src: nat, d: seq<int>, e: Edge)
    requires TablesOk(V, es, src, d) && GraphOk(V, es, src) && e in es && d[e.from] != INF
    ensures TablesOk(V, es, src, Relaxed(d, e))
  {
    assert e in EdgeSet(es);
    RelaxSound(EdgeSet(es), src, d, e);
  }

  /** Lowering the entry of an unexpanded vertex and pushing the new exact entry. */
  lemma LowerHeap(d: seq<int>, heap: multiset<HeapNode>, order: seq<nat>, v: nat, nd: int)
    requires HeapOk(d, heap, order) && v < |d| && v !in order && nd < d[v] && nd < INF
    requires forall u :: u in order ==> u < |d| && d[u] <= nd
    ensures HeapOk(d[v := nd], heap + multiset{HeapNode(nd, v)}, order)
  {
    var d', entry := d[v := nd], HeapNode(nd, v);
    var heap' := heap + multiset{entry};
    assert entry !in heap;
    forall x | x in heap' ensures x.node < |d'| && d'[x.node] <= x.dist < INF {
      if x != entry { assert x in heap; }
    }
    forall u | 0 <= u < |d'| && d'[u] != INF && u !in order ensures heap'[HeapNode(d'[u], u)] == 1 {
      if u != v { assert heap[HeapNode(d[u], u)] == 1; }
    }
    forall u | u in order ensures u < |d'| && d'[u] != INF && HeapNode(d'[u], u) !in heap' {
      assert HeapNode(d[u], u) !in heap;
    }
    forall u, x | u in order && x in heap' ensures d'[u] <= x.dist {
      if x != entry { assert x in heap; }
    }
  }

  lemma RelaxHeap(d: seq<int>, heap: multiset<HeapNode>, order: seq<nat>, u: nat, e: Edge)
    requires HeapOk(d, heap, order) && Latest(d, order, u) && e.from == u && e.to < |d| && e.w >= 0
    requires Relaxable(d, e) && forall v :: 0 <= v < |d| ==> d[v] <= INF
    ensures e.to !in order
    ensures HeapOk(Relaxed(d, e), heap + multiset{HeapNode(d[u] + e.w, e.to)}, order)
  {
    hide HeapOk;
    LowerHeap(d, heap, order, e.to, d[u] + e.w);
  }

  lemma RelaxEdges(V: nat, es: seq<Edge>, d: seq<int>, order: seq<nat>, u: nat, b: int, i: nat)
    requires InRange(V, EdgeSet(es)) && |d| == V && Latest(d, order, u) && EdgesOk(es, d, order, u, b)
    requires i < b && i < |es| && es[i].from == u && forall j :: i < j < b && j < |es| ==> es[j].from != u
    requires Relaxable(d, es[i]) ==> es[i].to !in order
    ensures EdgesOk(es, Relaxed(d, es[i]), order, u, i)
  {
    var d' := Relaxed(d, es[i]);
    assert es[i] in EdgeSet(es);
    forall j | 0 <= j < |es| && Scanned(es, order, u, i, j)
      ensures es[j].from < |d'| && es[j].to < |d'| && d'[es[j].to] <= d'[es[j].from] + es[j].w
    {
      if j != i { assert Scanned(es, order, u, b, j); }
    }
  }

  lemma RelaxParents(es: seq<Edge>, src: nat, d: seq<int>, par: seq<int>, order: seq<nat>, e: Edge)
    requires ParentsOk(es, src, d, par, order) && e in es && e.from < |d| && e.to < |d|
    requires Relaxable(d, e) && e.from in order && e.to !in order && e.to != src && d[e.to] <= INF
    requires forall v :: v in order ==> v < |d| && d[v] != INF
    ensures ParentsOk(es, src, Relaxed(d, e), par[e.to := e.from], order)
  {
    var d', par' := Relaxed(d, e), par[e.to := e.from];
    forall v | 0 <= v < |d| && v != src && d'[v] != INF
      ensures LastStep(EdgeSet(es), d', par'[v], v) && ExpandedBefore(order, par'[v], v)
    {
      if v == e.to {
        assert e in EdgeSet(es) && d'[e.from] + e.w == d'[v];
        var k :| 0 <= k < |order| && order[k] == e.from;
        forall j | 0 <= j <= k ensures order[j] != v {}
      } else {
        var f :| f in EdgeSet(es) && f.from == par[v] && f.to == v && d[par[v]] + f.w == d[v];
        var k :| 0 <= k < |order| && order[k] == par[v] && forall j :: 0 <= j <= k ==> order[j] != v;
        assert par[v] != e.to && d'[par[v]] + f.w == d'[v];
      }
    }
  }

  lemma RelaxCount(es: seq<Edge>, s: View, u: nat, b: int, i: nat)
    requires CountOk(es, s, u, b) && i < |es| && i < b && es[i].from == u && u in s.order
    ensures CountOk(es, s, u, i) && |s.heap| < |es|
    ensures forall x, d, par :: CountOk(es, s.(d := d, par := par, heap := s.heap + multiset{x}, used := s.used + {i}), u, i)
  {
    forall j | j in s.used ensures Scanned(es, s.order, u, i, j) {
      assert Scanned(es, s.order, u, b, j);
    }
    assert !Scanned(es, s.order, u, b, i);
    UsedBound(s.used, |es|, i);
  }

  lemma {:induction false} UsedBound(used: set<nat>, n: nat, i: nat)
    requires (forall j :: j in used ==> j < n) && i < n && i !in used
    ensures |used| < n
  {
    var k := n - 1;
    if used != {} {
      if k in used {
        UsedBound(used - {k}, n - 1, i);
      } else if i == k {
        Below(used, n - 1);
      } else {
        UsedBound(used, n - 1, i);
      }
    }
  }

  lemma {:induction false} Below(used: set<nat>, n: nat)
    requires forall j :: j in used ==> j < n
    ensures |used| <= n
  {
    if n > 0 {
      Below(used - {n - 1}, n - 1);
    }
  }

  function AfterRelax(s: View, e: Edge, i: nat): View
    requires e.from < |s.d| && e.to < |s.d| == |s.par|
  {
    if Relaxable(s.d, e)
    then s.(d := Relaxed(s.d, e), par := s.par[e.to := e.from],
            heap := s.heap + multiset{HeapNode(s.d[e.from] + e.w, e.to)}, used := s.used + {i})
    else s
  }

  lemma LatestStays(d: seq<int>, order: seq<nat>, u: nat, e: Edge)
    requires Latest(d, order, u) && e.from == u && e.w >= 0 && e.to < |d|
    requires Relaxable(d, e) ==> e.to !in order
    ensures Latest(Relaxed(d, e), order, u)
  {
  }

  lemma LatestIs(d: seq<int>, order: seq<nat>, u: nat)
    requires Latest(d, order, u)
    ensures u in order && u < |d| && d[u] != INF && forall v :: v in order ==> v < |d| && d[v] <= d[u]
  {
  }

  /** Relaxing edge i, the next edge of u in its list; if it pushes, the heap array has room. */
  lemma RelaxStep(V: nat, es: seq<Edge>, src: nat, s: View, u: nat, b: int, i: nat)
    requires GraphOk(V, es, src) && Inv(V, es, src, s, u, b) && Latest(s.d, s.order, u)
    requires i < |es| && i < b && es[i].from == u && forall j :: i < j < b && j < |es| ==> es[j].from != u
    ensures u < V && es[i].to < V && |s.par| == |s.d| == V && |s.heap| < |es| && s.d[u] != INF
    ensures AfterRelax(s, es[i], i).order == s.order
    ensures Inv(V, es, src, AfterRelax(s, es[i], i), u, i) && Latest(AfterRelax(s, es[i], i).d, s.order, u)
  {
    hide FitsBelow, TablesOk, HeapOk, EdgesOk, CountOk, ParentsOk, Distinct, Latest;
    LatestIs(s.d, s.order, u);
    var e := es[i];
    TableSize(V, es, src, s.d);
    assert |s.par| == |s.d| by { ParentSize(es, src, s.d, s.par, s.order); }
    assert e in EdgeSet(es);
    RelaxCount(es, s, u, b, i);
    if Relaxable(s.d, e) {
      assert e.to != src;
      RelaxTables(V, es, src, s.d, e);
      RelaxHeap(s.d, s.heap, s.order, u, e);
      RelaxParents(es, src, s.d, s.par, s.order, e);
    }
    RelaxEdges(V, es, s.d, s.order, u, b, i);
    LatestStays(s.d, s.order, u, e);
  }

  /** The list of u is exhausted: all its edges are relaxed. */
  lemma ScanDone(V: nat, es: seq<Edge>, src: nat, s: View, u: nat, b: int)
    requires Inv(V, es, src, s, u, b) && forall j :: 0 <= j < b && j < |es| ==> es[j].from != u
    ensures Inv(V, es, src, s, 0, 0)
  {
    hide TablesOk, HeapOk, ParentsOk;
    forall j | 0 <= j < |es| ensures Scanned(es, s.order, 0, 0, j) <==> Scanned(es, s.order, u, b, j) {}
  }

  // ----- The end of the run

  lemma {:induction false} WalkBound(V: nat, es: seq<Edge>, src: nat, d: seq<int>, order: seq<nat>, p: seq<Edge>, t: nat)
    requires GraphOk(V, es, src) && TablesOk(V, es, src, d) && EdgesOk(es, d, order, 0, 0)
    requires forall v :: 0 <= v < V && d[v] != INF ==> v in order
    requires WalkIn(EdgeSet(es), p, src, t) && Simple(p, src)
    ensures t < V && d[t] <= Sum(p)
    decreases |p|
  {
    if p != [] {
      var n := |p| - 1;
      WalkLast(EdgeSet(es), p, src, t);
      SimplePrefix(p, src, n);
      WalkBound(V, es, src, d, order, p[..n], p[n].from);
      var i :| 0 <= i < |es| && es[i] == p[n];
      assert Scanned(es, order, 0, 0, i);
    }
  }

  lemma {:induction false} SumNonNegative(es: seq<Edge>, p: seq<Edge>)
    requires NonNegative(es) && forall e :: e in p ==> e in EdgeSet(es)
    ensures Sum(p) >= 0
  {
    if p != [] {
      assert p[0] in p && p[0] in EdgeSet(es);
      SumNonNegative(es, p[1..]);
    }
  }

  lemma AllExpanded(d: seq<int>, order: seq<nat>)
    requires HeapOk(d, multiset{}, order)
    ensures forall v :: 0 <= v < |d| && d[v] != INF ==> v in order
  {
    forall v | 0 <= v < |d| && d[v] != INF && v !in order ensures multiset{}[HeapNode(d[v], v)] == 1 {}
  }

  lemma Ends(V: nat, es: seq<Edge>, src: nat, s: View)
    requires GraphOk(V, es, src) && Inv(V, es, src, s, 0, 0) && s.heap == multiset{}
    ensures forall v :: 0 <= v < V ==>
              if Reachable(EdgeSet(es), src, v) then s.d[v] < INF && IsDistance(EdgeSet(es), src, v, s.d[v]) else s.d[v] == INF
  {
    var E := EdgeSet(es);
    AllExpanded(s.d, s.order);
    if ReachesNegativeCycle(E, src) {
      var v, c :| Reachable(E, src, v) && NegativeCycle(E, v, c);
      SumNonNegative(es, c);
    }
    forall v | 0 <= v < V && Reachable(E, src, v) ensures s.d[v] < INF && IsDistance(E, src, v, s.d[v]) {
      var p :| WalkIn(E, p, src, v);
      var q := Shorten(E, p, src, v);
      WalkBound(V, es, src, s.d, s.order, q, v);
      forall p | WalkIn(E, p, src, v) ensures s.d[v] <= Sum(p) {
        var q := Shorten(E, p, src, v);
        WalkBound(V, es, src, s.d, s.order, q, v);
      }
    }
  }

  lemma OrderSize(V: nat, es: seq<Edge>, src: nat, s: View, u: nat, b: int)
    requires Inv(V, es, src, s, u, b)
    ensures |s.order| <= V
  {
    hide EdgesOk, CountOk, ParentsOk;
    assert forall i :: 0 <= i < |s.order| ==> s.order[i] in s.order;
    DistinctLength(s.order, V);
  }

  /** The view agrees with the program's arrays. */
  ghost predicate Shows(s: View, dist: array<int>, parent: array<int>, heap: Heap)
    reads dist, parent, heap, heap.heap
  {
    heap.Valid() && s.d == dist[..] && s.par == parent[..] && s.heap == heap.Entries() && |s.heap| == heap.size
  }

  lemma ShowsIs(s: View, dist: array<int>, parent: array<int>, heap: Heap)
    requires Shows(s, dist, parent, heap)
    ensures s.d == dist[..] && s.par == parent[..] && |s.heap| == heap.size && heap.Valid() && s.heap == heap.Entries()
  {
  }

  /** One edge, on the arrays; the heap has room for one more entry. */
  method RelaxOne(u: nat, v: nat, w: int, dist: array<int>, parent: array<int>, heap: Heap, ghost s: View, ghost i: nat)
    requires dist != parent && u < dist.Length && v < dist.Length == parent.Length && Shows(s, dist, parent, heap)
    requires dist[u] != INF && |s.heap| < heap.heap.Length
    modifies dist, parent, heap, heap.heap
    ensures Shows(AfterRelax(s, Edge(u, v, w), i), dist, parent, heap)
  {
    hide *;
    ghost var d0, par0 := dist[..], parent[..];
    ShowsIs(s, dist, parent, heap);
    AfterRelaxIs(s, Edge(u, v, w), i);
    if dist[u] + w < dist[v] {
      dist[v] := dist[u] + w;
      parent[v] := u;
      assert dist[..] == d0[v := d0[u] + w] && parent[..] == par0[v := u];
      heap.Push(dist[v], v);
      ShowsNow(AfterRelax(s, Edge(u, v, w), i), dist, parent, heap);
    }
  }

  lemma ShowsNow(s: View, dist: array<int>, parent: array<int>, heap: Heap)
    requires heap.Valid() && s.d == dist[..] && s.par == parent[..] && s.heap == heap.Entries() && |s.heap| == heap.size
    ensures Shows(s, dist, parent, heap)
  {
  }

  lemma AfterRelaxIs(s: View, e: Edge, i: nat)
    requires e.from < |s.d| && e.to < |s.d| == |s.par| && s.d[e.from] != INF
    ensures var s', nd := AfterRelax(s, e, i), s.d[e.from] + e.w;
      if nd < s.d[e.to] then
        && s'.d == s.d[e.to := nd] && s'.par == s.par[e.to := e.from]
        && s'.heap == s.heap + multiset{HeapNode(nd, e.to)} && |s'.heap| == |s.heap| + 1
      else s' == s
  {
    CardAdd(s.heap, HeapNode(s.d[e.from] + e.w, e.to));
  }

  lemma CardRemove(m: multiset<HeapNode>, x: HeapNode)
    requires x in m
    ensures |m - multiset{x}| == |m| - 1
  {
  }

  lemma CardAdd(m: multiset<HeapNode>, x: HeapNode)
    ensures |m + multiset{x}| == |m| + 1
  {
  }

  /** The inner loop: walk the edge list of u. */
  method ScanEdges(g: Graph, ghost src: nat, u: nat, dist: array<int>, parent: array<int>, heap: Heap, ghost s0: View)
    returns (ghost s: View)
    requires g.Valid() && g.head.Length == dist.Length == parent.Length && dist != parent && heap.heap.Length == MAX_E
    requires dist != g.head && dist != g.nxt && dist != g.weight && parent != g.head && parent != g.nxt && parent != g.weight
    requires GraphOk(dist.Length, g.Edges(), src) && Shows(s0, dist, parent, heap)
    requires Inv(dist.Length, g.Edges(), src, s0, u, g.count) && Latest(s0.d, s0.order, u)
    modifies dist, parent, heap, heap.heap
    ensures Shows(s, dist, parent, heap) && Inv(dist.Length, g.Edges(), src, s, 0, 0) && s.order == s0.order
  {
    hide *;
    ShowsIs(s0, dist, parent, heap);
    GraphIs(g);
    s := s0;
    ghost var es := g.Edges();
    ghost var b: nat := g.count;
    ScanStarts(dist.Length, es, src, s, u, b);
    var i := g.head[u];
    while i != -1
      invariant b <= g.count && i == Previous(g.from, b, u) && s.order == s0.order && g.Edges() == es
      invariant g.Valid() && Shows(s, dist, parent, heap) && Inv(dist.Length, es, src, s, u, b) && Latest(s.d, s.order, u)
      decreases i
    {
      GraphIs(g);
      PreviousIs(g, b, u);
      var v, w := g.to[i], g.weight[i];
      assert es[i] == Edge(u, v, w);
      RelaxStep(dist.Length, es, src, s, u, b, i);
      ShowsIs(s, dist, parent, heap);
      RelaxOne(u, v, w, dist, parent, heap, s, i);
      s := AfterRelax(s, es[i], i);
      b := i;
      i := g.nxt[i];
    }
    PreviousIs(g, b, u);
    ScanDone(dist.Length, es, src, s, u, b);
  }

  lemma GraphIs(g: Graph)
    requires g.Valid()
    ensures g.to.Length == g.weight.Length == g.nxt.Length == MAX_E && g.count == |g.from| <= MAX_E
    ensures forall u :: 0 <= u < g.head.Length ==> g.head[u] == Previous(g.from, g.count, u)
    ensures forall i :: 0 <= i < g.count ==> g.nxt[i] == Previous(g.from, i, g.from[i]) && g.to[i] < g.head.Length
    ensures |g.Edges()| == g.count && forall i :: 0 <= i < g.count ==> g.Edges()[i] == Edge(g.from[i], g.to[i], g.weight[i])
  {
  }

  lemma PreviousIs(g: Graph, b: nat, u: nat)
    requires g.Valid() && b <= g.count
    ensures var r := Previous(g.from, b, u);
      -1 <= r < b && (r >= 0 ==> g.from[r] == u && g.Edges()[r].from == u) && forall j :: r < j < b ==> g.Edges()[j].from != u
  {
  }

  lemma ScanStarts(V: nat, es: seq<Edge>, src: nat, s: View, u: nat, b: int)
    requires Inv(V, es, src, s, u, b) && Latest(s.d, s.order, u)
    ensures u < V == |s.d|
  {
    TableSize(V, es, src, s.d);
  }

  /** The parents form a tree of shortest paths: `order` lists every reachable vertex once, each
      after its parent. */
  ghost predicate ShortestPathTree(es: seq<Edge>, src: nat, d: seq<int>, par: seq<int>, order: seq<nat>) {
    && Distinct(order) && ParentsOk(es, src, d, par, order)
    && (forall v :: 0 <= v < |d| ==> (d[v] != INF <==> v in order)) && (forall v :: v in order ==> v < |d|)
  }

  lemma EndsTree(V: nat, es: seq<Edge>, src: nat, s: View)
    requires Inv(V, es, src, s, 0, 0) && s.heap == multiset{}
    ensures src < V == |s.d| && s.d[src] == 0 && ShortestPathTree(es, src, s.d, s.par, s.order)
  {
    AllExpanded(s.d, s.order);
  }

  /** The pop that starts a round: skip it, or expand its vertex. */
  lemma PopStep(V: nat, es: seq<Edge>, src: nat, s: View, x: HeapNode)
    requires Inv(V, es, src, s, 0, 0) && x in s.heap && forall y :: y in s.heap ==> x.dist <= y.dist
    ensures x.node < V == |s.d|
    ensures x.dist > s.d[x.node] ==> Inv(V, es, src, s.(heap := s.heap - multiset{x}, pops := s.pops + 1), 0, 0)
    ensures x.dist <= s.d[x.node] ==>
              var s' := s.(heap := s.heap - multiset{x}, pops := s.pops + 1, order := s.order + [x.node]);
              Inv(V, es, src, s', x.node, |es|) && Latest(s'.d, s'.order, x.node) && |s'.order| <= V
  {
    TableSize(V, es, src, s.d);
    if x.dist > s.d[x.node] {
      PopsStale(V, es, src, s, x);
    } else {
      PopsFresh(V, es, src, s, x);
      OrderSize(V, es, src, s.(heap := s.heap - multiset{x}, pops := s.pops + 1, order := s.order + [x.node]), x.node, |es|);
    }
  }

  /** One round of the main loop. */
  method Round(g: Graph, ghost src: nat, dist: array<int>, parent: array<int>, heap: Heap, ghost s0: View)
    returns (ghost s: View)
    requires g.Valid() && g.head.Length == dist.Length == parent.Length && dist != parent && heap.heap.Length == MAX_E
    requires dist != g.head && dist != g.nxt && dist != g.weight && parent != g.head && parent != g.nxt && parent != g.weight
    requires GraphOk(dist.Length, g.Edges(), src) && Shows(s0, dist, parent, heap) && heap.size > 0
    requires Inv(dist.Length, g.Edges(), src, s0, 0, 0)
    modifies dist, parent, heap, heap.heap
    ensures Shows(s, dist, parent, heap) && Inv(dist.Length, g.Edges(), src, s, 0, 0)
    ensures if s.order == s0.order then heap.size < old(heap.size) else |s0.order| < |s.order| <= dist.Length
  {
    hide *;
    ShowsIs(s0, dist, parent, heap);
    var cur := heap.Pop();
    PopStep(dist.Length, g.Edges(), src, s0, cur);
    CardRemove(s0.heap, cur);
    s := s0.(heap := s0.heap - multiset{cur}, pops := s0.pops + 1);
    ShowsNow(s, dist, parent, heap);
    if cur.dist <= dist[cur.node] {
      s := s.(order := s.order + [cur.node]);
      ShowsNow(s, dist, parent, heap);
      GraphIs(g);
      s := ScanEdges(g, src, cur.node, dist, parent, heap, s);
    }
  }

  /** The tables and the heap before the first round. */
  method Reset(src: nat, dist: array<int>, parent: array<int>, heap: Heap, ghost es: seq<Edge>) returns (ghost s: View)
    requires src < dist.Length == parent.Length && dist != parent && heap.Valid() && heap.heap.Length == MAX_E
    modifies dist, parent, heap, heap.heap
    ensures Shows(s, dist, parent, heap) && Inv(dist.Length, es, src, s, 0, 0)
  {
    hide Inv;
    forall i | 0 <= i < dist.Length { dist[i] := INF; }
    forall i | 0 <= i < parent.Length { parent[i] := -1; }
    heap.size := 0;
    dist[src] := 0;
    heap.Push(0, src);
    s := View(dist[..], parent[..], multiset{HeapNode(0, src)}, [], {}, 0);
    Begins(dist.Length, es, src, s);
  }

  /** `dijkstra` with its heap array of MAX_E entries.  Every entry of `dist` is the least weight over
      all walks, INF exactly for the unreachable vertices; the parents form a tree of shortest paths;
      and each vertex is expanded at most once, so no push finds the heap array full. */
  method Dijkstra(g: Graph, src: nat, dist: array<int>, parent: array<int>, heap: Heap) returns (ghost order: seq<nat>)
    requires g.Valid() && g.head.Length == dist.Length == parent.Length && dist != parent
    requires dist != g.head && dist != g.nxt && dist != g.weight && parent != g.head && parent != g.nxt && parent != g.weight
    requires heap.Valid() && heap.heap.Length == MAX_E
    requires src < dist.Length && GraphOk(dist.Length, g.Edges(), src)
    modifies dist, parent, heap, heap.heap
    ensures forall v :: 0 <= v < dist.Length ==>
              if Reachable(EdgeSet(g.Edges()), src, v) then dist[v] < INF && IsDistance(EdgeSet(g.Edges()), src, v, dist[v])
              else dist[v] == INF
    ensures dist[src] == 0 && ShortestPathTree(g.Edges(), src, dist[..], parent[..], order)
  {
    hide Inv, Latest, GraphOk, IsDistance, ShortestPathTree, Reachable, EdgeSet;
    ghost var V, es := dist.Length, g.Edges();
    ghost var s := Reset(src, dist, parent, heap, es);
    assert g.Edges() == es;
    OrderSize(V, es, src, s, 0, 0);
    while heap.size > 0
      invariant Shows(s, dist, parent, heap) && Inv(V, es, src, s, 0, 0) && |s.order| <= V && g.Edges() == es && g.Valid()
      decreases V - |s.order|, heap.size
    {
      s := Round(g, src, dist, parent, heap, s);
    }
    Ends(V, es, src, s);
    EndsTree(V, es, src, s);
    order := s.order;
  }

  // ----- Path printing

  /** The vertices of `path`, last first, lead from src to target along edges of total weight d. */
  ghost predicate PathOf(es: seq<Edge>, src: nat, path: seq<nat>, target: nat, weight: int) {
    && |path| > 0 && path[0] == target && path[|path| - 1] == src
    && exists p :: WalkIn(EdgeSet(es), p, src, target) && Sum(p) == weight && |p| == |path| - 1
                   && forall i :: 0 <= i < |path| ==> VertexAt(p, src, |p| - i) == path[i]
  }

  ghost function Index(order: seq<nat>, v: nat): (i: nat)
    requires v in order
    ensures i < |order| && order[i] == v
  {
    var i :| 0 <= i < |order| && order[i] == v; i
  }

  lemma IndexBefore(order: seq<nat>, p: nat, v: nat)
    requires Distinct(order) && v in order && ExpandedBefore(order, p, v)
    ensures p in order && Index(order, p) < Index(order, v)
  {
  }

  /** Traced back to v: `path` holds the vertices after v, last first, and p leads from v to target. */
  ghost predicate Traced(es: seq<Edge>, d: seq<int>, path: seq<nat>, p: seq<Edge>, v: nat, target: nat) {
    && v < |d| && target < |d| && WalkIn(EdgeSet(es), p, v, target) && Sum(p) + d[v] == d[target] && |p| == |path|
    && forall k :: 0 <= k < |path| ==> path[k] == VertexAt(p, v, |p| - k)
  }

  lemma TraceStep(es: seq<Edge>, d: seq<int>, path: seq<nat>, p: seq<Edge>, u: nat, v: nat, target: nat) returns (p': seq<Edge>)
    requires Traced(es, d, path, p, v, target) && LastStep(EdgeSet(es), d, u, v)
    ensures Traced(es, d, path + [v], p', u, target)
  {
    var e :| e in EdgeSet(es) && e.from == u && e.to == v && d[u] + e.w == d[v];
    p' := [e] + p;
    WalkEdge(EdgeSet(es), e);
    WalkConcat(EdgeSet(es), [e], p, u, v, target);
    var path' := path + [v];
    forall k | 0 <= k < |path'| ensures path'[k] == VertexAt(p', u, |p'| - k) {
      if k < |path| { assert VertexAt(p, v, |p| - k) == VertexAt(p', u, |p'| - k); }
    }
  }

  lemma TraceEnds(es: seq<Edge>, d: seq<int>, path: seq<nat>, p: seq<Edge>, src: nat, target: nat)
    requires Traced(es, d, path, p, src, target) && d[src] == 0
    ensures PathOf(es, src, path + [src], target, d[target])
  {
    var path' := path + [src];
    ChainEnd(p, src, target);
    forall i | 0 <= i < |path'| ensures VertexAt(p, src, |p| - i) == path'[i] {}
  }

  /** `print_path`: the vertices it collects, from target back to src, fit the local array, and they
      are the path whose weight is dist[target]. */
  method PrintPath(es: seq<Edge>, src: nat, target: nat, dist: seq<int>, parent: seq<int>, ghost order: seq<nat>)
    returns (path: seq<nat>)
    requires ShortestPathTree(es, src, dist, parent, order) && src < |dist| && dist[src] == 0
    requires target < |dist|
    ensures if dist[target] == INF then path == [] else PathOf(es, src, path, target, dist[target]) && |path| <= |dist|
  {
    hide PathOf, LastStep, Traced;
    if dist[target] == INF { return []; }
    assert forall i :: 0 <= i < |order| ==> order[i] in order;
    DistinctLength(order, |dist|);
    path := [];
    var v: int := target;
    ghost var p: seq<Edge> := [];
    TraceStarts(es, dist, target);
    while v != -1
      invariant -1 <= v < |dist|
      invariant v >= 0 ==> dist[v] != INF && v in order && |path| + 1 + Index(order, v) <= |order| && Traced(es, dist, path, p, v, target)
      invariant v == -1 ==> PathOf(es, src, path, target, dist[target]) && |path| <= |order|
      decreases if v == -1 then 0 else 1 + Index(order, v)
    {
      var u := parent[v];
      if u == -1 {
        assert v == src;
        TraceEnds(es, dist, path, p, src, target);
      } else {
        assert LastStep(EdgeSet(es), dist, u, v) && ExpandedBefore(order, u, v);
        StepBounds(es, dist, u, v);
        IndexBefore(order, u, v);
        p := TraceStep(es, dist, path, p, u, v, target);
      }
      path := path + [v];
      v := u;
    }
  }

  lemma TraceStarts(es: seq<Edge>, d: seq<int>, target: nat)
    requires target < |d|
    ensures Traced(es, d, [], [], target, target)
  {
  }

  lemma StepBounds(es: seq<Edge>, d: seq<int>, u: int, v: nat)
    requires LastStep(EdgeSet(es), d, u, v)
    ensures 0 <= u < |d| && d[u] != INF
  {
  }
}
