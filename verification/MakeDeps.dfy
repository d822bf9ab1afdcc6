/** make_deps.c: Kahn's algorithm on the dependency graph, whose edges run from a dependency to its users. */
module MakeDeps {
  import opened Digraphs

  const MAX_V := 10

  function Occurrences(s: seq<nat>, v: nat): (n: nat)
    ensures n > 0 <==> v in s
  {
    if s == [] then 0 else Occurrences(s[1..], v) + if s[0] == v then 1 else 0
  }

  /** The edges into v from vertices below n that are not in `done`. */
  ghost function Remaining(g: Digraph, done: set<nat>, v: nat, n: nat): nat
    requires n <= |g|
  {
    if n == 0 then 0
    else Remaining(g, done, v, n - 1) + if n - 1 in done then 0 else Occurrences(g[n - 1], v)
  }

  lemma {:induction false} RemainingZero(g: Digraph, done: set<nat>, v: nat, n: nat)
    requires n <= |g|
    ensures Remaining(g, done, v, n) == 0 <==> forall u: nat :: u < n && Edge(g, u, v) ==> u in done
  {
    if n > 0 {
      RemainingZero(g, done, v, n - 1);
      assert Edge(g, n - 1, v) <==> v in g[n - 1];
    }
  }

  lemma {:induction false} RemainingDone(g: Digraph, done: set<nat>, u: nat, v: nat, n: nat)
    requires n <= |g| && u !in done
    ensures Remaining(g, done, v, n) == Remaining(g, done + {u}, v, n) + if u < n then Occurrences(g[u], v) else 0
  {
    if n > 0 { RemainingDone(g, done, u, v, n - 1); }
  }

  lemma {:induction false} RemainingAdd(g: Digraph, from: nat, to: nat, v: nat, n: nat)
    requires n <= |g| && to < |g|
    ensures Remaining(g[to := [from] + g[to]], {}, v, n) == Remaining(g, {}, v, n) + if v == from && to < n then 1 else 0
  {
    if n > 0 { RemainingAdd(g, from, to, v, n - 1); }
  }

  /** Vertices that can ever be queued: the numbered modules, and anything that has a dependency. */
  ghost predicate Eligible(g: Digraph, V: nat, v: nat) {
    v < V || exists u: nat :: Edge(g, u, v)
  }

  ghost predicate PredecessorsIn(g: Digraph, v: nat, q: seq<nat>) {
    forall u: nat :: Edge(g, u, v) ==> u in q
  }

  /** What the queue has held: eligible vertices, once each, dependencies first. */
  ghost predicate Queued(g: Digraph, V: nat, q: seq<nat>) {
    && Distinct(q)
    && (forall v :: v in q ==> v < MAX_V && Eligible(g, V, v))
    && (forall k :: 0 <= k < |q| ==> PredecessorsIn(g, q[k], q[..k]))
  }

  /** Nothing more could have been queued. */
  ghost predicate Exhausted(g: Digraph, V: nat, q: seq<nat>) {
    forall v: nat :: v < MAX_V && v !in q ==> !Eligible(g, V, v) || !PredecessorsIn(g, v, q)
  }

  // ----- What the order means

  /** For edges within 0..V-1 the order is complete exactly when the graph has no cycle, and then it is
      a topological order. */
  lemma CompleteIffAcyclic(g: Digraph, V: nat, q: seq<nat>)
    requires V <= MAX_V && InRange(g, V)
    requires Queued(g, V, q) && Exhausted(g, V, q)
    ensures |q| == V <==> !Cyclic(g)
    ensures |q| == V ==> TopologicalOrder(g, V, q)
  {
    forall v | v in q ensures v < V { assert Eligible(g, V, v); }
    DistinctFits(q, V);
    if |q| == V {
      CompleteIsOrdered(g, V, q);
    } else {
      IncompleteIsCyclic(g, V, q);
    }
  }

  lemma CompleteIsOrdered(g: Digraph, V: nat, q: seq<nat>)
    requires V <= MAX_V && InRange(g, V) && Queued(g, V, q) && |q| == V && forall v :: v in q ==> v < V
    ensures TopologicalOrder(g, V, q) && !Cyclic(g)
  {
    hide Cyclic;
    AllListed(q, V);
    forall u: nat, v: nat | Edge(g, u, v) ensures Before(q, u, v) { ListedInOrder(g, V, q, u, v); }
    OrderedIsAcyclic(g, V, q);
  }

  lemma IncompleteIsCyclic(g: Digraph, V: nat, q: seq<nat>)
    requires V <= MAX_V && InRange(g, V) && Queued(g, V, q) && Exhausted(g, V, q) && |q| < V
    ensures Cyclic(g)
  {
    hide Cyclic;
    var missing := set v: nat | v < V && v !in q;
    var v := SomeMissing(q, V);
    forall w | w in missing ensures HasPredecessor(g, missing, w) {
      assert !PredecessorsIn(g, w, q);
      var u: nat :| Edge(g, u, w) && u !in q;
      assert u in missing;
    }
    EndlessBackward(g, V, missing, v);
  }

  lemma ListedInOrder(g: Digraph, V: nat, q: seq<nat>, u: nat, v: nat)
    requires Queued(g, V, q) && Edge(g, u, v) && v in q
    ensures Before(q, u, v)
  {
    var k := IndexOf(q, v);
    assert PredecessorsIn(g, q[k], q[..k]);
    var i := IndexOf(q[..k], u);
    assert q[i] == u && q[k] == v;
  }

  lemma {:induction false} AllListed(q: seq<nat>, n: nat)
    requires Distinct(q) && |q| == n && forall v :: v in q ==> v < n
    ensures forall v: nat :: v < n ==> v in q
  {
    forall v: nat | v < n ensures v in q {
      if v !in q {
        DistinctFits(q + [v], n);
      }
    }
  }

  lemma SomeMissing(q: seq<nat>, n: nat) returns (v: nat)
    requires Distinct(q) && |q| < n
    ensures v < n && v !in q
  {
    if forall w: nat :: w < n ==> w in q {
      Covered(q, n);
    }
    v :| v < n && v !in q;
  }

  lemma {:induction false} Covered(q: seq<nat>, n: nat)
    requires forall w: nat :: w < n ==> w in q
    ensures |q| >= n
    decreases n
  {
    if n > 0 {
      var i := IndexOf(q, n - 1);
      var r := q[..i] + q[i + 1..];
      forall w: nat | w < n - 1 ensures w in r {
        var k := IndexOf(q, w);
        assert w == if k < i then r[k] else r[k - 1];
      }
      Covered(r, n - 1);
    }
  }

  // ----- Edges to or from indices of V and more

  ghost predicate OnCycle(g: Digraph, r: nat) {
    exists p :: IsCycle(g, p) && p[0] == r
  }

  /** An index of V or more without dependencies, or a vertex on a cycle. */
  ghost predicate Blocks(g: Digraph, V: nat, r: nat) {
    !Eligible(g, V, r) || OnCycle(g, r)
  }

  /** The vertex is blocked, or depends in some number of steps on one that is. */
  ghost predicate Lost(g: Digraph, V: nat, v: nat) {
    exists r: nat :: Blocks(g, V, r) && Reaches(g, r, v)
  }

  /** For any edges, cycles or not: a vertex is left out exactly if it is lost. */
  lemma LeftOutIff(g: Digraph, V: nat, q: seq<nat>, v: nat)
    requires InRange(g, MAX_V) && v < MAX_V && Queued(g, V, q) && Exhausted(g, V, q)
    ensures v !in q <==> Lost(g, V, v)
  {
    if v !in q {
      assert IsPath(g, [v]);
      var r := LostRoot(g, V, q, [v]);
    } else {
      forall r: nat | Reaches(g, r, v) ensures !Blocks(g, V, r) {
        var p :| IsPath(g, p) && p[0] == r && p[|p| - 1] == v;
        AncestorsListed(g, V, q, p);
        forall c | IsCycle(g, c) ensures c[0] != r {
          if c[|c| - 1] in q { AncestorsListed(g, V, q, c); }
        }
      }
    }
  }

  /** Going back from a vertex outside the queue through vertices outside it ends at a blocked one. */
  lemma {:induction false} LostRoot(g: Digraph, V: nat, q: seq<nat>, p: seq<nat>) returns (r: nat)
    requires InRange(g, MAX_V) && Exhausted(g, V, q)
    requires IsPath(g, p) && Distinct(p) && forall w :: w in p ==> w < MAX_V && w !in q
    ensures Blocks(g, V, r) && Reaches(g, r, p[|p| - 1])
    decreases MAX_V - |p|
  {
    assert p[0] in p;
    if !Eligible(g, V, p[0]) {
      r := p[0];
    } else {
      var u: nat :| Edge(g, u, p[0]) && u !in q;
      PathPrepend(g, u, p);
      if u in p {
        r := u;
        var j := IndexOf(p, u);
        PathSlice(g, [u] + p, 0, j + 2);
        assert IsCycle(g, ([u] + p)[0..j + 2]);
        PathSlice(g, p, j, |p|);
        assert p[j..|p|][|p| - j - 1] == p[|p| - 1];
      } else {
        DistinctFits([u] + p, MAX_V);
        r := LostRoot(g, V, q, [u] + p);
        assert ([u] + p)[|p|] == p[|p| - 1];
      }
    }
  }

  /** Along a path that ends in the queue everything is listed, in the order of the path. */
  lemma {:induction false} AncestorsListed(g: Digraph, V: nat, q: seq<nat>, p: seq<nat>)
    requires Queued(g, V, q) && IsPath(g, p) && p[|p| - 1] in q
    ensures p[0] in q && IndexOf(q, p[0]) + |p| - 1 <= IndexOf(q, p[|p| - 1])
  {
    if |p| > 1 {
      PathSlice(g, p, 1, |p|);
      assert p[1..] == p[1..|p|];
      AncestorsListed(g, V, q, p[1..]);
      assert Step(g, p, 0);
      ListedInOrder(g, V, q, p[0], p[1]);
      BeforeIndex(q, p[0], p[1]);
    }
  }

  /** The modules that are lost, and the higher indices that are listed beside the modules. */
  ghost function LostModules(g: Digraph, V: nat): set<nat> {
    set v: nat | v < V && Lost(g, V, v)
  }

  ghost function Extras(g: Digraph, V: nat): set<nat> {
    set v: nat | v < MAX_V && v >= V && !Lost(g, V, v)
  }

  ghost function AllLost(g: Digraph, V: nat): set<nat> {
    set v: nat | v < MAX_V && Lost(g, V, v)
  }

  /** The count, for any edges below MAX_V. */
  lemma CountIs(g: Digraph, V: nat, q: seq<nat>)
    requires V <= MAX_V && InRange(g, MAX_V) && Queued(g, V, q) && Exhausted(g, V, q)
    ensures |q| == MAX_V - |AllLost(g, V)| == V - |LostModules(g, V)| + |Extras(g, V)|
  {
    hide Lost, Queued, Exhausted, Upto;
    var listed := Upto(MAX_V) - AllLost(g, V);
    forall v: nat | v < MAX_V ensures v in q <==> !Lost(g, V, v) { LeftOutIff(g, V, q, v); }
    QueuedBelow(g, V, q);
    ElementsCard(q, listed);
    Partition(Upto(MAX_V), Upto(V), AllLost(g, V));
    assert AllLost(g, V) * Upto(V) == LostModules(g, V);
    assert Upto(MAX_V) - AllLost(g, V) - Upto(V) == Extras(g, V);
  }

  lemma Partition(all: set<nat>, below: set<nat>, lost: set<nat>)
    requires below <= all && lost <= all
    ensures |all - lost| == |all| - |lost| == |below| - |lost * below| + |all - lost - below|
  {
    assert all == (all - lost) + lost;
    assert all - lost == (below - lost) + (all - lost - below);
    assert below == (below - lost) + (lost * below);
  }

  lemma QueuedBelow(g: Digraph, V: nat, q: seq<nat>)
    requires Queued(g, V, q)
    ensures Distinct(q) && forall v :: v in q ==> v < MAX_V
  {
  }

  /** The verdict "count == V means no cycle" is right exactly if, of the modules lost and the extra indices listed,
      there are equally many just when there is no cycle. */
  lemma VerdictRightIff(g: Digraph, V: nat, q: seq<nat>)
    requires V <= MAX_V && InRange(g, MAX_V) && Queued(g, V, q) && Exhausted(g, V, q)
    ensures (|q| == V <==> !Cyclic(g)) <==> (|LostModules(g, V)| == |Extras(g, V)| <==> !Cyclic(g))
    ensures InRange(g, V) ==> Extras(g, V) == {} && (LostModules(g, V) == {} <==> !Cyclic(g))
  {
    CountIs(g, V, q);
    if InRange(g, V) {
      CompleteIffAcyclic(g, V, q);
      forall v: nat | V <= v < MAX_V ensures Lost(g, V, v) {
        ReachesSelf(g, v);
        assert !Eligible(g, V, v);
      }
      assert Extras(g, V) == {};
    }
  }

  ghost function Upto(n: nat): (s: set<nat>)
    ensures |s| == n && forall v: nat :: v in s <==> v < n
  {
    if n == 0 then {} else Upto(n - 1) + {n - 1}
  }

  lemma {:induction false} ElementsCard(q: seq<nat>, s: set<nat>)
    requires Distinct(q) && forall v :: v in q <==> v in s
    ensures |q| == |s|
  {
    if q == [] {
      assert forall v: nat :: v !in s;
      assert s == {};
    } else {
      var v := q[|q| - 1];
      var r := q[..|q| - 1];
      assert forall w :: w in r <==> w in s - {v};
      ElementsCard(r, s - {v});
      assert v in s;
    }
  }

  /** A cycle reported as fine: modules 1 and 2 depend on each other, but 8 and 9, which depend on 0, make up the count. */
  lemma ExampleAccepted(q: seq<nat>)
    requires Queued(CyclicGraph(), 3, q) && Exhausted(CyclicGraph(), 3, q)
    ensures InRange(CyclicGraph(), MAX_V) && Cyclic(CyclicGraph()) && |q| == 3
  {
    var g := CyclicGraph();
    CyclicGraphEdges();
    hide CyclicGraph, Queued;
    TwoCycle(g, 1, 2);
    TwoCycle(g, 2, 1);
    NotQueued(g, q, 1);
    NotQueued(g, q, 2);
    assert PredecessorsIn(g, 0, q) && Eligible(g, 3, 0);
    assert PredecessorsIn(g, 8, q) && Eligible(g, 3, 8);
    assert PredecessorsIn(g, 9, q) && Eligible(g, 3, 9);
    QueuedBelow(g, 3, q);
    forall v | v in q ensures v in {0, 8, 9} { QueuedEligible(g, q, v); }
    ElementsCard(q, {0, 8, 9});
  }

  lemma NotQueued(g: Digraph, q: seq<nat>, v: nat)
    requires InRange(g, MAX_V) && v < MAX_V && Queued(g, 3, q) && Exhausted(g, 3, q) && OnCycle(g, v)
    ensures v !in q
  {
    ReachesSelf(g, v);
    LeftOutIff(g, 3, q, v);
  }

  lemma QueuedEligible(g: Digraph, q: seq<nat>, v: nat)
    requires Queued(g, 3, q) && v in q
    ensures Eligible(g, 3, v)
  {
  }

  lemma CyclicGraphEdges()
    ensures InRange(CyclicGraph(), MAX_V)
    ensures forall u: nat, v: nat :: Edge(CyclicGraph(), u, v) <==> (u, v) in {(0, 8), (0, 9), (1, 2), (2, 1)}
  {
  }

  lemma TwoCycle(g: Digraph, u: nat, v: nat)
    requires Edge(g, u, v) && Edge(g, v, u)
    ensures OnCycle(g, u) && Cyclic(g)
  {
    var c := [u, v, u];
    forall i: nat | i + 1 < |c| ensures Step(g, c, i) {}
    assert IsCycle(g, c);
  }

  function CyclicGraph(): Digraph {
    [[8, 9], [2], [1], [], [], [], [], [], [], []]
  }

  /** The program's own graph: index 9 is not below V = 8, so its user, module 7, is never built and a cycle is
      reported although there is none. */
  lemma ExampleMisjudged(q: seq<nat>)
    requires Queued(ExampleGraph(), 8, q) && Exhausted(ExampleGraph(), 8, q)
    ensures !Cyclic(ExampleGraph()) && 7 !in q && |q| != 8
  {
    var g := ExampleGraph();
    ExampleAcyclic();
    ExampleEdges();
    hide ExampleGraph, Cyclic;
    assert !Eligible(g, 8, 9);
    assert 9 !in q;
    if 7 in q { ListedInOrder(g, 8, q, 9, 7); }
    forall v | v in q ensures v < 7 { assert Eligible(g, 8, v); }
    DistinctFits(q, 7);
  }

  lemma ExampleEdges()
    ensures Edge(ExampleGraph(), 9, 7) && forall u: nat, v: nat :: Edge(ExampleGraph(), u, v) ==> v < 8
  {
    var g := ExampleGraph();
    assert g[9] == [7];
    forall u: nat, v: nat | Edge(g, u, v) ensures v < 8 { assert u < 10; }
  }

  function ExampleGraph(): Digraph {
    [[1, 3, 4], [], [5], [2], [5, 6], [7], [7], [], [], [7]]
  }

  lemma ExampleAcyclic()
    ensures !Cyclic(ExampleGraph())
  {
    var g := ExampleGraph();
    var rank := (v: nat) => if v == 0 then 0 else if v == 3 || v == 4 then 1 else if v == 2 then 2 else if v == 7 then 5 else if v == 9 then 4 else 3;
    var S := {0, 1, 2, 3, 4, 5, 6, 7, 8, 9};
    forall p | IsCycle(g, p) ensures p[0] in S { assert Step(g, p, 0); }
    RankedIsAcyclic(g, S, rank);
  }

  // ----- The program

  class Builder {
    const V: nat
    const adj: array<seq<nat>>
    const inDegree: array<int>

    ghost predicate Valid()
      reads this, adj, inDegree
    {
      && V <= MAX_V && adj.Length == inDegree.Length == MAX_V
      && InRange(adj[..], MAX_V)
      && forall v: nat :: v < MAX_V ==> inDegree[v] == Remaining(adj[..], {}, v, MAX_V)
    }

    constructor (modules: nat)
      requires modules <= MAX_V
      ensures Valid() && V == modules && fresh(adj) && fresh(inDegree)
      ensures forall u :: 0 <= u < MAX_V ==> adj[u] == []
    {
      V := modules;
      adj := new seq<nat>[MAX_V](_ => []);
      inDegree := new int[MAX_V](_ => 0);
      new;
      forall v: nat | v < MAX_V ensures Remaining(adj[..], {}, v, MAX_V) == 0 {
        RemainingZero(adj[..], {}, v, MAX_V);
      }
    }

    /** `from` depends on `to`: an edge from `to` to `from`. */
    method AddDep(from: nat, to: nat)
      requires Valid() && from < MAX_V && to < MAX_V
      modifies adj, inDegree
      ensures Valid() && adj[..] == old(adj[..])[to := [from] + old(adj[to])]
    {
      ghost var g := adj[..];
      adj[to] := [from] + adj[to];
      inDegree[from] := inDegree[from] + 1;
      assert adj[..] == g[to := [from] + g[to]];
      forall v: nat | v < MAX_V ensures inDegree[v] == Remaining(adj[..], {}, v, MAX_V) {
        RemainingAdd(g, from, to, v, MAX_V);
      }
      forall u: nat, v: nat | Edge(adj[..], u, v) ensures u < MAX_V && v < MAX_V {
        assert (u == to && v == from) || Edge(g, u, v);
      }
    }

    /** The modules without dependencies start the queue. */
    method FindRoots(queue: array<nat>) returns (back: nat)
      requires Valid() && queue.Length == MAX_V
      modifies queue
      ensures back <= V && Progress(adj[..], V, inDegree[..], queue[..back], 0, [])
    {
      back := 0;
      for i := 0 to V
        invariant back <= i
        invariant forall k :: 0 <= k < back ==> queue[k] < i
        invariant Distinct(queue[..back])
        invariant forall v: nat :: v in queue[..back] <==> v < i && inDegree[v] == 0
      {
        if inDegree[i] == 0 {
          ghost var q := queue[..back];
          queue[back] := i;
          back := back + 1;
          assert queue[..back] == q + [i];
        }
      }
      RootsProgress(adj[..], V, inDegree[..], queue[..back]);
    }

    /** Take one processed vertex off the counts of its users, queueing those that reach zero. */
    method Release(queue: array<nat>, front: nat, start: nat, u: nat) returns (back: nat)
      requires adj.Length == MAX_V && inDegree.Length == MAX_V && queue.Length == MAX_V
      requires InRange(adj[..], MAX_V) && front <= start <= MAX_V && u < MAX_V
      requires Progress(adj[..], V, inDegree[..], queue[..start], front, adj[u])
      modifies queue, inDegree
      ensures start <= back <= MAX_V && queue[..start] == old(queue[..start])
      ensures Progress(adj[..], V, inDegree[..], queue[..back], front, [])
    {
      hide Progress;
      back := start;
      ghost var g := adj[..];
      for i := 0 to |adj[u]|
        invariant start <= back <= MAX_V && queue[..start] == old(queue[..start]) && adj[..] == g
        invariant Progress(g, V, inDegree[..], queue[..back], front, adj[u][i..])
      {
        ghost var d, q := inDegree[..], queue[..back];
        var w := adj[u][i];
        assert g[u] == adj[u];
        assert Edge(g, u, w);
        assert adj[u][i..] == [w] + adj[u][i + 1..];
        ReleaseStep(g, V, d, q, front, u, w, adj[u][i + 1..]);
        inDegree[w] := inDegree[w] - 1;
        assert inDegree[..] == d[w := d[w] - 1];
        if inDegree[w] == 0 {
          queue[back] := w;
          back := back + 1;
          assert queue[..back] == q + [w];
          assert queue[..start] == queue[..back][..start];
        }
      }
      assert adj[u][|adj[u]|..] == [];
    }

    /** The modules in an order that puts dependencies first; all of them, if nothing stands in the way. */
    method KahnTopo(result: array<nat>) returns (count: nat)
      requires Valid() && result.Length == MAX_V
      modifies inDegree, result
      ensures count <= MAX_V
      ensures Queued(adj[..], V, result[..count]) && Exhausted(adj[..], V, result[..count])
      ensures forall v: nat :: v < MAX_V ==> (v in result[..count] <==> !Lost(adj[..], V, v))
      ensures count == V - |LostModules(adj[..], V)| + |Extras(adj[..], V)|
      ensures InRange(adj[..], V) ==> (count == V <==> !Cyclic(adj[..]))
      ensures InRange(adj[..], V) && count == V ==> TopologicalOrder(adj[..], V, result[..count])
    {
      hide Progress, Lost, LostModules, Extras;
      ghost var g := adj[..];
      var queue := new nat[MAX_V](_ => 0);
      var back := FindRoots(queue);
      var front := 0;
      count := 0;
      while front < back
        invariant front <= back <= MAX_V && count == front && adj[..] == g
        invariant Progress(g, V, inDegree[..], queue[..back], front, [])
        invariant result[..count] == queue[..front]
        decreases MAX_V - front
      {
        var u := queue[front];
        StartVertex(g, V, inDegree[..], queue[..back], front);
        front := front + 1;
        result[count] := u;
        count := count + 1;
        assert result[..count] == queue[..front];
        ghost var q := queue[..back];
        assert q[..front] == queue[..front];
        back := Release(queue, front, back, u);
        assert queue[..front] == q[..front];
      }
      Finish(g, V, inDegree[..], queue[..back]);
      assert result[..count] == queue[..back];
      forall v: nat | v < MAX_V ensures v in queue[..back] <==> !Lost(g, V, v) { LeftOutIff(g, V, queue[..back], v); }
      CountIs(g, V, queue[..back]);
      if InRange(g, V) { CompleteIffAcyclic(g, V, queue[..back]); }
    }
  }

  // ----- The queue

  /** With q queued, its first `front` vertices processed, and `rest` of the last one's users still to be counted down. */
  ghost predicate Progress(g: Digraph, V: nat, degree: seq<int>, q: seq<nat>, front: nat, rest: seq<nat>) {
    && |g| == |degree| == MAX_V && front <= |q|
    && Queued(g, V, q)
    && (forall v: nat :: v < MAX_V ==> degree[v] == Remaining(g, Members(q[..front]), v, MAX_V) + Occurrences(rest, v))
    && (forall v: nat :: v < MAX_V ==> (v in q <==> degree[v] == 0 && Eligible(g, V, v)))
  }

  lemma RootsProgress(g: Digraph, V: nat, degree: seq<int>, q: seq<nat>)
    requires |g| == |degree| == MAX_V && V <= MAX_V && Distinct(q)
    requires forall v: nat :: v < MAX_V ==> degree[v] == Remaining(g, {}, v, MAX_V)
    requires forall v: nat :: v in q <==> v < V && degree[v] == 0
    ensures Progress(g, V, degree, q, 0, [])
  {
    assert Members(q[..0]) == {};
    forall v: nat | v < MAX_V ensures degree[v] == 0 <==> forall u: nat :: !Edge(g, u, v) {
      RemainingZero(g, {}, v, MAX_V);
    }
    forall k | 0 <= k < |q| ensures PredecessorsIn(g, q[k], q[..k]) {
      assert q[k] in q;
    }
  }

  lemma StartVertex(g: Digraph, V: nat, degree: seq<int>, q: seq<nat>, front: nat)
    requires Progress(g, V, degree, q, front, []) && front < |q|
    ensures q[front] < MAX_V && Progress(g, V, degree, q, front + 1, g[q[front]])
  {
    var u := q[front];
    assert u in q;
    assert q[..front + 1] == q[..front] + [u];
    assert Members(q[..front + 1]) == Members(q[..front]) + {u};
    forall v: nat | v < MAX_V
      ensures degree[v] == Remaining(g, Members(q[..front + 1]), v, MAX_V) + Occurrences(g[u], v)
    {
      RemainingDone(g, Members(q[..front]), u, v, MAX_V);
    }
  }

  lemma OccurrencesCons(w: nat, rest: seq<nat>, v: nat)
    ensures Occurrences([w] + rest, v) == Occurrences(rest, v) + if v == w then 1 else 0
  {
    assert ([w] + rest)[1..] == rest;
  }

  lemma QueuedAdd(g: Digraph, V: nat, q: seq<nat>, w: nat)
    requires Queued(g, V, q) && w < MAX_V && w !in q && Eligible(g, V, w) && PredecessorsIn(g, w, q)
    ensures Queued(g, V, q + [w]) && |q| < MAX_V
  {
    hide Eligible;
    var q' := q + [w];
    forall v ensures v in q' <==> v in q || v == w {}
    DistinctFits(q', MAX_V);
    forall k | 0 <= k < |q'| ensures PredecessorsIn(g, q'[k], q'[..k]) {
      assert q'[..k] == q[..k];
      assert k < |q| ==> PredecessorsIn(g, q[k], q[..k]);
      assert q[..|q|] == q;
    }
  }

  lemma ReleaseStep(g: Digraph, V: nat, degree: seq<int>, q: seq<nat>, front: nat, u: nat, w: nat, rest: seq<nat>)
    requires Progress(g, V, degree, q, front, [w] + rest) && Edge(g, u, w) && w < MAX_V
    ensures Progress(g, V, degree[w := degree[w] - 1], if degree[w] == 1 then q + [w] else q, front, rest)
    ensures degree[w] == 1 ==> |q| < MAX_V
  {
    hide Remaining, Occurrences, Queued;
    forall v ensures Occurrences([w] + rest, v) == Occurrences(rest, v) + if v == w then 1 else 0 {
      OccurrencesCons(w, rest, v);
    }
    assert Eligible(g, V, w);
    assert w !in q;
    if degree[w] == 1 {
      var q' := q + [w];
      assert q'[..front] == q[..front];
      forall v ensures v in q' <==> v in q || v == w {}
      RemainingZero(g, Members(q[..front]), w, MAX_V);
      QueuedAdd(g, V, q, w);
    }
  }

  lemma Finish(g: Digraph, V: nat, degree: seq<int>, q: seq<nat>)
    requires Progress(g, V, degree, q, |q|, [])
    ensures Queued(g, V, q) && Exhausted(g, V, q)
  {
    forall v: nat | v < MAX_V && v !in q && Eligible(g, V, v) ensures !PredecessorsIn(g, v, q) {
      RemainingZero(g, Members(q), v, MAX_V);
      assert q[..|q|] == q;
    }
  }

  function Members(q: seq<nat>): set<nat> {
    set v | v in q
  }

  // ----- The two examples, built and listed by the program

  function Added(g: Digraph, from: nat, to: nat): Digraph
    requires to < |g|
  {
    g[to := [from] + g[to]]
  }

  lemma ExampleHalf(g: Digraph)
    requires g == [[], [], [], [], [], [], [], [], [], []]
    ensures Added(Added(Added(Added(Added(g, 7, 6), 7, 5), 7, 9), 6, 4), 5, 2) == [[], [], [5], [], [6], [7], [7], [], [], [7]]
  {
    var r := Added(Added(Added(Added(Added(g, 7, 6), 7, 5), 7, 9), 6, 4), 5, 2);
    assert r[2] == [5] && r[4] == [6] && r[5] == [7] && r[6] == [7] && r[9] == [7];
  }

  lemma ExampleAdded(g: Digraph)
    requires g == [[], [], [5], [], [6], [7], [7], [], [], [7]]
    ensures Added(Added(Added(Added(Added(g, 5, 4), 2, 3), 4, 0), 3, 0), 1, 0) == ExampleGraph()
  {
    var r := Added(Added(Added(Added(Added(g, 5, 4), 2, 3), 4, 0), 3, 0), 1, 0);
    assert r[0] == [1, 3, 4] && r[3] == [2] && r[4] == [5, 6];
  }

  /** The dependencies that the program's own main declares. */
  method ExampleBuilder() returns (b: Builder)
    ensures b.Valid() && b.V == 8 && b.adj[..] == ExampleGraph() && fresh(b) && fresh(b.adj) && fresh(b.inDegree)
  {
    hide InRange, Builder.Valid, Remaining, ExampleGraph;
    b := new Builder(8);
    assert b.adj[..] == [[], [], [], [], [], [], [], [], [], []];
    ExampleHalf(b.adj[..]);
    b.AddDep(7, 6);
    b.AddDep(7, 5);
    b.AddDep(7, 9);
    b.AddDep(6, 4);
    b.AddDep(5, 2);
    ExampleAdded(b.adj[..]);
    b.AddDep(5, 4);
    b.AddDep(2, 3);
    b.AddDep(4, 0);
    b.AddDep(3, 0);
    b.AddDep(1, 0);
  }

  /** The program's own main: its graph has no cycle, and the count is not V = 8. */
  method MisjudgedRun() returns (count: nat)
    ensures !Cyclic(ExampleGraph()) && count != 8
  {
    var b := ExampleBuilder();
    var result := new nat[MAX_V];
    count := b.KahnTopo(result);
    ExampleMisjudged(result[..count]);
  }

  /** Modules 1 and 2 depend on each other, and the count is V = 3 all the same. */
  method AcceptedRun() returns (count: nat)
    ensures Cyclic(CyclicGraph()) && count == 3
  {
    hide Queued, Exhausted, Lost, LostModules, Extras, Cyclic, InRange, Builder.Valid;
    var b := new Builder(3);
    assert b.adj[..] == [[], [], [], [], [], [], [], [], [], []];
    b.AddDep(9, 0);
    assert b.adj[0] == [9];
    b.AddDep(8, 0);
    assert b.adj[0] == [8, 9];
    b.AddDep(2, 1);
    assert b.adj[1] == [2];
    b.AddDep(1, 2);
    assert b.adj[2] == [1];
    assert b.adj[..] == CyclicGraph();
    var result := new nat[MAX_V];
    count := b.KahnTopo(result);
    ExampleAccepted(result[..count]);
  }
}
