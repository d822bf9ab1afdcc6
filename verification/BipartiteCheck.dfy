/** bipartite_check.c: breadth-first two-colouring of an undirected graph. */
module BipartiteCheck {
  import opened Digraphs

  const MAX_V := 100
  const NONE := -1

  ghost predicate Symmetric(g: Digraph) {
    forall u: nat, v: nat :: Edge(g, u, v) ==> Edge(g, v, u)
  }

  /** A search from a vertex below V can reach u. */
  ghost predicate Met(g: Digraph, V: nat, u: nat) {
    exists s: nat :: s < V && Reaches(g, s, u)
  }

  /** Every edge that a search can meet is listed at both ends. */
  ghost predicate SymmetricAhead(g: Digraph, V: nat) {
    forall u: nat, v: nat :: Edge(g, u, v) && Met(g, V, u) ==> Edge(g, v, u)
  }

  /** The lists of the vertices below V form an undirected graph on those vertices. */
  ghost predicate OwnEdges(g: Digraph, V: nat) {
    forall u: nat, v: nat :: u < V && Edge(g, u, v) ==> v < V && Edge(g, v, u)
  }

  /** What the lists from V on hold does not matter then. */
  lemma OwnEdgesAhead(g: Digraph, V: nat)
    requires OwnEdges(g, V)
    ensures SymmetricAhead(g, V) && forall u: nat :: Met(g, V, u) <==> u < V
  {
    forall u: nat ensures Met(g, V, u) <==> u < V {
      if u < V { ReachesSelf(g, u); }
      forall s: nat | s < V && Reaches(g, s, u) ensures u < V {
        var p :| IsPath(g, p) && p[0] == s && p[|p| - 1] == u;
        StaysBelow(g, V, p, |p| - 1);
      }
    }
  }

  lemma {:induction false} StaysBelow(g: Digraph, V: nat, p: seq<nat>, i: nat)
    requires OwnEdges(g, V) && IsPath(g, p) && p[0] < V && i < |p|
    ensures p[i] < V
  {
    if i > 0 {
      StaysBelow(g, V, p, i - 1);
      assert Step(g, p, i - 1);
    }
  }

  /** A walk with an odd number of edges from a vertex below V back to itself. */
  ghost predicate OddClosedWalk(g: Digraph, V: nat, p: seq<nat>) {
    IsPath(g, p) && p[0] < V && p[|p| - 1] == p[0] && (|p| - 1) % 2 == 1
  }

  ghost predicate HasOddClosedWalk(g: Digraph, V: nat) {
    exists p :: OddClosedWalk(g, V, p)
  }

  /** There is a walk from s to x whose number of edges has the given parity. */
  ghost predicate Walk(g: Digraph, s: nat, x: nat, parity: int) {
    exists p :: IsPath(g, p) && p[0] == s && p[|p| - 1] == x && (|p| - 1) % 2 == parity
  }

  lemma WalkSelf(g: Digraph, s: nat)
    ensures Walk(g, s, s, 0)
  {
    assert IsPath(g, [s]);
  }

  lemma WalkExtend(g: Digraph, s: nat, u: nat, v: nat, parity: int)
    requires Walk(g, s, u, parity) && Edge(g, u, v)
    ensures Walk(g, s, v, 1 - parity)
  {
    var p :| IsPath(g, p) && p[0] == s && p[|p| - 1] == u && (|p| - 1) % 2 == parity;
    PathAppend(g, p, v);
    var q := p + [v];
    assert q[0] == s && q[|q| - 1] == v;
  }

  lemma PathConcat(g: Digraph, p: seq<nat>, q: seq<nat>)
    requires IsPath(g, p) && IsPath(g, q) && Edge(g, p[|p| - 1], q[0])
    ensures IsPath(g, p + q)
  {
    forall i: nat | i + 1 < |p + q| ensures Step(g, p + q, i) {
      if i + 1 < |p| { assert Step(g, p, i); } else if i >= |p| { assert Step(g, q, i - |p|); }
    }
  }

  function Reversed(p: seq<nat>): seq<nat> {
    seq(|p|, i requires 0 <= i < |p| => p[|p| - 1 - i])
  }

  lemma PathReversed(g: Digraph, V: nat, p: seq<nat>)
    requires SymmetricAhead(g, V) && IsPath(g, p) && p[0] < V
    ensures IsPath(g, Reversed(p))
  {
    forall i: nat | i + 1 < |p| ensures Step(g, Reversed(p), i) {
      var k := |p| - 2 - i;
      assert Step(g, p, k);
      PathSlice(g, p, 0, k + 1);
      assert p[0..k + 1][0] == p[0] && Reaches(g, p[0], p[k]);
      assert Met(g, V, p[k]);
    }
  }

  /** An edge between two vertices with equally long walks (by parity) from s closes an odd walk. */
  lemma ConflictIsOdd(g: Digraph, V: nat, s: nat, u: nat, v: nat, parity: int)
    requires SymmetricAhead(g, V) && s < V && Edge(g, u, v) && Walk(g, s, u, parity) && Walk(g, s, v, parity)
    ensures HasOddClosedWalk(g, V)
  {
    var p :| IsPath(g, p) && p[0] == s && p[|p| - 1] == u && (|p| - 1) % 2 == parity;
    var q :| IsPath(g, q) && q[0] == s && q[|q| - 1] == v && (|q| - 1) % 2 == parity;
    PathReversed(g, V, q);
    PathConcat(g, p, Reversed(q));
    assert OddClosedWalk(g, V, p + Reversed(q));
  }

  /** All of x's neighbours have the other colour. */
  ghost predicate Done(g: Digraph, color: seq<int>, x: nat) {
    x < |color| && forall v: nat :: Edge(g, x, v) ==> v < |color| && color[v] == 1 - color[x]
  }

  lemma {:induction false} ColoursAlternate(g: Digraph, color: seq<int>, p: seq<nat>, i: nat)
    requires IsPath(g, p) && i < |p| && p[0] < |color| && (color[p[0]] == 0 || color[p[0]] == 1)
    requires forall x: nat :: x < |color| && color[x] != NONE ==> Done(g, color, x)
    ensures p[i] < |color| && color[p[i]] == if i % 2 == 0 then color[p[0]] else 1 - color[p[0]]
  {
    if i > 0 {
      ColoursAlternate(g, color, p, i - 1);
      assert Step(g, p, i - 1) && Done(g, color, p[i - 1]);
    }
  }

  /** A finished colouring rules odd closed walks out. */
  lemma ColouredHasNone(g: Digraph, V: nat, color: seq<int>)
    requires V <= |color| && forall x: nat :: x < V ==> color[x] != NONE
    requires forall x: nat :: x < |color| ==> color[x] == NONE || color[x] == 0 || color[x] == 1
    requires forall x: nat :: x < |color| && color[x] != NONE ==> Done(g, color, x)
    ensures !HasOddClosedWalk(g, V)
  {
    forall p | IsPath(g, p) && p[0] < V && p[|p| - 1] == p[0] ensures (|p| - 1) % 2 == 0 {
      ColoursAlternate(g, color, p, |p| - 1);
    }
  }

  /** During the search from s, with q queued and its first `front` vertices taken: u is being expanded
      and its first `seen` neighbours have been looked at. */
  ghost predicate Searching(g: Digraph, V: nat, color: seq<int>, s: nat, q: seq<nat>, front: nat, busy: set<nat>) {
    && |g| == |color| == MAX_V && InRange(g, MAX_V) && SymmetricAhead(g, V) && s < V <= MAX_V
    && front <= |q| && Distinct(q) && busy <= Members(q)
    && (forall x: nat :: x < MAX_V ==> color[x] == NONE || color[x] == 0 || color[x] == 1)
    && (forall x :: x in q ==> x < MAX_V && color[x] != NONE && Walk(g, s, x, color[x]))
    && (forall x: nat :: x < MAX_V && color[x] != NONE && x !in q[front..] && x !in busy ==> Done(g, color, x))
  }

  function Members(q: seq<nat>): set<nat> {
    set x | x in q
  }

  lemma BeginSearch(g: Digraph, V: nat, color: seq<int>, s: nat)
    requires |g| == |color| == MAX_V && InRange(g, MAX_V) && SymmetricAhead(g, V) && s < V <= MAX_V && color[s] == NONE
    requires forall x: nat :: x < MAX_V ==> color[x] == NONE || color[x] == 0 || color[x] == 1
    requires forall x: nat :: x < MAX_V && color[x] != NONE ==> Done(g, color, x)
    ensures Searching(g, V, color[s := 0], s, [s], 0, {})
  {
    WalkSelf(g, s);
    var color' := color[s := 0];
    forall x: nat | x < MAX_V && color'[x] != NONE && x != s ensures Done(g, color', x) {
      KeepDone(g, color, s, 0, x);
    }
    assert [s][0..] == [s];
  }

  /** Colouring an uncoloured vertex spoils no finished one. */
  lemma KeepDone(g: Digraph, color: seq<int>, v: nat, c: int, x: nat)
    requires v < |color| && x != v && Done(g, color, x) && color[v] == NONE && (color[x] == 0 || color[x] == 1)
    ensures Done(g, color[v := c], x)
  {
  }

  lemma TakeVertex(g: Digraph, V: nat, color: seq<int>, s: nat, q: seq<nat>, front: nat)
    requires Searching(g, V, color, s, q, front, {}) && front < |q|
    ensures Searching(g, V, color, s, q, front + 1, {q[front]}) && q[front] < MAX_V && color[q[front]] != NONE
  {
    assert q[front] in q;
    assert q[front..] == [q[front]] + q[front + 1..];
  }

  lemma ColourNeighbour(g: Digraph, V: nat, color: seq<int>, s: nat, q: seq<nat>, front: nat, u: nat, v: nat)
    requires Searching(g, V, color, s, q, front, {u}) && Edge(g, u, v) && v < MAX_V && color[v] == NONE
    ensures u < MAX_V && |q| < MAX_V
    ensures Searching(g, V, color[v := 1 - color[u]], s, q + [v], front, {u})
  {
    assert u in Members(q);
    WalkExtend(g, s, u, v, color[u]);
    var c := 1 - color[u];
    var color', q' := color[v := c], q + [v];
    DistinctFits(q', MAX_V);
    assert q'[front..] == q[front..] + [v];
    forall x: nat | x < MAX_V && color'[x] != NONE && x !in q'[front..] && x != u ensures Done(g, color', x) {
      KeepDone(g, color, v, c, x);
    }
  }

  lemma FinishVertex(g: Digraph, V: nat, color: seq<int>, s: nat, q: seq<nat>, front: nat, u: nat)
    requires Searching(g, V, color, s, q, front, {u})
    requires forall v :: v in g[u] ==> v < MAX_V && u < MAX_V && color[v] == 1 - color[u]
    ensures Searching(g, V, color, s, q, front, {})
  {
  }

  /** Two neighbours of one colour were both reached from s. */
  lemma SameColour(g: Digraph, V: nat, color: seq<int>, s: nat, q: seq<nat>, front: nat, u: nat, v: nat)
    requires Searching(g, V, color, s, q, front, {u}) && Edge(g, u, v) && u < MAX_V && v < MAX_V && color[v] == color[u]
    ensures HasOddClosedWalk(g, V)
  {
    assert u in Members(q);
    assert Walk(g, s, u, color[u]) && Reaches(g, s, u) && Met(g, V, u);
    assert Edge(g, v, u);
    assert v in q by { assert !Done(g, color, v); }
    ConflictIsOdd(g, V, s, u, v, color[u]);
  }

  class Graph {
    var V: nat
    const adj: array<seq<nat>>

    ghost predicate Valid()
      reads this, adj
    {
      V <= MAX_V == adj.Length && InRange(adj[..], MAX_V)
    }

    constructor (vertices: nat)
      requires vertices <= MAX_V
      ensures Valid() && V == vertices && fresh(adj) && forall u :: 0 <= u < MAX_V ==> adj[u] == []
      ensures Symmetric(adj[..]) && OwnEdges(adj[..], V)
    {
      V := vertices;
      adj := new seq<nat>[MAX_V](_ => []);
    }

    /** An undirected edge: an entry at either end. */
    method AddEdge(u: nat, v: nat)
      requires Valid() && u < MAX_V && v < MAX_V
      modifies adj
      ensures Valid()
      ensures old(Symmetric(adj[..])) ==> Symmetric(adj[..])
      ensures old(OwnEdges(adj[..], V)) && u < V && v < V ==> OwnEdges(adj[..], V)
      ensures forall a: nat, b: nat :: Edge(adj[..], a, b) <==> Edge(old(adj[..]), a, b) || (a == u && b == v) || (a == v && b == u)
    {
      ghost var g := adj[..];
      adj[u] := [v] + adj[u];
      ghost var g1 := adj[..];
      assert g1 == g[u := [v] + g[u]];
      adj[v] := [u] + adj[v];
      assert adj[..] == g1[v := [u] + g1[v]];
      forall a: nat, b: nat
        ensures Edge(adj[..], a, b) <==> Edge(g, a, b) || (a == u && b == v) || (a == v && b == u)
      {
      }
    }

    /** What `main` does between its two graphs: a new number of vertices, and only their lists emptied. */
    method Restart(vertices: nat)
      requires Valid() && vertices <= MAX_V
      modifies this, adj
      ensures Valid() && V == vertices && OwnEdges(adj[..], V)
      ensures forall u :: 0 <= u < MAX_V ==> adj[u] == if u < vertices then [] else old(adj[u])
    {
      V := vertices;
      for i := 0 to V
        invariant V == vertices
        invariant forall u :: 0 <= u < MAX_V ==> adj[u] == if u < i then [] else old(adj[u])
      {
        adj[i] := [];
      }
      forall a: nat, b: nat | Edge(adj[..], a, b) ensures a < MAX_V && b < MAX_V { assert Edge(old(adj[..]), a, b); }
    }

    /** 1, here true, exactly when there is no closed walk of odd length through the vertices 0..V-1. */
    method IsBipartite() returns (ok: bool)
      requires Valid() && SymmetricAhead(adj[..], V)
      ensures ok <==> !HasOddClosedWalk(adj[..], V)
    {
      hide Searching, Done;
      ghost var g := adj[..];
      var color := new int[MAX_V](_ => NONE);
      var queue := new nat[MAX_V](_ => 0);
      for s := 0 to V
        invariant forall x: nat :: x < s ==> color[x] != NONE
        invariant forall x: nat :: x < MAX_V ==> color[x] == NONE || color[x] == 0 || color[x] == 1
        invariant forall x: nat :: x < MAX_V && color[x] != NONE ==> Done(g, color[..], x)
      {
        if color[s] == NONE {
          var colored := Search(color, queue, s);
          if !colored { return false; }
        }
      }
      ColouredHasNone(g, V, color[..]);
      return true;
    }

    /** The breadth-first search from s; false if two neighbours have the same colour. */
    method Search(color: array<int>, queue: array<nat>, s: nat) returns (ok: bool)
      requires Valid() && SymmetricAhead(adj[..], V) && color.Length == MAX_V && queue.Length == MAX_V && s < V && color[s] == NONE
      requires forall x: nat :: x < MAX_V ==> color[x] == NONE || color[x] == 0 || color[x] == 1
      requires forall x: nat :: x < MAX_V && color[x] != NONE ==> Done(adj[..], color[..], x)
      modifies color, queue
      ensures !ok ==> HasOddClosedWalk(adj[..], V)
      ensures ok ==> color[s] != NONE && forall x: nat :: x < MAX_V && old(color[x]) != NONE ==> color[x] != NONE
      ensures ok ==> forall x: nat :: x < MAX_V ==> color[x] == NONE || color[x] == 0 || color[x] == 1
      ensures ok ==> forall x: nat :: x < MAX_V && color[x] != NONE ==> Done(adj[..], color[..], x)
    {
      hide Searching, Done;
      ghost var g := adj[..];
      BeginSearch(g, V, color[..], s);
      ghost var start := color[..];
      color[s] := 0;
      assert color[..] == start[s := 0];
      queue[0] := s;
      var front, back := 0, 1;
      assert queue[..back] == [s];
      while front < back
        invariant front <= back <= MAX_V
        invariant Searching(g, V, color[..], s, queue[..back], front, {})
        invariant color[s] != NONE && forall x: nat :: x < MAX_V && start[x] != NONE ==> color[x] != NONE
        decreases MAX_V - front
      {
        TakeVertex(g, V, color[..], s, queue[..back], front);
        var u := queue[front];
        front := front + 1;
        for i := 0 to |adj[u]|
          invariant front <= back <= MAX_V
          invariant Searching(g, V, color[..], s, queue[..back], front, {u}) && color[u] != NONE
          invariant forall v :: v in adj[u][..i] ==> v < MAX_V && color[v] == 1 - color[u]
          invariant color[s] != NONE && forall x: nat :: x < MAX_V && start[x] != NONE ==> color[x] != NONE
        {
          var v := adj[u][i];
          NeighbourRange(g, V, color[..], s, queue[..back], front, u, i);
          assert adj[u][..i + 1] == adj[u][..i] + [v];
          if color[v] == NONE {
            ghost var before, q := color[..], queue[..back];
            ColourNeighbour(g, V, before, s, q, front, u, v);
            color[v] := 1 - color[u];
            queue[back] := v;
            back := back + 1;
            assert color[..] == before[v := 1 - before[u]] && queue[..back] == q + [v];
          } else if color[v] == color[u] {
            SameColour(g, V, color[..], s, queue[..back], front, u, v);
            return false;
          }
        }
        assert adj[u][..|adj[u]|] == g[u];
        FinishVertex(g, V, color[..], s, queue[..back], front, u);
      }
      SearchDone(g, V, color[..], s, queue[..back]);
      return true;
    }
  }

  lemma NeighbourRange(g: Digraph, V: nat, color: seq<int>, s: nat, q: seq<nat>, front: nat, u: nat, i: nat)
    requires Searching(g, V, color, s, q, front, {u}) && u < |g| && i < |g[u]|
    ensures |color| == MAX_V && Edge(g, u, g[u][i]) && g[u][i] < MAX_V
    ensures forall x: nat :: x < MAX_V ==> color[x] == NONE || color[x] == 0 || color[x] == 1
  {
    assert Edge(g, u, g[u][i]);
  }

  lemma SearchDone(g: Digraph, V: nat, color: seq<int>, s: nat, q: seq<nat>)
    requires Searching(g, V, color, s, q, |q|, {})
    ensures |color| == MAX_V
    ensures forall x: nat :: x < MAX_V && color[x] != NONE ==> Done(g, color, x)
    ensures forall x: nat :: x < MAX_V ==> color[x] == NONE || color[x] == 0 || color[x] == 1
  {
  }

  /** For edges within 0..V-1 every odd closed walk starts below V, so the answer is about the whole graph. */
  lemma WithinRange(g: Digraph, V: nat)
    requires InRange(g, V)
    ensures HasOddClosedWalk(g, V) <==>
              exists p :: IsPath(g, p) && p[|p| - 1] == p[0] && (|p| - 1) % 2 == 1
  {
    forall p | IsPath(g, p) && p[|p| - 1] == p[0] && (|p| - 1) % 2 == 1 ensures HasOddClosedWalk(g, V) {
      assert Step(g, p, 0);
      assert OddClosedWalk(g, V, p);
    }
  }

  /** `main`: the square is bipartite, and the triangle built after it is not, whatever the list of vertex 3 still
      holds. */
  method SquareThenTriangle() returns (square: bool, triangle: bool)
    ensures square && !triangle
  {
    var graph := new Graph(4);
    graph.AddEdge(0, 1);
    graph.AddEdge(1, 2);
    graph.AddEdge(2, 3);
    graph.AddEdge(3, 0);
    OwnEdgesAhead(graph.adj[..], 4);
    square := graph.IsBipartite();
    Alternating(graph.adj[..], 4);
    graph.Restart(3);
    graph.AddEdge(0, 1);
    graph.AddEdge(1, 2);
    graph.AddEdge(2, 0);
    OwnEdgesAhead(graph.adj[..], 3);
    triangle := graph.IsBipartite();
    TriangleIsOdd(graph.adj[..], 3);
  }

  lemma Alternating(g: Digraph, V: nat)
    requires forall u: nat, v: nat :: Edge(g, u, v) ==> u % 2 != v % 2
    ensures !HasOddClosedWalk(g, V)
  {
    forall p | IsPath(g, p) && p[|p| - 1] == p[0] ensures (|p| - 1) % 2 == 0 { AlternatingAt(g, p, |p| - 1); }
  }

  lemma {:induction false} AlternatingAt(g: Digraph, p: seq<nat>, i: nat)
    requires IsPath(g, p) && i < |p| && forall u: nat, v: nat :: Edge(g, u, v) ==> u % 2 != v % 2
    ensures (p[0] + i) % 2 == p[i] % 2
  {
    if i > 0 {
      AlternatingAt(g, p, i - 1);
      assert Step(g, p, i - 1);
    }
  }

  lemma TriangleIsOdd(g: Digraph, V: nat)
    requires V > 0 && Edge(g, 0, 1) && Edge(g, 1, 2) && Edge(g, 2, 0)
    ensures HasOddClosedWalk(g, V)
  {
    var p: seq<nat> := [0, 1, 2, 0];
    assert Step(g, p, 0) && Step(g, p, 1) && Step(g, p, 2);
    assert OddClosedWalk(g, V, p);
  }
}
