/** topological_sort.c: depth-first search in three colours, recording vertices as they finish. */
module TopologicalSort {
  import opened Digraphs
  import MakeDeps

  const MAX_V := 10
  const WHITE := 0
  const GRAY := 1
  const BLACK := 2

  /** A cycle that can be reached from one of the vertices 0..V-1. */
  ghost predicate CycleAhead(g: Digraph, V: nat) {
    exists r: nat, p :: r < V && IsCycle(g, p) && Reaches(g, r, p[0])
  }

  ghost predicate SuccessorsIn(g: Digraph, u: nat, q: seq<nat>) {
    forall v: nat :: Edge(g, u, v) ==> v in q
  }

  /** The vertices on `path` are being visited, and those on `done` are finished. Until a cycle has been
      found the gray vertices are exactly the path, and every finished vertex follows all its successors. */
  ghost predicate Visiting(g: Digraph, V: nat, color: seq<int>, done: seq<nat>, found: bool, path: seq<nat>) {
    && |g| == |color| == MAX_V && InRange(g, MAX_V)
    && Distinct(done)
    && (forall v: nat :: v in done <==> v < MAX_V && color[v] == BLACK)
    && (path != [] ==> IsPath(g, path) && path[0] < V)
    && (found ==> CycleAhead(g, V))
    && (!found ==> Distinct(path) && forall v: nat :: v in path <==> v < MAX_V && color[v] == GRAY)
    && (!found ==> forall k :: 0 <= k < |done| ==> SuccessorsIn(g, done[k], done[..k]))
    && (forall v: nat :: v < MAX_V ==> color[v] == WHITE || ((color[v] == GRAY || color[v] == BLACK) && Begun(g, V, v)))
  }

  ghost predicate Begun(g: Digraph, V: nat, v: nat) {
    v < V || exists u: nat :: Edge(g, u, v)
  }

  ghost function Whites(color: seq<int>): set<nat> {
    set v: nat | v < |color| && color[v] == WHITE
  }

  /** Only white vertices have changed colour. */
  ghost predicate Advanced(before: seq<int>, after: seq<int>) {
    |before| == |after| && forall v :: 0 <= v < |before| && before[v] != WHITE ==> after[v] == before[v]
  }

  ghost predicate Enters(g: Digraph, V: nat, path: seq<nat>, u: nat) {
    if path == [] then u < V else Edge(g, path[|path| - 1], u)
  }

  // ----- Steps of the search

  lemma FewerWhites(before: seq<int>, after: seq<int>, u: nat)
    requires u < |before| && before[u] == WHITE && Advanced(before[u := GRAY], after)
    ensures |Whites(after)| < |Whites(before)|
  {
    var A, B := Whites(after), Whites(before);
    forall v | v in A ensures v in B - {u} {
      assert before[u := GRAY][v] == WHITE;
    }
    SubsetSmaller(A, B - {u});
  }

  lemma {:induction false} SubsetSmaller(a: set<nat>, b: set<nat>)
    requires forall v :: v in a ==> v in b
    ensures |a| <= |b|
  {
    if a != {} {
      var x :| x in a;
      SubsetSmaller(a - {x}, b - {x});
    }
  }

  lemma Enter(g: Digraph, V: nat, color: seq<int>, done: seq<nat>, found: bool, path: seq<nat>, u: nat)
    requires Visiting(g, V, color, done, found, path) && Enters(g, V, path, u)
    requires u < MAX_V && color[u] == WHITE
    ensures Visiting(g, V, color[u := GRAY], done, found, path + [u])
  {
    if path == [] {
      assert IsPath(g, [u]);
    } else {
      PathAppend(g, path, u);
    }
  }

  /** An edge to a vertex that is being visited closes a cycle, unless one was found before. */
  lemma BackEdge(g: Digraph, V: nat, color: seq<int>, done: seq<nat>, found: bool, path: seq<nat>, u: nat, v: nat)
    requires Visiting(g, V, color, done, found, path + [u]) && Edge(g, u, v) && v < MAX_V && color[v] == GRAY
    ensures CycleAhead(g, V)
  {
    if !found {
      var p := path + [u];
      var i := IndexOf(p, v);
      PathSlice(g, p, i, |p|);
      PathAppend(g, p[i..|p|], v);
      assert IsCycle(g, p[i..|p|] + [v]);
      PathSlice(g, p, 0, i + 1);
      assert Reaches(g, p[0], v);
    }
  }

  lemma Abandon(g: Digraph, V: nat, color: seq<int>, done: seq<nat>, found: bool, path: seq<nat>, u: nat)
    requires Visiting(g, V, color, done, found, path + [u]) && CycleAhead(g, V)
    ensures Visiting(g, V, color, done, true, path)
  {
    if path != [] { PrefixOfPath(g, path, u); }
  }

  lemma PrefixOfPath(g: Digraph, path: seq<nat>, u: nat)
    requires IsPath(g, path + [u]) && path != []
    ensures IsPath(g, path)
  {
    PathSlice(g, path + [u], 0, |path|);
    assert (path + [u])[0..|path|] == path;
  }

  /** All of u's edges have been followed. */
  lemma Leave(g: Digraph, V: nat, color: seq<int>, done: seq<nat>, found: bool, path: seq<nat>, u: nat)
    requires Visiting(g, V, color, done, found, path + [u]) && u < MAX_V && color[u] == GRAY
    requires !found ==> SuccessorsIn(g, u, done)
    ensures |done| < MAX_V && Visiting(g, V, color[u := BLACK], done + [u], found, path)
  {
    if path != [] { PrefixOfPath(g, path, u); }
    var done' := done + [u];
    DistinctFits(done', MAX_V);
    forall v: nat ensures v in done' <==> v < MAX_V && color[u := BLACK][v] == BLACK {
      assert v in done' <==> v in done || v == u;
    }
    assert path != [] ==> path[0] == (path + [u])[0];
    if !found {
      assert Distinct(path) by {
        forall i, j | 0 <= i < j < |path| ensures path[i] != path[j] { assert (path + [u])[i] != (path + [u])[j]; }
      }
      forall k | 0 <= k < |done'| ensures SuccessorsIn(g, done'[k], done'[..k]) {
        if k < |done| {
          assert done'[..k] == done[..k] && SuccessorsIn(g, done[k], done[..k]);
        } else {
          assert done'[..k] == done;
        }
      }
      assert (path + [u])[|path|] == u;
      forall v: nat ensures v in path <==> v < MAX_V && color[u := BLACK][v] == GRAY {
        assert v in path + [u] <==> v in path || v == u;
        assert (path + [u])[|path|] == u;
        if v in path { var i := IndexOf(path, v); assert (path + [u])[i] != (path + [u])[|path|]; }
      }
    }
  }

  ghost predicate Listed(n: nat, q: seq<nat>) {
    forall v: nat :: v < n ==> v in q
  }

  function Reverse(q: seq<nat>): seq<nat> {
    seq(|q|, i requires 0 <= i < |q| => q[|q| - 1 - i])
  }

  /** When the search is over: a cycle has been found exactly if there is one ahead; if not, the vertices in
      the reverse of finishing order start with every dependency. */
  lemma SearchEnds(g: Digraph, V: nat, color: seq<int>, done: seq<nat>, found: bool)
    requires Visiting(g, V, color, done, found, []) && V <= MAX_V
    requires forall v: nat :: v < V ==> color[v] != WHITE
    ensures found <==> CycleAhead(g, V)
    ensures !found ==> Distinct(Reverse(done)) && Listed(V, Reverse(done))
    ensures !found ==> forall u: nat, v: nat :: Edge(g, u, v) && u in Reverse(done) ==> Before(Reverse(done), u, v)
  {
    if !found {
      var order := Reverse(done);
      forall u: nat | u in done ensures u in order {
        var i := IndexOf(done, u);
        assert order[|done| - 1 - i] == u;
      }
      forall v: nat | v < V ensures v in order { assert v !in ([]); }
      forall u: nat, v: nat | Edge(g, u, v) && u in order ensures v in order && Before(order, u, v) {
        FinishedBefore(g, done, u, v);
      }
      forall u: nat, v: nat | Edge(g, u, v) && u in order ensures IndexOf(order, u) < IndexOf(order, v) {
        BeforeIndex(order, u, v);
      }
      NoCycleAhead(g, V, order);
    }
  }

  lemma FinishedBefore(g: Digraph, done: seq<nat>, u: nat, v: nat)
    requires forall k :: 0 <= k < |done| ==> SuccessorsIn(g, done[k], done[..k])
    requires Edge(g, u, v) && u in Reverse(done)
    ensures Before(Reverse(done), u, v) && v in Reverse(done)
  {
    var order := Reverse(done);
    var i := IndexOf(order, u);
    var k := |done| - 1 - i;
    assert SuccessorsIn(g, done[k], done[..k]);
    var m := IndexOf(done[..k], v);
    assert order[|done| - 1 - m] == v;
  }

  lemma NoCycleAhead(g: Digraph, V: nat, order: seq<nat>)
    requires Listed(V, order)
    requires forall u: nat, v: nat :: Edge(g, u, v) && u in order ==> v in order && IndexOf(order, u) < IndexOf(order, v)
    ensures !CycleAhead(g, V)
  {
    var S := set v | v in order;
    forall r: nat, p | r < V && IsCycle(g, p) && Reaches(g, r, p[0]) ensures p[0] in S {
      var path :| IsPath(g, path) && path[0] == r && path[|path| - 1] == p[0];
      AlongPath(g, path, S, |path| - 1);
    }
    RankedIsAcyclic(g, S, (v: nat) => IndexOf(order, v));
  }

  /** For edges within 0..V-1, every cycle is ahead and the order is a topological order of exactly 0..V-1. */
  lemma WithinRange(g: Digraph, V: nat, color: seq<int>, done: seq<nat>, found: bool)
    requires Visiting(g, V, color, done, found, []) && V <= MAX_V && InRange(g, V)
    requires forall v: nat :: v < V ==> color[v] != WHITE
    ensures found <==> Cyclic(g)
    ensures !found ==> TopologicalOrder(g, V, Reverse(done))
  {
    SearchEnds(g, V, color, done, found);
    CyclesAhead(g, V);
    if !found {
      var order := Reverse(done);
      forall v: nat ensures v in order <==> v < V {
        if v in order {
          var i := IndexOf(order, v);
          assert done[|done| - 1 - i] == v;
          assert v in done && color[v] == BLACK && Begun(g, V, v);
        }
      }
      forall u: nat, v: nat | Edge(g, u, v) ensures Before(order, u, v) {}
      DistinctFits(order, V);
      MakeDeps.Covered(order, V);
    }
  }

  lemma CyclesAhead(g: Digraph, V: nat)
    requires InRange(g, V)
    ensures CycleAhead(g, V) <==> Cyclic(g)
  {
    if Cyclic(g) {
      var p :| IsCycle(g, p);
      assert Step(g, p, 0);
      ReachesSelf(g, p[0]);
    }
  }

  /** Both programs give the same verdict on the same graph. */
  lemma VerdictsAgree(g: Digraph, V: nat, q: seq<nat>)
    requires V <= MAX_V && InRange(g, V)
    requires MakeDeps.Queued(g, V, q) && MakeDeps.Exhausted(g, V, q)
    ensures |q| != V <==> CycleAhead(g, V)
  {
    MakeDeps.CompleteIffAcyclic(g, V, q);
    CyclesAhead(g, V);
  }

  // ----- The program

  class Sorter {
    const adj: array<seq<nat>>
    const color: array<int>
    const topoStack: array<nat>
    var topoTop: int
    var hasCycle: bool

    ghost predicate Shape()
      reads this
    {
      adj.Length == color.Length == topoStack.Length == MAX_V && -1 <= topoTop < MAX_V
    }

    ghost function Finished(): seq<nat>
      requires Shape()
      reads this, topoStack
    {
      topoStack[..topoTop + 1]
    }

    ghost predicate Valid(V: nat, path: seq<nat>)
      reads this, adj, color, topoStack
    {
      Shape() && Visiting(adj[..], V, color[..], Finished(), hasCycle, path)
    }

    constructor ()
      ensures fresh(adj) && fresh(color) && fresh(topoStack)
      ensures forall V: nat :: Valid(V, [])
      ensures forall u :: 0 <= u < MAX_V ==> adj[u] == [] && color[u] == WHITE
    {
      adj := new seq<nat>[MAX_V](_ => []);
      color := new int[MAX_V](_ => WHITE);
      topoStack := new nat[MAX_V](_ => 0);
      topoTop := -1;
      hasCycle := false;
    }

    method AddDirectedEdge(u: nat, v: nat)
      requires Valid(0, []) && topoTop == -1 && u < MAX_V && v < MAX_V && forall w :: 0 <= w < MAX_V ==> color[w] == WHITE
      modifies adj
      ensures forall V: nat :: Valid(V, [])
      ensures adj[..] == old(adj[..])[u := [v] + old(adj[u])]
    {
      ghost var g := adj[..];
      adj[u] := [v] + adj[u];
      assert adj[..] == g[u := [v] + g[u]];
      forall a: nat, b: nat | Edge(adj[..], a, b) ensures a < MAX_V && b < MAX_V {
        assert (a == u && b == v) || Edge(g, a, b);
      }
    }

    /** Visit u, coming along the gray path. */
    method Dfs(u: nat, ghost V: nat, ghost path: seq<nat>)
      requires Valid(V, path) && Enters(adj[..], V, path, u) && u < MAX_V && color[u] == WHITE
      modifies color, topoStack, this
      ensures Valid(V, path) && Advanced(old(color[..]), color[..])
      ensures old(hasCycle) ==> hasCycle
      ensures color[u] != WHITE && (!hasCycle ==> color[u] == BLACK)
      decreases |Whites(color[..])|
    {
      hide Visiting, Advanced, Whites, Enters, Edge, AllBlack, SuccessorsIn, CycleAhead, Begun, InRange, IsPath, Distinct;
      ghost var g, start := adj[..], color[..];
      ghost var entered := start[u := GRAY];
      Enter(g, V, start, Finished(), hasCycle, path, u);
      color[u] := GRAY;
      assert color[..] == entered;
      AdvancedSelf(entered);
      NoneBlack(color[..]);
      for i := 0 to |adj[u]|
        invariant Valid(V, path + [u]) && Advanced(entered, color[..]) && adj[..] == g
        invariant old(hasCycle) ==> hasCycle
        invariant !hasCycle ==> AllBlack(adj[u][..i], color[..])
      {
        var v := adj[u][i];
        EdgeTarget(g, V, color[..], Finished(), hasCycle, path + [u], u, i);
        LastEnters(g, V, path, u, v);
        if color[v] == GRAY {
          BackEdge(g, V, color[..], Finished(), hasCycle, path, u, v);
          Abandon(g, V, color[..], Finished(), hasCycle, path, u);
          hasCycle := true;
          AdvancedFrom(start, u, color[..]);
          return;
        }
        ghost var before := color[..];
        if color[v] == WHITE {
          FewerWhites(start, before, u);
          Dfs(v, V, path + [u]);
        } else {
          AdvancedSelf(before);
        }
        AdvancedTrans(entered, before, color[..]);
        AllBlackNext(adj[u], i, before, color[..]);
      }
      assert adj[u][..|adj[u]|] == adj[u];
      AllSuccessors(g, V, color[..], Finished(), hasCycle, path + [u], u);
      AdvancedFrom(start, u, color[..]);
      Leave(g, V, color[..], Finished(), hasCycle, path, u);
      ghost var last, done := color[..], Finished();
      color[u] := BLACK;
      topoTop := topoTop + 1;
      topoStack[topoTop] := u;
      assert color[..] == last[u := BLACK] && Finished() == done + [u];
      AdvancedRecolour(start, last, u);
    }

    /** The driver: search from every vertex, then pop the stack if no cycle was found. */
    method Sort(V: nat) returns (order: seq<nat>)
      requires Valid(V, []) && V <= MAX_V && topoTop == -1 && !hasCycle
      requires forall v :: 0 <= v < MAX_V ==> color[v] == WHITE
      modifies color, topoStack, this
      ensures hasCycle <==> CycleAhead(adj[..], V)
      ensures !hasCycle ==> Distinct(order) && Listed(V, order)
      ensures !hasCycle ==> forall u: nat, v: nat :: Edge(adj[..], u, v) && u in order ==> Before(order, u, v)
      ensures InRange(adj[..], V) ==> (hasCycle <==> Cyclic(adj[..]))
      ensures InRange(adj[..], V) && !hasCycle ==> TopologicalOrder(adj[..], V, order)
    {
      hide Visiting, Advanced;
      ghost var g := adj[..];
      for i := 0 to V
        invariant Valid(V, []) && adj[..] == g
        invariant forall v :: 0 <= v < i ==> color[v] != WHITE
      {
        ghost var before := color[..];
        if color[i] == WHITE {
          Dfs(i, V, []);
          StillVisited(before, color[..]);
        }
      }
      SearchEnds(g, V, color[..], Finished(), hasCycle);
      if InRange(g, V) { WithinRange(g, V, color[..], Finished(), hasCycle); }
      order := [];
      if !hasCycle {
        ghost var done := Finished();
        while topoTop >= 0
          invariant !hasCycle && -1 <= topoTop < |done| && Shape() && done == topoStack[..|done|]
          invariant order == Reverse(done)[..|done| - 1 - topoTop]
        {
          order := order + [topoStack[topoTop]];
          topoTop := topoTop - 1;
        }
        assert order == Reverse(done);
      }
    }
  }

  // ----- Colours

  ghost predicate AllBlack(s: seq<nat>, color: seq<int>) {
    forall j :: 0 <= j < |s| ==> s[j] < |color| && color[s[j]] == BLACK
  }

  lemma AllBlackKept(s: seq<nat>, before: seq<int>, after: seq<int>)
    requires Advanced(before, after)
    ensures |after| == |before| && (AllBlack(s, before) ==> AllBlack(s, after))
  {
  }

  lemma LastEnters(g: Digraph, V: nat, path: seq<nat>, u: nat, v: nat)
    ensures Edge(g, u, v) ==> Enters(g, V, path + [u], v)
  {
    assert (path + [u])[|path|] == u;
  }

  lemma NoneBlack(color: seq<int>)
    ensures forall s: seq<nat> :: AllBlack(s[..0], color)
  {
  }

  lemma AllBlackNext(s: seq<nat>, i: nat, before: seq<int>, after: seq<int>)
    requires Advanced(before, after) && i < |s| && s[i] < |after|
    ensures AllBlack(s[..i], before) && after[s[i]] == BLACK ==> AllBlack(s[..i + 1], after)
  {
    AllBlackKept(s[..i], before, after);
    assert s[..i + 1] == s[..i] + [s[i]];
  }

  lemma StillVisited(before: seq<int>, after: seq<int>)
    requires Advanced(before, after)
    ensures |after| == |before| && forall v :: 0 <= v < |before| && before[v] != WHITE ==> after[v] != WHITE
  {
  }

  lemma AdvancedSelf(color: seq<int>)
    ensures Advanced(color, color)
  {
  }

  lemma AdvancedTrans(a: seq<int>, b: seq<int>, c: seq<int>)
    requires Advanced(a, b) && Advanced(b, c)
    ensures Advanced(a, c)
  {
  }

  lemma AdvancedFrom(start: seq<int>, u: nat, color: seq<int>)
    requires u < |start| && start[u] == WHITE && Advanced(start[u := GRAY], color)
    ensures Advanced(start, color) && color[u] == GRAY
  {
    forall v | 0 <= v < |start| && start[v] != WHITE ensures color[v] == start[v] {
      assert start[u := GRAY][v] != WHITE;
    }
    assert start[u := GRAY][u] != WHITE;
  }

  lemma AdvancedRecolour(start: seq<int>, color: seq<int>, u: nat)
    requires u < |start| && start[u] == WHITE && Advanced(start, color)
    ensures Advanced(start, color[u := BLACK])
  {
  }

  lemma EdgeTarget(g: Digraph, V: nat, color: seq<int>, done: seq<nat>, found: bool, path: seq<nat>, u: nat, i: nat)
    requires Visiting(g, V, color, done, found, path) && u < |g| && i < |g[u]|
    ensures Edge(g, u, g[u][i]) && |color| == MAX_V && g[u][i] < MAX_V
    ensures color[g[u][i]] == WHITE || color[g[u][i]] == GRAY || color[g[u][i]] == BLACK
  {
    assert Edge(g, u, g[u][i]);
  }

  lemma AllSuccessors(g: Digraph, V: nat, color: seq<int>, done: seq<nat>, found: bool, path: seq<nat>, u: nat)
    requires Visiting(g, V, color, done, found, path) && u < |g|
    ensures AllBlack(g[u], color) ==> SuccessorsIn(g, u, done)
  {
  }
}
