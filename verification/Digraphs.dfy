/** Unweighted directed graphs as adjacency lists, their paths and their cycles. */
module Digraphs {
  /** g[u] lists the successors of u; an edge may be listed more than once. */
  type Digraph = seq<seq<nat>>

  ghost predicate InRange(g: Digraph, n: nat) {
    forall u: nat, v: nat :: Edge(g, u, v) ==> u < n && v < n
  }

  ghost predicate Edge(g: Digraph, u: nat, v: nat) {
    u < |g| && v in g[u]
  }

  ghost predicate Step(g: Digraph, p: seq<nat>, i: nat)
    requires i + 1 < |p|
  {
    Edge(g, p[i], p[i + 1])
  }

  ghost predicate IsPath(g: Digraph, p: seq<nat>) {
    |p| > 0 && forall i: nat :: i + 1 < |p| ==> Step(g, p, i)
  }

  ghost predicate IsCycle(g: Digraph, p: seq<nat>) {
    |p| > 1 && IsPath(g, p) && p[0] == p[|p| - 1]
  }

  ghost predicate Cyclic(g: Digraph) {
    exists p :: IsCycle(g, p)
  }

  ghost predicate Reaches(g: Digraph, u: nat, v: nat) {
    exists p :: IsPath(g, p) && p[0] == u && p[|p| - 1] == v
  }

  /** u comes before v in q. */
  ghost predicate Before(q: seq<nat>, u: nat, v: nat) {
    exists i, j :: 0 <= i < j < |q| && q[i] == u && q[j] == v
  }

  ghost predicate Distinct(q: seq<nat>) {
    forall i, j :: 0 <= i < j < |q| ==> q[i] != q[j]
  }

  /** q lists the vertices below n exactly once each, every edge going forward. */
  ghost predicate TopologicalOrder(g: Digraph, n: nat, q: seq<nat>) {
    && Distinct(q) && |q| == n
    && (forall v: nat :: v in q <==> v < n)
    && (forall u: nat, v: nat :: Edge(g, u, v) ==> Before(q, u, v))
  }

  // ----- Paths

  lemma ReachesSelf(g: Digraph, u: nat)
    ensures Reaches(g, u, u)
  {
    assert IsPath(g, [u]);
  }

  lemma PathPrepend(g: Digraph, u: nat, p: seq<nat>)
    requires IsPath(g, p) && Edge(g, u, p[0])
    ensures IsPath(g, [u] + p)
  {
    forall i: nat | i + 1 < |[u] + p| ensures Step(g, [u] + p, i) {
      if i > 0 { assert Step(g, p, i - 1); }
    }
  }

  lemma PathAppend(g: Digraph, p: seq<nat>, v: nat)
    requires IsPath(g, p) && Edge(g, p[|p| - 1], v)
    ensures IsPath(g, p + [v])
  {
    forall i: nat | i + 1 < |p + [v]| ensures Step(g, p + [v], i) {
      if i + 1 < |p| { assert Step(g, p, i); }
    }
  }

  lemma PathSlice(g: Digraph, p: seq<nat>, a: nat, b: nat)
    requires IsPath(g, p) && a < b <= |p|
    ensures IsPath(g, p[a..b])
  {
    forall i: nat | i + 1 < b - a ensures Step(g, p[a..b], i) {
      assert Step(g, p, a + i);
    }
  }

  /** Whatever holds at the start of a path and is passed along edges holds at its end. */
  lemma {:induction false} AlongPath(g: Digraph, p: seq<nat>, S: set<nat>, i: nat)
    requires IsPath(g, p) && p[0] in S && i < |p|
    requires forall u: nat, v: nat :: Edge(g, u, v) && u in S ==> v in S
    ensures p[i] in S
  {
    if i > 0 {
      AlongPath(g, p, S, i - 1);
      assert Step(g, p, i - 1);
    }
  }

  /** Along edges that leave S and that all go up in rank, the rank grows, so no cycle starts in S. */
  lemma {:induction false} RankGrows(g: Digraph, p: seq<nat>, S: set<nat>, rank: nat -> int, i: nat)
    requires IsPath(g, p) && p[0] in S && i < |p|
    requires forall u: nat, v: nat :: Edge(g, u, v) && u in S ==> v in S && rank(u) < rank(v)
    ensures p[i] in S && rank(p[i]) >= rank(p[0]) + i
  {
    if i > 0 {
      RankGrows(g, p, S, rank, i - 1);
      assert Step(g, p, i - 1);
    }
  }

  lemma RankedIsAcyclic(g: Digraph, S: set<nat>, rank: nat -> int)
    requires forall u: nat, v: nat :: Edge(g, u, v) && u in S ==> v in S && rank(u) < rank(v)
    ensures forall p :: IsCycle(g, p) ==> p[0] !in S
  {
    forall p | IsCycle(g, p) ensures p[0] !in S {
      if p[0] in S { RankGrows(g, p, S, rank, |p| - 1); }
    }
  }

  function IndexOf(q: seq<nat>, v: nat): (i: nat)
    ensures v in q ==> i < |q| && q[i] == v
  {
    if q == [] then 0 else if q[0] == v then 0 else 1 + IndexOf(q[1..], v)
  }

  lemma BeforeIndex(q: seq<nat>, u: nat, v: nat)
    requires Distinct(q) && Before(q, u, v)
    ensures u in q && v in q && IndexOf(q, u) < IndexOf(q, v)
  {
  }

  /** An order in which every edge goes forward leaves no cycle. */
  lemma OrderedIsAcyclic(g: Digraph, n: nat, q: seq<nat>)
    requires TopologicalOrder(g, n, q)
    ensures !Cyclic(g)
  {
    var S := set v | v in q;
    forall p | IsCycle(g, p) ensures p[0] in S {
      assert Step(g, p, 0);
      assert Before(q, p[0], p[1]);
    }
    forall u: nat, v: nat | Edge(g, u, v) && u in S ensures v in S && IndexOf(q, u) < IndexOf(q, v) {
      BeforeIndex(q, u, v);
    }
    RankedIsAcyclic(g, S, (v: nat) => IndexOf(q, v));
  }

  // ----- A finite set in which every vertex has a predecessor contains a cycle

  lemma {:induction false} DistinctFits(q: seq<nat>, n: nat)
    requires Distinct(q) && forall v :: v in q ==> v < n
    ensures |q| <= n
  {
    if q == [] {
      return;
    }
    assert q[0] in q;
    if n - 1 in q {
      var i := IndexOf(q, n - 1);
      var r := q[..i] + q[i + 1..];
      forall v | v in r ensures v < n - 1 && v in q {
        var k :| 0 <= k < |r| && r[k] == v;
        var k' := if k < i then k else k + 1;
        assert q[k'] == v && v in q;
        assert if k' < i then q[k'] != q[i] else q[i] != q[k'];
      }
      DistinctFits(r, n - 1);
    } else {
      DistinctFits(q, n - 1);
    }
  }

  ghost predicate HasPredecessor(g: Digraph, N: set<nat>, v: nat) {
    exists u: nat :: u in N && Edge(g, u, v)
  }

  ghost predicate Fed(g: Digraph, n: nat, N: set<nat>) {
    && (forall v :: v in N ==> v < n)
    && (forall v {:trigger HasPredecessor(g, N, v)} :: v in N ==> HasPredecessor(g, N, v))
  }

  lemma {:induction false} BackwardChain(g: Digraph, n: nat, N: set<nat>, p: seq<nat>)
    requires Fed(g, n, N)
    requires IsPath(g, p) && Distinct(p) && forall v :: v in p ==> v in N
    ensures Cyclic(g)
    decreases n - |p|
  {
    assert p[0] in p;
    assert HasPredecessor(g, N, p[0]);
    var u: nat :| u in N && Edge(g, u, p[0]);
    PathPrepend(g, u, p);
    if u in p {
      var j := IndexOf(p, u);
      PathSlice(g, [u] + p, 0, j + 2);
      assert IsCycle(g, ([u] + p)[0..j + 2]);
    } else {
      DistinctFits([u] + p, n);
      BackwardChain(g, n, N, [u] + p);
    }
  }

  /** Where every vertex of a non-empty set has a predecessor in the set, there is a cycle. */
  lemma EndlessBackward(g: Digraph, n: nat, N: set<nat>, v: nat)
    requires Fed(g, n, N) && v in N
    ensures Cyclic(g)
  {
    BackwardChain(g, n, N, [v]);
  }
}
