/** Directed weighted graphs: walks, simple walks, and cycle removal. */
module Walks {
  datatype Edge = Edge(from: nat, to: nat, w: int)

  /** p leads from s to t. */
  predicate Chain(p: seq<Edge>, s: nat, t: nat) {
    if p == [] then s == t else p[0].from == s && Chain(p[1..], p[0].to, t)
  }

  function Sum(p: seq<Edge>): int {
    if p == [] then 0 else p[0].w + Sum(p[1..])
  }

  ghost predicate WalkIn(E: set<Edge>, p: seq<Edge>, s: nat, t: nat) {
    Chain(p, s, t) && forall e :: e in p ==> e in E
  }

  ghost predicate Reachable(E: set<Edge>, s: nat, t: nat) {
    exists p :: WalkIn(E, p, s, t)
  }

  ghost predicate InRange(V: nat, E: set<Edge>) {
    forall e :: e in E ==> e.from < V && e.to < V
  }

  /** The i-th vertex of a walk from s. */
  function VertexAt(p: seq<Edge>, s: nat, i: nat): nat
    requires i <= |p|
  {
    if i == 0 then s else p[i - 1].to
  }

  /** No vertex twice. */
  ghost predicate Simple(p: seq<Edge>, s: nat) {
    forall i, j :: 0 <= i < j <= |p| ==> VertexAt(p, s, i) != VertexAt(p, s, j)
  }

  ghost predicate NegativeCycle(E: set<Edge>, v: nat, c: seq<Edge>) {
    WalkIn(E, c, v, v) && Sum(c) < 0
  }

  /** Some cycle of negative weight can be reached from s. */
  ghost predicate ReachesNegativeCycle(E: set<Edge>, s: nat) {
    exists v, c :: Reachable(E, s, v) && NegativeCycle(E, v, c)
  }

  /** d is the least weight of a walk from s to t. */
  ghost predicate IsDistance(E: set<Edge>, s: nat, t: nat, d: int) {
    (exists p :: WalkIn(E, p, s, t) && Sum(p) == d) && (forall p :: WalkIn(E, p, s, t) ==> d <= Sum(p))
  }

  /** Every simple walk from s weighs less than the sentinel. */
  ghost predicate FitsBelow(E: set<Edge>, s: nat, inf: int) {
    forall p, t: nat :: WalkIn(E, p, s, t) && Simple(p, s) ==> Sum(p) < inf
  }

  // ----- Concatenation and splitting

  lemma {:induction false} ChainConcat(p: seq<Edge>, q: seq<Edge>, s: nat, m: nat, t: nat)
    requires Chain(p, s, m) && Chain(q, m, t)
    ensures Chain(p + q, s, t) && Sum(p + q) == Sum(p) + Sum(q)
  {
    if p == [] {
      assert p + q == q;
    } else {
      ChainConcat(p[1..], q, p[0].to, m, t);
      assert (p + q)[1..] == p[1..] + q;
    }
  }

  lemma {:induction false} ChainSplit(p: seq<Edge>, s: nat, t: nat, i: nat)
    requires Chain(p, s, t) && i <= |p|
    ensures Chain(p[..i], s, VertexAt(p, s, i)) && Chain(p[i..], VertexAt(p, s, i), t)
    ensures Sum(p) == Sum(p[..i]) + Sum(p[i..])
  {
    if i == 0 {
      assert p[..0] == [] && p[0..] == p;
    } else {
      ChainSplit(p[1..], p[0].to, t, i - 1);
      assert VertexAt(p, s, i) == VertexAt(p[1..], p[0].to, i - 1);
      assert p[..i][1..] == p[1..][..i - 1] && p[1..][i - 1..] == p[i..];
    }
  }

  lemma {:induction false} ChainEnd(p: seq<Edge>, s: nat, t: nat)
    requires Chain(p, s, t)
    ensures VertexAt(p, s, |p|) == t
  {
    ChainSplit(p, s, t, |p|);
    assert p[|p|..] == [];
  }

  lemma WalkConcat(E: set<Edge>, p: seq<Edge>, q: seq<Edge>, s: nat, m: nat, t: nat)
    requires WalkIn(E, p, s, m) && WalkIn(E, q, m, t)
    ensures WalkIn(E, p + q, s, t) && Sum(p + q) == Sum(p) + Sum(q)
  {
    ChainConcat(p, q, s, m, t);
  }

  lemma WalkSplit(E: set<Edge>, p: seq<Edge>, s: nat, t: nat, i: nat)
    requires WalkIn(E, p, s, t) && i <= |p|
    ensures WalkIn(E, p[..i], s, VertexAt(p, s, i)) && WalkIn(E, p[i..], VertexAt(p, s, i), t)
    ensures Sum(p) == Sum(p[..i]) + Sum(p[i..])
  {
    ChainSplit(p, s, t, i);
  }

  lemma WalkEdge(E: set<Edge>, e: Edge)
    requires e in E
    ensures WalkIn(E, [e], e.from, e.to) && Sum([e]) == e.w
  {
    assert [e][1..] == [];
  }

  lemma WalkExtend(E: set<Edge>, p: seq<Edge>, s: nat, e: Edge)
    requires WalkIn(E, p, s, e.from) && e in E
    ensures WalkIn(E, p + [e], s, e.to) && Sum(p + [e]) == Sum(p) + e.w
  {
    WalkEdge(E, e);
    WalkConcat(E, p, [e], s, e.from, e.to);
  }

  /** A nonempty walk is a walk and a last edge. */
  lemma WalkLast(E: set<Edge>, p: seq<Edge>, s: nat, t: nat)
    requires WalkIn(E, p, s, t) && p != []
    ensures p[|p| - 1] in E && p[|p| - 1].to == t
    ensures WalkIn(E, p[..|p| - 1], s, p[|p| - 1].from) && Sum(p) == Sum(p[..|p| - 1]) + p[|p| - 1].w
  {
    var n := |p| - 1;
    ChainEnd(p, s, t);
    WalkSplit(E, p, s, t, n);
    assert p[n..] == [p[n]] && [p[n]][1..] == [];
  }

  lemma SimplePrefix(p: seq<Edge>, s: nat, i: nat)
    requires Simple(p, s) && i <= |p|
    ensures Simple(p[..i], s)
  {
    forall j | 0 <= j <= i ensures VertexAt(p[..i], s, j) == VertexAt(p, s, j) {}
  }

  // ----- Cycle removal

  /** Cutting out the part between two visits to the same vertex. */
  lemma CutCycle(E: set<Edge>, p: seq<Edge>, s: nat, t: nat, i: nat, j: nat)
    requires WalkIn(E, p, s, t) && i < j <= |p| && VertexAt(p, s, i) == VertexAt(p, s, j)
    ensures WalkIn(E, p[..i] + p[j..], s, t)
    ensures WalkIn(E, p[i..j], VertexAt(p, s, i), VertexAt(p, s, i))
    ensures Sum(p) == Sum(p[..i] + p[j..]) + Sum(p[i..j])
    ensures Reachable(E, s, VertexAt(p, s, i))
  {
    WalkSplit(E, p, s, t, j);
    WalkSplit(E, p[..j], s, VertexAt(p, s, j), i);
    assert VertexAt(p[..j], s, i) == VertexAt(p, s, i);
    assert p[..j][..i] == p[..i] && p[..j][i..] == p[i..j];
    WalkConcat(E, p[..i], p[j..], s, VertexAt(p, s, j), t);
  }

  /** Every walk shrinks to a simple one, which is no heavier unless a negative cycle was cut out. */
  lemma {:induction false} Shorten(E: set<Edge>, p: seq<Edge>, s: nat, t: nat) returns (q: seq<Edge>)
    requires WalkIn(E, p, s, t)
    ensures WalkIn(E, q, s, t) && Simple(q, s)
    ensures Sum(q) <= Sum(p) || ReachesNegativeCycle(E, s)
    decreases |p|
  {
    if Simple(p, s) {
      q := p;
    } else {
      var i, j :| 0 <= i < j <= |p| && VertexAt(p, s, i) == VertexAt(p, s, j);
      CutCycle(E, p, s, t, i, j);
      q := Shorten(E, p[..i] + p[j..], s, t);
      if Sum(p[i..j]) < 0 {
        assert NegativeCycle(E, VertexAt(p, s, i), p[i..j]);
      }
    }
  }

  lemma {:induction false} VertexInRange(V: nat, E: set<Edge>, p: seq<Edge>, s: nat, t: nat)
    requires InRange(V, E) && WalkIn(E, p, s, t) && s < V
    ensures forall i :: 0 <= i <= |p| ==> VertexAt(p, s, i) < V
    ensures t < V
  {
    ChainEnd(p, s, t);
    forall i | 0 <= i <= |p| ensures VertexAt(p, s, i) < V {
      if i > 0 { assert p[i - 1] in E; }
    }
  }

  /** Pigeonhole: a simple walk visits at most V vertices. */
  lemma SimpleLength(V: nat, E: set<Edge>, p: seq<Edge>, s: nat, t: nat)
    requires InRange(V, E) && WalkIn(E, p, s, t) && s < V && Simple(p, s)
    ensures |p| < V
  {
    VertexInRange(V, E, p, s, t);
    var vs := seq(|p| + 1, i requires 0 <= i <= |p| => VertexAt(p, s, i));
    DistinctLength(vs, V);
  }

  lemma {:induction false} DistinctLength(vs: seq<nat>, n: nat)
    requires forall i :: 0 <= i < |vs| ==> vs[i] < n
    requires forall i, j :: 0 <= i < j < |vs| ==> vs[i] != vs[j]
    ensures |vs| <= n
  {
    if |vs| > 0 {
      assert vs[0] < n;
      if n - 1 in vs {
        var k :| 0 <= k < |vs| && vs[k] == n - 1;
        DistinctLength(vs[..k] + vs[k + 1..], n - 1);
      } else {
        DistinctLength(vs[1..], n - 1);
      }
    }
  }

  // ----- Distance tables, with the sentinel both shortest-path programs use

  const INF := 0x3f3f3f3f

  ghost function EdgeSet(es: seq<Edge>): set<Edge> {
    set e | e in es
  }

  /** A finite entry is the weight of some walk. */
  ghost predicate Sound(E: set<Edge>, src: nat, d: seq<int>) {
    forall v :: 0 <= v < |d| ==> d[v] <= INF && (d[v] != INF ==> exists p :: WalkIn(E, p, src, v) && Sum(p) == d[v])
  }

  predicate Relaxable(d: seq<int>, e: Edge)
    requires e.from < |d| && e.to < |d|
  {
    d[e.from] != INF && d[e.from] + e.w < d[e.to]
  }

  /** A shortest walk to v can come in from p. */
  ghost predicate LastStep(E: set<Edge>, d: seq<int>, p: int, v: nat) {
    0 <= p < |d| && v < |d| && d[p] != INF && exists e :: e in E && e.from == p && e.to == v && d[p] + e.w == d[v]
  }

  /** The relaxation of one edge. */
  function Relaxed(d: seq<int>, e: Edge): seq<int>
    requires e.from < |d| && e.to < |d|
  {
    if d[e.from] != INF && d[e.from] + e.w < d[e.to] then d[e.to := d[e.from] + e.w] else d
  }

  lemma RelaxSound(E: set<Edge>, src: nat, d: seq<int>, e: Edge)
    requires Sound(E, src, d) && e in E && e.from < |d| && e.to < |d|
    ensures Sound(E, src, Relaxed(d, e))
  {
    if Relaxed(d, e) != d {
      var p :| WalkIn(E, p, src, e.from) && Sum(p) == d[e.from];
      WalkExtend(E, p, src, e);
    }
  }
}
