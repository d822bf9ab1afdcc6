/** bellman_ford.c: in-place relaxation of an edge list, and negative-cycle detection. */
module BellmanFord {
  import opened Walks

  /** No simple walk of at most k edges is lighter than its entry. */
  ghost predicate Complete(E: set<Edge>, src: nat, d: seq<int>, k: nat) {
    forall p, t: nat :: WalkIn(E, p, src, t) && Simple(p, src) && |p| <= k && t < |d| ==> d[t] <= Sum(p)
  }

  /** In round k + 1, after the first i edges: walks of k + 1 edges that end in one of them are
      covered too. */
  ghost predicate CompleteTo(es: seq<Edge>, src: nat, d: seq<int>, k: nat, i: nat)
    requires i <= |es|
  {
    forall p, t: nat :: WalkIn(EdgeSet(es), p, src, t) && Simple(p, src) && |p| == k + 1 && t < |d| && p[k] in es[..i] ==> d[t] <= Sum(p)
  }

  /** A parent is the tail of an edge that accounts for the entry; entries without one are untouched. */
  ghost predicate ParentOk(E: set<Edge>, src: nat, d: seq<int>, par: seq<int>)
    requires |par| == |d|
  {
    forall v :: 0 <= v < |d| ==>
      && (par[v] == -1 ==> d[v] == if v == src then 0 else INF)
      && (par[v] != -1 ==> 0 <= par[v] < |d| && d[par[v]] != INF && d[v] < (if v == src then 0 else INF)
                           && exists e :: e in E && e.from == par[v] && e.to == v && d[par[v]] + e.w <= d[v])
  }

  lemma SoundBound(E: set<Edge>, src: nat, d: seq<int>)
    requires Sound(E, src, d)
    ensures forall v :: 0 <= v < |d| ==> d[v] <= INF
  {
  }

  lemma RelaxParent(E: set<Edge>, src: nat, d: seq<int>, par: seq<int>, e: Edge)
    requires |par| == |d| && ParentOk(E, src, d, par) && Sound(E, src, d) && e in E && e.from < |d| && e.to < |d|
    ensures ParentOk(E, src, Relaxed(d, e), if Relaxed(d, e) != d then par[e.to := e.from] else par)
  {
    SoundBound(E, src, d);
    hide Sound;
    var d', par' := Relaxed(d, e), if Relaxed(d, e) != d then par[e.to := e.from] else par;
    forall v | 0 <= v < |d| && par'[v] != -1
      ensures 0 <= par'[v] < |d| && d'[par'[v]] != INF && d'[v] < (if v == src then 0 else INF)
      ensures exists f :: f in E && f.from == par'[v] && f.to == v && d'[par'[v]] + f.w <= d'[v]
    {
      if d' != d && v == e.to {
        assert e.from == par'[v] && d'[par'[v]] + e.w <= d'[v];
      } else {
        var f :| f in E && f.from == par[v] && f.to == v && d[par[v]] + f.w <= d[v];
        assert f.from == par'[v] && d'[par'[v]] + f.w <= d'[v];
      }
    }
  }

  /** Each edge of the walk leads from the parent of its head, which accounts for the entry of the head. */
  ghost predicate Follows(d: seq<int>, par: seq<int>, p: seq<Edge>)
    requires |par| == |d|
  {
    forall e :: e in p ==> e.from < |d| && e.to < |d| && par[e.to] == e.from && d[e.from] != INF && d[e.from] + e.w <= d[e.to]
  }

  /** The parents form a tree with root src: they lead from every vertex with a finite entry back to src. */
  ghost predicate Rooted(E: set<Edge>, src: nat, d: seq<int>, par: seq<int>) {
    && src < |d| == |par| && par[src] == -1
    && forall v: nat :: v < |d| && d[v] != INF ==> exists p :: WalkIn(E, p, src, v) && Follows(d, par, p)
  }

  lemma {:induction false} FollowsSum(d: seq<int>, par: seq<int>, p: seq<Edge>, s: nat, t: nat)
    requires |par| == |d| && Chain(p, s, t) && Follows(d, par, p) && s < |d|
    ensures t < |d| && d[s] + Sum(p) <= d[t]
    ensures (forall e :: e in p ==> !Relaxable(d, e)) ==> d[s] + Sum(p) == d[t]
  {
    if p != [] {
      assert p[0] in p;
      FollowsSum(d, par, p[1..], p[0].to, t);
    }
  }

  /** Relaxing an edge into a vertex that its tail descends from closes a negative cycle. */
  lemma AncestorMeansCycle(E: set<Edge>, src: nat, d: seq<int>, par: seq<int>, e: Edge, q: seq<Edge>, i: nat)
    requires |par| == |d| && e in E && e.from < |d| && e.to < |d| && Relaxable(d, e)
    requires WalkIn(E, q, src, e.from) && Follows(d, par, q) && i <= |q| && VertexAt(q, src, i) == e.to
    ensures ReachesNegativeCycle(E, src)
  {
    WalkSplit(E, q, src, e.from, i);
    FollowsSum(d, par, q[i..], e.to, e.from);
    WalkExtend(E, q[i..], e.to, e);
    assert NegativeCycle(E, e.to, q[i..] + [e]);
  }

  lemma FollowsRelaxed(d: seq<int>, par: seq<int>, e: Edge, p: seq<Edge>)
    requires |par| == |d| && e.from < |d| && e.to < |d| && Relaxable(d, e) && d[e.to] <= INF
    requires Follows(d, par, p) && forall f :: f in p ==> f.to != e.to
    ensures Follows(Relaxed(d, e), par[e.to := e.from], p)
  {
  }

  /** The way back to src after a relaxation: from the new child of e.from on down as before. */
  lemma {:induction false} Reroute(E: set<Edge>, src: nat, d: seq<int>, par: seq<int>, e: Edge, q: seq<Edge>, p: seq<Edge>, x: nat)
    returns (r: seq<Edge>)
    requires |par| == |d| && e.from < |d| && e.to < |d| && Relaxable(d, e) && d[e.to] <= INF && e.to != src
    requires WalkIn(E, q, src, e.to) && Follows(Relaxed(d, e), par[e.to := e.from], q)
    requires WalkIn(E, p, src, x) && Follows(d, par, p)
    ensures WalkIn(E, r, src, x) && Follows(Relaxed(d, e), par[e.to := e.from], r)
    decreases |p|
  {
    if x == e.to {
      r := q;
    } else if p == [] {
      r := [];
    } else {
      var f := p[|p| - 1];
      WalkLast(E, p, src, x);
      var before := Reroute(E, src, d, par, e, q, p[..|p| - 1], f.from);
      WalkExtend(E, before, src, f);
      FollowsRelaxed(d, par, e, [f]);
      r := before + [f];
    }
  }

  lemma RelaxRooted(E: set<Edge>, src: nat, d: seq<int>, par: seq<int>, e: Edge)
    requires Rooted(E, src, d, par) && Sound(E, src, d) && e in E && e.from < |d| && e.to < |d|
    ensures ReachesNegativeCycle(E, src) || Rooted(E, src, Relaxed(d, e), if Relaxed(d, e) != d then par[e.to := e.from] else par)
  {
    hide ReachesNegativeCycle, WalkIn, Follows;
    if Relaxable(d, e) {
      SoundBound(E, src, d);
      hide Sound;
      var q :| WalkIn(E, q, src, e.from) && Follows(d, par, q);
      if i: nat :| i <= |q| && VertexAt(q, src, i) == e.to {
        AncestorMeansCycle(E, src, d, par, e, q, i);
      } else {
        assert VertexAt(q, src, 0) == src && VertexAt(q, src, |q|) != e.to;
        WalkEnd(E, q, src, e.from);
        AvoidsHead(d, par, e, q, src);
        WalkExtend(E, q, src, e);
        Rerooted(E, src, d, par, e, q + [e]);
      }
    }
  }

  lemma WalkEnd(E: set<Edge>, p: seq<Edge>, s: nat, t: nat)
    requires WalkIn(E, p, s, t)
    ensures VertexAt(p, s, |p|) == t
  {
    ChainEnd(p, s, t);
  }

  lemma Rerooted(E: set<Edge>, src: nat, d: seq<int>, par: seq<int>, e: Edge, q: seq<Edge>)
    requires Rooted(E, src, d, par) && e.from < |d| && e.to < |d| && Relaxable(d, e) && d[e.to] <= INF && e.to != src
    requires WalkIn(E, q, src, e.to) && Follows(Relaxed(d, e), par[e.to := e.from], q)
    ensures Rooted(E, src, Relaxed(d, e), par[e.to := e.from])
  {
    hide WalkIn, Follows;
    var d', par' := Relaxed(d, e), par[e.to := e.from];
    forall x: nat | x < |d| && d'[x] != INF ensures exists r :: WalkIn(E, r, src, x) && Follows(d', par', r) {
      if x != e.to {
        var p :| WalkIn(E, p, src, x) && Follows(d, par, p);
        var r := Reroute(E, src, d, par, e, q, p, x);
      }
    }
  }

  lemma AvoidsHead(d: seq<int>, par: seq<int>, e: Edge, q: seq<Edge>, src: nat)
    requires |par| == |d| && e.from < |d| && e.to < |d| && Relaxable(d, e) && d[e.to] <= INF && e.from != e.to
    requires Follows(d, par, q) && forall i: nat :: i <= |q| ==> VertexAt(q, src, i) != e.to
    ensures Follows(Relaxed(d, e), par[e.to := e.from], q + [e])
  {
    forall f | f in q ensures f.to != e.to {
      var i :| 0 <= i < |q| && q[i] == f;
      var next := i + 1;
      assert VertexAt(q, src, next) == f.to;
    }
    FollowsRelaxed(d, par, e, q);
  }

  /** A walk along parents never visits a vertex twice, for it would have to come back to src. */
  lemma {:induction false} FollowsSimple(d: seq<int>, par: seq<int>, p: seq<Edge>, src: nat, t: nat, i: nat, j: nat)
    requires src < |d| == |par| && par[src] == -1 && Chain(p, src, t) && Follows(d, par, p) && i < j <= |p|
    ensures VertexAt(p, src, i) != VertexAt(p, src, j)
  {
    ChainSplit(p, src, t, j - 1);
    assert p[j - 1] in p;
    if i > 0 {
      ChainSplit(p, src, t, i - 1);
      assert p[i - 1] in p;
      FollowsSimple(d, par, p, src, t, i - 1, j - 1);
    }
  }

  /** Following the parents back from v leads to src, along a shortest walk. */
  ghost predicate ParentWalk(E: set<Edge>, src: nat, d: seq<int>, par: seq<int>, v: nat, p: seq<Edge>)
    requires v < |d| == |par|
  {
    && WalkIn(E, p, src, v) && Simple(p, src) && |p| < |d| && Sum(p) == d[v]
    && forall e :: e in p ==> e.to < |par| && par[e.to] == e.from
  }

  lemma RelaxComplete(es: seq<Edge>, src: nat, d: seq<int>, k: nat, i: nat)
    requires i < |es| && es[i].from < |d| && es[i].to < |d|
    requires Complete(EdgeSet(es), src, d, k) && CompleteTo(es, src, d, k, i) && FitsBelow(EdgeSet(es), src, INF)
    ensures Complete(EdgeSet(es), src, Relaxed(d, es[i]), k) && CompleteTo(es, src, Relaxed(d, es[i]), k, i + 1)
  {
    var e, d', E := es[i], Relaxed(d, es[i]), EdgeSet(es);
    forall p, t: nat | WalkIn(E, p, src, t) && Simple(p, src) && |p| == k + 1 && t < |d| && p[k] in es[..i + 1]
      ensures d'[t] <= Sum(p)
    {
      if p[k] in es[..i] {
        assert d[t] <= Sum(p);
      } else {
        assert p[k] == e;
        WalkLast(E, p, src, t);
        SimplePrefix(p, src, k);
      }
    }
  }

  lemma RoundComplete(es: seq<Edge>, src: nat, d: seq<int>, k: nat)
    requires Complete(EdgeSet(es), src, d, k) && CompleteTo(es, src, d, k, |es|)
    ensures Complete(EdgeSet(es), src, d, k + 1)
  {
    assert es[..|es|] == es;
    forall p, t: nat | WalkIn(EdgeSet(es), p, src, t) && Simple(p, src) && |p| == k + 1 && t < |d| ensures d[t] <= Sum(p) {
      assert p[k] in p;
    }
  }

  lemma AllComplete(V: nat, E: set<Edge>, src: nat, d: seq<int>, p: seq<Edge>, t: nat)
    requires InRange(V, E) && src < V && |d| == V && Complete(E, src, d, V - 1)
    requires WalkIn(E, p, src, t) && Simple(p, src)
    ensures t < V && d[t] <= Sum(p)
  {
    SimpleLength(V, E, p, src, t);
    VertexInRange(V, E, p, src, t);
  }

  /** Without a reachable negative cycle, nothing can be relaxed after V - 1 rounds. */
  lemma RelaxableMeansCycle(V: nat, E: set<Edge>, src: nat, d: seq<int>, e: Edge)
    requires InRange(V, E) && src < V && |d| == V && Sound(E, src, d) && Complete(E, src, d, V - 1)
    requires e in E && Relaxable(d, e)
    ensures ReachesNegativeCycle(E, src)
  {
    var p :| WalkIn(E, p, src, e.from) && Sum(p) == d[e.from];
    WalkExtend(E, p, src, e);
    var q := Shorten(E, p + [e], src, e.to);
    AllComplete(V, E, src, d, q, e.to);
  }

  lemma ReachableFinite(V: nat, E: set<Edge>, src: nat, d: seq<int>, v: nat)
    requires InRange(V, E) && src < V && |d| == V && Complete(E, src, d, V - 1) && FitsBelow(E, src, INF)
    requires Reachable(E, src, v)
    ensures v < V && d[v] < INF
  {
    var p :| WalkIn(E, p, src, v);
    var q := Shorten(E, p, src, v);
    AllComplete(V, E, src, d, q, v);
  }

  /** If no edge can be relaxed, no walk from a reachable vertex lowers the entry at its end. */
  lemma {:induction false} StableAlong(V: nat, E: set<Edge>, src: nat, d: seq<int>, v: nat, c: seq<Edge>, t: nat)
    requires InRange(V, E) && src < V && |d| == V && Complete(E, src, d, V - 1) && FitsBelow(E, src, INF)
    requires forall e :: e in E ==> !Relaxable(d, e)
    requires Reachable(E, src, v) && WalkIn(E, c, v, t)
    ensures v < V && t < V && d[t] <= d[v] + Sum(c)
    decreases |c|
  {
    ReachableFinite(V, E, src, d, v);
    if c != [] {
      var e := c[0];
      assert e in E;
      var p :| WalkIn(E, p, src, v);
      WalkExtend(E, p, src, e);
      StableAlong(V, E, src, d, e.to, c[1..], t);
    }
  }

  /** `bellman_ford`.  It reports a negative cycle exactly when one can be reached from src;
      otherwise every entry is the least weight over all walks, and INF exactly for the vertices
      that cannot be reached, the parents are last steps of shortest walks, and they form a tree:
      followed back from any reachable vertex they lead to src along a shortest walk. */
  method BellmanFord(V: nat, es: seq<Edge>, src: nat, dist: array<int>, parent: array<int>) returns (negative: bool)
    requires src < V == dist.Length == parent.Length && dist != parent
    requires InRange(V, EdgeSet(es)) && FitsBelow(EdgeSet(es), src, INF)
    modifies dist, parent
    ensures negative <==> ReachesNegativeCycle(EdgeSet(es), src)
    ensures !negative ==> forall v :: 0 <= v < V ==>
              if Reachable(EdgeSet(es), src, v) then dist[v] < INF && IsDistance(EdgeSet(es), src, v, dist[v]) else dist[v] == INF
    ensures !negative ==> forall v :: 0 <= v < V ==>
              if v == src || dist[v] == INF then parent[v] == -1 else LastStep(EdgeSet(es), dist[..], parent[v], v)
    ensures !negative ==> forall v: nat :: v < V && dist[v] != INF ==> exists p :: ParentWalk(EdgeSet(es), src, dist[..], parent[..], v, p)
  {
    hide FitsBelow, ReachesNegativeCycle, IsDistance, Reachable, ParentOk, Rooted, ParentWalk, LastStep, Sound, Complete;
    ghost var E := EdgeSet(es);
    forall i | 0 <= i < V { dist[i] := INF; }
    forall i | 0 <= i < V { parent[i] := -1; }
    dist[src] := 0;
    Start(E, src, dist[..], parent[..]);
    for iter := 0 to V - 1
      invariant Sound(E, src, dist[..]) && Complete(E, src, dist[..], iter) && ParentOk(E, src, dist[..], parent[..])
      invariant ReachesNegativeCycle(E, src) || Rooted(E, src, dist[..], parent[..])
    {
      RelaxAll(V, es, src, dist, parent, iter);
    }
    negative := AnyRelaxable(V, es, src, dist);
    if negative { return true; }
    Finish(V, E, src, dist[..]);
    FinishParents(V, E, src, dist[..], parent[..]);
    FinishTree(V, E, src, dist[..], parent[..]);
  }

  /** The extra round: an edge that could still be relaxed betrays a negative cycle. */
  method AnyRelaxable(V: nat, es: seq<Edge>, ghost src: nat, dist: array<int>) returns (negative: bool)
    requires src < V == dist.Length && InRange(V, EdgeSet(es)) && FitsBelow(EdgeSet(es), src, INF)
    requires Sound(EdgeSet(es), src, dist[..]) && Complete(EdgeSet(es), src, dist[..], V - 1)
    ensures negative ==> ReachesNegativeCycle(EdgeSet(es), src)
    ensures !negative ==> forall j :: 0 <= j < |es| ==> !Relaxable(dist[..], es[j])
  {
    hide FitsBelow, ReachesNegativeCycle, Sound, Complete;
    for i := 0 to |es|
      invariant forall j :: 0 <= j < i ==> !Relaxable(dist[..], es[j])
    {
      var e := es[i];
      assert e in EdgeSet(es);
      if dist[e.from] != INF && dist[e.from] + e.w < dist[e.to] {
        RelaxableMeansCycle(V, EdgeSet(es), src, dist[..], e);
        return true;
      }
    }
    return false;
  }

  lemma Start(E: set<Edge>, src: nat, d: seq<int>, par: seq<int>)
    requires src < |d| && d[src] == 0 && forall v :: 0 <= v < |d| && v != src ==> d[v] == INF
    requires |par| == |d| && forall v :: 0 <= v < |d| ==> par[v] == -1
    ensures Sound(E, src, d) && Complete(E, src, d, 0) && ParentOk(E, src, d, par) && Rooted(E, src, d, par)
  {
    assert WalkIn(E, [], src, src) && Sum([]) == 0 && Follows(d, par, []);
  }

  /** One round: every edge once, in place, in list order. */
  method RelaxAll(V: nat, es: seq<Edge>, src: nat, dist: array<int>, parent: array<int>, ghost k: nat)
    requires src < V == dist.Length == parent.Length && dist != parent
    requires InRange(V, EdgeSet(es)) && FitsBelow(EdgeSet(es), src, INF)
    requires Sound(EdgeSet(es), src, dist[..]) && Complete(EdgeSet(es), src, dist[..], k)
    requires ParentOk(EdgeSet(es), src, dist[..], parent[..])
    requires ReachesNegativeCycle(EdgeSet(es), src) || Rooted(EdgeSet(es), src, dist[..], parent[..])
    modifies dist, parent
    ensures Sound(EdgeSet(es), src, dist[..]) && Complete(EdgeSet(es), src, dist[..], k + 1)
    ensures ParentOk(EdgeSet(es), src, dist[..], parent[..])
    ensures ReachesNegativeCycle(EdgeSet(es), src) || Rooted(EdgeSet(es), src, dist[..], parent[..])
  {
    hide FitsBelow, ReachesNegativeCycle, Sound, Complete, CompleteTo, ParentOk, Rooted;
    NoneDone(es, src, dist[..], k);
    for i := 0 to |es|
      invariant Sound(EdgeSet(es), src, dist[..]) && Complete(EdgeSet(es), src, dist[..], k)
      invariant CompleteTo(es, src, dist[..], k, i) && ParentOk(EdgeSet(es), src, dist[..], parent[..])
      invariant ReachesNegativeCycle(EdgeSet(es), src) || Rooted(EdgeSet(es), src, dist[..], parent[..])
    {
      var e := es[i];
      assert e in EdgeSet(es);
      ghost var before, par := dist[..], parent[..];
      RelaxParent(EdgeSet(es), src, before, par, e);
      if !ReachesNegativeCycle(EdgeSet(es), src) { RelaxRooted(EdgeSet(es), src, before, par, e); }
      RelaxSound(EdgeSet(es), src, before, e);
      RelaxComplete(es, src, before, k, i);
      if dist[e.from] != INF && dist[e.from] + e.w < dist[e.to] {
        dist[e.to] := dist[e.from] + e.w;
        parent[e.to] := e.from;
      }
      assert dist[..] == Relaxed(before, e);
      assert parent[..] == if Relaxed(before, e) != before then par[e.to := e.from] else par;
    }
    RoundComplete(es, src, dist[..], k);
  }

  lemma NoneDone(es: seq<Edge>, src: nat, d: seq<int>, k: nat)
    ensures CompleteTo(es, src, d, k, 0)
  {
  }

  lemma Finish(V: nat, E: set<Edge>, src: nat, d: seq<int>)
    requires InRange(V, E) && src < V && |d| == V && FitsBelow(E, src, INF)
    requires Sound(E, src, d) && Complete(E, src, d, V - 1) && forall e :: e in E ==> !Relaxable(d, e)
    ensures !ReachesNegativeCycle(E, src)
    ensures forall v :: 0 <= v < V ==>
              if Reachable(E, src, v) then d[v] < INF && IsDistance(E, src, v, d[v]) else d[v] == INF
  {
    if ReachesNegativeCycle(E, src) {
      var v, c :| Reachable(E, src, v) && NegativeCycle(E, v, c);
      StableAlong(V, E, src, d, v, c, v);
    }
    forall v | 0 <= v < V && Reachable(E, src, v) ensures d[v] < INF && IsDistance(E, src, v, d[v]) {
      ReachableFinite(V, E, src, d, v);
      forall p | WalkIn(E, p, src, v) ensures d[v] <= Sum(p) {
        var q := Shorten(E, p, src, v);
        AllComplete(V, E, src, d, q, v);
      }
    }
  }

  lemma FinishParents(V: nat, E: set<Edge>, src: nat, d: seq<int>, par: seq<int>)
    requires InRange(V, E) && src < V && |d| == |par| == V && ParentOk(E, src, d, par) && Sound(E, src, d)
    requires (forall e :: e in E ==> !Relaxable(d, e)) && !ReachesNegativeCycle(E, src)
    ensures forall v :: 0 <= v < V ==>
              if v == src || d[v] == INF then par[v] == -1 else LastStep(E, d, par[v], v)
  {
    if d[src] < 0 {
      var p :| WalkIn(E, p, src, src) && Sum(p) == d[src];
      assert WalkIn(E, [], src, src) && NegativeCycle(E, src, p);
    }
    forall v | 0 <= v < V && v != src && d[v] != INF ensures LastStep(E, d, par[v], v) {
      var e :| e in E && e.from == par[v] && e.to == v && d[par[v]] + e.w <= d[v];
      assert !Relaxable(d, e);
    }
  }

  lemma FinishTree(V: nat, E: set<Edge>, src: nat, d: seq<int>, par: seq<int>)
    requires InRange(V, E) && src < V == |d| == |par| && ParentOk(E, src, d, par) && Rooted(E, src, d, par)
    requires forall e :: e in E ==> !Relaxable(d, e)
    ensures forall v: nat :: v < V && d[v] != INF ==> exists p :: ParentWalk(E, src, d, par, v, p)
  {
    forall v: nat | v < V && d[v] != INF ensures exists p :: ParentWalk(E, src, d, par, v, p) {
      var p :| WalkIn(E, p, src, v) && Follows(d, par, p);
      forall i, j | 0 <= i < j <= |p| ensures VertexAt(p, src, i) != VertexAt(p, src, j) {
        FollowsSimple(d, par, p, src, v, i, j);
      }
      SimpleLength(V, E, p, src, v);
      FollowsSum(d, par, p, src, v);
      assert ParentWalk(E, src, d, par, v, p);
    }
  }
}
