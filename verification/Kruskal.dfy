/** kruskal.c: union-find with path compression and union by rank, and Kruskal's algorithm. */
module Kruskal {
  import opened Forests

  function Pow2(n: nat): nat {
    if n == 0 then 1 else 2 * Pow2(n - 1)
  }

  lemma {:induction false} Pow2Above(n: nat)
    ensures n < Pow2(n)
  {
    if n > 0 { Pow2Above(n - 1); }
  }

  ghost function Class(rep: seq<nat>, r: nat): set<nat> {
    set x | x in Vertices(|rep|) && rep[x] == r
  }

  ghost predicate NodeOk(parent: seq<nat>, rank: seq<nat>, rep: seq<nat>, x: nat)
    requires |parent| == |rank| == |rep|
  {
    && x < |rep| && parent[x] < |rep| && rep[x] < |rep|
    && rep[parent[x]] == rep[x] && parent[rep[x]] == rep[x] && rep[rep[x]] == rep[x]
    && (parent[x] == x ==> rep[x] == x)
    && (parent[x] != x ==> rank[x] < rank[parent[x]])
    && (rep[x] != x ==> rank[x] < rank[rep[x]])
    && (rep[x] == x ==> |Class(rep, x)| >= Pow2(rank[x]))
  }

  /** `rep` gives each element its root.  Parent links lead to the root, ranks rise along them, and
      a root of rank r owns at least 2^r elements. */
  ghost predicate Rooted(parent: seq<nat>, rank: seq<nat>, rep: seq<nat>) {
    && |parent| == |rank| == |rep|
    && forall x {:trigger NodeOk(parent, rank, rep, x)} :: 0 <= x < |rep| ==> NodeOk(parent, rank, rep, x)
  }

  lemma RankBelowSize(parent: seq<nat>, rank: seq<nat>, rep: seq<nat>, x: nat)
    requires Rooted(parent, rank, rep) && x < |rep|
    ensures rep[x] < |rep| && rank[x] <= rank[rep[x]] < |rep|
  {
    var r := rep[x];
    assert NodeOk(parent, rank, rep, x) && NodeOk(parent, rank, rep, r);
    SubsetCard(Class(rep, r), Vertices(|rep|));
    Pow2Above(rank[r]);
  }

  /** Root `lose` and its class go over to root `win`. */
  ghost function Joined(rep: seq<nat>, win: nat, lose: nat): seq<nat> {
    seq(|rep|, x requires 0 <= x < |rep| => if rep[x] == lose then win else rep[x])
  }

  lemma JoinedClass(rep: seq<nat>, win: nat, lose: nat)
    requires win != lose
    ensures |Class(Joined(rep, win, lose), win)| == |Class(rep, win)| + |Class(rep, lose)|
    ensures forall r :: r != win && r != lose ==> Class(Joined(rep, win, lose), r) == Class(rep, r)
  {
    assert Class(Joined(rep, win, lose), win) == Class(rep, win) + Class(rep, lose);
    assert Class(rep, win) !! Class(rep, lose);
  }

  function Raised(rank: seq<nat>, win: nat, lose: nat): seq<nat>
    requires win < |rank| && lose < |rank|
  {
    if rank[win] == rank[lose] then rank[win := rank[win] + 1] else rank
  }

  lemma LinkRooted(parent: seq<nat>, rank: seq<nat>, rep: seq<nat>, win: nat, lose: nat)
    requires Rooted(parent, rank, rep)
    requires win < |rep| && lose < |rep| && win != lose && rep[win] == win && rep[lose] == lose
    requires rank[lose] <= rank[win]
    ensures Rooted(parent[lose := win], Raised(rank, win, lose), Joined(rep, win, lose))
  {
    JoinedClass(rep, win, lose);
    var parent', rank', rep' := parent[lose := win], Raised(rank, win, lose), Joined(rep, win, lose);
    assert NodeOk(parent, rank, rep, win) && NodeOk(parent, rank, rep, lose);
    assert Pow2(rank[win] + 1) == 2 * Pow2(rank[win]);
    forall x | 0 <= x < |rep'| ensures NodeOk(parent', rank', rep', x) {
      assert NodeOk(parent, rank, rep, x);
      assert NodeOk(parent, rank, rep, parent[x]);
    }
  }

  lemma CompressRooted(parent: seq<nat>, rank: seq<nat>, rep: seq<nat>, x: nat)
    requires Rooted(parent, rank, rep) && x < |rep|
    ensures rep[x] < |rep| && Rooted(parent[x := rep[x]], rank, rep)
  {
    assert NodeOk(parent, rank, rep, x);
    var parent' := parent[x := rep[x]];
    forall y | 0 <= y < |rep| ensures NodeOk(parent', rank, rep, y) {
      assert NodeOk(parent, rank, rep, y) && NodeOk(parent, rank, rep, rep[y]);
    }
  }

  /** The arrays `parent` and `rank_uf`, with the ghost root of every element. */
  class UnionFind {
    var parent: array<nat>
    var rank: array<nat>
    ghost var rep: seq<nat>

    ghost predicate Valid()
      reads this, parent, rank
    {
      parent != rank && Rooted(parent[..], rank[..], rep)
    }

    /** `uf_init`. */
    constructor (n: nat)
      ensures Valid() && fresh(parent) && fresh(rank)
      ensures |rep| == n && forall x :: 0 <= x < n ==> rep[x] == x
    {
      parent := new nat[n](i => i);
      rank := new nat[n](_ => 0);
      rep := seq(n, i => i);
      new;
      forall x | 0 <= x < n ensures NodeOk(parent[..], rank[..], rep, x) {
        SubsetCard({x}, Class(rep, x));
      }
    }

    /** `uf_find` returns the root; compressing the path changes no root. */
    method Find(x: nat) returns (r: nat)
      requires Valid() && x < |rep|
      modifies parent
      ensures Valid() && r == rep[x] && r < |rep| && rep[r] == r
      ensures forall y :: 0 <= y < |rep| ==> parent[y] == old(parent[y]) || parent[y] == rep[y]
      ensures parent[x] == rep[x]
      decreases |rep| - rank[x]
    {
      ghost var before := parent[..];
      RankBelowSize(before, rank[..], rep, x);
      assert NodeOk(before, rank[..], rep, x);
      if parent[x] != x {
        RankBelowSize(before, rank[..], rep, parent[x]);
        var p := Find(parent[x]);
        CompressRooted(parent[..], rank[..], rep, x);
        ghost var after := parent[..];
        parent[x] := p;
        assert parent[..] == after[x := rep[x]];
      }
      assert NodeOk(parent[..], rank[..], rep, x);
      r := parent[x];
    }

    /** `uf_union` joins two classes and reports whether they were different. */
    method Union(x: nat, y: nat) returns (joined: bool)
      requires Valid() && x < |rep| && y < |rep|
      modifies this`rep, parent, rank
      ensures Valid() && |rep| == old(|rep|)
      ensures joined == (old(rep[x]) != old(rep[y]))
      ensures !joined ==> rep == old(rep)
      ensures joined ==> rep == Joined(old(rep), old(rep[x]), old(rep[y])) || rep == Joined(old(rep), old(rep[y]), old(rep[x]))
    {
      var px := Find(x);
      var py := Find(y);
      if px == py { return false; }
      if rank[px] < rank[py] { px, py := py, px; }
      ghost var parent0, rank0 := parent[..], rank[..];
      assert NodeOk(parent0, rank0, rep, x) && NodeOk(parent0, rank0, rep, y);
      LinkRooted(parent0, rank0, rep, px, py);
      rep := Joined(rep, px, py);
      parent[py] := px;
      if rank[px] == rank[py] { rank[px] := rank[px] + 1; }
      assert parent[..] == parent0[py := px];
      assert rank[..] == Raised(rank0, px, py);
      return true;
    }
  }

  // ----- Kruskal's algorithm

  ghost function EdgeSet(es: seq<Edge>): set<Edge> {
    set e | e in es
  }

  ghost predicate SortedByWeight(es: seq<Edge>) {
    forall i, j :: 0 <= i < j < |es| ==> es[i].w <= es[j].w
  }

  /** K is a bottleneck spanning forest of E. */
  ghost predicate Greedy(V: nat, E: set<Edge>, K: set<Edge>) {
    InRange(V, E) && SpanningForest(E, K) && Bottleneck(E, K)
  }

  /** The union-find classes are the components of K. */
  ghost predicate Represents(rep: seq<nat>, K: set<Edge>) {
    forall x, y :: 0 <= x < |rep| && 0 <= y < |rep| ==> (rep[x] == rep[y] <==> Conn(K, x, y))
  }

  /** The next edge in weight order keeps K greedy, whether it joins two components, and is
      selected, or not. */
  lemma GreedyStep(V: nat, E: set<Edge>, K: set<Edge>, e: Edge)
    requires Greedy(V, E, K) && e.u < V && e.v < V && forall f :: f in E ==> f.w <= e.w
    ensures Conn(K, e.u, e.v) ==> Greedy(V, E + {e}, K)
    ensures !Conn(K, e.u, e.v) ==> Greedy(V, E + {e}, K + {e}) && e !in K
  {
    var K' := if Conn(K, e.u, e.v) then K else K + {e};
    forall f | f in E + {e} ensures Conn(K', f.u, f.v) {
      ConnEdge(E + {e}, f);
      if f != e { ConnEdge(E, f); ConnMono(K, K', f.u, f.v); } else if e in K' { ConnEdge(K', e); }
    }
    forall x, y | Conn(E + {e}, x, y) ensures Conn(K', x, y) { ConnCover(E + {e}, K', x, y); }
    forall k, x, y | Conn(UpTo(E + {e}, k), x, y) ensures Conn(UpTo(K', k), x, y) {
      if e.w <= k {
        assert UpTo(E + {e}, k) == E + {e} && UpTo(K', k) == K';
      } else {
        assert UpTo(E + {e}, k) == UpTo(E, k) && UpTo(K', k) == UpTo(K, k);
      }
    }
    if !Conn(K, e.u, e.v) { ForestAdd(K, e); }
  }

  /** The union-find classes follow the selected edges. */
  lemma RepresentsStep(rep: seq<nat>, K: set<Edge>, e: Edge, win: nat, lose: nat)
    requires Represents(rep, K) && e.u < |rep| && e.v < |rep|
    requires (win == rep[e.u] && lose == rep[e.v]) || (win == rep[e.v] && lose == rep[e.u])
    ensures Represents(Joined(rep, win, lose), K + {e})
  {
    var rep', K' := Joined(rep, win, lose), K + {e};
    ConnEdge(K', e);
    forall x, y | 0 <= x < |rep| && 0 <= y < |rep| ensures rep'[x] == rep'[y] <==> Conn(K', x, y) {
      if Conn(K', x, y) {
        ConnAdd(K, e, x, y);
      }
      if rep'[x] == rep'[y] {
        if rep[x] == rep[y] {
          ConnMono(K, K', x, y);
        } else {
          var a, b := if rep[x] == rep[e.u] then e.u else e.v, if rep[x] == rep[e.u] then e.v else e.u;
          ConnMono(K, K', x, a);
          ConnMono(K, K', b, y);
          ConnTrans(K', x, a, b);
          ConnTrans(K', x, b, y);
        }
      }
    }
  }

  /** With V - 1 edges selected everything is connected, so no later edge would be selected. */
  lemma AllConnected(V: nat, E: set<Edge>, K: set<Edge>, e: Edge)
    requires Greedy(V, E, K) && |K| >= V - 1 && e.u < V && e.v < V
    ensures Conn(K, e.u, e.v)
  {
    OneComponent(V, K, e.u, e.v);
  }

  lemma RestOrder(E: set<Edge>, rest: seq<Edge>)
    requires SortedByWeight(rest) && rest != []
    requires forall f, i :: f in E && 0 <= i < |rest| ==> f.w <= rest[i].w
    ensures SortedByWeight(rest[1..]) && EdgeSet(rest) == {rest[0]} + EdgeSet(rest[1..])
    ensures forall f, i :: f in E + {rest[0]} && 0 <= i < |rest[1..]| ==> f.w <= rest[1..][i].w
  {
    assert rest == [rest[0]] + rest[1..];
  }

  lemma {:induction false} SkipRest(V: nat, E: set<Edge>, K: set<Edge>, rest: seq<Edge>)
    requires Greedy(V, E, K) && SortedByWeight(rest) && |K| >= V - 1
    requires forall f, i :: f in E && 0 <= i < |rest| ==> f.w <= rest[i].w
    requires forall i :: 0 <= i < |rest| ==> rest[i].u < V && rest[i].v < V
    ensures Greedy(V, E + EdgeSet(rest), K)
    decreases |rest|
  {
    if rest == [] {
      assert E + EdgeSet(rest) == E;
    } else {
      var e, tail := rest[0], rest[1..];
      AllConnected(V, E, K, e);
      GreedyStep(V, E, K, e);
      hide Greedy, SortedByWeight, Conn;
      RestOrder(E, rest);
      SkipRest(V, E + {e}, K, tail);
      assert E + EdgeSet(rest) == E + {e} + EdgeSet(tail);
    }
  }

  lemma OneComponent(V: nat, K: set<Edge>, x: nat, y: nat)
    requires Forest(K) && InRange(V, K) && |K| >= V - 1 && x < V && y < V
    ensures Conn(K, x, y)
  {
    ForestCard(V, K);
    var r := RepOf(V, K, x);
    var s := RepOf(V, K, y);
    SubsetCard({r, s}, Reps(V, K));
    ConnSym(K, r, x);
    ConnTrans(K, x, r, y);
  }

  lemma EmptyRepresents(rep: seq<nat>)
    requires forall x :: 0 <= x < |rep| ==> rep[x] == x
    ensures Represents(rep, {})
  {
    forall x, y | 0 <= x < |rep| && 0 <= y < |rep| ensures rep[x] == rep[y] <==> Conn({}, x, y) { ConnNone(x, y); }
  }

  lemma EmptyGreedy(V: nat)
    ensures Greedy(V, {}, {})
  {
    forall k ensures UpTo({}, k) == {} {}
  }

  /** After the first i edges: what was selected is greedy for them, the union-find classes are its
      components, and the running total is its weight. */
  ghost predicate Progress(V: nat, order: seq<Edge>, i: nat, selected: seq<Edge>, rep: seq<nat>, total: int) {
    && i <= |order| && |rep| == V
    && Greedy(V, EdgeSet(order[..i]), EdgeSet(selected)) && Represents(rep, EdgeSet(selected))
    && total == Weight(EdgeSet(selected)) && |selected| == |EdgeSet(selected)|
  }

  lemma ProgressStarts(V: nat, order: seq<Edge>, rep: seq<nat>)
    requires |rep| == V && forall x :: 0 <= x < |rep| ==> rep[x] == x
    ensures Progress(V, order, 0, [], rep, 0)
  {
    EmptyGreedy(V);
    EmptyRepresents(rep);
    assert EdgeSet([]) == {} && order[..0] == [];
  }

  lemma RepresentsAt(rep: seq<nat>, K: set<Edge>, x: nat, y: nat)
    requires Represents(rep, K) && x < |rep| && y < |rep|
    ensures rep[x] == rep[y] <==> Conn(K, x, y)
  {
  }

  lemma ProgressStep(V: nat, order: seq<Edge>, i: nat, selected: seq<Edge>, rep: seq<nat>, total: int, rep': seq<nat>)
    requires Progress(V, order, i, selected, rep, total) && i < |order| && SortedByWeight(order)
    requires order[i].u < V && order[i].v < V
    requires rep[order[i].u] != rep[order[i].v] ==>
               rep' == Joined(rep, rep[order[i].u], rep[order[i].v]) || rep' == Joined(rep, rep[order[i].v], rep[order[i].u])
    ensures if rep[order[i].u] == rep[order[i].v] then Progress(V, order, i + 1, selected, rep, total)
            else Progress(V, order, i + 1, selected + [order[i]], rep', total + order[i].w)
  {
    hide Greedy, Represents, Conn, Weight;
    var e, E, K := order[i], EdgeSet(order[..i]), EdgeSet(selected);
    assert EdgeSet(order[..i + 1]) == E + {e};
    RepresentsAt(rep, K, e.u, e.v);
    GreedyStep(V, E, K, e);
    if rep[e.u] != rep[e.v] {
      if rep' == Joined(rep, rep[e.u], rep[e.v]) { RepresentsStep(rep, K, e, rep[e.u], rep[e.v]); }
      else { RepresentsStep(rep, K, e, rep[e.v], rep[e.u]); }
      assert EdgeSet(selected + [e]) == K + {e};
      assert K + {e} - {e} == K;
      WeightRemove(K + {e}, e);
    }
  }

  lemma ProgressEnds(V: nat, order: seq<Edge>, i: nat, selected: seq<Edge>, rep: seq<nat>, total: int)
    requires Progress(V, order, i, selected, rep, total) && SortedByWeight(order)
    requires i == |order| || |selected| >= V - 1
    requires forall e :: e in order ==> e.u < V && e.v < V
    ensures MinimumSpanningForest(EdgeSet(order), EdgeSet(selected))
    ensures total == Weight(EdgeSet(selected)) && |selected| == |EdgeSet(selected)|
  {
    hide Represents, Conn, Weight, MinimumSpanningForest;
    var E, rest := EdgeSet(order[..i]), order[i..];
    if i == |order| {
      assert order[..i] == order;
    } else {
      forall j | 0 <= j < |rest| ensures rest[j].u < V && rest[j].v < V { assert order[i + j] in order; }
      SkipRest(V, E, EdgeSet(selected), rest);
      assert order == order[..i] + rest;
      assert E + EdgeSet(rest) == EdgeSet(order);
    }
    BottleneckIsMinimum(V, EdgeSet(order), EdgeSet(selected));
  }

  lemma SameEdges(a: seq<Edge>, b: seq<Edge>)
    requires multiset(a) == multiset(b)
    ensures EdgeSet(a) == EdgeSet(b)
    ensures forall i :: 0 <= i < |a| ==> a[i] in b
  {
    assert forall e :: e in a <==> e in multiset(a);
    assert forall e :: e in b <==> e in multiset(b);
  }

  /** `kruskal`, on whatever weight-ordered arrangement `order` of the edges `qsort` produced.  The
      selected edges, in the order they are printed, are a minimum spanning forest, and the returned
      total is its weight. */
  method Kruskal(V: nat, edges: seq<Edge>, order: seq<Edge>) returns (total: int, selected: seq<Edge>)
    requires multiset(order) == multiset(edges) && SortedByWeight(order)
    requires forall e :: e in edges ==> e.u < V && e.v < V
    ensures MinimumSpanningForest(EdgeSet(edges), EdgeSet(selected))
    ensures total == Weight(EdgeSet(selected)) && |selected| == |EdgeSet(selected)|
  {
    hide Progress, MinimumSpanningForest;
    SameEdges(order, edges);
    var uf := new UnionFind(V);
    total, selected := 0, [];
    ProgressStarts(V, order, uf.rep);
    var i := 0;
    while i < |order| && |selected| < V - 1
      invariant i <= |order| && |uf.rep| == V && Progress(V, order, i, selected, uf.rep, total)
      invariant uf.Valid() && fresh(uf) && fresh(uf.parent) && fresh(uf.rank)
    {
      var e := order[i];
      ghost var rep := uf.rep;
      var joined := uf.Union(e.u, e.v);
      ProgressStep(V, order, i, selected, rep, total, uf.rep);
      if joined {
        selected := selected + [e];
        total := total + e.w;
      }
      i := i + 1;
    }
    ProgressEnds(V, order, i, selected, uf.rep, total);
  }
}
