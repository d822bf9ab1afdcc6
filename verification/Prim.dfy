/** prim.c: Prim's algorithm on an adjacency matrix in which 0 means "no edge". */
module Prim {
  import opened Forests
  import Kruskal

  const INF := 0x3f3f3f3f

  type Matrix = seq<seq<int>>

  /** A symmetric V by V matrix of weights below the "unreached" sentinel. */
  ghost predicate IsGraph(W: Matrix, V: nat) {
    && |W| == V && (forall i :: 0 <= i < V ==> |W[i]| == V)
    && (forall i, j :: 0 <= i < V && 0 <= j < V ==> W[i][j] == W[j][i] && W[i][j] < INF)
  }

  function EdgeOf(a: nat, b: nat, w: int): Edge {
    if a < b then Edge(a, b, w) else Edge(b, a, w)
  }

  ghost predicate IsEdge(W: Matrix, V: nat, e: Edge)
    requires IsGraph(W, V)
  {
    e.u < e.v < V && W[e.u][e.v] != 0 && e.w == W[e.u][e.v]
  }

  ghost function Edges(W: Matrix, V: nat): set<Edge>
    requires IsGraph(W, V)
  {
    set i, j | i in Vertices(V) && j in Vertices(V) && i < j && W[i][j] != 0 :: Edge(i, j, W[i][j])
  }

  lemma EdgesAre(W: Matrix, V: nat, e: Edge)
    requires IsGraph(W, V)
    ensures e in Edges(W, V) <==> IsEdge(W, V, e)
  {
    if IsEdge(W, V, e) { assert e.u in Vertices(V) && e.v in Vertices(V); }
  }

  ghost predicate Connected(W: Matrix, V: nat)
    requires IsGraph(W, V)
  {
    forall x, y :: 0 <= x < V && 0 <= y < V ==> Conn(Edges(W, V), x, y)
  }

  // ----- Growing one tree

  /** T is a forest inside S that, at every weight limit, connects the vertices of S as the graph does. */
  ghost predicate Grown(E: set<Edge>, S: set<nat>, T: set<Edge>) {
    && T <= E && Forest(T) && (forall e :: e in T ==> e.u in S && e.v in S)
    && (forall k, x, y :: x in S && y in S && Conn(UpTo(E, k), x, y) ==> Conn(UpTo(T, k), x, y))
  }

  ghost predicate Crosses(S: set<nat>, e: Edge) {
    (e.u in S) != (e.v in S)
  }

  /** Whatever leaves S leaves it along a crossing edge. */
  lemma CrossingEdge(E: set<Edge>, S: set<nat>, x: nat, y: nat) returns (f: Edge)
    requires Conn(E, x, y) && x in S && y !in S
    ensures f in E && Crosses(S, f)
  {
    if forall e :: e in E ==> !Crosses(S, e) {
      forall a: nat, b: nat | Adjacent(E, a, b) && a in S ensures b in S {
        var e :| e in E && Joins(e, a, b);
        assert !Crosses(S, e);
      }
      ConnClosed(E, x, y, (a: nat) => a in S);
    }
    f :| f in E && Crosses(S, f);
  }

  /** The cut property: adding a lightest crossing edge keeps the tree grown. */
  lemma GrowStep(E: set<Edge>, S: set<nat>, T: set<Edge>, e: Edge, p: nat, v: nat)
    requires Grown(E, S, T) && e in E && Joins(e, p, v) && p in S && v !in S
    requires forall f :: f in E && Crosses(S, f) ==> e.w <= f.w
    ensures e !in T && Grown(E, S + {v}, T + {e})
  {
    var T' := T + {e};
    if Conn(T, e.u, e.v) {
      var f := CrossingEdge(T, S, p, v) by { if e.u == v { ConnSym(T, e.u, e.v); } }
    }
    ForestAdd(T, e);
    forall k, x, y | x in S + {v} && y in S + {v} && Conn(UpTo(E, k), x, y) ensures Conn(UpTo(T', k), x, y) {
      if x == y {
        ConnRefl(UpTo(T', k), x);
      } else if x in S && y in S {
        ConnMono(UpTo(T, k), UpTo(T', k), x, y);
      } else if y == v {
        GrowReach(E, S, T, e, p, v, k, x);
      } else {
        ConnSym(UpTo(E, k), x, y);
        GrowReach(E, S, T, e, p, v, k, y);
        ConnSym(UpTo(T', k), y, x);
      }
    }
  }

  lemma GrowReach(E: set<Edge>, S: set<nat>, T: set<Edge>, e: Edge, p: nat, v: nat, k: int, x: nat)
    requires Grown(E, S, T) && e in E && Joins(e, p, v) && p in S && v !in S
    requires forall f :: f in E && Crosses(S, f) ==> e.w <= f.w
    requires x in S && Conn(UpTo(E, k), x, v)
    ensures Conn(UpTo(T + {e}, k), x, v)
  {
    var f := CrossingEdge(UpTo(E, k), S, x, v);
    var T' := UpTo(T + {e}, k);
    ConnEdge(UpTo(E, k), e);
    ConnTrans(UpTo(E, k), x, v, p);
    ConnMono(UpTo(T, k), T', x, p);
    ConnEdge(T', e);
    ConnTrans(T', x, p, v);
  }

  lemma GrownAll(E: set<Edge>, V: nat, T: set<Edge>)
    requires InRange(V, E) && Grown(E, Vertices(V), T)
    ensures MinimumSpanningForest(E, T)
  {
    forall k, x: nat, y: nat | Conn(UpTo(E, k), x, y) ensures Conn(UpTo(T, k), x, y) {
      if x < V {
        Inside(V, UpTo(E, k), x, y);
        assert x in Vertices(V) && y in Vertices(V);
      } else {
        Isolated(V, UpTo(E, k), x, y);
        ConnRefl(UpTo(T, k), x);
      }
    }
    forall x, y | Conn(E, x, y) ensures Conn(T, x, y) {
      var k := MaxWeight(E);
      assert UpTo(E, k) == E && UpTo(T, k) == T;
    }
    BottleneckIsMinimum(V, E, T);
  }

  lemma Inside(V: nat, E: set<Edge>, x: nat, y: nat)
    requires InRange(V, E) && Conn(E, x, y) && x < V
    ensures y < V
  {
    ConnClosed(E, x, y, (a: nat) => a < V);
  }

  lemma Isolated(V: nat, E: set<Edge>, x: nat, y: nat)
    requires InRange(V, E) && Conn(E, x, y) && x >= V
    ensures y == x
  {
    ConnClosed(E, x, y, (a: nat) => a == x);
  }

  lemma MaxWeight(E: set<Edge>) returns (k: int)
    ensures forall e :: e in E ==> e.w <= k
  {
    if E == {} { k := 0; } else { var e := Heaviest(E); k := e.w; }
  }

  // ----- The three arrays

  ghost function Members(inTree: seq<bool>): set<nat> {
    set x | x in Vertices(|inTree|) && inTree[x]
  }

  /** For a vertex outside the tree: its key is the lightest edge from the tree, `parent` is the
      other end of that edge, and INF means there is none. */
  ghost predicate KeyOk(W: Matrix, V: nat, key: seq<int>, parent: seq<int>, inTree: seq<bool>, v: nat)
    requires IsGraph(W, V) && |key| == |parent| == |inTree| == V && v < V
  {
    && key[v] <= INF
    && (forall u :: 0 <= u < V && inTree[u] && W[u][v] != 0 ==> key[v] <= W[u][v])
    && (if key[v] == INF then parent[v] == -1
        else 0 <= parent[v] < V && inTree[parent[v]] && W[parent[v]][v] == key[v] != 0)
  }

  ghost predicate KeysOk(W: Matrix, V: nat, key: seq<int>, parent: seq<int>, inTree: seq<bool>) {
    && IsGraph(W, V) && |key| == |parent| == |inTree| == V
    && forall v :: 0 <= v < V && !inTree[v] ==> KeyOk(W, V, key, parent, inTree, v)
  }

  function SumKeys(key: seq<int>, inTree: seq<bool>, n: nat): int
    requires n <= |key| == |inTree|
  {
    if n <= 1 then 0 else SumKeys(key, inTree, n - 1) + if inTree[n - 1] then key[n - 1] else 0
  }

  lemma {:induction false} SumAdds(key: seq<int>, inTree: seq<bool>, v: nat, n: nat)
    requires n <= |key| == |inTree| && 0 < v < |key| && !inTree[v]
    ensures SumKeys(key, inTree[v := true], n) == SumKeys(key, inTree, n) + if v < n then key[v] else 0
  {
    if n > 1 { SumAdds(key, inTree, v, n - 1); }
  }

  lemma {:induction false} SumSame(key: seq<int>, key': seq<int>, inTree: seq<bool>, n: nat)
    requires n <= |key| == |inTree| == |key'| && forall v :: 0 <= v < |key| && inTree[v] ==> key'[v] == key[v]
    ensures SumKeys(key', inTree, n) == SumKeys(key, inTree, n)
  {
    if n > 1 { SumSame(key, key', inTree, n - 1); }
  }

  /** u is a least key outside the tree, -1 if all are inside; of vertex 0 and others as light, vertex 0. */
  ghost predicate LightestIs(key: seq<int>, inTree: seq<bool>, u: int) {
    && |key| == |inTree|
    && (u == -1 ==> forall i :: 0 <= i < |inTree| ==> inTree[i])
    && (u != -1 ==> 0 <= u < |key| && !inTree[u] && forall i :: 0 <= i < |key| && !inTree[i] ==> key[u] <= key[i])
    && (|key| > 0 && !inTree[0] && (forall i :: 0 < i < |key| ==> key[0] <= key[i]) ==> u == 0)
  }

  /** The scan for the lightest key outside the tree. */
  method Lightest(key: array<int>, inTree: array<bool>) returns (u: int)
    requires key.Length == inTree.Length
    ensures LightestIs(key[..], inTree[..], u)
  {
    u := -1;
    for i := 0 to key.Length
      invariant u == -1 ==> forall j :: 0 <= j < i ==> inTree[j]
      invariant u != -1 ==> 0 <= u < i && !inTree[u] && forall j :: 0 <= j < i && !inTree[j] ==> key[u] <= key[j]
      invariant i > 0 && !inTree[0] && (forall j :: 0 < j < key.Length ==> key[0] <= key[j]) ==> u == 0
    {
      if !inTree[i] && (u == -1 || key[i] < key[u]) { u := i; }
    }
  }

  /** The keys outside the tree are right once vertex u, newly in the tree, has been taken into account. */
  lemma KeyRelaxed(W: Matrix, V: nat, key: seq<int>, parent: seq<int>, inTree: seq<bool>, u: nat, v: nat)
    requires IsGraph(W, V) && |key| == |parent| == |inTree| == V && u < V && v < V && !inTree[u] && v != u
    requires KeyOk(W, V, key, parent, inTree, v)
    ensures if W[u][v] != 0 && W[u][v] < key[v]
            then KeyOk(W, V, key[v := W[u][v]], parent[v := u], inTree[u := true], v)
            else KeyOk(W, V, key, parent, inTree[u := true], v)
  {
  }

  lemma KeyUntouched(W: Matrix, V: nat, key: seq<int>, parent: seq<int>, inTree: seq<bool>, k: int, p: int, v: nat)
    requires IsGraph(W, V) && |key| == |parent| == |inTree| == V && v < V
    ensures forall x :: 0 <= x < V && x != v && KeyOk(W, V, key, parent, inTree, x) ==>
              KeyOk(W, V, key[v := k], parent[v := p], inTree, x)
  {
  }

  /** The inner loop: relax every edge of u. */
  method Relax(W: Matrix, V: nat, u: nat, key: array<int>, parent: array<int>, inTree: array<bool>)
    requires IsGraph(W, V) && key.Length == parent.Length == inTree.Length == V && u < V && inTree[u]
    requires key != parent
    requires forall v :: 0 <= v < V && !inTree[v] ==> KeyOk(W, V, key[..], parent[..], inTree[..][u := false], v)
    modifies key, parent
    ensures KeysOk(W, V, key[..], parent[..], inTree[..])
    ensures forall v :: 0 <= v < V && inTree[v] ==> key[v] == old(key[v]) && parent[v] == old(parent[v])
  {
    hide KeyOk;
    ghost var before := inTree[..][u := false];
    assert before[u := true] == inTree[..];
    for v := 0 to V
      invariant forall x :: 0 <= x < v && !inTree[x] ==> KeyOk(W, V, key[..], parent[..], inTree[..], x)
      invariant forall x :: v <= x < V && !inTree[x] ==> KeyOk(W, V, key[..], parent[..], before, x)
      invariant forall x :: 0 <= x < V && inTree[x] ==> key[x] == old(key[x]) && parent[x] == old(parent[x])
    {
      ghost var key0, parent0 := key[..], parent[..];
      if !inTree[v] { KeyRelaxed(W, V, key0, parent0, before, u, v); }
      if !inTree[v] && W[u][v] != 0 && W[u][v] < key[v] {
        KeyUntouched(W, V, key0, parent0, before, W[u][v], u, v);
        KeyUntouched(W, V, key0, parent0, inTree[..], W[u][v], u, v);
        key[v] := W[u][v];
        parent[v] := u;
        assert key[..] == key0[v := W[u][v]] && parent[..] == parent0[v := u];
      }
    }
  }

  /** A vertex other than 0 that was taken without an edge has no parent and keeps the sentinel. */
  ghost predicate ParentsSet(key: seq<int>, parent: seq<int>, inTree: seq<bool>) {
    && |key| == |parent| == |inTree|
    && forall v :: 0 < v < |inTree| && inTree[v] ==> -1 <= parent[v] < |parent| && (parent[v] == -1 <==> key[v] == INF)
  }

  /** The edges (parent[v], v) of the vertices taken with an edge. */
  ghost function TreeEdges(key: seq<int>, parent: seq<int>, inTree: seq<bool>): set<Edge>
    requires ParentsSet(key, parent, inTree)
  {
    set v | v in Vertices(|inTree|) && 0 < v && inTree[v] && parent[v] >= 0 :: EdgeOf(parent[v], v, key[v])
  }

  /** What taking u adds to the tree. */
  ghost function Joining(key: seq<int>, parent: seq<int>, u: nat): set<Edge>
    requires u < |key| == |parent| && parent[u] >= -1
  {
    if u > 0 && parent[u] >= 0 then {EdgeOf(parent[u], u, key[u])} else {}
  }

  lemma ParentsAdd(key: seq<int>, parent: seq<int>, inTree: seq<bool>, u: nat, key': seq<int>, parent': seq<int>)
    requires |key'| == |parent'| == |inTree| && ParentsSet(key, parent, inTree) && u < |inTree| && !inTree[u]
    requires forall v :: 0 <= v < |inTree| && inTree[u := true][v] ==> key'[v] == key[v] && parent'[v] == parent[v]
    requires -1 <= parent[u] < |parent| && (u > 0 ==> (parent[u] == -1 <==> key[u] == INF))
    ensures ParentsSet(key', parent', inTree[u := true])
  {
  }

  lemma TreeEdgesAdd(key: seq<int>, parent: seq<int>, inTree: seq<bool>, u: nat, key': seq<int>, parent': seq<int>)
    requires |key'| == |parent'| == |inTree| && ParentsSet(key, parent, inTree) && u < |inTree| && !inTree[u]
    requires forall v :: 0 <= v < |inTree| && inTree[u := true][v] ==> key'[v] == key[v] && parent'[v] == parent[v]
    requires -1 <= parent[u] < |parent| && (u > 0 ==> (parent[u] == -1 <==> key[u] == INF))
    ensures ParentsSet(key', parent', inTree[u := true])
    ensures TreeEdges(key', parent', inTree[u := true]) == TreeEdges(key, parent, inTree) + Joining(key, parent, u)
  {
    ParentsAdd(key, parent, inTree, u, key', parent');
    hide EdgeOf;
    var before, after := TreeEdges(key, parent, inTree), TreeEdges(key', parent', inTree[u := true]);
    forall e | e in before ensures e in after {
      var v :| v in Vertices(|inTree|) && 0 < v && inTree[v] && parent[v] >= 0 && e == EdgeOf(parent[v], v, key[v]);
      assert inTree[u := true][v];
    }
    forall e | e in after ensures e in before || e in Joining(key, parent, u) {
      var v :| v in Vertices(|inTree|) && 0 < v && inTree[u := true][v] && parent'[v] >= 0 && e == EdgeOf(parent'[v], v, key'[v]);
      if v != u { assert inTree[v]; }
    }
    if u > 0 && parent[u] >= 0 {
      assert u in Vertices(|inTree|) && inTree[u := true][u];
      assert EdgeOf(parent'[u], u, key'[u]) in after;
    }
  }

  /** Vertices after the first that were taken without an edge, when cnt vertices have been taken. */
  ghost function Restarts(T: set<Edge>, cnt: nat): int {
    if cnt == 0 then 0 else cnt - 1 - |T|
  }

  /** With cnt vertices taken: vertex 0 first, then one lightest edge at a time, and a vertex without an edge,
      counted as INF, when no edge is left. */
  ghost predicate Stage(W: Matrix, V: nat, key: seq<int>, parent: seq<int>, inTree: seq<bool>, T: set<Edge>, cnt: nat) {
    && IsGraph(W, V) && |key| == |parent| == |inTree| == V
    && |Members(inTree)| == cnt
    && SumKeys(key, inTree, V) == Weight(T) + INF * Restarts(T, cnt)
    && ParentsSet(key, parent, inTree) && T == TreeEdges(key, parent, inTree)
    && (cnt == 0 ==> T == {} && (V > 0 ==> key[0] == 0) && (forall v :: 0 < v < V ==> key[v] == INF)
                     && forall v :: 0 <= v < V ==> parent[v] == -1)
    && (cnt > 0 ==> inTree[0] && KeysOk(W, V, key, parent, inTree) && Grown(Edges(W, V), Members(inTree), T))
  }

  lemma StageStarts(W: Matrix, V: nat, key: seq<int>, parent: seq<int>, inTree: seq<bool>)
    requires IsGraph(W, V) && |key| == |parent| == |inTree| == V
    requires (V > 0 ==> key[0] == 0) && forall v :: 0 < v < V ==> key[v] == INF
    requires forall v :: 0 <= v < V ==> !inTree[v] && parent[v] == -1
    ensures Stage(W, V, key, parent, inTree, {}, 0)
  {
    assert Members(inTree) == {};
    NoKeys(key, inTree, V);
  }

  lemma {:induction false} NoKeys(key: seq<int>, inTree: seq<bool>, n: nat)
    requires n <= |key| == |inTree| && forall v :: 0 <= v < n ==> !inTree[v]
    ensures SumKeys(key, inTree, n) == 0
  {
    if n > 1 { NoKeys(key, inTree, n - 1); }
  }

  lemma MembersAdd(inTree: seq<bool>, u: nat)
    requires u < |inTree| && !inTree[u]
    ensures Members(inTree[u := true]) == Members(inTree) + {u} && u !in Members(inTree)
  {
  }

  /** A key below INF that is lightest outside is a crossing edge, and no crossing edge is lighter. */
  lemma LightestCrosses(W: Matrix, V: nat, key: seq<int>, parent: seq<int>, inTree: seq<bool>, u: nat)
    requires KeysOk(W, V, key, parent, inTree) && u < V && key[u] < INF
    requires !inTree[u] && forall i :: 0 <= i < V && !inTree[i] ==> key[u] <= key[i]
    ensures 0 <= parent[u] < V && inTree[parent[u]]
    ensures EdgeOf(parent[u], u, key[u]) in Edges(W, V)
    ensures forall f :: f in Edges(W, V) && Crosses(Members(inTree), f) ==> key[u] <= f.w
  {
    hide Edges, Members, KeyOk, Conn;
    var E, S := Edges(W, V), Members(inTree);
    MemberIs(inTree);
    forall f | f in E && Crosses(S, f) ensures key[u] <= f.w {
      var b := OuterEnd(W, V, key, parent, inTree, f);
    }
    KeyBelow(W, V, key, parent, inTree, u);
    EdgesAre(W, V, EdgeOf(parent[u], u, key[u]));
  }

  lemma MemberIs(inTree: seq<bool>)
    ensures forall x: nat :: x in Members(inTree) <==> x < |inTree| && inTree[x]
  {
  }

  lemma ConnectedAt(W: Matrix, V: nat, x: nat, y: nat)
    requires IsGraph(W, V) && Connected(W, V) && x < V && y < V
    ensures Conn(Edges(W, V), x, y)
  {
  }

  /** The end of a crossing edge outside the tree has a key no larger than the edge's weight, which is below INF. */
  lemma OuterEnd(W: Matrix, V: nat, key: seq<int>, parent: seq<int>, inTree: seq<bool>, f: Edge) returns (b: nat)
    requires KeysOk(W, V, key, parent, inTree) && f in Edges(W, V) && Crosses(Members(inTree), f)
    ensures b < V && !inTree[b] && key[b] <= f.w < INF
  {
    hide Edges;
    EdgesAre(W, V, f);
    assert f.w == W[f.u][f.v] == W[f.v][f.u];
    b := if f.u in Members(inTree) then f.v else f.u;
    assert KeyOk(W, V, key, parent, inTree, b);
  }

  lemma KeyBelow(W: Matrix, V: nat, key: seq<int>, parent: seq<int>, inTree: seq<bool>, u: nat)
    requires KeysOk(W, V, key, parent, inTree) && u < V && !inTree[u] && key[u] < INF
    ensures 0 <= parent[u] < V && inTree[parent[u]] && W[parent[u]][u] == key[u] != 0
  {
    assert KeyOk(W, V, key, parent, inTree, u);
  }

  lemma AddFirst(W: Matrix, V: nat, key: seq<int>, parent: seq<int>, inTree: seq<bool>)
    requires V > 0 && Stage(W, V, key, parent, inTree, {}, 0)
    ensures var inTree' := inTree[0 := true];
      && |Members(inTree')| == 1 && SumKeys(key, inTree', V) == Weight({}) && parent[0] == -1
      && Grown(Edges(W, V), Members(inTree'), {})
      && forall v :: 0 < v < V ==> KeyOk(W, V, key, parent, inTree, v)
  {
    assert Members(inTree) == {};
    forall v | 0 <= v < V ensures !inTree[v] {
      assert v !in Members(inTree);
    }
    MembersAdd(inTree, 0);
    NoKeys(key, inTree, V);
    SumFirst(key, inTree, V);
    forall k, x, y | x in {0} && y in {0} ensures Conn(UpTo({}, k), x, y) { ConnRefl(UpTo({}, k), x); }
  }

  lemma {:induction false} SumFirst(key: seq<int>, inTree: seq<bool>, n: nat)
    requires n <= |key| == |inTree| && 0 < |key|
    ensures SumKeys(key, inTree[0 := true], n) == SumKeys(key, inTree, n)
  {
    if n > 1 { SumFirst(key, inTree, n - 1); }
  }

  lemma AddNext(W: Matrix, V: nat, key: seq<int>, parent: seq<int>, inTree: seq<bool>, T: set<Edge>, cnt: nat, u: nat)
    requires cnt > 0 && Stage(W, V, key, parent, inTree, T, cnt)
    requires u < V && !inTree[u] && key[u] < INF && forall i :: 0 <= i < V && !inTree[i] ==> key[u] <= key[i]
    ensures 0 <= parent[u] < V
    ensures var inTree', T' := inTree[u := true], T + {EdgeOf(parent[u], u, key[u])};
      && |Members(inTree')| == cnt + 1 && SumKeys(key, inTree', V) == Weight(T') + INF * Restarts(T', cnt + 1)
      && Grown(Edges(W, V), Members(inTree'), T')
  {
    hide KeyOk, Grown;
    LightestCrosses(W, V, key, parent, inTree, u);
    var e := EdgeOf(parent[u], u, key[u]);
    NewEdge(Edges(W, V), Members(inTree), T, e, u);
    MembersAdd(inTree, u);
    GrowStep(Edges(W, V), Members(inTree), T, e, parent[u], u);
    SumAdds(key, inTree, u, V);
    assert T + {e} - {e} == T;
    WeightRemove(T + {e}, e);
  }

  /** No edge leaves the vertices taken so far: u starts another component. */
  lemma AddRestart(W: Matrix, V: nat, key: seq<int>, parent: seq<int>, inTree: seq<bool>, T: set<Edge>, cnt: nat, u: nat)
    requires cnt > 0 && Stage(W, V, key, parent, inTree, T, cnt)
    requires u < V && !inTree[u] && key[u] == INF && forall i :: 0 <= i < V && !inTree[i] ==> key[u] <= key[i]
    ensures parent[u] == -1
    ensures var inTree' := inTree[u := true];
      && |Members(inTree')| == cnt + 1 && SumKeys(key, inTree', V) == Weight(T) + INF * Restarts(T, cnt + 1)
      && Grown(Edges(W, V), Members(inTree'), T)
  {
    hide Grown, Edges, KeysOk, SumKeys, TreeEdges, ParentsSet, Members;
    var E, S := Edges(W, V), Members(inTree);
    NoCrossing(W, V, key, parent, inTree, u);
    MemberIs(inTree);
    GrowApart(E, S, T, u);
    MembersAdd(inTree, u);
    SumAdds(key, inTree, u, V);
  }

  /** When even the least key is INF, no edge leaves the vertices taken so far. */
  lemma NoCrossing(W: Matrix, V: nat, key: seq<int>, parent: seq<int>, inTree: seq<bool>, u: nat)
    requires KeysOk(W, V, key, parent, inTree) && u < V && !inTree[u] && key[u] == INF
    requires forall i :: 0 <= i < V && !inTree[i] ==> key[u] <= key[i]
    ensures parent[u] == -1 && forall f :: f in Edges(W, V) ==> !Crosses(Members(inTree), f)
  {
    hide Edges;
    assert KeyOk(W, V, key, parent, inTree, u);
    forall f | f in Edges(W, V) ensures !Crosses(Members(inTree), f) {
      if Crosses(Members(inTree), f) { var b := OuterEnd(W, V, key, parent, inTree, f); }
    }
  }

  lemma GrowApart(E: set<Edge>, S: set<nat>, T: set<Edge>, u: nat)
    requires Grown(E, S, T) && u !in S && forall f :: f in E ==> !Crosses(S, f)
    ensures Grown(E, S + {u}, T)
  {
    forall k, x, y | x in S + {u} && y in S + {u} && Conn(UpTo(E, k), x, y) ensures Conn(UpTo(T, k), x, y) {
      if x == y {
        ConnRefl(UpTo(T, k), x);
      } else if (x in S) != (y in S) {
        ConnSym(UpTo(E, k), x, y);
        var f := CrossingEdge(UpTo(E, k), S, if x in S then x else y, if x in S then y else x);
      }
    }
  }

  lemma NewEdge(E: set<Edge>, S: set<nat>, T: set<Edge>, e: Edge, u: nat)
    requires Grown(E, S, T) && (e.u == u || e.v == u) && u !in S
    ensures e !in T
  {
  }

  lemma AllMembers(inTree: seq<bool>)
    requires |Members(inTree)| == |inTree|
    ensures Members(inTree) == Vertices(|inTree|) && forall v :: 0 <= v < |inTree| ==> inTree[v]
  {
    if Members(inTree) != Vertices(|inTree|) {
      var x :| x in Vertices(|inTree|) && x !in Members(inTree);
      SubsetCard(Members(inTree), Vertices(|inTree|) - {x});
    }
    forall v | 0 <= v < |inTree| ensures inTree[v] { assert v in Vertices(|inTree|); }
  }

  lemma SomeOutside(inTree: seq<bool>)
    requires |Members(inTree)| < |inTree|
    ensures exists v :: 0 <= v < |inTree| && !inTree[v]
  {
    if Members(inTree) == Vertices(|inTree|) {
      assert false;
    } else {
      var v :| v in Vertices(|inTree|) && v !in Members(inTree);
    }
  }

  /** One line of the output: the parent, -1 where a component begins, the vertex and its key. */
  datatype Line = Line(parent: int, vertex: nat, w: int)

  /** The edges among the printed lines. */
  function Printed(lines: seq<Line>): set<Edge> {
    set l | l in lines && l.parent >= 0 :: EdgeOf(l.parent, l.vertex, l.w)
  }

  /** The printing loop: one line for every vertex but 0 in order, and the total of the keys. */
  method Report(key: array<int>, parent: array<int>, ghost inTree: seq<bool>) returns (total: int, lines: seq<Line>)
    requires ParentsSet(key[..], parent[..], inTree)
    requires forall v :: 0 <= v < |inTree| ==> inTree[v]
    ensures total == SumKeys(key[..], inTree, key.Length)
    ensures |lines| == if key.Length == 0 then 0 else key.Length - 1
    ensures forall i :: 0 <= i < |lines| ==> lines[i].vertex == i + 1 && (lines[i].parent < 0 <==> lines[i].w == INF)
    ensures Printed(lines) == TreeEdges(key[..], parent[..], inTree)
  {
    total, lines := 0, [];
    var i := 1;
    while i < key.Length
      invariant 1 <= i && (i == 1 || i <= key.Length)
      invariant total == if key.Length == 0 then 0 else SumKeys(key[..], inTree, i)
      invariant |lines| == i - 1
      invariant forall j :: 0 <= j < i - 1 ==> lines[j] == Line(parent[j + 1], j + 1, key[j + 1])
    {
      lines := lines + [Line(parent[i], i, key[i])];
      total := total + key[i];
      i := i + 1;
    }
    PrintedAll(key[..], parent[..], inTree, lines);
  }

  lemma PrintedAll(key: seq<int>, parent: seq<int>, inTree: seq<bool>, lines: seq<Line>)
    requires ParentsSet(key, parent, inTree) && forall v :: 0 <= v < |inTree| ==> inTree[v]
    requires |lines| == if |key| == 0 then 0 else |key| - 1
    requires forall i :: 0 <= i < |lines| ==> lines[i] == Line(parent[i + 1], i + 1, key[i + 1])
    ensures Printed(lines) == TreeEdges(key, parent, inTree)
    ensures forall i :: 0 <= i < |lines| ==> (lines[i].parent < 0 <==> lines[i].w == INF)
  {
    var T := TreeEdges(key, parent, inTree);
    forall e | e in T ensures e in Printed(lines) {
      var v :| v in Vertices(|inTree|) && 0 < v && inTree[v] && parent[v] >= 0 && e == EdgeOf(parent[v], v, key[v]);
      assert lines[v - 1] in lines;
    }
    forall e | e in Printed(lines) ensures e in T {
      var l :| l in lines && l.parent >= 0 && e == EdgeOf(l.parent, l.vertex, l.w);
      assert l.vertex in Vertices(|inTree|);
    }
  }

  /** The vertex the scan chose: any lightest one, and vertex 0 to begin with. */
  ghost predicate Chosen(key: seq<int>, inTree: seq<bool>, cnt: nat, u: int)
    requires |key| == |inTree|
  {
    && 0 <= u < |key| && !inTree[u] && (forall i :: 0 <= i < |key| && !inTree[i] ==> key[u] <= key[i])
    && (cnt == 0 ==> u == 0)
  }

  lemma StageChooses(W: Matrix, V: nat, key: seq<int>, parent: seq<int>, inTree: seq<bool>, T: set<Edge>, cnt: nat, u: int)
    requires Stage(W, V, key, parent, inTree, T, cnt) && cnt < V && LightestIs(key, inTree, u)
    ensures Chosen(key, inTree, cnt, u)
  {
    SomeOutside(inTree);
    if cnt == 0 {
      assert Members(inTree) == {};
      assert 0 !in Members(inTree) && 0 in Vertices(V);
    }
  }

  lemma StageKeys(W: Matrix, V: nat, key: seq<int>, parent: seq<int>, inTree: seq<bool>, T: set<Edge>, cnt: nat, u: int)
    requires Stage(W, V, key, parent, inTree, T, cnt) && Chosen(key, inTree, cnt, u)
    ensures forall v :: 0 <= v < V && !inTree[u := true][v] ==> KeyOk(W, V, key, parent, inTree, v)
  {
    if cnt == 0 { AddFirst(W, V, key, parent, inTree); }
  }

  /** What taking u does to the tree, whichever of the three cases it is. */
  lemma Advance(W: Matrix, V: nat, key: seq<int>, parent: seq<int>, inTree: seq<bool>, T: set<Edge>, cnt: nat, u: nat)
    returns (T': set<Edge>)
    requires Stage(W, V, key, parent, inTree, T, cnt) && Chosen(key, inTree, cnt, u)
    ensures u < |key| == |parent| == |inTree| == V && -1 <= parent[u] < V && (u > 0 ==> (parent[u] == -1 <==> key[u] == INF))
    ensures T' == T + Joining(key, parent, u) && inTree[u := true][0]
    ensures var inTree' := inTree[u := true];
      && |Members(inTree')| == cnt + 1 && SumKeys(key, inTree', V) == Weight(T') + INF * Restarts(T', cnt + 1)
      && Grown(Edges(W, V), Members(inTree'), T')
  {
    hide Grown, KeyOk, KeysOk, TreeEdges, ParentsSet, SumKeys, Members;
    if cnt == 0 {
      AddFirst(W, V, key, parent, inTree);
      T' := {};
    } else {
      UpToSentinel(W, V, key, parent, inTree, u);
      if key[u] < INF {
        AddNext(W, V, key, parent, inTree, T, cnt, u);
        T' := T + {EdgeOf(parent[u], u, key[u])};
      } else {
        AddRestart(W, V, key, parent, inTree, T, cnt, u);
        T' := T;
      }
    }
  }

  lemma StageNext(W: Matrix, V: nat, key: seq<int>, parent: seq<int>, inTree: seq<bool>, T: set<Edge>, cnt: nat,
                  u: int, key': seq<int>, parent': seq<int>) returns (T': set<Edge>)
    requires Stage(W, V, key, parent, inTree, T, cnt) && Chosen(key, inTree, cnt, u)
    requires KeysOk(W, V, key', parent', inTree[u := true])
    requires forall v :: 0 <= v < V && inTree[u := true][v] ==> key'[v] == key[v] && parent'[v] == parent[v]
    ensures Stage(W, V, key', parent', inTree[u := true], T', cnt + 1)
  {
    hide Grown, KeyOk, TreeEdges, ParentsSet, SumKeys, Members, Joining, Restarts, Edges, IsGraph;
    T' := Advance(W, V, key, parent, inTree, T, cnt, u);
    SumSame(key, key', inTree[u := true], V);
    TreeEdgesAdd(key, parent, inTree, u, key', parent');
  }

  lemma UpToSentinel(W: Matrix, V: nat, key: seq<int>, parent: seq<int>, inTree: seq<bool>, u: nat)
    requires KeysOk(W, V, key, parent, inTree) && u < V && !inTree[u]
    ensures key[u] <= INF
  {
    assert KeyOk(W, V, key, parent, inTree, u);
  }

  /** Components beyond the first. */
  ghost function FurtherComponents(W: Matrix, V: nat): int
    requires IsGraph(W, V)
  {
    if V == 0 then 0 else |Reps(V, Edges(W, V))| - 1
  }

  lemma EdgesInRange(W: Matrix, V: nat)
    requires IsGraph(W, V)
    ensures InRange(V, Edges(W, V))
  {
    forall e | e in Edges(W, V) ensures e.u < V && e.v < V { EdgesAre(W, V, e); }
  }

  lemma StageEnds(W: Matrix, V: nat, key: seq<int>, parent: seq<int>, inTree: seq<bool>, T: set<Edge>)
    requires Stage(W, V, key, parent, inTree, T, V)
    ensures MinimumSpanningForest(Edges(W, V), T)
    ensures SumKeys(key, inTree, V) == Weight(T) + INF * FurtherComponents(W, V)
    ensures forall v :: 0 <= v < V ==> inTree[v]
    ensures ParentsSet(key, parent, inTree) && T == TreeEdges(key, parent, inTree)
  {
    AllMembers(inTree);
    EdgesInRange(W, V);
    if V == 0 {
      assert Edges(W, V) == {} && Vertices(V) == {};
    }
    GrownAll(Edges(W, V), V, T);
    SpanningReps(V, Edges(W, V), T);
    ForestCard(V, T);
  }

  /** A spanning forest has the components of the graph. */
  lemma SpanningReps(V: nat, E: set<Edge>, T: set<Edge>)
    requires SpanningForest(E, T)
    ensures Reps(V, T) == Reps(V, E)
  {
    forall x, y ensures Conn(T, x, y) <==> Conn(E, x, y) {
      if Conn(T, x, y) { ConnMono(T, E, x, y); }
    }
  }

  /** Connected graphs are those without a further component. */
  lemma ConnectedIff(W: Matrix, V: nat)
    requires IsGraph(W, V)
    ensures Connected(W, V) <==> FurtherComponents(W, V) == 0
    ensures FurtherComponents(W, V) >= 0
  {
    var E := Edges(W, V);
    if V > 0 {
      var R := Reps(V, E);
      assert 0 in R by { assert 0 in Vertices(V); }
      SubsetCard({0}, R);
      if Connected(W, V) {
        forall x | x in R ensures x == 0 { ConnectedAt(W, V, 0, x); }
        assert R == {0};
      } else {
        var x, y :| 0 <= x < V && 0 <= y < V && !Conn(E, x, y);
        var r := RepOf(V, E, x);
        var q := RepOf(V, E, y);
        if r == q {
          ConnSym(E, r, x);
          ConnTrans(E, x, r, y);
        }
        SubsetCard({r, q}, R);
      }
    }
  }

  /** `prim`: the printed lines with a parent are a minimum spanning forest, and the returned total is its
      weight and INF for every component but the first. */
  method Prim(W: Matrix, V: nat) returns (total: int, lines: seq<Line>)
    requires IsGraph(W, V)
    ensures MinimumSpanningForest(Edges(W, V), Printed(lines))
    ensures total == Weight(Printed(lines)) + INF * FurtherComponents(W, V)
    ensures |lines| == if V == 0 then 0 else V - 1
    ensures forall i :: 0 <= i < |lines| ==> lines[i].vertex == i + 1 && (lines[i].parent < 0 <==> lines[i].w == INF)
  {
    hide *;
    var key := new int[V](_ => INF);
    var parent := new int[V](_ => -1);
    var inTree := new bool[V](_ => false);
    ghost var T: set<Edge> := {};
    if V > 0 { key[0] := 0; }
    StageStarts(W, V, key[..], parent[..], inTree[..]);
    for cnt := 0 to V
      invariant Stage(W, V, key[..], parent[..], inTree[..], T, cnt)
    {
      ghost var key0, parent0, before := key[..], parent[..], inTree[..];
      var u := Lightest(key, inTree);
      StageChooses(W, V, key0, parent0, before, T, cnt, u);
      StageKeys(W, V, key0, parent0, before, T, cnt, u);
      inTree[u] := true;
      assert inTree[..] == before[u := true];
      assert inTree[..][u := false] == before;
      Relax(W, V, u, key, parent, inTree);
      T := StageNext(W, V, key0, parent0, before, T, cnt, u, key[..], parent[..]);
    }
    StageEnds(W, V, key[..], parent[..], inTree[..], T);
    total, lines := Report(key, parent, inTree[..]);
  }

  /** The totals of the two programs differ by INF per further component, so they agree exactly on connected
      graphs, in whatever order `qsort` left edges of equal weight. */
  method SameTotals(W: Matrix, V: nat, order: seq<Edge>) returns (prim: int, kruskal: int)
    requires IsGraph(W, V)
    requires Kruskal.EdgeSet(order) == Edges(W, V) && Kruskal.SortedByWeight(order)
    ensures prim == kruskal + INF * FurtherComponents(W, V)
    ensures prim == kruskal <==> Connected(W, V)
  {
    forall e | e in order ensures e.u < V && e.v < V {
      assert e in Kruskal.EdgeSet(order);
      EdgesAre(W, V, e);
    }
    var lines, selected;
    prim, lines := Prim(W, V);
    kruskal, selected := Kruskal.Kruskal(V, order, order);
    MinimumIsUnique(Edges(W, V), Printed(lines), Kruskal.EdgeSet(selected));
    ConnectedIff(W, V);
  }
}
