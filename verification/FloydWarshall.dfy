/** floyd_warshall.c: all-pairs shortest paths in place, and path printing by next hops. */
module FloydWarshall {
  import opened Walks

  type Table = seq<seq<int>>

  predicate Square(d: Table, V: nat) {
    |d| == V && forall i :: 0 <= i < V ==> |d[i]| == V
  }

  /** The input format: weights up to the sentinel, which means "no edge".  The diagonal holds the weights of
      self-loops, 0 in the program's own input. */
  ghost predicate IsInput(w: Table, V: nat) {
    Square(w, V) && forall i, j :: 0 <= i < V && 0 <= j < V ==> w[i][j] <= INF
  }

  ghost function Edges(w: Table, V: nat): set<Edge>
    requires Square(w, V)
  {
    set i: nat, j: nat | i in Below(V) && j in Below(V) && w[i][j] != INF :: Edge(i, j, w[i][j])
  }

  ghost function Below(V: nat): (r: set<nat>)
    ensures forall x: nat :: x in r <==> x < V
  {
    if V == 0 then {} else Below(V - 1) + {V - 1}
  }

  lemma EdgesAre(w: Table, V: nat, e: Edge)
    requires Square(w, V)
    ensures e in Edges(w, V) <==> e.from < V && e.to < V && w[e.from][e.to] != INF && e.w == w[e.from][e.to]
  {
    if e.from < V && e.to < V && w[e.from][e.to] != INF && e.w == w[e.from][e.to] {
      assert e.from in Below(V) && e.to in Below(V);
    }
  }

  ghost predicate AllFit(E: set<Edge>) {
    forall s: nat :: FitsBelow(E, s, INF)
  }

  // ----- What the table says in the middle of the run

  /** No vertex twice, except that the last may be the first. */
  ghost predicate Quasi(p: seq<Edge>, s: nat) {
    forall i, j :: 0 <= i < j <= |p| && (i > 0 || j < |p|) ==> VertexAt(p, s, i) != VertexAt(p, s, j)
  }

  /** All vertices strictly between the ends are below k. */
  ghost predicate Through(p: seq<Edge>, s: nat, k: nat) {
    forall m :: 0 < m < |p| ==> VertexAt(p, s, m) < k
  }

  /** A finite entry is the weight of a walk through vertices below k, of at least one edge. */
  ghost predicate SoundAt(E: set<Edge>, d: int, i: nat, j: nat, k: nat) {
    d <= INF && (d != INF ==> exists p: seq<Edge> :: p != [] && WalkIn(E, p, i, j) && Through(p, i, k) && Sum(p) == d)
  }

  ghost predicate SoundAll(E: set<Edge>, d: Table, V: nat, k: nat) {
    Square(d, V) && forall i, j :: 0 <= i < V && 0 <= j < V ==> SoundAt(E, d[i][j], i, j, k)
  }

  /** The entry of (i, j) is no more than any quasi-simple walk through vertices below k. */
  ghost predicate CoversAt(E: set<Edge>, d: int, i: nat, j: nat, k: nat) {
    forall p :: p != [] && WalkIn(E, p, i, j) && Quasi(p, i) && Through(p, i, k) ==> d <= Sum(p)
  }

  /** Entries before (i, j) in row order are done with intermediate vertex k, the others with those below. */
  ghost predicate CoversTo(E: set<Edge>, d: Table, V: nat, k: nat, i: nat, j: nat) {
    && Square(d, V)
    && (forall a, b :: 0 <= a < V && 0 <= b < V ==> CoversAt(E, d[a][b], a, b, k))
    && (forall a, b :: 0 <= a < V && 0 <= b < V && (a < i || (a == i && b < j)) ==> CoversAt(E, d[a][b], a, b, k + 1))
  }

  function Set(d: Table, i: nat, j: nat, x: int): Table
    requires i < |d| && j < |d[i]|
  {
    d[i := d[i][j := x]]
  }

  predicate Improves(d: Table, V: nat, i: nat, j: nat, k: nat)
    requires Square(d, V) && i < V && j < V && k < V
  {
    d[i][k] != INF && d[k][j] != INF && d[i][k] + d[k][j] < d[i][j]
  }

  lemma SoundStep(E: set<Edge>, d: Table, V: nat, i: nat, j: nat, k: nat)
    requires SoundAll(E, d, V, k + 1) && i < V && j < V && k < V && Improves(d, V, i, j, k)
    ensures d[i][k] + d[k][j] <= INF && SoundAll(E, Set(d, i, j, d[i][k] + d[k][j]), V, k + 1)
  {
    assert SoundAt(E, d[i][k], i, k, k + 1) && SoundAt(E, d[k][j], k, j, k + 1) && SoundAt(E, d[i][j], i, j, k + 1);
    var p: seq<Edge> :| p != [] && WalkIn(E, p, i, k) && Through(p, i, k + 1) && Sum(p) == d[i][k];
    var q: seq<Edge> :| q != [] && WalkIn(E, q, k, j) && Through(q, k, k + 1) && Sum(q) == d[k][j];
    WalkConcat(E, p, q, i, k, j);
    ThroughConcat(E, p, q, i, k, j, k + 1);
    assert p + q != [];
  }

  lemma ThroughConcat(E: set<Edge>, p: seq<Edge>, q: seq<Edge>, i: nat, m: nat, j: nat, k: nat)
    requires WalkIn(E, p, i, m) && WalkIn(E, q, m, j) && Through(p, i, k) && Through(q, m, k) && m < k
    ensures Through(p + q, i, k)
  {
    ChainEnd(p, i, m);
    forall x | 0 < x < |p + q| ensures VertexAt(p + q, i, x) < k {
      if x < |p| {
        assert VertexAt(p + q, i, x) == VertexAt(p, i, x);
      } else if x > |p| {
        assert VertexAt(p + q, i, x) == VertexAt(q, m, x - |p|);
      }
    }
  }

  lemma SoundGrows(E: set<Edge>, d: Table, V: nat, k: nat)
    requires SoundAll(E, d, V, k)
    ensures SoundAll(E, d, V, k + 1)
  {
    forall i, j | 0 <= i < V && 0 <= j < V ensures SoundAt(E, d[i][j], i, j, k + 1) {
      assert SoundAt(E, d[i][j], i, j, k);
      if d[i][j] != INF {
        var p: seq<Edge> :| p != [] && WalkIn(E, p, i, j) && Through(p, i, k) && Sum(p) == d[i][j];
        assert Through(p, i, k + 1);
      }
    }
  }

  /** A quasi-simple walk through k splits into two simple ones through vertices below k. */
  lemma SplitAt(E: set<Edge>, p: seq<Edge>, i: nat, j: nat, k: nat, m: nat)
    requires WalkIn(E, p, i, j) && Quasi(p, i) && Through(p, i, k + 1) && 0 < m < |p| && VertexAt(p, i, m) == k
    ensures WalkIn(E, p[..m], i, k) && Simple(p[..m], i) && Quasi(p[..m], i) && Through(p[..m], i, k)
    ensures WalkIn(E, p[m..], k, j) && Simple(p[m..], k) && Quasi(p[m..], k) && Through(p[m..], k, k)
    ensures Sum(p) == Sum(p[..m]) + Sum(p[m..])
  {
    WalkSplit(E, p, i, j, m);
    forall a | 0 <= a <= m ensures VertexAt(p[..m], i, a) == VertexAt(p, i, a) {}
    forall a | 0 <= a <= |p| - m ensures VertexAt(p[m..], k, a) == VertexAt(p, i, m + a) {}
  }

  lemma CoversStep(E: set<Edge>, d: Table, V: nat, k: nat, i: nat, j: nat)
    requires AllFit(E) && CoversTo(E, d, V, k, i, j) && i < V && j < V && k < V
    ensures CoversTo(E, if Improves(d, V, i, j, k) then Set(d, i, j, d[i][k] + d[k][j]) else d, V, k, i, j + 1)
  {
    var d' := if Improves(d, V, i, j, k) then Set(d, i, j, d[i][k] + d[k][j]) else d;
    forall p | p != [] && WalkIn(E, p, i, j) && Quasi(p, i) && Through(p, i, k + 1) ensures d'[i][j] <= Sum(p) {
      if m :| 0 < m < |p| && VertexAt(p, i, m) == k {
        SplitAt(E, p, i, j, k, m);
        assert FitsBelow(E, i, INF) && FitsBelow(E, k, INF);
        assert CoversAt(E, d[i][k], i, k, k) && CoversAt(E, d[k][j], k, j, k);
      } else {
        assert Through(p, i, k);
        assert CoversAt(E, d[i][j], i, j, k);
      }
    }
    assert CoversAt(E, d'[i][j], i, j, k + 1);
    forall a, b | 0 <= a < V && 0 <= b < V ensures CoversAt(E, d'[a][b], a, b, k) {
      assert CoversAt(E, d[a][b], a, b, k);
    }
  }

  // ----- The beginning and the end of the run

  lemma Begins(w: Table, V: nat)
    requires IsInput(w, V)
    ensures SoundAll(Edges(w, V), w, V, 0) && CoversTo(Edges(w, V), w, V, 0, 0, 0)
  {
    var E := Edges(w, V);
    forall i, j | 0 <= i < V && 0 <= j < V ensures SoundAt(E, w[i][j], i, j, 0) && CoversAt(E, w[i][j], i, j, 0) {
      var e := Edge(i, j, w[i][j]);
      EdgesAre(w, V, e);
      if w[i][j] != INF {
        WalkEdge(E, e);
        assert [e] != [] && Through([e], i, 0);
      }
      forall p | p != [] && WalkIn(E, p, i, j) && Quasi(p, i) && Through(p, i, 0) ensures w[i][j] <= Sum(p) {
        OneEdge(w, V, p, i, j);
      }
    }
  }

  lemma OneEdge(w: Table, V: nat, p: seq<Edge>, i: nat, j: nat)
    requires Square(w, V) && p != [] && WalkIn(Edges(w, V), p, i, j) && Through(p, i, 0) && i < V && j < V
    ensures w[i][j] <= Sum(p)
  {
    var first := VertexAt(p, i, 1);
    assert |p| == 1;
    assert p[0] in p && p == [p[0]];
    EdgesAre(w, V, p[0]);
    WalkEdge(Edges(w, V), p[0]);
    ChainEnd(p, i, j);
  }

  /** After the last row, every entry is done with k. */
  lemma RoundEnds(E: set<Edge>, d: Table, V: nat, k: nat)
    requires CoversTo(E, d, V, k, V, 0)
    ensures CoversTo(E, d, V, k + 1, 0, 0)
  {
  }

  lemma RowEnds(E: set<Edge>, d: Table, V: nat, k: nat, i: nat)
    requires CoversTo(E, d, V, k, i, V)
    ensures CoversTo(E, d, V, k, i + 1, 0)
  {
  }

  /** Splitting a negative cycle at a repeated vertex leaves a shorter negative one. */
  lemma {:induction false} ShrinkCycle(E: set<Edge>, v: nat, c: seq<Edge>) returns (u: nat, q: seq<Edge>)
    requires NegativeCycle(E, v, c)
    ensures NegativeCycle(E, u, q) && Quasi(q, u)
    decreases |c|
  {
    if Quasi(c, v) {
      u, q := v, c;
    } else {
      var i, j :| 0 <= i < j <= |c| && (i > 0 || j < |c|) && VertexAt(c, v, i) == VertexAt(c, v, j);
      CutCycle(E, c, v, v, i, j);
      if Sum(c[i..j]) < 0 {
        u, q := ShrinkCycle(E, VertexAt(c, v, i), c[i..j]);
      } else {
        u, q := ShrinkCycle(E, v, c[..i] + c[j..]);
      }
    }
  }

  lemma ThroughAll(E: set<Edge>, V: nat, p: seq<Edge>, s: nat)
    requires InRange(V, E) && forall e :: e in p ==> e in E
    ensures Through(p, s, V)
  {
    forall m | 0 < m < |p| ensures VertexAt(p, s, m) < V { assert p[m - 1] in E; }
  }

  ghost predicate HasNegativeCycle(E: set<Edge>) {
    exists v, c :: NegativeCycle(E, v, c)
  }

  /** A negative cycle shows on the diagonal, and nothing else does. */
  lemma DiagonalIff(w: Table, d: Table, V: nat)
    requires Square(w, V) && SoundAll(Edges(w, V), d, V, V) && CoversTo(Edges(w, V), d, V, V, 0, 0)
    ensures (exists i :: 0 <= i < V && d[i][i] < 0) <==> HasNegativeCycle(Edges(w, V))
  {
    var E := Edges(w, V);
    if HasNegativeCycle(E) {
      var v, c :| NegativeCycle(E, v, c);
      var u, q := ShrinkCycle(E, v, c);
      assert q[0] in E;
      InputRange(w, V);
      ThroughAll(E, V, q, u);
      assert CoversAt(E, d[u][u], u, u, V);
    }
    if i :| 0 <= i < V && d[i][i] < 0 {
      assert SoundAt(E, d[i][i], i, i, V);
      var p: seq<Edge> :| p != [] && WalkIn(E, p, i, i) && Sum(p) == d[i][i];
      assert NegativeCycle(E, i, p);
    }
  }

  lemma InputRange(w: Table, V: nat)
    requires Square(w, V)
    ensures InRange(V, Edges(w, V))
  {
    forall e | e in Edges(w, V) ensures e.from < V && e.to < V { EdgesAre(w, V, e); }
  }

  /** x is the least weight of a walk of at least one edge from i back to i, the sentinel if none is lighter. */
  ghost predicate IsLeastCycle(E: set<Edge>, i: nat, x: int) {
    && x <= INF && (x != INF ==> exists p: seq<Edge> :: p != [] && WalkIn(E, p, i, i) && Sum(p) == x)
    && forall p: seq<Edge> :: p != [] && WalkIn(E, p, i, i) ==> x <= Sum(p)
  }

  ghost predicate AllDistances(E: set<Edge>, d: Table, V: nat)
    requires Square(d, V)
  {
    forall i, j :: 0 <= i < V && 0 <= j < V ==>
      if i == j then IsLeastCycle(E, i, d[i][j])
      else if Reachable(E, i, j) then d[i][j] < INF && IsDistance(E, i, j, d[i][j])
      else d[i][j] == INF
  }

  lemma EntryIsDistance(w: Table, d: Table, V: nat, i: nat, j: nat)
    requires Square(w, V) && SoundAll(Edges(w, V), d, V, V) && CoversTo(Edges(w, V), d, V, V, 0, 0)
    requires AllFit(Edges(w, V)) && !HasNegativeCycle(Edges(w, V)) && i < V && j < V && i != j
    ensures if Reachable(Edges(w, V), i, j) then d[i][j] < INF && IsDistance(Edges(w, V), i, j, d[i][j]) else d[i][j] == INF
  {
    var E := Edges(w, V);
    InputRange(w, V);
    assert SoundAt(E, d[i][j], i, j, V) && CoversAt(E, d[i][j], i, j, V);
    forall p | WalkIn(E, p, i, j) ensures d[i][j] <= Sum(p) && d[i][j] < INF {
      var q := Shorten(E, p, i, j);
      ThroughAll(E, V, q, i);
      assert FitsBelow(E, i, INF);
    }
  }

  /** Cutting repetitions inside a closed walk leaves a closed walk that is no heavier. */
  lemma {:induction false} ShrinkClosed(E: set<Edge>, i: nat, p: seq<Edge>) returns (q: seq<Edge>)
    requires p != [] && WalkIn(E, p, i, i) && !HasNegativeCycle(E)
    ensures q != [] && WalkIn(E, q, i, i) && Quasi(q, i) && Sum(q) <= Sum(p)
    decreases |p|
  {
    if Quasi(p, i) {
      q := p;
    } else {
      var a, b :| 0 <= a < b <= |p| && (a > 0 || b < |p|) && VertexAt(p, i, a) == VertexAt(p, i, b);
      CutCycle(E, p, i, i, a, b);
      if Sum(p[a..b]) < 0 { assert NegativeCycle(E, VertexAt(p, i, a), p[a..b]); }
      q := ShrinkClosed(E, i, p[..a] + p[b..]);
    }
  }

  lemma DiagonalIsLeast(w: Table, d: Table, V: nat, i: nat)
    requires Square(w, V) && SoundAll(Edges(w, V), d, V, V) && CoversTo(Edges(w, V), d, V, V, 0, 0)
    requires !HasNegativeCycle(Edges(w, V)) && i < V
    ensures IsLeastCycle(Edges(w, V), i, d[i][i])
  {
    var E := Edges(w, V);
    InputRange(w, V);
    assert SoundAt(E, d[i][i], i, i, V) && CoversAt(E, d[i][i], i, i, V);
    forall p: seq<Edge> | p != [] && WalkIn(E, p, i, i) ensures d[i][i] <= Sum(p) {
      var q := ShrinkClosed(E, i, p);
      ThroughAll(E, V, q, i);
    }
  }

  // ----- The recorded hops lead to the target

  /** Finite sums are never less than the entry. */
  ghost predicate Triangle(d: Table, V: nat, k: nat)
    requires Square(d, V)
  {
    forall h, a, b :: 0 <= h < k && 0 <= h < V && 0 <= a < V && 0 <= b < V && d[a][h] != INF && d[h][b] != INF ==>
      d[a][b] <= d[a][h] + d[h][b]
  }

  ghost predicate Closed(d: Table, V: nat, k: nat)
    requires Square(d, V)
  {
    forall h, a, b :: 0 <= h < k && 0 <= h < V && 0 <= a < V && 0 <= b < V && a != b && d[a][h] != INF && d[h][b] != INF ==>
      d[a][b] != INF
  }

  ghost predicate NoNegative(d: Table, V: nat)
    requires Square(d, V)
  {
    forall i :: 0 <= i < V ==> d[i][i] >= 0
  }

  ghost predicate AtMost(d: Table, w: Table, V: nat)
    requires Square(d, V) && Square(w, V)
  {
    forall i, j :: 0 <= i < V && 0 <= j < V ==> d[i][j] <= w[i][j]
  }

  /** The hop recorded for (i, j) is an edge, what it leaves to go is the entry of (hop, j), and the number
      `left` of hops falls; every hop but the last goes to a vertex below k. */
  ghost predicate HopAt(w: Table, d: Table, nxt: Table, V: nat, k: nat, left: Table, i: nat, j: nat)
    requires Square(w, V) && Square(d, V) && Square(nxt, V) && Square(left, V) && i < V && j < V
  {
    var h := nxt[i][j];
    if h == -1 then d[i][j] == INF
    else
      && d[i][j] != INF && 0 <= h < V && h != i && w[i][h] != INF && d[i][j] == w[i][h] + ToGo(d, h, j)
      && (h == j || (h < k && nxt[h][j] != -1 && left[h][j] < left[i][j]))
  }

  /** What is left to go from h to j. */
  function ToGo(d: Table, h: nat, j: nat): int {
    if h == j || h >= |d| || j >= |d[h]| then 0 else d[h][j]
  }

  ghost predicate HopsBy(w: Table, d: Table, nxt: Table, V: nat, k: nat, left: Table, most: nat)
    requires Square(w, V) && Square(d, V) && Square(nxt, V)
  {
    && Square(left, V)
    && forall i, j :: 0 <= i < V && 0 <= j < V ==> (i != j ==> HopAt(w, d, nxt, V, k, left, i, j)) && 0 <= left[i][j] <= most
  }

  ghost predicate Routed(w: Table, d: Table, nxt: Table, V: nat, k: nat) {
    && Square(w, V) && Square(d, V) && Square(nxt, V) && NoNegative(d, V) && AtMost(d, w, V) && Triangle(d, V, k)
    && exists left: Table, most: nat :: HopsBy(w, d, nxt, V, k, left, most)
  }

  /** A whole round, read off the tables before it: row and column k do not change while d[k][k] is not negative. */
  ghost predicate RoundIs(d: Table, nxt: Table, d': Table, nxt': Table, V: nat, k: nat, i: nat, j: nat) {
    && Square(d, V) && Square(nxt, V) && Square(d', V) && Square(nxt', V) && k < V
    && forall a, b :: 0 <= a < V && 0 <= b < V ==>
        if (a < i || (a == i && b < j)) && Improves(d, V, a, b, k) then
          d'[a][b] == d[a][k] + d[k][b] && nxt'[a][b] == nxt[a][k]
        else d'[a][b] == d[a][b] && nxt'[a][b] == nxt[a][b]
  }

  lemma RoundStep(d0: Table, n0: Table, d: Table, n: Table, V: nat, k: nat, i: nat, j: nat)
    requires RoundIs(d0, n0, d, n, V, k, i, j) && d0[k][k] >= 0 && i < V && j < V
    ensures Improves(d, V, i, j, k) ==> RoundIs(d0, n0, Set(d, i, j, d[i][k] + d[k][j]), Set(n, i, j, n[i][k]), V, k, i, j + 1)
    ensures !Improves(d, V, i, j, k) ==> RoundIs(d0, n0, d, n, V, k, i, j + 1)
  {
    assert !Improves(d0, V, i, k, k) && !Improves(d0, V, k, j, k);
    assert d[i][k] == d0[i][k] && d[k][j] == d0[k][j] && d[i][j] == d0[i][j] && n[i][k] == n0[i][k];
  }

  lemma RoundRow(d0: Table, n0: Table, d: Table, n: Table, V: nat, k: nat, i: nat)
    requires RoundIs(d0, n0, d, n, V, k, i, V)
    ensures RoundIs(d0, n0, d, n, V, k, i + 1, 0)
  {
  }

  lemma RoundBegins(d: Table, n: Table, V: nat, k: nat)
    requires Square(d, V) && Square(n, V) && k < V
    ensures RoundIs(d, n, d, n, V, k, 0, 0)
  {
  }

  lemma TriangleStep(d: Table, n: Table, d': Table, n': Table, V: nat, k: nat)
    requires RoundIs(d, n, d', n', V, k, V, 0) && Triangle(d, V, k) && Closed(d, V, k) && NoNegative(d, V)
    ensures Triangle(d', V, k + 1)
  {
    assert d[k][k] >= 0;
    forall h, a, b | 0 <= h < k + 1 && 0 <= h < V && 0 <= a < V && 0 <= b < V && d'[a][h] != INF && d'[h][b] != INF
      ensures d'[a][b] <= d'[a][h] + d'[h][b]
    {
      assert !Improves(d, V, a, k, k) && !Improves(d, V, k, b, k);
      if h < k {
        assert d[a][k] != INF && d[k][h] != INF && d[h][b] != INF ==> d[k][b] <= d[k][h] + d[h][b];
        assert d[a][h] != INF && d[h][k] != INF && d[k][b] != INF ==> d[a][k] <= d[a][h] + d[h][k];
        assert d[k][h] != INF && d[h][k] != INF ==> d[k][k] <= d[k][h] + d[h][k];
        assert d[a][h] != INF && d[h][b] != INF ==> d[a][b] <= d[a][h] + d[h][b];
      }
    }
  }

  /** An entry that did not improve keeps its hop, and what that hop leads to did not improve either. */
  lemma UnimprovedHop(w: Table, d: Table, nxt: Table, V: nat, k: nat, left: Table, most: nat, i: nat, j: nat)
    requires Square(w, V) && Square(d, V) && Square(nxt, V) && i < V && j < V && k < V
    requires HopsBy(w, d, nxt, V, k, left, most) && Triangle(d, V, k) && Closed(d, V, k) && AtMost(d, w, V) && NoNegative(d, V)
    requires forall a, b :: 0 <= a < V && 0 <= b < V ==> w[a][b] <= INF
    requires i != j && nxt[i][j] != -1 && nxt[i][j] != j && !Improves(d, V, i, j, k)
    ensures 0 <= nxt[i][j] < k && !Improves(d, V, nxt[i][j], j, k)
  {
    assert HopAt(w, d, nxt, V, k, left, i, j);
    var h := nxt[i][j];
    assert d[i][h] <= w[i][h] && d[i][h] != INF;
    assert d[h][k] != INF ==> d[i][k] <= d[i][h] + d[h][k] && (i != k ==> d[i][k] != INF);
    assert d[k][k] >= 0;
  }

  /** What the hops give for an entry that improves. */
  lemma TowardsK(w: Table, d: Table, nxt: Table, V: nat, k: nat, left: Table, most: nat, i: nat, j: nat)
    requires Square(w, V) && Square(d, V) && Square(nxt, V) && i < V && j < V && k < V
    requires HopsBy(w, d, nxt, V, k, left, most) && NoNegative(d, V) && Improves(d, V, i, j, k)
    ensures i != k && j != k && nxt[i][k] != -1 && 0 <= nxt[i][k] <= k && nxt[i][k] != i && w[i][nxt[i][k]] != INF
    ensures d[i][k] == w[i][nxt[i][k]] + ToGo(d, nxt[i][k], k) && (nxt[i][k] != k ==> d[nxt[i][k]][k] != INF)
    ensures nxt[i][k] != k ==> left[nxt[i][k]][k] < left[i][k]
  {
    assert d[k][k] >= 0 && d[i][k] != INF && i != k;
    assert HopAt(w, d, nxt, V, k, left, i, k);
    var h := nxt[i][k];
    if h != k { assert HopAt(w, d, nxt, V, k, left, h, k); }
  }

  /** An entry that improved takes the hop towards k; what that hop leads to is as short as the way through k. */
  lemma ImprovedHop(w: Table, d: Table, nxt: Table, d': Table, nxt': Table, V: nat, k: nat, left: Table, most: nat,
                    i: nat, j: nat)
    requires RoundIs(d, nxt, d', nxt', V, k, V, 0) && Square(w, V) && i < V && j < V && i != j && Improves(d, V, i, j, k)
    requires HopsBy(w, d, nxt, V, k, left, most) && Triangle(d, V, k) && AtMost(d, w, V)
    requires NoNegative(d, V) && NoNegative(d', V) && Closed(d', V, k + 1)
    requires forall a, b :: 0 <= a < V && 0 <= b < V ==> w[a][b] <= INF
    ensures 0 <= nxt[i][k] <= k && nxt[i][k] != j && d'[nxt[i][k]][j] != INF && d'[i][j] != INF
    ensures d'[nxt[i][k]][j] == ToGo(d, nxt[i][k], k) + d[k][j]
  {
    hide HopsBy, HopAt;
    TowardsK(w, d, nxt, V, k, left, most, i, j);
    var h := nxt[i][k];
    assert d[i][h] <= w[i][h] && d[i][h] != INF && d[i][j] <= w[i][j];
    assert d'[j][j] >= 0 && (d[j][k] != INF ==> 0 <= d[j][k] + d[k][j]);
    assert d[k][k] >= 0;
    assert h != j;
    assert !Improves(d, V, h, k, k) && !Improves(d, V, k, j, k);
    assert d'[h][k] == d[h][k] && d'[k][j] == d[k][j];
    assert d'[h][j] != INF;
    assert h != k && d[h][j] != INF ==> d[i][j] <= d[i][h] + d[h][j];
  }

  lemma ImprovedHopAt(w: Table, d: Table, nxt: Table, d': Table, nxt': Table, V: nat, k: nat, left: Table, most: nat,
                      left': Table, i: nat, j: nat)
    requires RoundIs(d, nxt, d', nxt', V, k, V, 0) && Square(w, V) && i < V && j < V && i != j && Improves(d, V, i, j, k)
    requires HopsBy(w, d, nxt, V, k, left, most) && Triangle(d, V, k) && AtMost(d, w, V)
    requires NoNegative(d, V) && NoNegative(d', V) && Closed(d', V, k + 1)
    requires forall a, b :: 0 <= a < V && 0 <= b < V ==> w[a][b] <= INF
    requires LeftNow(d, V, k, left, most, left')
    ensures HopAt(w, d', nxt', V, k + 1, left', i, j)
  {
    hide Triangle, AtMost, Closed;
    TowardsK(w, d, nxt, V, k, left, most, i, j);
    ImprovedHop(w, d, nxt, d', nxt', V, k, left, most, i, j);
    var h := nxt[i][k];
    assert HopAt(w, d, nxt, V, k, left, h, j) && left[h][j] <= most;
    assert HopAt(w, d, nxt, V, k, left, i, k) && 0 <= left[i][k];
    assert Improves(d, V, h, j, k) ==> h != k && HopAt(w, d, nxt, V, k, left, h, k);
    assert d'[i][j] == d[i][k] + d[k][j] && nxt'[i][j] == h;
    assert nxt'[h][j] != -1;
    assert left'[i][j] == most + 1 + left[i][k];
    assert left'[h][j] < left'[i][j];
  }

  lemma UnimprovedHopAt(w: Table, d: Table, nxt: Table, d': Table, nxt': Table, V: nat, k: nat, left: Table, most: nat,
                        left': Table, i: nat, j: nat)
    requires RoundIs(d, nxt, d', nxt', V, k, V, 0) && Square(w, V) && i < V && j < V && i != j && !Improves(d, V, i, j, k)
    requires HopsBy(w, d, nxt, V, k, left, most) && Triangle(d, V, k) && AtMost(d, w, V)
    requires NoNegative(d, V) && NoNegative(d', V) && Closed(d, V, k)
    requires forall a, b :: 0 <= a < V && 0 <= b < V ==> w[a][b] <= INF
    requires LeftNow(d, V, k, left, most, left')
    ensures HopAt(w, d', nxt', V, k + 1, left', i, j)
  {
    hide Triangle, AtMost, Closed;
    assert HopAt(w, d, nxt, V, k, left, i, j);
    assert d'[i][j] == d[i][j] && nxt'[i][j] == nxt[i][j] && left'[i][j] == left[i][j];
    if nxt[i][j] != -1 && nxt[i][j] != j {
      UnimprovedHop(w, d, nxt, V, k, left, most, i, j);
      var h := nxt[i][j];
      assert d'[h][j] == d[h][j] && nxt'[h][j] == nxt[h][j] && left'[h][j] == left[h][j];
    }
  }

  /** The hops left after the round: improved entries first go towards k. */
  ghost predicate LeftNow(d: Table, V: nat, k: nat, left: Table, most: nat, left': Table) {
    && Square(d, V) && Square(left, V) && Square(left', V) && k < V
    && forall i, j :: 0 <= i < V && 0 <= j < V ==>
        left'[i][j] == if Improves(d, V, i, j, k) then most + 1 + left[i][k] else left[i][j]
  }

  lemma HopsStep(w: Table, d: Table, nxt: Table, d': Table, nxt': Table, V: nat, k: nat, left: Table, most: nat, left': Table)
    requires RoundIs(d, nxt, d', nxt', V, k, V, 0) && Square(w, V) && AtMost(d, w, V)
    requires HopsBy(w, d, nxt, V, k, left, most) && Triangle(d, V, k) && LeftNow(d, V, k, left, most, left')
    requires NoNegative(d, V) && NoNegative(d', V) && Closed(d, V, k) && Closed(d', V, k + 1)
    requires forall a, b :: 0 <= a < V && 0 <= b < V ==> w[a][b] <= INF
    ensures HopsBy(w, d', nxt', V, k + 1, left', most + 1 + most)
  {
    hide Triangle, AtMost, Closed;
    var next := k + 1;
    forall i, j | 0 <= i < V && 0 <= j < V
      ensures (i != j ==> HopAt(w, d', nxt', V, next, left', i, j)) && 0 <= left'[i][j] <= most + 1 + most
    {
      assert 0 <= left[i][j] <= most && 0 <= left[i][k] <= most;
      if i == j {
      } else if Improves(d, V, i, j, k) {
        ImprovedHopAt(w, d, nxt, d', nxt', V, k, left, most, left', i, j);
      } else {
        UnimprovedHopAt(w, d, nxt, d', nxt', V, k, left, most, left', i, j);
      }
    }
  }

  lemma RoutedBegins(w: Table, nxt: Table, V: nat)
    requires IsInput(w, V) && Square(nxt, V)
    requires forall i, j :: 0 <= i < V && 0 <= j < V ==> nxt[i][j] == if w[i][j] != INF && i != j then j else -1
    ensures NoNegative(w, V) ==> Routed(w, w, nxt, V, 0)
  {
    var left: Table := seq(V, i => seq(V, j => 0));
    assert HopsBy(w, w, nxt, V, 0, left, 0);
  }

  lemma RoutedStep(w: Table, d: Table, nxt: Table, d': Table, nxt': Table, V: nat, k: nat)
    requires IsInput(w, V) && Routed(w, d, nxt, V, k) && RoundIs(d, nxt, d', nxt', V, k, V, 0)
    requires NoNegative(d', V) && Closed(d, V, k) && Closed(d', V, k + 1)
    ensures Routed(w, d', nxt', V, k + 1)
  {
    hide Triangle, AtMost, Closed, HopsBy, NoNegative, Improves;
    var left: Table, most: nat :| HopsBy(w, d, nxt, V, k, left, most);
    SquareCounts(w, d, nxt, V, k, left, most);
    var left' := NewLeft(d, V, k, left, most);
    HopsStep(w, d, nxt, d', nxt', V, k, left, most, left');
    TriangleStep(d, nxt, d', nxt', V, k);
    StillAtMost(w, d, nxt, d', nxt', V, k);
  }

  lemma SquareCounts(w: Table, d: Table, nxt: Table, V: nat, k: nat, left: Table, most: nat)
    requires Square(w, V) && Square(d, V) && Square(nxt, V) && HopsBy(w, d, nxt, V, k, left, most)
    ensures Square(left, V)
  {
  }

  lemma StillAtMost(w: Table, d: Table, nxt: Table, d': Table, nxt': Table, V: nat, k: nat)
    requires Square(w, V) && RoundIs(d, nxt, d', nxt', V, k, V, 0) && AtMost(d, w, V)
    ensures AtMost(d', w, V)
  {
    forall i, j | 0 <= i < V && 0 <= j < V ensures d'[i][j] <= w[i][j] {
      assert d[i][j] <= w[i][j];
      assert Improves(d, V, i, j, k) ==> d'[i][j] == d[i][k] + d[k][j];
      assert !Improves(d, V, i, j, k) ==> d'[i][j] == d[i][j];
    }
  }

  ghost function NewLeft(d: Table, V: nat, k: nat, left: Table, most: nat): (left': Table)
    requires Square(d, V) && Square(left, V) && k < V
    ensures LeftNow(d, V, k, left, most, left')
  {
    seq(V, i requires 0 <= i < V =>
      seq(V, j requires 0 <= j < V => if Improves(d, V, i, j, k) then most + 1 + left[i][k] else left[i][j]))
  }

  lemma {:induction false} SimpleThrough(E: set<Edge>, p: seq<Edge>, s: nat, t: nat, k: nat) returns (q: seq<Edge>)
    requires WalkIn(E, p, s, t) && Through(p, s, k)
    ensures WalkIn(E, q, s, t) && Through(q, s, k) && Simple(q, s)
    decreases |p|
  {
    if Simple(p, s) {
      q := p;
    } else {
      var i, j :| 0 <= i < j <= |p| && VertexAt(p, s, i) == VertexAt(p, s, j);
      CutCycle(E, p, s, t, i, j);
      var c := p[..i] + p[j..];
      forall m | 0 < m < |c| ensures VertexAt(c, s, m) < k {
        assert VertexAt(c, s, m) == VertexAt(p, s, if m <= i then m else m + j - i);
      }
      q := SimpleThrough(E, c, s, t, k);
    }
  }

  /** The entries between the sentinel and the walks: what two finite entries meet in is finite. */
  lemma ClosedAt(E: set<Edge>, d: Table, V: nat, k: nat)
    requires AllFit(E) && SoundAll(E, d, V, k) && CoversTo(E, d, V, k, 0, 0)
    ensures Closed(d, V, k)
  {
    forall h, a, b | 0 <= h < k && 0 <= h < V && 0 <= a < V && 0 <= b < V && a != b && d[a][h] != INF && d[h][b] != INF
      ensures d[a][b] != INF
    {
      var p := EntryWalk(E, d, V, k, a, h);
      var q := EntryWalk(E, d, V, k, h, b);
      WalkConcat(E, p, q, a, h, b);
      ThroughConcat(E, p, q, a, h, b, k);
      var r := SimpleThrough(E, p + q, a, b, k);
      assert FitsBelow(E, a, INF) && CoversAt(E, d[a][b], a, b, k) && Quasi(r, a) && r != [];
    }
  }

  lemma EntryWalk(E: set<Edge>, d: Table, V: nat, k: nat, a: nat, b: nat) returns (p: seq<Edge>)
    requires SoundAll(E, d, V, k) && a < V && b < V && d[a][b] != INF
    ensures p != [] && WalkIn(E, p, a, b) && Through(p, a, k) && Sum(p) == d[a][b]
  {
    assert SoundAt(E, d[a][b], a, b, k);
    p :| p != [] && WalkIn(E, p, a, b) && Through(p, a, k) && Sum(p) == d[a][b];
  }

  lemma DiagonalNotNegative(E: set<Edge>, d: Table, V: nat, k: nat)
    requires SoundAll(E, d, V, k) && !HasNegativeCycle(E)
    ensures NoNegative(d, V)
  {
    forall i | 0 <= i < V ensures d[i][i] >= 0 {
      if d[i][i] < 0 {
        var p := EntryWalk(E, d, V, k, i, i);
        assert NegativeCycle(E, i, p);
      }
    }
  }

  // ----- The program

  ghost function Snapshot(a: array2<int>): (t: Table)
    reads a
    ensures |t| == a.Length0 && forall i :: 0 <= i < |t| ==> |t[i]| == a.Length1 && forall j :: 0 <= j < |t[i]| ==> t[i][j] == a[i, j]
  {
    seq(a.Length0, i requires 0 <= i < a.Length0 reads a => seq(a.Length1, j requires 0 <= j < a.Length1 reads a => a[i, j]))
  }

  /** One entry, on the arrays. */
  method RelaxEntry(dist: array2<int>, nxt: array2<int>, V: nat, i: nat, j: nat, k: nat)
    requires dist != nxt && dist.Length0 == dist.Length1 == nxt.Length0 == nxt.Length1 == V && i < V && j < V && k < V
    modifies dist, nxt
    ensures var d := old(Snapshot(dist)); Snapshot(dist) == if Improves(d, V, i, j, k) then Set(d, i, j, d[i][k] + d[k][j]) else d
    ensures var d, n := old(Snapshot(dist)), old(Snapshot(nxt)); Snapshot(nxt) == if Improves(d, V, i, j, k) then Set(n, i, j, n[i][k]) else n
  {
    ghost var d, n := Snapshot(dist), Snapshot(nxt);
    if dist[i, k] == INF || dist[k, j] == INF {
    } else if dist[i, k] + dist[k, j] < dist[i, j] {
      dist[i, j] := dist[i, k] + dist[k, j];
      nxt[i, j] := nxt[i, k];
      ghost var d1, n1 := Set(d, i, j, d[i][k] + d[k][j]), Set(n, i, j, n[i][k]);
      assert forall a :: 0 <= a < V ==> Snapshot(dist)[a] == d1[a] && Snapshot(nxt)[a] == n1[a];
      assert Snapshot(dist) == d1 && Snapshot(nxt) == n1;
    }
  }

  /** `floyd_warshall`.  The diagonal goes negative exactly when the graph has a negative cycle, which is what is
      reported.  Otherwise every entry between different vertices is the least weight over all walks, INF exactly when
      there is none; every diagonal entry is the least weight of a way back; and following `nxt` leads to the target
      along edges whose weights account for the entry. */
  method FloydWarshall(dist: array2<int>, nxt: array2<int>, V: nat) returns (negative: bool)
    requires dist != nxt && dist.Length0 == dist.Length1 == nxt.Length0 == nxt.Length1 == V
    requires IsInput(Snapshot(dist), V) && AllFit(Edges(Snapshot(dist), V))
    modifies dist, nxt
    ensures negative <==> HasNegativeCycle(old(Edges(Snapshot(dist), V)))
    ensures !negative ==> AllDistances(old(Edges(Snapshot(dist), V)), Snapshot(dist), V)
    ensures !negative ==> Routed(old(Snapshot(dist)), Snapshot(dist), Snapshot(nxt), V, V)
  {
    hide SoundAll, CoversTo, AllFit, HasNegativeCycle, Improves, Set, Edges, Routed;
    ghost var w := Snapshot(dist);
    ghost var E := Edges(w, V);
    FirstHops(dist, nxt, V);
    assert Snapshot(dist) == w;
    Begins(w, V);
    RoutedBegins(w, Snapshot(nxt), V);
    if !HasNegativeCycle(E) { DiagonalNotNegative(E, w, V, 0); }
    for k := 0 to V
      invariant SoundAll(E, Snapshot(dist), V, k) && CoversTo(E, Snapshot(dist), V, k, 0, 0)
      invariant !HasNegativeCycle(E) ==> Routed(w, Snapshot(dist), Snapshot(nxt), V, k)
    {
      RelaxRound(dist, nxt, V, k, w, E);
    }
    DiagonalIff(w, Snapshot(dist), V);
    negative := false;
    for i := 0 to V
      invariant forall j :: 0 <= j < i ==> dist[j, j] >= 0
    {
      if dist[i, i] < 0 {
        assert Snapshot(dist)[i][i] < 0;
        return true;
      }
    }
    assert forall j :: 0 <= j < V ==> Snapshot(dist)[j][j] == dist[j, j];
    AreDistances(w, Snapshot(dist), V);
  }

  lemma AreDistances(w: Table, d: Table, V: nat)
    requires Square(w, V) && SoundAll(Edges(w, V), d, V, V) && CoversTo(Edges(w, V), d, V, V, 0, 0)
    requires AllFit(Edges(w, V)) && !HasNegativeCycle(Edges(w, V))
    ensures AllDistances(Edges(w, V), d, V)
  {
    hide Edges, AllFit, HasNegativeCycle, CoversTo, IsDistance, IsLeastCycle, Reachable;
    forall i, j | 0 <= i < V && 0 <= j < V
      ensures if i == j then IsLeastCycle(Edges(w, V), i, d[i][j])
              else if Reachable(Edges(w, V), i, j) then d[i][j] < INF && IsDistance(Edges(w, V), i, j, d[i][j])
              else d[i][j] == INF
    {
      if i == j { DiagonalIsLeast(w, d, V, i); } else { EntryIsDistance(w, d, V, i, j); }
    }
  }

  method FirstHops(dist: array2<int>, nxt: array2<int>, V: nat)
    requires dist != nxt && dist.Length0 == dist.Length1 == nxt.Length0 == nxt.Length1 == V
    modifies nxt
    ensures forall i, j :: 0 <= i < V && 0 <= j < V ==>
              Snapshot(nxt)[i][j] == if Snapshot(dist)[i][j] != INF && i != j then j else -1
  {
    for i := 0 to V
      invariant forall a, b :: 0 <= a < i && 0 <= b < V ==> nxt[a, b] == if dist[a, b] != INF && a != b then b else -1
    {
      for j := 0 to V
        invariant forall a, b :: 0 <= a < i && 0 <= b < V ==> nxt[a, b] == if dist[a, b] != INF && a != b then b else -1
        invariant forall b :: 0 <= b < j ==> nxt[i, b] == if dist[i, b] != INF && i != b then b else -1
      {
        nxt[i, j] := if dist[i, j] != INF && i != j then j else -1;
      }
    }
  }

  /** The two inner loops: all entries, in place, with intermediate vertex k. */
  method RelaxRound(dist: array2<int>, nxt: array2<int>, V: nat, k: nat, ghost w: Table, ghost E: set<Edge>)
    requires dist != nxt && dist.Length0 == dist.Length1 == nxt.Length0 == nxt.Length1 == V && k < V && AllFit(E) && IsInput(w, V)
    requires SoundAll(E, Snapshot(dist), V, k) && CoversTo(E, Snapshot(dist), V, k, 0, 0)
    requires !HasNegativeCycle(E) ==> Routed(w, Snapshot(dist), Snapshot(nxt), V, k)
    modifies dist, nxt
    ensures SoundAll(E, Snapshot(dist), V, k + 1) && CoversTo(E, Snapshot(dist), V, k + 1, 0, 0)
    ensures !HasNegativeCycle(E) ==> Routed(w, Snapshot(dist), Snapshot(nxt), V, k + 1)
  {
    hide *;
    ghost var d0, n0 := Snapshot(dist), Snapshot(nxt);
    RoundStarts(E, d0, n0, V, k);
    for i := 0 to V
      invariant InRound(E, d0, n0, Snapshot(dist), Snapshot(nxt), V, k, i, 0)
    {
      for j := 0 to V
        invariant InRound(E, d0, n0, Snapshot(dist), Snapshot(nxt), V, k, i, j)
      {
        EntryDone(E, d0, n0, Snapshot(dist), Snapshot(nxt), V, k, i, j);
        RelaxEntry(dist, nxt, V, i, j, k);
      }
      RowDone(E, d0, n0, Snapshot(dist), Snapshot(nxt), V, k, i);
    }
    RoundDone(w, E, d0, n0, Snapshot(dist), Snapshot(nxt), V, k);
  }

  /** Within round k, at entry (i, j): what the tables say, and how they came from the tables before the round. */
  ghost predicate InRound(E: set<Edge>, d0: Table, n0: Table, d: Table, nxt: Table, V: nat, k: nat, i: nat, j: nat) {
    && SoundAll(E, d, V, k + 1) && CoversTo(E, d, V, k, i, j) && Square(d0, V) && Square(d, V) && Square(nxt, V) && k < V
    && (d0[k][k] >= 0 ==> RoundIs(d0, n0, d, nxt, V, k, i, j))
  }

  lemma RoundStarts(E: set<Edge>, d: Table, nxt: Table, V: nat, k: nat)
    requires SoundAll(E, d, V, k) && CoversTo(E, d, V, k, 0, 0) && Square(nxt, V) && k < V
    ensures InRound(E, d, nxt, d, nxt, V, k, 0, 0)
  {
    SoundGrows(E, d, V, k);
    RoundBegins(d, nxt, V, k);
  }

  lemma EntryDone(E: set<Edge>, d0: Table, n0: Table, d: Table, nxt: Table, V: nat, k: nat, i: nat, j: nat)
    requires InRound(E, d0, n0, d, nxt, V, k, i, j) && AllFit(E) && i < V && j < V
    ensures Square(d, V) && Square(nxt, V) && k < V
    ensures Improves(d, V, i, j, k) ==>
              InRound(E, d0, n0, Set(d, i, j, d[i][k] + d[k][j]), Set(nxt, i, j, nxt[i][k]), V, k, i, j + 1)
    ensures !Improves(d, V, i, j, k) ==> InRound(E, d0, n0, d, nxt, V, k, i, j + 1)
  {
    hide CoversTo, AllFit, Improves, Set, RoundIs;
    CoversStep(E, d, V, k, i, j);
    if d0[k][k] >= 0 { RoundStep(d0, n0, d, nxt, V, k, i, j); }
    if Improves(d, V, i, j, k) {
      SoundStep(E, d, V, i, j, k);
      SetSquare(d, V, i, j, d[i][k] + d[k][j]);
      SetSquare(nxt, V, i, j, nxt[i][k]);
    }
  }

  lemma SetSquare(t: Table, V: nat, i: nat, j: nat, x: int)
    requires Square(t, V) && i < V && j < V
    ensures Square(Set(t, i, j, x), V)
  {
  }

  lemma RowDone(E: set<Edge>, d0: Table, n0: Table, d: Table, nxt: Table, V: nat, k: nat, i: nat)
    requires InRound(E, d0, n0, d, nxt, V, k, i, V)
    ensures InRound(E, d0, n0, d, nxt, V, k, i + 1, 0)
  {
    hide SoundAll, CoversTo, RoundIs;
    RowEnds(E, d, V, k, i);
    if d0[k][k] >= 0 { RoundRow(d0, n0, d, nxt, V, k, i); }
  }

  lemma RoundDone(w: Table, E: set<Edge>, d0: Table, n0: Table, d: Table, nxt: Table, V: nat, k: nat)
    requires AllFit(E) && IsInput(w, V) && (!HasNegativeCycle(E) ==> Routed(w, d0, n0, V, k))
    requires SoundAll(E, d0, V, k) && CoversTo(E, d0, V, k, 0, 0) && InRound(E, d0, n0, d, nxt, V, k, V, 0)
    ensures SoundAll(E, d, V, k + 1) && CoversTo(E, d, V, k + 1, 0, 0)
    ensures !HasNegativeCycle(E) ==> Routed(w, d, nxt, V, k + 1)
  {
    hide SoundAll, CoversTo, RoundIs, AllFit, IsInput, Routed, HasNegativeCycle;
    RoundEnds(E, d, V, k);
    if !HasNegativeCycle(E) { RoundRoutes(w, E, d0, n0, d, nxt, V, k); }
  }

  lemma RoundRoutes(w: Table, E: set<Edge>, d: Table, nxt: Table, d': Table, nxt': Table, V: nat, k: nat)
    requires AllFit(E) && IsInput(w, V) && !HasNegativeCycle(E) && Routed(w, d, nxt, V, k) && k < V
    requires SoundAll(E, d, V, k) && CoversTo(E, d, V, k, 0, 0)
    requires SoundAll(E, d', V, k + 1) && CoversTo(E, d', V, k + 1, 0, 0)
    requires d[k][k] >= 0 ==> RoundIs(d, nxt, d', nxt', V, k, V, 0)
    ensures Routed(w, d', nxt', V, k + 1)
  {
    DiagonalNotNegative(E, d, V, k);
    DiagonalNotNegative(E, d', V, k + 1);
    ClosedAt(E, d, V, k);
    ClosedAt(E, d', V, k + 1);
    RoutedStep(w, d, nxt, d', nxt', V, k);
  }

  // ----- Path printing

  /** The hops of a path, each an edge of the graph; the sum of their weights. */
  ghost predicate IsPath(w: Table, V: nat, path: seq<nat>)
    requires Square(w, V)
  {
    && (forall m :: 0 <= m < |path| ==> path[m] < V)
    && (forall m :: 0 <= m < |path| - 1 ==> path[m] != path[m + 1] && w[path[m]][path[m + 1]] != INF)
  }

  ghost function PathWeight(w: Table, V: nat, path: seq<nat>): int
    requires Square(w, V) && IsPath(w, V, path)
  {
    if |path| <= 1 then 0 else PathWeight(w, V, path[..|path| - 1]) + w[path[|path| - 2]][path[|path| - 1]]
  }

  /** `print_path` in a graph without a negative cycle.  Between different vertices it prints nothing if there is no
      path, and otherwise it terminates with a path of exactly the computed weight; from a vertex to itself it prints
      that vertex at most. */
  method PrintPath(ghost w: Table, ghost d: Table, nxt: Table, V: nat, u: nat, v: nat) returns (path: seq<nat>)
    requires IsInput(w, V) && u < V && v < V
    requires Routed(w, d, nxt, V, V) && AllDistances(Edges(w, V), d, V)
    ensures u != v ==> (path == [] <==> !Reachable(Edges(w, V), u, v))
    ensures u == v ==> path == [] || path == [u]
    ensures path != [] ==> path[0] == u && path[|path| - 1] == v && IsPath(w, V, path)
    ensures u != v && path != [] ==> PathWeight(w, V, path) == d[u][v]
  {
    hide *;
    ghost var left, most := Hops(w, d, nxt, V);
    if u != v { HopOn(w, d, nxt, V, left, most, u, v); }
    if nxt[u][v] == -1 { return []; }
    path := [u];
    PathStart(w, V, u);
    var x := u;
    while x != v
      invariant x < V && path != [] && path[0] == u && path[|path| - 1] == x && IsPath(w, V, path)
      invariant u == v ==> path == [u] && x == v
      invariant x != v ==> nxt[x][v] != -1
      invariant u != v ==> PathWeight(w, V, path) + ToGo(d, x, v) == d[u][v]
      decreases if x == v then 0 else 1 + left[x][v]
    {
      HopOn(w, d, nxt, V, left, most, x, v);
      PathGrows(w, V, path, nxt[x][v]);
      x := nxt[x][v];
      path := path + [x];
    }
    ToGoNone(d, v);
  }

  lemma ToGoNone(d: Table, v: nat)
    ensures ToGo(d, v, v) == 0
  {
  }

  lemma Hops(w: Table, d: Table, nxt: Table, V: nat) returns (left: Table, most: nat)
    requires Routed(w, d, nxt, V, V)
    ensures Square(w, V) && Square(d, V) && Square(nxt, V) && HopsBy(w, d, nxt, V, V, left, most)
    ensures |w| == |d| == |nxt| == |left| == V
    ensures forall i :: 0 <= i < V ==> |w[i]| == |d[i]| == |nxt[i]| == |left[i]| == V
    ensures forall i, j :: 0 <= i < V && 0 <= j < V ==> left[i][j] >= 0
  {
    left, most :| HopsBy(w, d, nxt, V, V, left, most);
  }

  /** One recorded hop of the final tables. */
  lemma HopOn(w: Table, d: Table, nxt: Table, V: nat, left: Table, most: nat, x: nat, v: nat)
    requires IsInput(w, V) && Routed(w, d, nxt, V, V) && AllDistances(Edges(w, V), d, V) && x < V && v < V && x != v
    requires Square(w, V) && Square(d, V) && Square(nxt, V) && HopsBy(w, d, nxt, V, V, left, most)
    ensures |nxt| == |d| == |w| == |left| == V && |nxt[x]| == |d[x]| == |w[x]| == |left[x]| == V && 0 <= left[x][v]
    ensures nxt[x][v] == -1 <==> !Reachable(Edges(w, V), x, v)
    ensures ToGo(d, x, v) == d[x][v]
    ensures var h := nxt[x][v]; h != -1 ==> 0 <= h < V && h != x && w[x][h] != INF && |d[h]| == |nxt[h]| == |left[h]| == V
    ensures var h := nxt[x][v]; h != -1 ==> d[x][v] == w[x][h] + ToGo(d, h, v)
    ensures var h := nxt[x][v]; h != -1 && h != v ==> nxt[h][v] != -1 && 0 <= left[h][v] < left[x][v]
  {
    hide Edges, IsDistance, Reachable, IsLeastCycle, Triangle, AtMost;
    assert HopAt(w, d, nxt, V, V, left, x, v);
  }

  lemma PathStart(w: Table, V: nat, u: nat)
    requires Square(w, V) && u < V
    ensures IsPath(w, V, [u]) && PathWeight(w, V, [u]) == 0
  {
  }

  lemma PathGrows(w: Table, V: nat, path: seq<nat>, x: nat)
    requires Square(w, V) && IsPath(w, V, path) && path != [] && x < V
    requires path[|path| - 1] < V && path[|path| - 1] != x && w[path[|path| - 1]][x] != INF
    ensures IsPath(w, V, path + [x]) && PathWeight(w, V, path + [x]) == PathWeight(w, V, path) + w[path[|path| - 1]][x]
  {
    hide Square;
    PathExtends(w, V, path, x);
    hide IsPath;
    assert (path + [x])[..|path|] == path;
  }

  lemma PathExtends(w: Table, V: nat, path: seq<nat>, x: nat)
    requires Square(w, V) && IsPath(w, V, path) && path != [] && x < V
    requires path[|path| - 1] < V && path[|path| - 1] != x && w[path[|path| - 1]][x] != INF
    ensures IsPath(w, V, path + [x])
  {
    var longer := path + [x];
    forall m | 0 <= m < |longer| - 1 ensures longer[m] < V && longer[m] != longer[m + 1] && w[longer[m]][longer[m + 1]] != INF {
      assert longer[m] == path[m];
      if m + 1 < |path| { assert longer[m + 1] == path[m + 1]; }
    }
  }
}
