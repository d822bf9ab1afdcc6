/** Undirected weighted graphs, their spanning forests, and what makes one of minimum weight.
    A graph on vertices 0..V-1 is a set of edges; parallel edges of different weight are allowed. */
module Forests {
  datatype Edge = Edge(u: nat, v: nat, w: int)

  predicate Joins(e: Edge, x: nat, y: nat) {
    (e.u == x && e.v == y) || (e.u == y && e.v == x)
  }

  ghost predicate Adjacent(E: set<Edge>, x: nat, y: nat) {
    exists e :: e in E && Joins(e, x, y)
  }

  ghost predicate Walk(E: set<Edge>, p: seq<nat>) {
    |p| > 0 && forall i :: 0 <= i < |p| - 1 ==> Adjacent(E, p[i], p[i + 1])
  }

  ghost predicate WalkFromTo(E: set<Edge>, p: seq<nat>, x: nat, y: nat) {
    Walk(E, p) && p[0] == x && p[|p| - 1] == y
  }

  ghost predicate Conn(E: set<Edge>, x: nat, y: nat) {
    exists p :: WalkFromTo(E, p, x, y)
  }

  ghost predicate InRange(V: nat, E: set<Edge>) {
    forall e :: e in E ==> e.u < V && e.v < V
  }

  /** No cycle: every edge is a bridge. */
  ghost predicate Forest(F: set<Edge>) {
    forall e :: e in F ==> !Conn(F - {e}, e.u, e.v)
  }

  ghost predicate SpanningForest(E: set<Edge>, F: set<Edge>) {
    F <= E && Forest(F) && forall x, y :: Conn(E, x, y) ==> Conn(F, x, y)
  }

  ghost function Weight(F: set<Edge>): int {
    if F == {} then 0 else var e :| e in F; e.w + Weight(F - {e})
  }

  ghost predicate MinimumSpanningForest(E: set<Edge>, T: set<Edge>) {
    SpanningForest(E, T) && forall F :: SpanningForest(E, F) ==> Weight(T) <= Weight(F)
  }

  // ----- Connectivity

  lemma ConnRefl(E: set<Edge>, x: nat)
    ensures Conn(E, x, x)
  {
    assert WalkFromTo(E, [x], x, x);
  }

  lemma ConnExtend(E: set<Edge>, x: nat, y: nat, z: nat)
    requires Conn(E, x, y) && Adjacent(E, y, z)
    ensures Conn(E, x, z)
  {
    var p :| WalkFromTo(E, p, x, y);
    assert WalkFromTo(E, p + [z], x, z);
  }

  /** What every step from x keeps holds of everything connected to x. */
  lemma ConnClosed(E: set<Edge>, x: nat, y: nat, S: nat -> bool)
    requires Conn(E, x, y) && S(x)
    requires forall a, b :: Adjacent(E, a, b) && S(a) ==> S(b)
    ensures S(y)
  {
    var p :| WalkFromTo(E, p, x, y);
    var i := 0;
    while i < |p| - 1
      invariant 0 <= i < |p| && S(p[i])
    {
      assert Adjacent(E, p[i], p[i + 1]);
      i := i + 1;
    }
  }

  lemma AdjacentSym(E: set<Edge>, x: nat, y: nat)
    requires Adjacent(E, x, y)
    ensures Adjacent(E, y, x)
  {
    var e :| e in E && Joins(e, x, y);
    assert Joins(e, y, x);
  }

  lemma ConnTrans(E: set<Edge>, x: nat, y: nat, z: nat)
    requires Conn(E, x, y) && Conn(E, y, z)
    ensures Conn(E, x, z)
  {
    forall a, b | Adjacent(E, a, b) && Conn(E, x, a) ensures Conn(E, x, b) { ConnExtend(E, x, a, b); }
    ConnClosed(E, y, z, (a: nat) => Conn(E, x, a));
  }

  lemma ConnSym(E: set<Edge>, x: nat, y: nat)
    requires Conn(E, x, y)
    ensures Conn(E, y, x)
  {
    forall a, b | Adjacent(E, a, b) && Conn(E, a, x) ensures Conn(E, b, x) {
      AdjacentSym(E, a, b);
      ConnRefl(E, b);
      ConnExtend(E, b, b, a);
      ConnTrans(E, b, a, x);
    }
    ConnRefl(E, x);
    ConnClosed(E, x, y, (a: nat) => Conn(E, a, x));
  }

  lemma ConnEdge(E: set<Edge>, e: Edge)
    requires e in E
    ensures Conn(E, e.u, e.v) && Conn(E, e.v, e.u)
  {
    assert Joins(e, e.u, e.v);
    ConnRefl(E, e.u);
    ConnExtend(E, e.u, e.u, e.v);
    ConnSym(E, e.u, e.v);
  }

  /** F connects whatever E does, as soon as it connects the ends of every edge of E. */
  lemma ConnCover(E: set<Edge>, F: set<Edge>, x: nat, y: nat)
    requires Conn(E, x, y)
    requires forall e :: e in E ==> Conn(F, e.u, e.v)
    ensures Conn(F, x, y)
  {
    forall a, b | Adjacent(E, a, b) && Conn(F, x, a) ensures Conn(F, x, b) {
      var e :| e in E && Joins(e, a, b);
      if e.u == b { ConnSym(F, e.u, e.v); }
      ConnTrans(F, x, a, b);
    }
    ConnRefl(F, x);
    ConnClosed(E, x, y, (a: nat) => Conn(F, x, a));
  }

  lemma ConnMono(E: set<Edge>, F: set<Edge>, x: nat, y: nat)
    requires Conn(E, x, y) && E <= F
    ensures Conn(F, x, y)
  {
    forall e | e in E ensures Conn(F, e.u, e.v) { ConnEdge(F, e); }
    ConnCover(E, F, x, y);
  }

  /** A walk that uses the new edge splits at it. */
  lemma ConnAdd(E: set<Edge>, e: Edge, x: nat, y: nat)
    requires Conn(E + {e}, x, y)
    ensures Conn(E, x, y) || (Conn(E, x, e.u) && Conn(E, e.v, y)) || (Conn(E, x, e.v) && Conn(E, e.u, y))
  {
    var S := (z: nat) => Conn(E, x, z) || (Conn(E, x, e.u) && Conn(E, e.v, z)) || (Conn(E, x, e.v) && Conn(E, e.u, z));
    ConnRefl(E, x);
    ConnRefl(E, e.u);
    ConnRefl(E, e.v);
    forall a: nat, b: nat | Adjacent(E + {e}, a, b) && S(a) ensures S(b) {
      var f :| f in E + {e} && Joins(f, a, b);
      if f in E {
        assert Adjacent(E, a, b);
        if Conn(E, x, a) { ConnExtend(E, x, a, b); }
        else if Conn(E, x, e.u) && Conn(E, e.v, a) { ConnExtend(E, e.v, a, b); }
        else { ConnExtend(E, e.u, a, b); }
      }
    }
    ConnClosed(E + {e}, x, y, S);
  }

  lemma ConnNone(x: nat, y: nat)
    ensures Conn({}, x, y) <==> x == y
  {
    ConnRefl({}, x);
    if Conn({}, x, y) { ConnClosed({}, x, y, (a: nat) => a == x); }
  }

  // ----- Counting the components

  ghost function Vertices(V: nat): (r: set<nat>)
    ensures forall x: nat :: x in r <==> x < V
    ensures |r| == V
  {
    if V == 0 then {} else Vertices(V - 1) + {V - 1}
  }

  /** The least vertex of each component. */
  ghost function Reps(V: nat, E: set<Edge>): set<nat> {
    set x | x in Vertices(V) && forall y :: 0 <= y < x ==> !Conn(E, y, x)
  }

  lemma RepOf(V: nat, E: set<Edge>, x: nat) returns (r: nat)
    requires x < V
    ensures r in Reps(V, E) && Conn(E, r, x) && r <= x
  {
    if x in Reps(V, E) {
      r := x;
      ConnRefl(E, x);
    } else {
      var y :| 0 <= y < x && Conn(E, y, x);
      r := RepOf(V, E, y);
      ConnTrans(E, r, y, x);
    }
  }

  lemma RepsUnique(V: nat, E: set<Edge>, r: nat, s: nat)
    requires r in Reps(V, E) && s in Reps(V, E) && Conn(E, r, s)
    ensures r == s
  {
    ConnSym(E, r, s);
  }

  /** Joining two components loses exactly one representative. */
  lemma RepsAdd(V: nat, E: set<Edge>, e: Edge)
    requires e.u < V && e.v < V && !Conn(E, e.u, e.v)
    ensures |Reps(V, E + {e})| == |Reps(V, E)| - 1
  {
    var r := RepOf(V, E, e.u);
    var s := RepOf(V, E, e.v);
    var lost, kept := if r < s then s else r, if r < s then r else s;
    var a, b := if r < s then e.v else e.u, if r < s then e.u else e.v;
    if r == s {
      ConnSym(E, r, e.u);
      ConnTrans(E, e.u, r, e.v);
    }
    var E' := E + {e};
    ConnMono(E, E', lost, a);
    ConnMono(E, E', kept, b);
    ConnEdge(E', e);
    ConnTrans(E', kept, b, a);
    ConnSym(E', lost, a);
    ConnTrans(E', kept, a, lost);
    assert Reps(V, E') == Reps(V, E) - {lost} by {
      forall x: nat | x in Reps(V, E) - {lost} ensures x in Reps(V, E') {
        forall y | 0 <= y < x ensures !Conn(E', y, x) {
          RepKept(V, E, e, r, s, x, y);
        }
      }
      forall x: nat | x in Reps(V, E') ensures x in Reps(V, E) - {lost} {
        forall y | 0 <= y < x ensures !Conn(E, y, x) {
          if Conn(E, y, x) { ConnMono(E, E', y, x); }
        }
      }
    }
  }

  /** A representative other than the greater of r and s is still the least of its component. */
  lemma RepKept(V: nat, E: set<Edge>, e: Edge, r: nat, s: nat, x: nat, y: nat)
    requires r in Reps(V, E) && Conn(E, r, e.u) && s in Reps(V, E) && Conn(E, s, e.v)
    requires x in Reps(V, E) && x != (if r < s then s else r)
    requires y < x
    ensures !Conn(E + {e}, y, x)
  {
    if Conn(E + {e}, y, x) {
      ConnAdd(E, e, y, x);
      if Conn(E, y, e.u) && Conn(E, e.v, x) {
        JoinedBelow(V, E, e.u, e.v, r, s, x, y);
      } else {
        JoinedBelow(V, E, e.v, e.u, s, r, x, y);
      }
    }
  }

  lemma JoinedBelow(V: nat, E: set<Edge>, a: nat, b: nat, r: nat, s: nat, x: nat, y: nat)
    requires r in Reps(V, E) && Conn(E, r, a) && s in Reps(V, E) && Conn(E, s, b)
    requires x in Reps(V, E) && Conn(E, y, a) && Conn(E, b, x)
    ensures x == s && r <= y
  {
    ConnTrans(E, s, b, x);
    RepsUnique(V, E, s, x);
    ConnSym(E, y, a);
    ConnTrans(E, r, a, y);
    LeastRep(V, E, r, y);
  }

  lemma LeastRep(V: nat, E: set<Edge>, r: nat, y: nat)
    requires r in Reps(V, E) && Conn(E, r, y)
    ensures r <= y
  {
    if y < r { ConnSym(E, r, y); }
  }

  lemma ForestSubset(F: set<Edge>, G: set<Edge>)
    requires Forest(F) && G <= F
    ensures Forest(G)
  {
    forall e | e in G ensures !Conn(G - {e}, e.u, e.v) {
      if Conn(G - {e}, e.u, e.v) { ConnMono(G - {e}, F - {e}, e.u, e.v); }
    }
  }

  /** A forest has one edge less per component than it has vertices. */
  lemma {:induction false} ForestCard(V: nat, F: set<Edge>)
    requires Forest(F) && InRange(V, F)
    ensures |F| + |Reps(V, F)| == V
  {
    if F == {} {
      assert Reps(V, F) == Vertices(V) by {
        forall x, y | 0 <= y < x < V ensures !Conn(F, y, x) {
          ConnNone(y, x);
        }
      }
    } else {
      var e :| e in F;
      ForestSubset(F, F - {e});
      ForestCard(V, F - {e});
      RepsAdd(V, F - {e}, e);
      assert F - {e} + {e} == F;
    }
  }

  lemma SubsetCard<T>(A: set<T>, B: set<T>)
    requires A <= B
    ensures |A| <= |B|
  {
    assert B == A + (B - A);
  }

  /** The forest that connects more has at least as many edges. */
  lemma ForestCompare(V: nat, F: set<Edge>, G: set<Edge>)
    requires Forest(F) && Forest(G) && InRange(V, F) && InRange(V, G)
    requires forall x, y :: Conn(F, x, y) ==> Conn(G, x, y)
    ensures |F| <= |G|
  {
    ForestCard(V, F);
    ForestCard(V, G);
    SubsetCard(Reps(V, G), Reps(V, F));
  }

  lemma ForestAdd(K: set<Edge>, e: Edge)
    requires Forest(K) && !Conn(K, e.u, e.v)
    ensures e !in K && Forest(K + {e})
  {
    if e in K { ConnEdge(K, e); }
    forall f | f in K + {e} ensures !Conn(K + {e} - {f}, f.u, f.v) {
      if f == e {
        assert K + {e} - {f} == K;
      } else {
        var J := K - {f};
        assert K + {e} - {f} == J + {e};
        if Conn(J + {e}, f.u, f.v) {
          ConnAdd(J, e, f.u, f.v);
          Bridged(K, J, e, f);
        }
      }
    }
  }

  /** If f's ends are joined through e, then e's ends were already joined through f. */
  lemma Bridged(K: set<Edge>, J: set<Edge>, e: Edge, f: Edge)
    requires f in K && J <= K
    requires (Conn(J, f.u, e.u) && Conn(J, e.v, f.v)) || (Conn(J, f.u, e.v) && Conn(J, e.u, f.v))
    ensures Conn(K, e.u, e.v)
  {
    ConnEdge(K, f);
    var a, b := if Conn(J, f.u, e.u) && Conn(J, e.v, f.v) then e.u else e.v,
                if Conn(J, f.u, e.u) && Conn(J, e.v, f.v) then e.v else e.u;
    ConnMono(J, K, f.u, a);
    ConnMono(J, K, b, f.v);
    ConnSym(K, f.u, a);
    ConnSym(K, b, f.v);
    ConnTrans(K, a, f.u, f.v);
    ConnTrans(K, a, f.v, b);
    ConnSym(K, a, b);
  }

  // ----- Minimality

  ghost function UpTo(E: set<Edge>, k: int): set<Edge> {
    set e | e in E && e.w <= k
  }

  /** At every weight limit, T connects what the graph does. */
  ghost predicate Bottleneck(E: set<Edge>, T: set<Edge>) {
    forall k, x, y :: Conn(UpTo(E, k), x, y) ==> Conn(UpTo(T, k), x, y)
  }

  lemma {:induction false} WeightRemove(F: set<Edge>, e: Edge)
    requires e in F
    ensures Weight(F) == e.w + Weight(F - {e})
  {
    var f :| f in F && Weight(F) == f.w + Weight(F - {f});
    if f != e {
      WeightRemove(F - {f}, e);
      WeightRemove(F - {e}, f);
      assert F - {f} - {e} == F - {e} - {f};
    }
  }

  lemma Heaviest(F: set<Edge>) returns (e: Edge)
    requires F != {}
    ensures e in F && forall f :: f in F ==> f.w <= e.w
  {
    e :| e in F;
    if F != {e} {
      var f := Heaviest(F - {e});
      if e.w <= f.w { e := f; }
    }
  }

  /** Of two sets of the same size, the one with more edges below every limit weighs less. */
  lemma {:induction false} LighterBelow(T: set<Edge>, F: set<Edge>)
    requires |T| == |F|
    requires forall k :: |UpTo(T, k)| >= |UpTo(F, k)|
    ensures Weight(T) <= Weight(F)
  {
    if T != {} {
      var t := Heaviest(T);
      var f := Heaviest(F);
      assert UpTo(F, f.w) == F;
      SubsetCard(UpTo(T, f.w), T);
      if UpTo(T, f.w) != T {
        var d :| d in T && d !in UpTo(T, f.w);
        SubsetCard(UpTo(T, f.w), T - {d});
        assert false;
      }
      forall k ensures |UpTo(T - {t}, k)| >= |UpTo(F - {f}, k)| {
        assert t.w <= k ==> UpTo(T, k) == T && UpTo(T - {t}, k) == T - {t};
        assert t.w > k ==> UpTo(T - {t}, k) == UpTo(T, k);
        assert f.w <= k ==> UpTo(F - {f}, k) == F - {f};
        assert UpTo(F - {f}, k) <= UpTo(F, k);
        SubsetCard(UpTo(F - {f}, k), UpTo(F, k));
        SubsetCard(UpTo(F - {f}, k), F - {f});
      }
      LighterBelow(T - {t}, F - {f});
      WeightRemove(T, t);
      WeightRemove(F, f);
    }
  }

  /** The exchange argument, without exchanging: a bottleneck spanning forest has, below every
      limit, as many edges as any forest can have. */
  lemma BottleneckIsMinimum(V: nat, E: set<Edge>, T: set<Edge>)
    requires InRange(V, E) && SpanningForest(E, T) && Bottleneck(E, T)
    ensures MinimumSpanningForest(E, T)
  {
    forall F | SpanningForest(E, F) ensures Weight(T) <= Weight(F) {
      SameConn(E, F, T);
      SameConn(E, T, F);
      ForestCompare(V, F, T);
      ForestCompare(V, T, F);
      forall k ensures |UpTo(T, k)| >= |UpTo(F, k)| {
        ForestSubset(F, UpTo(F, k));
        ForestSubset(T, UpTo(T, k));
        forall x, y | Conn(UpTo(F, k), x, y) ensures Conn(UpTo(T, k), x, y) {
          ConnMono(UpTo(F, k), UpTo(E, k), x, y);
        }
        ForestCompare(V, UpTo(F, k), UpTo(T, k));
      }
      LighterBelow(T, F);
    }
  }

  lemma SameConn(E: set<Edge>, F: set<Edge>, G: set<Edge>)
    requires F <= E && SpanningForest(E, G)
    ensures forall x, y :: Conn(F, x, y) ==> Conn(G, x, y)
  {
    forall x, y | Conn(F, x, y) ensures Conn(G, x, y) { ConnMono(F, E, x, y); }
  }

  lemma MinimumIsUnique(E: set<Edge>, S: set<Edge>, T: set<Edge>)
    requires MinimumSpanningForest(E, S) && MinimumSpanningForest(E, T)
    ensures Weight(S) == Weight(T)
  {
  }
}
