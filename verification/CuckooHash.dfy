/** cuckoo_hash.c: two tables, two possible places for a key, and eviction along a chain. */
module CuckooHash {
  const CK_SIZE := 32
  const MAX_LOOP := 64

  datatype Option<T> = None | Some(value: T)

  datatype Slot = Free | Used(key: string, value: int)

  /** The slot a hash function gives a key. */
  function Home(h: string -> nat, key: string): (i: nat)
    ensures i < CK_SIZE
  {
    h(key) % CK_SIZE
  }

  /** Every key of the table sits at its own slot. */
  ghost predicate Homed(t: seq<Slot>, h: string -> nat) {
    |t| == CK_SIZE && forall i :: 0 <= i < CK_SIZE && t[i].Used? ==> Home(h, t[i].key) == i
  }

  ghost predicate Has(t: seq<Slot>, h: string -> nat, key: string)
    requires |t| == CK_SIZE
  {
    t[Home(h, key)].Used? && t[Home(h, key)].key == key
  }

  ghost function Keys(t: seq<Slot>): set<string> {
    set i | 0 <= i < |t| && t[i].Used? :: t[i].key
  }

  /** The key-value pairs of a table. */
  ghost function TableMap(t: seq<Slot>, h: string -> nat): map<string, int>
    requires Homed(t, h)
  {
    map key | key in Keys(t) :: t[Home(h, key)].value
  }

  function Occupied(t: seq<Slot>, n: nat): nat
    requires n <= |t|
  {
    if n == 0 then 0 else Occupied(t, n - 1) + if t[n - 1].Used? then 1 else 0
  }

  // ----- One table

  lemma MapHas(t: seq<Slot>, h: string -> nat, key: string)
    requires Homed(t, h)
    ensures key in TableMap(t, h) <==> Has(t, h, key)
    ensures Has(t, h, key) ==> TableMap(t, h)[key] == t[Home(h, key)].value
  {
  }

  lemma {:induction false} OccupiedSet(t: seq<Slot>, i: nat, s: Slot, n: nat)
    requires i < |t| && n <= |t|
    ensures Occupied(t[i := s], n) == Occupied(t, n) +
              if i < n then (if s.Used? then 1 else 0) - (if t[i].Used? then 1 else 0) else 0
  {
    if n > 0 { OccupiedSet(t, i, s, n - 1); }
  }

  /** Storing a pair at its slot replaces whatever pair was there. */
  lemma SlotStored(t: seq<Slot>, h: string -> nat, key: string, value: int)
    requires Homed(t, h)
    ensures var i := Home(h, key); var t' := t[i := Used(key, value)];
      && Homed(t', h)
      && TableMap(t', h) == (if t[i].Used? then TableMap(t, h) - {t[i].key} else TableMap(t, h))[key := value]
      && Occupied(t', CK_SIZE) == Occupied(t, CK_SIZE) + if t[i].Used? then 0 else 1
  {
    var i := Home(h, key);
    var t' := t[i := Used(key, value)];
    OccupiedSet(t, i, Used(key, value), CK_SIZE);
    var m := (if t[i].Used? then TableMap(t, h) - {t[i].key} else TableMap(t, h))[key := value];
    forall k ensures k in TableMap(t', h) <==> k in m {
      MapHas(t', h, k);
      MapHas(t, h, k);
    }
    forall k | k in m ensures TableMap(t', h)[k] == m[k] {
      MapHas(t', h, k);
      MapHas(t, h, k);
    }
  }

  lemma SlotCleared(t: seq<Slot>, h: string -> nat, key: string)
    requires Homed(t, h) && Has(t, h, key)
    ensures var t' := t[Home(h, key) := Free];
      && Homed(t', h) && TableMap(t', h) == TableMap(t, h) - {key}
      && Occupied(t', CK_SIZE) == Occupied(t, CK_SIZE) - 1
  {
    var i := Home(h, key);
    var t' := t[i := Free];
    OccupiedSet(t, i, Free, CK_SIZE);
    forall k ensures k in TableMap(t', h) <==> k in TableMap(t, h) - {key} {
      MapHas(t', h, k);
      MapHas(t, h, k);
    }
    forall k | k in TableMap(t', h) ensures TableMap(t', h)[k] == TableMap(t, h)[k] {
      MapHas(t', h, k);
      MapHas(t, h, k);
    }
  }

  lemma KeysStep(t: seq<Slot>, h: string -> nat, n: nat)
    requires Homed(t, h) && 0 < n <= CK_SIZE
    ensures t[n - 1].Used? ==> Keys(t[..n]) == Keys(t[..n - 1]) + {t[n - 1].key} && t[n - 1].key !in Keys(t[..n - 1])
    ensures t[n - 1].Free? ==> Keys(t[..n]) == Keys(t[..n - 1])
  {
    var a, b := t[..n], t[..n - 1];
    assert a[n - 1] == t[n - 1] && forall i :: 0 <= i < n - 1 ==> a[i] == b[i] == t[i];
  }

  /** There are as many pairs as occupied slots. */
  lemma {:induction false} OccupiedIsSize(t: seq<Slot>, h: string -> nat, n: nat)
    requires Homed(t, h) && n <= CK_SIZE
    ensures |Keys(t[..n])| == Occupied(t, n)
  {
    if n == 0 {
      assert Keys(t[..0]) == {};
    } else {
      hide Keys;
      OccupiedIsSize(t, h, n - 1);
      KeysStep(t, h, n);
    }
  }

  // ----- Both tables

  ghost predicate TablesOk(t1: seq<Slot>, h1: string -> nat, t2: seq<Slot>, h2: string -> nat) {
    && Homed(t1, h1) && Homed(t2, h2)
    && forall key :: !(Has(t1, h1, key) && Has(t2, h2, key))
  }

  /** The map that the two tables hold. */
  ghost function Entries(t1: seq<Slot>, h1: string -> nat, t2: seq<Slot>, h2: string -> nat): map<string, int>
    requires TablesOk(t1, h1, t2, h2)
  {
    TableMap(t1, h1) + TableMap(t2, h2)
  }

  /** Looking at two slots finds a key exactly if it is in the map, with its value. */
  lemma TwoProbes(t1: seq<Slot>, h1: string -> nat, t2: seq<Slot>, h2: string -> nat, key: string)
    requires TablesOk(t1, h1, t2, h2)
    ensures key in Entries(t1, h1, t2, h2) <==> Has(t1, h1, key) || Has(t2, h2, key)
    ensures Has(t1, h1, key) ==> Entries(t1, h1, t2, h2)[key] == t1[Home(h1, key)].value
    ensures Has(t2, h2, key) ==> Entries(t1, h1, t2, h2)[key] == t2[Home(h2, key)].value
  {
    MapHas(t1, h1, key);
    MapHas(t2, h2, key);
  }

  /** Nothing is stored twice: as many slots are occupied as the map has keys. */
  lemma OccupiedIsMapSize(t1: seq<Slot>, h1: string -> nat, t2: seq<Slot>, h2: string -> nat)
    requires TablesOk(t1, h1, t2, h2)
    ensures |Entries(t1, h1, t2, h2)| == Occupied(t1, CK_SIZE) + Occupied(t2, CK_SIZE)
  {
    assert t1[..CK_SIZE] == t1 && t2[..CK_SIZE] == t2;
    OccupiedIsSize(t1, h1, CK_SIZE);
    OccupiedIsSize(t2, h2, CK_SIZE);
    forall key ensures !(key in Keys(t1) && key in Keys(t2)) {
      MapHas(t1, h1, key);
      MapHas(t2, h2, key);
    }
    assert Keys(t1) * Keys(t2) == {};
    assert Entries(t1, h1, t2, h2).Keys == Keys(t1) + Keys(t2);
  }

  /** Store a carried pair over the pair of a free-standing map, which is carried on. */
  lemma StoreFirst(t1: seq<Slot>, h1: string -> nat, t2: seq<Slot>, h2: string -> nat, key: string, value: int)
    requires TablesOk(t1, h1, t2, h2) && key !in Entries(t1, h1, t2, h2)
    ensures var s := t1[Home(h1, key)]; var t1' := t1[Home(h1, key) := Used(key, value)];
      && TablesOk(t1', h1, t2, h2)
      && Occupied(t1', CK_SIZE) == Occupied(t1, CK_SIZE) + (if s.Used? then 0 else 1)
      && (s.Free? ==> Entries(t1', h1, t2, h2) == Entries(t1, h1, t2, h2)[key := value])
      && (s.Used? ==> s.key !in Entries(t1', h1, t2, h2))
      && (s.Used? ==> Entries(t1', h1, t2, h2)[s.key := s.value] == Entries(t1, h1, t2, h2)[key := value])
  {
    hide TableMap, Occupied;
    var s, t1' := t1[Home(h1, key)], t1[Home(h1, key) := Used(key, value)];
    SlotStored(t1, h1, key, value);
    TwoProbes(t1, h1, t2, h2, key);
    forall k ensures !(Has(t1', h1, k) && Has(t2, h2, k)) {
      assert Has(t1', h1, k) ==> k == key || Has(t1, h1, k);
    }
    if s.Used? {
      assert Has(t1, h1, s.key);
      TwoProbes(t1, h1, t2, h2, s.key);
      MapHas(t2, h2, s.key);
      MapHas(t1, h1, s.key);
    }
    MapHas(t2, h2, key);
  }

  lemma StoreSecond(t1: seq<Slot>, h1: string -> nat, t2: seq<Slot>, h2: string -> nat, key: string, value: int)
    requires TablesOk(t1, h1, t2, h2) && key !in Entries(t1, h1, t2, h2)
    ensures var s := t2[Home(h2, key)]; var t2' := t2[Home(h2, key) := Used(key, value)];
      && TablesOk(t1, h1, t2', h2)
      && Occupied(t2', CK_SIZE) == Occupied(t2, CK_SIZE) + (if s.Used? then 0 else 1)
      && (s.Free? ==> Entries(t1, h1, t2', h2) == Entries(t1, h1, t2, h2)[key := value])
      && (s.Used? ==> s.key !in Entries(t1, h1, t2', h2))
      && (s.Used? ==> Entries(t1, h1, t2', h2)[s.key := s.value] == Entries(t1, h1, t2, h2)[key := value])
  {
    var t2' := t2[Home(h2, key) := Used(key, value)];
    StoreFirst(t2, h2, t1, h1, key, value) by { Swapped(t1, h1, t2, h2); }
    Swapped(t2', h2, t1, h1);
    Swapped(t1, h1, t2, h2);
  }

  /** The order in which the tables are read does not matter. */
  lemma Swapped(t1: seq<Slot>, h1: string -> nat, t2: seq<Slot>, h2: string -> nat)
    requires TablesOk(t1, h1, t2, h2)
    ensures TablesOk(t2, h2, t1, h1) && Entries(t2, h2, t1, h1) == Entries(t1, h1, t2, h2)
  {
    forall key ensures key in TableMap(t1, h1) ==> key !in TableMap(t2, h2) {
      MapHas(t1, h1, key);
      MapHas(t2, h2, key);
    }
  }

  /** The intended map without one of its pairs. */
  ghost predicate OneLost(wanted: map<string, int>, contents: map<string, int>) {
    exists lost :: lost in wanted && contents == wanted - {lost}
  }

  // ----- When an insertion can succeed

  /** The two slots of a key, counting the second table's after the first's. */
  function First(h1: string -> nat, key: string): (x: int)
    ensures 0 <= x < CK_SIZE
  {
    Home(h1, key)
  }

  function Second(h2: string -> nat, key: string): (x: int)
    ensures CK_SIZE <= x < 2 * CK_SIZE
  {
    CK_SIZE + Home(h2, key)
  }

  /** From one slot of a key to its other one. */
  function Other(h1: string -> nat, h2: string -> nat, key: string, x: int): int {
    if x == First(h1, key) then Second(h2, key) else First(h1, key)
  }

  ghost predicate Assigns(h1: string -> nat, h2: string -> nat, K: set<string>, f: map<string, int>) {
    && f.Keys == K && (forall k :: k in K ==> f[k] == First(h1, k) || f[k] == Second(h2, k))
    && forall k, l :: k in K && l in K && k != l ==> f[k] != f[l]
  }

  /** Every key can have one of its two slots to itself. */
  ghost predicate Assignable(h1: string -> nat, h2: string -> nat, K: set<string>) {
    exists f :: Assigns(h1, h2, K, f)
  }

  /** The tables are such an assignment of the keys they hold. */
  lemma TablesAssign(t1: seq<Slot>, h1: string -> nat, t2: seq<Slot>, h2: string -> nat)
    requires TablesOk(t1, h1, t2, h2)
    ensures Assignable(h1, h2, Entries(t1, h1, t2, h2).Keys)
  {
    hide Home, TableMap, Keys;
    var K := Entries(t1, h1, t2, h2).Keys;
    var f := map k | k in K :: if Has(t1, h1, k) then First(h1, k) else Second(h2, k);
    forall k, l | k in K && l in K && k != l ensures f[k] != f[l] {
      TwoProbes(t1, h1, t2, h2, k);
      TwoProbes(t1, h1, t2, h2, l);
      SlotsDiffer(t1, h1, t2, h2, k, l);
    }
    assert Assigns(h1, h2, K, f);
  }

  lemma SlotsDiffer(t1: seq<Slot>, h1: string -> nat, t2: seq<Slot>, h2: string -> nat, k: string, l: string)
    requires TablesOk(t1, h1, t2, h2) && k != l && (Has(t1, h1, k) || Has(t2, h2, k)) && (Has(t1, h1, l) || Has(t2, h2, l))
    ensures (if Has(t1, h1, k) then First(h1, k) else Second(h2, k)) != (if Has(t1, h1, l) then First(h1, l) else Second(h2, l))
  {
  }

  /** Three keys with the same two slots: the third of them cannot be put. */
  lemma ThreeOnTwo(h1: string -> nat, h2: string -> nat, K: set<string>, a: string, b: string, c: string)
    requires a in K && b in K && c in K && a != b && b != c && a != c
    requires First(h1, a) == First(h1, b) == First(h1, c) && Second(h2, a) == Second(h2, b) == Second(h2, c)
    ensures !Assignable(h1, h2, K)
  {
    forall f ensures !Assigns(h1, h2, K, f) {}
  }

  /** The slots of both tables, with all keys among K and none twice. */
  ghost predicate Stored(h1: string -> nat, h2: string -> nat, c: seq<Slot>, K: set<string>) {
    && |c| == 2 * CK_SIZE
    && (forall x :: 0 <= x < |c| && c[x].Used? ==> c[x].key in K && (x == First(h1, c[x].key) || x == Second(h2, c[x].key)))
    && forall x, y :: 0 <= x < |c| && 0 <= y < |c| && x != y && c[x].Used? && c[y].Used? ==> c[x].key != c[y].key
  }

  lemma TablesStored(t1: seq<Slot>, h1: string -> nat, t2: seq<Slot>, h2: string -> nat)
    requires TablesOk(t1, h1, t2, h2)
    ensures Stored(h1, h2, t1 + t2, Entries(t1, h1, t2, h2).Keys)
  {
    var c := t1 + t2;
    forall x | 0 <= x < |c| && c[x].Used?
      ensures c[x].key in Entries(t1, h1, t2, h2).Keys && (x == First(h1, c[x].key) || x == Second(h2, c[x].key))
      ensures x < CK_SIZE ==> Has(t1, h1, c[x].key) && x == First(h1, c[x].key)
      ensures x >= CK_SIZE ==> Has(t2, h2, c[x].key) && x == Second(h2, c[x].key)
    {
      TwoProbes(t1, h1, t2, h2, c[x].key);
      if x < CK_SIZE { assert t1[x] == c[x]; } else { assert t2[x - CK_SIZE] == c[x]; }
    }
    forall x, y | 0 <= x < |c| && 0 <= y < |c| && x != y && c[x].Used? && c[y].Used? ensures c[x].key != c[y].key {
      assert !(Has(t1, h1, c[x].key) && Has(t2, h2, c[x].key));
    }
  }

  ghost predicate Within(h1: string -> nat, h2: string -> nat, key: string, U: set<int>) {
    First(h1, key) in U && Second(h2, key) in U
  }

  predicate Taken(c: seq<Slot>, x: int) {
    0 <= x < |c| && c[x].Used?
  }

  /** The key stored in x has no slot outside U. */
  ghost predicate Confined(h1: string -> nat, h2: string -> nat, c: seq<Slot>, U: set<int>, x: int) {
    Taken(c, x) && Within(h1, h2, c[x].key, U)
  }

  /** More keys than slots: those stored in U and one more, none with a slot outside U. */
  ghost predicate Overfull(h1: string -> nat, h2: string -> nat, c: seq<Slot>, extra: string, U: set<int>) {
    Within(h1, h2, extra, U) && forall x :: x in U ==> Confined(h1, h2, c, U, x)
  }

  function ImageOf(c: seq<Slot>, f: map<string, int>, x: int): int {
    if Taken(c, x) && c[x].key in f then f[c[x].key] else -1
  }

  ghost function Below(U: set<int>, n: nat): set<int> {
    if n == 0 then {} else if n - 1 in U then Below(U, n - 1) + {n - 1} else Below(U, n - 1)
  }

  lemma {:induction false} BelowIs(U: set<int>, n: nat)
    ensures forall x: int :: x in Below(U, n) <==> 0 <= x < n && x in U
  {
    if n > 0 { BelowIs(U, n - 1); }
  }

  /** The slots that f gives the keys stored in U, up to slot n. */
  ghost function Images(c: seq<Slot>, f: map<string, int>, U: set<int>, n: nat): set<int> {
    if n == 0 then {} else if n - 1 in U then Images(c, f, U, n - 1) + {ImageOf(c, f, n - 1)} else Images(c, f, U, n - 1)
  }

  lemma {:induction false} ImagesAre(c: seq<Slot>, f: map<string, int>, U: set<int>, n: nat)
    ensures forall y: int :: y in Images(c, f, U, n) <==> exists x: int :: 0 <= x < n && x in U && ImageOf(c, f, x) == y
  {
    hide ImageOf;
    if n > 0 { ImagesAre(c, f, U, n - 1); }
  }

  ghost predicate Injective(c: seq<Slot>, f: map<string, int>, U: set<int>) {
    forall x, y :: x in U && y in U && x != y ==> ImageOf(c, f, x) != ImageOf(c, f, y)
  }

  lemma {:induction false} ImagesCount(c: seq<Slot>, f: map<string, int>, U: set<int>, n: nat)
    requires Injective(c, f, U)
    ensures |Images(c, f, U, n)| == |Below(U, n)|
  {
    if n > 0 {
      hide Injective, ImageOf;
      ImagesCount(c, f, U, n - 1);
      if n - 1 in U {
        ImageNew(c, f, U, n - 1);
        BelowIs(U, n - 1);
      }
    }
  }

  lemma ImageNew(c: seq<Slot>, f: map<string, int>, U: set<int>, n: nat)
    requires Injective(c, f, U) && n in U
    ensures ImageOf(c, f, n) !in Images(c, f, U, n)
  {
    hide ImageOf, Images;
    ImagesAre(c, f, U, n);
  }

  lemma AssignsInjective(h1: string -> nat, h2: string -> nat, c: seq<Slot>, K: set<string>, f: map<string, int>, U: set<int>)
    requires Stored(h1, h2, c, K) && K <= f.Keys && Assigns(h1, h2, f.Keys, f) && forall x :: x in U ==> Taken(c, x)
    ensures Injective(c, f, U)
  {
    forall x, y | x in U && y in U && x != y ensures ImageOf(c, f, x) != ImageOf(c, f, y) {
      assert c[x].key != c[y].key && c[x].key in K && c[y].key in K;
    }
  }

  lemma ImageStays(h1: string -> nat, h2: string -> nat, c: seq<Slot>, K: set<string>, f: map<string, int>, U: set<int>, x: int)
    requires Stored(h1, h2, c, K) && K <= f.Keys && Assigns(h1, h2, f.Keys, f) && Confined(h1, h2, c, U, x)
    ensures ImageOf(c, f, x) in U
  {
    assert c[x].key in K;
  }

  lemma ExtraStays(h1: string -> nat, h2: string -> nat, c: seq<Slot>, K: set<string>, f: map<string, int>, U: set<int>,
                   extra: string, x: int)
    requires Stored(h1, h2, c, K) && extra in f && extra !in K && K <= f.Keys && Assigns(h1, h2, f.Keys, f)
    requires Within(h1, h2, extra, U)
    ensures f[extra] in U && (Taken(c, x) ==> ImageOf(c, f, x) != f[extra])
  {
    assert Taken(c, x) ==> c[x].key in K;
  }

  lemma TooManyImages(h1: string -> nat, h2: string -> nat, c: seq<Slot>, K: set<string>, f: map<string, int>, extra: string,
                      U: set<int>)
    requires Stored(h1, h2, c, K) && extra !in K && Overfull(h1, h2, c, extra, U)
    ensures !Assigns(h1, h2, K + {extra}, f)
  {
    hide Stored, Within, Assigns, Taken, ImageOf, Injective, Images, Below;
    if Assigns(h1, h2, K + {extra}, f) {
      AssignsKeys(h1, h2, K + {extra}, f);
      AssignsInjective(h1, h2, c, K, f, U) by { forall x | x in U ensures Taken(c, x) { ConfinedIs(h1, h2, c, U, x); } }
      ImagesCount(c, f, U, |c|);
      var I, all := Images(c, f, U, |c|), Below(U, |c|);
      ImagesAre(c, f, U, |c|);
      BelowIs(U, |c|);
      forall x | x in U ensures ImageOf(c, f, x) in U && 0 <= x < |c| && ImageOf(c, f, x) != f[extra] && Taken(c, x) {
        assert Confined(h1, h2, c, U, x);
        ConfinedIs(h1, h2, c, U, x);
        ImageStays(h1, h2, c, K, f, U, x);
        ExtraStays(h1, h2, c, K, f, U, extra, x);
        TakenIs(c, x);
      }
      forall x: int ensures x in all <==> x in U {}
      assert all == U;
      forall y: int | y in I ensures y in U {}
      SameSize(I, U);
      ExtraStays(h1, h2, c, K, f, U, extra, 0);
    }
  }

  lemma AssignsKeys(h1: string -> nat, h2: string -> nat, K: set<string>, f: map<string, int>)
    requires Assigns(h1, h2, K, f)
    ensures f.Keys == K
  {
  }

  lemma ConfinedIs(h1: string -> nat, h2: string -> nat, c: seq<Slot>, U: set<int>, x: int)
    requires Confined(h1, h2, c, U, x)
    ensures Taken(c, x)
  {
  }

  lemma TakenIs(c: seq<Slot>, x: int)
    requires Taken(c, x)
    ensures 0 <= x < |c| && c[x].Used?
  {
  }

  lemma OverfullRefutes(h1: string -> nat, h2: string -> nat, c: seq<Slot>, K: set<string>, extra: string, U: set<int>)
    requires Stored(h1, h2, c, K) && extra !in K && Overfull(h1, h2, c, extra, U)
    ensures !Assignable(h1, h2, K + {extra})
  {
    hide Stored, Overfull, Assigns;
    forall f | Assigns(h1, h2, K + {extra}, f) ensures false { TooManyImages(h1, h2, c, K, f, extra, U); }
  }

  lemma SameSize(a: set<int>, b: set<int>)
    requires a <= b && |a| == |b|
    ensures a == b
  {
    assert |b - a| == 0;
  }

  // ----- The chain of evictions, which goes out and comes back at most once

  /** What an insertion starts from: the slots of both tables, the keys in them, and the new key. */
  datatype Origin = Origin(h1: string -> nat, h2: string -> nat, slots: seq<Slot>, keys: set<string>, extra: string)

  /** Forward: all slots of the trail are different.  Back: the chain has met its trail and undoes it, p slots of it
      being left.  Beyond: the new key has been evicted and the chain goes on from its second slot.
      Hopeless: no assignment exists. */
  datatype Chase = Forward(trail: seq<int>) | Back(trail: seq<int>, p: nat) | Beyond(visited: set<int>) | Hopeless

  /** The key that was placed in slot j of the trail. */
  function KeyOn(o: Origin, trail: seq<int>, j: nat): string {
    if 0 < j <= |trail| && Taken(o.slots, trail[j - 1]) then o.slots[trail[j - 1]].key else o.extra
  }

  /** Where the chain goes after the first j slots of a trail. */
  function Ahead(o: Origin, trail: seq<int>, j: nat): int {
    if 0 < j <= |trail| then Other(o.h1, o.h2, KeyOn(o, trail, j), trail[j - 1]) else First(o.h1, o.extra)
  }

  ghost predicate IsTrail(o: Origin, trail: seq<int>) {
    && (forall i :: 0 <= i < |trail| ==> Taken(o.slots, trail[i]))
    && (forall i, j :: 0 <= i < j < |trail| ==> trail[i] != trail[j])
    && forall j: nat :: j < |trail| ==> trail[j] == Ahead(o, trail, j)
  }

  ghost function On(trail: seq<int>): (r: set<int>)
    ensures forall x :: x in r <==> x in trail
    ensures (forall i, j :: 0 <= i < j < |trail| ==> trail[i] != trail[j]) ==> |r| == |trail|
  {
    if trail == [] then {} else On(trail[..|trail| - 1]) + {trail[|trail| - 1]}
  }

  /** Outside U the slots are as they were. */
  ghost predicate SameOutside(o: Origin, c: seq<Slot>, U: set<int>) {
    |c| == |o.slots| && forall x :: 0 <= x < |c| && x !in U ==> c[x] == o.slots[x]
  }

  /** The first p slots of the trail hold the keys placed there on the way out. */
  ghost predicate Shifted(o: Origin, c: seq<Slot>, trail: seq<int>, p: nat) {
    p <= |trail| && forall j: nat :: j < p ==> Taken(c, trail[j]) && c[trail[j]].key == KeyOn(o, trail, j)
  }

  ghost predicate Going(o: Origin, c: seq<Slot>, key: string, next: int, trail: seq<int>, steps: nat) {
    && IsTrail(o, trail) && SameOutside(o, c, On(trail)) && Shifted(o, c, trail, |trail|)
    && key == KeyOn(o, trail, |trail|) && next == Ahead(o, trail, |trail|) && steps == |trail|
  }

  ghost predicate Returning(o: Origin, c: seq<Slot>, key: string, next: int, trail: seq<int>, p: nat, steps: nat) {
    && IsTrail(o, trail) && SameOutside(o, c, On(trail)) && p < |trail| && Shifted(o, c, trail, p)
    && key == KeyOn(o, trail, p) && next == (if p > 0 then trail[p - 1] else Second(o.h2, o.extra))
    && Ahead(o, trail, |trail|) in trail && Second(o.h2, o.extra) !in trail && steps + p <= 2 * |trail|
  }

  ghost predicate GoingOn(o: Origin, c: seq<Slot>, key: string, next: int, U: set<int>, steps: nat) {
    && SameOutside(o, c, U) && Within(o.h1, o.h2, o.extra, U) && (next == First(o.h1, key) || next == Second(o.h2, key))
    && (forall x :: x in U ==> Confined(o.h1, o.h2, o.slots, U + {next}, x))
    && steps < |U| + 2 * CK_SIZE
  }

  /** After `steps` evictions the pair with `key` is carried to slot `next`. */
  ghost predicate Chasing(o: Origin, c: seq<Slot>, key: string, next: int, chase: Chase, steps: nat) {
    && Stored(o.h1, o.h2, o.slots, o.keys) && o.extra !in o.keys
    && match chase {
         case Forward(trail) => Going(o, c, key, next, trail, steps)
         case Back(trail, p) => Returning(o, c, key, next, trail, p, steps)
         case Beyond(U) => GoingOn(o, c, key, next, U, steps)
         case Hopeless => !Assignable(o.h1, o.h2, o.keys + {o.extra})
       }
  }

  lemma ChaseBegins(o: Origin)
    requires Stored(o.h1, o.h2, o.slots, o.keys) && o.extra !in o.keys
    ensures Chasing(o, o.slots, o.extra, First(o.h1, o.extra), Forward([]), 0)
  {
    assert On([]) == {};
  }

  /** The two slots of the key stored in slot j of a trail are that slot and the next one on the way. */
  lemma TrailSlots(o: Origin, trail: seq<int>, j: nat)
    requires Stored(o.h1, o.h2, o.slots, o.keys) && IsTrail(o, trail) && j < |trail|
    ensures o.slots[trail[j]].Used? && o.slots[trail[j]].key == KeyOn(o, trail, j + 1)
    ensures var k := KeyOn(o, trail, j + 1); {First(o.h1, k), Second(o.h2, k)} == {trail[j], Ahead(o, trail, j + 1)}
    ensures Other(o.h1, o.h2, KeyOn(o, trail, j + 1), Ahead(o, trail, j + 1)) == trail[j]
  {
    assert Taken(o.slots, trail[j]);
  }

  lemma TrailNext(o: Origin, trail: seq<int>, j: nat)
    requires IsTrail(o, trail) && j < |trail|
    ensures trail[j] == Ahead(o, trail, j) && Taken(o.slots, trail[j])
  {
  }

  /** Once a trail has been met again, the keys stored on it have no slot elsewhere. */
  lemma TrailConfined(o: Origin, trail: seq<int>, x: int)
    requires Stored(o.h1, o.h2, o.slots, o.keys) && IsTrail(o, trail) && x in trail && Ahead(o, trail, |trail|) in trail
    ensures Confined(o.h1, o.h2, o.slots, On(trail), x)
  {
    var j :| 0 <= j < |trail| && trail[j] == x;
    hide Ahead, KeyOn, IsTrail, Stored;
    TrailSlots(o, trail, j);
    TrailNext(o, trail, j);
    if j + 1 < |trail| { TrailNext(o, trail, j + 1); }
    var a, b := First(o.h1, KeyOn(o, trail, j + 1)), Second(o.h2, KeyOn(o, trail, j + 1));
    assert a in {a, b} && b in {a, b};
  }

  lemma SameKeyOn(o: Origin, trail: seq<int>, x: int, j: nat)
    requires j <= |trail|
    ensures KeyOn(o, trail + [x], j) == KeyOn(o, trail, j) && Ahead(o, trail + [x], j) == Ahead(o, trail, j)
  {
    assert j > 0 ==> (trail + [x])[j - 1] == trail[j - 1];
  }

  lemma TrailGrows(o: Origin, trail: seq<int>, x: int)
    requires IsTrail(o, trail) && Taken(o.slots, x) && x !in trail && x == Ahead(o, trail, |trail|)
    ensures IsTrail(o, trail + [x])
  {
    hide Ahead, KeyOn, Taken;
    forall j: nat | j < |trail + [x]| ensures (trail + [x])[j] == Ahead(o, trail + [x], j) { SameKeyOn(o, trail, x, j); }
  }

  lemma ShiftsOn(o: Origin, c: seq<Slot>, trail: seq<int>, x: int, value: int)
    requires Shifted(o, c, trail, |trail|) && x !in trail && Taken(c, x)
    ensures Shifted(o, c[x := Used(KeyOn(o, trail, |trail|), value)], trail + [x], |trail| + 1)
  {
    hide KeyOn;
    var t, c' := trail + [x], c[x := Used(KeyOn(o, trail, |trail|), value)];
    forall j: nat | j < |t| ensures Taken(c', t[j]) && c'[t[j]].key == KeyOn(o, t, j) {
      SameKeyOn(o, trail, x, j);
      assert j < |trail| ==> t[j] == trail[j];
    }
  }

  lemma SameFurtherOut(o: Origin, c: seq<Slot>, U: set<int>, x: int, s: Slot)
    requires SameOutside(o, c, U) && Taken(c, x)
    ensures SameOutside(o, c[x := s], U + {x}) && (x in U ==> SameOutside(o, c[x := s], U)) && |c| == |o.slots|
    ensures x !in U ==> o.slots[x] == c[x] && (Taken(c, x) ==> Taken(o.slots, x))
  {
    assert x in U ==> U + {x} == U;
  }

  lemma ShiftedAt(o: Origin, c: seq<Slot>, trail: seq<int>, p: nat, j: nat)
    requires Shifted(o, c, trail, p) && j < p
    ensures p <= |trail| && Taken(c, trail[j]) && c[trail[j]].key == KeyOn(o, trail, j)
  {
  }

  lemma ShiftsBack(o: Origin, c: seq<Slot>, trail: seq<int>, p: nat, j: nat, s: Slot)
    requires IsTrail(o, trail) && Shifted(o, c, trail, p) && j < p && Taken(c, trail[j])
    ensures Shifted(o, c[trail[j] := s], trail, j)
  {
    hide KeyOn, Ahead;
  }

  /** The way back from slot j of a trail. */
  lemma BackNext(o: Origin, trail: seq<int>, j: nat)
    requires Stored(o.h1, o.h2, o.slots, o.keys) && IsTrail(o, trail) && j < |trail|
    ensures Other(o.h1, o.h2, KeyOn(o, trail, j), trail[j]) == if j > 0 then trail[j - 1] else Second(o.h2, o.extra)
  {
    hide Stored, IsTrail;
    TrailNext(o, trail, j);
    if j > 0 { TrailSlots(o, trail, j - 1); }
  }

  lemma LastOn(o: Origin, trail: seq<int>, x: int)
    requires Taken(o.slots, x)
    ensures o.slots[x].Used? && KeyOn(o, trail + [x], |trail| + 1) == o.slots[x].key
    ensures Ahead(o, trail + [x], |trail| + 1) == Other(o.h1, o.h2, o.slots[x].key, x)
  {
    hide Other;
    assert (trail + [x])[|trail|] == x;
  }

  lemma OnGrows(trail: seq<int>, x: int)
    ensures On(trail + [x]) == On(trail) + {x}
  {
    assert (trail + [x])[..|trail|] == trail;
  }

  lemma GoesForward(o: Origin, c: seq<Slot>, key: string, value: int, next: int, trail: seq<int>, steps: nat)
    requires Going(o, c, key, next, trail, steps) && Taken(c, next) && next !in trail
    ensures Going(o, c[next := Used(key, value)], c[next].key, Other(o.h1, o.h2, c[next].key, next), trail + [next], steps + 1)
  {
    hide IsTrail, SameOutside, Shifted, Other, Taken, KeyOn, Ahead, On;
    SameFurtherOut(o, c, On(trail), next, Used(key, value));
    OnGrows(trail, next);
    TakenIs(c, next);
    TrailGrows(o, trail, next);
    ShiftsOn(o, c, trail, next, value);
    LastOn(o, trail, next);
  }

  /** Meeting the trail at slot s. */
  lemma TurnsBack(o: Origin, c: seq<Slot>, key: string, value: int, next: int, trail: seq<int>, s: nat, steps: nat)
    requires Stored(o.h1, o.h2, o.slots, o.keys) && Going(o, c, key, next, trail, steps) && s < |trail| && trail[s] == next
    requires Second(o.h2, o.extra) !in trail
    ensures Taken(c, next)
    ensures Returning(o, c[next := Used(key, value)], c[next].key, Other(o.h1, o.h2, c[next].key, next), trail, s, steps + 1)
  {
    hide IsTrail, SameOutside, Shifted, Stored, Other, KeyOn, Ahead;
    ShiftedAt(o, c, trail, |trail|, s);
    BackNext(o, trail, s);
    SameFurtherOut(o, c, On(trail), next, Used(key, value));
    ShiftsBack(o, c, trail, |trail|, s, Used(key, value));
  }

  lemma GoesBack(o: Origin, c: seq<Slot>, key: string, value: int, next: int, trail: seq<int>, p: nat, steps: nat)
    requires Stored(o.h1, o.h2, o.slots, o.keys) && Returning(o, c, key, next, trail, p, steps) && p > 0
    ensures Taken(c, next)
    ensures Returning(o, c[next := Used(key, value)], c[next].key, Other(o.h1, o.h2, c[next].key, next), trail, p - 1, steps + 1)
  {
    hide IsTrail, SameOutside, Shifted, Stored, Other, KeyOn, Ahead;
    ShiftedAt(o, c, trail, p, p - 1);
    BackNext(o, trail, p - 1);
    SameFurtherOut(o, c, On(trail), next, Used(key, value));
    ShiftsBack(o, c, trail, p, p - 1, Used(key, value));
  }

  lemma ConfinedGrows(o: Origin, U: set<int>, V: set<int>, x: int)
    requires Confined(o.h1, o.h2, o.slots, U, x) && U <= V
    ensures Confined(o.h1, o.h2, o.slots, V, x)
  {
  }

  lemma NewlyConfined(o: Origin, U: set<int>, x: int)
    requires Stored(o.h1, o.h2, o.slots, o.keys) && Taken(o.slots, x) && x in U
    ensures Confined(o.h1, o.h2, o.slots, U + {Other(o.h1, o.h2, o.slots[x].key, x)}, x)
  {
  }

  /** The new key, back in its first slot's place in the chain, goes to its second slot. */
  lemma GoesBeyond(o: Origin, c: seq<Slot>, key: string, value: int, next: int, trail: seq<int>, steps: nat)
    requires Stored(o.h1, o.h2, o.slots, o.keys) && Returning(o, c, key, next, trail, 0, steps) && Taken(c, next)
    ensures GoingOn(o, c[next := Used(key, value)], c[next].key, Other(o.h1, o.h2, c[next].key, next), On(trail) + {next}, steps + 1)
  {
    hide Stored, Within, Confined, SameOutside, Shifted, IsTrail, KeyOn;
    var U := On(trail) + {next};
    var next' := Other(o.h1, o.h2, c[next].key, next);
    SameFurtherOut(o, c, On(trail), next, Used(key, value));
    forall x | x in U ensures Confined(o.h1, o.h2, o.slots, U + {next'}, x) {
      if x in trail {
        TrailConfined(o, trail, x);
        ConfinedGrows(o, On(trail), U + {next'}, x);
      } else {
        NewlyConfined(o, U, next);
      }
    }
    TrailNext(o, trail, 0);
    WithinIs(o, U);
    TrailCount(o, trail, next);
  }

  /** A trail and one more slot are at most all slots. */
  lemma TrailCount(o: Origin, trail: seq<int>, x: int)
    requires Stored(o.h1, o.h2, o.slots, o.keys) && IsTrail(o, trail) && 0 <= x < 2 * CK_SIZE && x !in trail
    ensures |On(trail) + {x}| == |trail| + 1 <= 2 * CK_SIZE
  {
    hide Ahead, Stored;
    TrailLength(o, trail);
    AtMostAll(o, On(trail) + {x});
  }

  lemma TrailLength(o: Origin, trail: seq<int>)
    requires Stored(o.h1, o.h2, o.slots, o.keys) && IsTrail(o, trail)
    ensures |On(trail)| == |trail| <= 2 * CK_SIZE == |o.slots| && forall x :: x in trail ==> 0 <= x < 2 * CK_SIZE
  {
    hide Ahead;
    AtMostAll(o, On(trail));
  }

  lemma WithinIs(o: Origin, U: set<int>)
    requires First(o.h1, o.extra) in U && Second(o.h2, o.extra) in U
    ensures Within(o.h1, o.h2, o.extra, U)
  {
  }

  lemma {:induction false} BelowCount(U: set<int>, n: nat)
    ensures |Below(U, n)| <= n
  {
    if n > 0 { BelowCount(U, n - 1); }
  }

  lemma AtMostAll(o: Origin, U: set<int>)
    requires |o.slots| == 2 * CK_SIZE && forall x :: x in U ==> 0 <= x < 2 * CK_SIZE
    ensures |U| <= 2 * CK_SIZE
  {
    BelowCount(U, 2 * CK_SIZE);
    BelowIs(U, 2 * CK_SIZE);
    forall x: int ensures x in Below(U, 2 * CK_SIZE) <==> x in U {}
    assert Below(U, 2 * CK_SIZE) == U;
  }

  lemma GoesOn(o: Origin, c: seq<Slot>, key: string, value: int, next: int, U: set<int>, steps: nat)
    requires Stored(o.h1, o.h2, o.slots, o.keys) && GoingOn(o, c, key, next, U, steps) && Taken(c, next) && next !in U
    ensures GoingOn(o, c[next := Used(key, value)], c[next].key, Other(o.h1, o.h2, c[next].key, next), U + {next}, steps + 1)
  {
    hide Stored, Within, Confined;
    var V := U + {next};
    var next' := Other(o.h1, o.h2, c[next].key, next);
    assert c[next] == o.slots[next];
    forall x | x in V ensures Confined(o.h1, o.h2, o.slots, V + {next'}, x) {
      if x in U {
        ConfinedGrows(o, V, V + {next'}, x);
      } else {
        NewlyConfined(o, V, next);
      }
    }
    WithinGrows(o, U, V);
  }

  lemma WithinGrows(o: Origin, U: set<int>, V: set<int>)
    requires Within(o.h1, o.h2, o.extra, U) && U <= V
    ensures Within(o.h1, o.h2, o.extra, V)
  {
  }

  /** The chain has come back into slots whose keys have no other place. */
  lemma BecomesHopeless(o: Origin, c: seq<Slot>, key: string, next: int, chase: Chase, steps: nat)
    requires Chasing(o, c, key, next, chase, steps)
    requires match chase {
               case Forward(trail) => next in trail && Second(o.h2, o.extra) in trail
               case Beyond(U) => next in U
               case _ => false
             }
    ensures !Assignable(o.h1, o.h2, o.keys + {o.extra})
  {
    hide Stored, Within, Confined, Assignable;
    match chase {
      case Forward(trail) =>
        forall x | x in On(trail) ensures Confined(o.h1, o.h2, o.slots, On(trail), x) { TrailConfined(o, trail, x); }
        TrailNext(o, trail, 0);
        WithinIs(o, On(trail));
        OverfullRefutes(o.h1, o.h2, o.slots, o.keys, o.extra, On(trail));
      case Beyond(U) =>
        assert U + {next} == U;
        OverfullRefutes(o.h1, o.h2, o.slots, o.keys, o.extra, U);
    }
  }

  /** One eviction. */
  lemma ChaseStep(o: Origin, c: seq<Slot>, key: string, value: int, next: int, chase: Chase, steps: nat) returns (chase': Chase)
    requires Chasing(o, c, key, next, chase, steps) && Taken(c, next)
    ensures Chasing(o, c[next := Used(key, value)], c[next].key, Other(o.h1, o.h2, c[next].key, next), chase', steps + 1)
  {
    hide Stored, Assignable, Going, Returning, GoingOn, Taken;
    match chase {
      case Forward(trail) =>
        if next !in trail {
          GoesForward(o, c, key, value, next, trail, steps);
          chase' := Forward(trail + [next]);
        } else if Second(o.h2, o.extra) in trail {
          BecomesHopeless(o, c, key, next, chase, steps);
          chase' := Hopeless;
        } else {
          var s: nat :| s < |trail| && trail[s] == next;
          TurnsBack(o, c, key, value, next, trail, s, steps);
          chase' := Back(trail, s);
        }
      case Back(trail, p) =>
        if p > 0 {
          GoesBack(o, c, key, value, next, trail, p, steps);
          chase' := Back(trail, p - 1);
        } else {
          GoesBeyond(o, c, key, value, next, trail, steps);
          chase' := Beyond(On(trail) + {next});
        }
      case Beyond(U) =>
        if next in U {
          BecomesHopeless(o, c, key, next, chase, steps);
          chase' := Hopeless;
        } else {
          GoesOn(o, c, key, value, next, U, steps);
          chase' := Beyond(U + {next});
        }
      case Hopeless =>
        chase' := Hopeless;
    }
  }

  /** Twice as many evictions as slots are enough to know: a chain that long has no end. */
  lemma ChaseEnds(o: Origin, c: seq<Slot>, key: string, next: int, chase: Chase, steps: nat)
    requires Chasing(o, c, key, next, chase, steps) && steps >= 4 * CK_SIZE
    ensures !Assignable(o.h1, o.h2, o.keys + {o.extra})
  {
    hide Within, Confined, Assignable, Stored, SameOutside, Shifted, IsTrail, KeyOn, Ahead, Other;
    match chase {
      case Forward(trail) => TrailLength(o, trail);
      case Back(trail, p) => TrailCount(o, trail, Second(o.h2, o.extra));
      case Beyond(U) =>
        forall x | x in U ensures 0 <= x < |o.slots| { ConfinedIs(o.h1, o.h2, o.slots, U + {next}, x); }
        StoredLength(o);
        AtMostAll(o, U);
      case Hopeless =>
    }
  }

  lemma StoredLength(o: Origin)
    requires Stored(o.h1, o.h2, o.slots, o.keys)
    ensures |o.slots| == 2 * CK_SIZE
  {
  }

  lemma EvictFirst(o: Origin, t1: seq<Slot>, t2: seq<Slot>, key: string, value: int, chase: Chase, steps: nat) returns (chase': Chase)
    requires |t1| == |t2| == CK_SIZE && Homed(t1, o.h1) && t1[Home(o.h1, key)].Used?
    requires Chasing(o, t1 + t2, key, First(o.h1, key), chase, steps)
    ensures var e := t1[Home(o.h1, key)].key;
      Chasing(o, t1[Home(o.h1, key) := Used(key, value)] + t2, e, Second(o.h2, e), chase', steps + 1)
  {
    hide Chasing;
    var x := First(o.h1, key);
    chase' := ChaseStep(o, t1 + t2, key, value, x, chase, steps);
    assert (t1 + t2)[x] == t1[x] && Home(o.h1, t1[x].key) == x;
    assert (t1 + t2)[x := Used(key, value)] == t1[x := Used(key, value)] + t2;
  }

  lemma EvictSecond(o: Origin, t1: seq<Slot>, t2: seq<Slot>, key: string, value: int, chase: Chase, steps: nat) returns (chase': Chase)
    requires |t1| == |t2| == CK_SIZE && t2[Home(o.h2, key)].Used?
    requires Chasing(o, t1 + t2, key, Second(o.h2, key), chase, steps)
    ensures var e := t2[Home(o.h2, key)].key;
      Chasing(o, t1 + t2[Home(o.h2, key) := Used(key, value)], e, First(o.h1, e), chase', steps + 1)
  {
    hide Chasing;
    var x, i := Second(o.h2, key), Home(o.h2, key);
    chase' := ChaseStep(o, t1 + t2, key, value, x, chase, steps);
    assert (t1 + t2)[x] == t2[i];
    assert (t1 + t2)[x := Used(key, value)] == t1 + t2[i := Used(key, value)];
  }

  class CuckooMap {
    const h1: string -> nat
    const h2: string -> nat
    const table1: array<Slot>
    const table2: array<Slot>
    var size: int

    ghost predicate Valid()
      reads this, table1, table2
    {
      && table1 != table2 && TablesOk(table1[..], h1, table2[..], h2)
      && size == Occupied(table1[..], CK_SIZE) + Occupied(table2[..], CK_SIZE)
    }

    ghost function Contents(): map<string, int>
      requires Valid()
      reads this, table1, table2
    {
      Entries(table1[..], h1, table2[..], h2)
    }

    constructor (first: string -> nat, second: string -> nat)
      ensures Valid() && Contents() == map[] && fresh(table1) && fresh(table2)
      ensures h1 == first && h2 == second
    {
      h1, h2 := first, second;
      table1 := new Slot[CK_SIZE](_ => Free);
      table2 := new Slot[CK_SIZE](_ => Free);
      size := 0;
      new;
      NothingOccupied(table1[..], CK_SIZE);
      NothingOccupied(table2[..], CK_SIZE);
    }

    method Get(key: string) returns (value: Option<int>)
      requires Valid()
      ensures value == if key in Contents() then Some(Contents()[key]) else None
    {
      TwoProbes(table1[..], h1, table2[..], h2, key);
      var slot := table1[Home(h1, key)];
      if slot.Used? && slot.key == key { return Some(slot.value); }
      slot := table2[Home(h2, key)];
      if slot.Used? && slot.key == key { return Some(slot.value); }
      return None;
    }

    /** Update or insert.  It succeeds exactly if every key, the new one included, can have one of its two slots
        to itself, however the keys are placed at the time; a failed insertion has lost exactly one pair. */
    method Put(key: string, value: int) returns (ok: bool)
      requires Valid()
      modifies this, table1, table2
      ensures Valid()
      ensures ok ==> Contents() == old(Contents())[key := value]
      ensures ok <==> Assignable(h1, h2, old(Contents()).Keys + {key})
      ensures !ok ==> key !in old(Contents())
      ensures !ok ==> OneLost(old(Contents())[key := value], Contents())
      ensures size == old(size) + if ok && key !in old(Contents()) then 1 else 0
    {
      hide Assignable;
      TwoProbes(table1[..], h1, table2[..], h2, key);
      TablesAssign(table1[..], h1, table2[..], h2);
      assert key in Contents() ==> Contents().Keys + {key} == Contents().Keys;
      var i1, i2 := Home(h1, key), Home(h2, key);
      if table1[i1].Used? && table1[i1].key == key {
        UpdateFirst(table1[..], h1, table2[..], h2, key, value);
        ghost var t := table1[..];
        table1[i1] := Used(key, value);
        assert table1[..] == t[i1 := Used(key, value)];
        return true;
      }
      if table2[i2].Used? && table2[i2].key == key {
        UpdateSecond(table1[..], h1, table2[..], h2, key, value);
        ghost var t := table2[..];
        table2[i2] := Used(key, value);
        assert table2[..] == t[i2 := Used(key, value)];
        return true;
      }
      ok := InsertEntry(key, value);
    }

    method InsertEntry(newKey: string, newValue: int) returns (ok: bool)
      requires Valid() && newKey !in Contents()
      modifies this, table1, table2
      ensures Valid()
      ensures ok ==> Contents() == old(Contents())[newKey := newValue]
      ensures ok <==> Assignable(h1, h2, old(Contents()).Keys + {newKey})
      ensures !ok ==> OneLost(old(Contents())[newKey := newValue], Contents())
      ensures size == old(size) + if ok then 1 else 0
    {
      hide TablesOk, Entries, Occupied, Chasing, Assignable;
      var key, value := newKey, newValue;
      ghost var wanted := Contents()[newKey := newValue];
      assert wanted.Keys == Contents().Keys + {newKey};
      ghost var o := Origin(h1, h2, table1[..] + table2[..], Contents().Keys, newKey);
      TablesStored(table1[..], h1, table2[..], h2);
      ChaseBegins(o);
      ghost var chase := Forward([]);
      for loop := 0 to MAX_LOOP
        invariant Valid() && size == old(size)
        invariant key !in Contents() && Contents()[key := value] == wanted
        invariant Chasing(o, table1[..] + table2[..], key, First(h1, key), chase, 2 * loop)
      {
        ghost var t1, t2 := table1[..], table2[..];
        var i1 := Home(h1, key);
        StoreFirst(t1, h1, t2, h2, key, value);
        Lengths(t1, h1, t2, h2);
        var evicted := table1[i1];
        table1[i1] := Used(key, value);
        assert table1[..] == t1[i1 := Used(key, value)];
        if evicted.Free? {
          size := size + 1;
          TablesAssign(table1[..], h1, table2[..], h2);
          return true;
        }
        chase := EvictFirst(o, t1, t2, key, value, chase, 2 * loop);
        key, value := evicted.key, evicted.value;

        t1 := table1[..];
        var i2 := Home(h2, key);
        StoreSecond(t1, h1, t2, h2, key, value);
        evicted := table2[i2];
        table2[i2] := Used(key, value);
        assert table2[..] == t2[i2 := Used(key, value)];
        if evicted.Free? {
          size := size + 1;
          TablesAssign(table1[..], h1, table2[..], h2);
          return true;
        }
        chase := EvictSecond(o, t1, t2, key, value, chase, 2 * loop + 1);
        key, value := evicted.key, evicted.value;
      }
      ChaseEnds(o, table1[..] + table2[..], key, First(h1, key), chase, 2 * MAX_LOOP);
      assert key in wanted && Contents() == wanted - {key};
      return false;
    }

    method Remove(key: string) returns (ok: bool)
      requires Valid()
      modifies this, table1, table2
      ensures Valid() && ok == (key in old(Contents())) && Contents() == old(Contents()) - {key}
      ensures size == old(size) - if ok then 1 else 0
    {
      TwoProbes(table1[..], h1, table2[..], h2, key);
      var i1, i2 := Home(h1, key), Home(h2, key);
      if table1[i1].Used? && table1[i1].key == key {
        ClearFirst(table1[..], h1, table2[..], h2, key);
        ghost var t := table1[..];
        table1[i1] := Free;
        assert table1[..] == t[i1 := Free];
        size := size - 1;
        return true;
      }
      if table2[i2].Used? && table2[i2].key == key {
        ClearSecond(table1[..], h1, table2[..], h2, key);
        ghost var t := table2[..];
        table2[i2] := Free;
        assert table2[..] == t[i2 := Free];
        size := size - 1;
        return true;
      }
      return false;
    }
  }

  lemma Lengths(t1: seq<Slot>, h1: string -> nat, t2: seq<Slot>, h2: string -> nat)
    requires TablesOk(t1, h1, t2, h2)
    ensures |t1| == |t2| == CK_SIZE && Homed(t1, h1)
  {
  }

  lemma {:induction false} NothingOccupied(t: seq<Slot>, n: nat)
    requires n <= |t| && forall i :: 0 <= i < n ==> t[i].Free?
    ensures Occupied(t, n) == 0
  {
    if n > 0 { NothingOccupied(t, n - 1); }
  }

  lemma UpdateFirst(t1: seq<Slot>, h1: string -> nat, t2: seq<Slot>, h2: string -> nat, key: string, value: int)
    requires TablesOk(t1, h1, t2, h2) && Has(t1, h1, key)
    ensures var t1' := t1[Home(h1, key) := Used(key, value)];
      && TablesOk(t1', h1, t2, h2) && Entries(t1', h1, t2, h2) == Entries(t1, h1, t2, h2)[key := value]
      && Occupied(t1', CK_SIZE) == Occupied(t1, CK_SIZE)
  {
    hide TableMap, Occupied;
    var t1' := t1[Home(h1, key) := Used(key, value)];
    SlotStored(t1, h1, key, value);
    forall k ensures Has(t1', h1, k) ==> Has(t1, h1, k) {}
    MapHas(t2, h2, key);
    MapHas(t1, h1, key);
  }

  lemma UpdateSecond(t1: seq<Slot>, h1: string -> nat, t2: seq<Slot>, h2: string -> nat, key: string, value: int)
    requires TablesOk(t1, h1, t2, h2) && Has(t2, h2, key)
    ensures var t2' := t2[Home(h2, key) := Used(key, value)];
      && TablesOk(t1, h1, t2', h2) && Entries(t1, h1, t2', h2) == Entries(t1, h1, t2, h2)[key := value]
      && Occupied(t2', CK_SIZE) == Occupied(t2, CK_SIZE)
  {
    Swapped(t1, h1, t2, h2);
    UpdateFirst(t2, h2, t1, h1, key, value);
    Swapped(t2[Home(h2, key) := Used(key, value)], h2, t1, h1);
  }

  lemma ClearFirst(t1: seq<Slot>, h1: string -> nat, t2: seq<Slot>, h2: string -> nat, key: string)
    requires TablesOk(t1, h1, t2, h2) && Has(t1, h1, key)
    ensures var t1' := t1[Home(h1, key) := Free];
      && TablesOk(t1', h1, t2, h2) && Entries(t1', h1, t2, h2) == Entries(t1, h1, t2, h2) - {key}
      && Occupied(t1', CK_SIZE) == Occupied(t1, CK_SIZE) - 1
  {
    hide TableMap, Occupied;
    var t1' := t1[Home(h1, key) := Free];
    SlotCleared(t1, h1, key);
    forall k ensures Has(t1', h1, k) ==> Has(t1, h1, k) {}
    MapHas(t2, h2, key);
    MapHas(t1, h1, key);
  }

  lemma ClearSecond(t1: seq<Slot>, h1: string -> nat, t2: seq<Slot>, h2: string -> nat, key: string)
    requires TablesOk(t1, h1, t2, h2) && Has(t2, h2, key)
    ensures var t2' := t2[Home(h2, key) := Free];
      && TablesOk(t1, h1, t2', h2) && Entries(t1, h1, t2', h2) == Entries(t1, h1, t2, h2) - {key}
      && Occupied(t2', CK_SIZE) == Occupied(t2, CK_SIZE) - 1
  {
    Swapped(t1, h1, t2, h2);
    ClearFirst(t2, h2, t1, h1, key);
    Swapped(t2[Home(h2, key) := Free], h2, t1, h1);
  }
}
