/** robin_hood_hash.c: open addressing with displacement on insertion and backward shift on removal,
    as a refinement of a finite map.  The hash function is an arbitrary function of the key. */
module RobinHoodHash {
  const CAPACITY := 32

  datatype MaybeKey = Null | Key(s: string)

  /** A slot; one whose key is NULL keeps its old value and distance. */
  datatype Slot = Slot(key: MaybeKey, value: int, dib: int)

  type Table = s: seq<Slot> | |s| == CAPACITY witness seq(CAPACITY, _ => Slot(Null, 0, 0))

  function Index(base: int, i: int): (r: int)
    ensures 0 <= r < CAPACITY
  {
    (base + i) % CAPACITY
  }

  function Home(hash: string -> nat, key: string): int {
    hash(key) % CAPACITY
  }

  predicate Full(s: Table, i: int)
    requires 0 <= i < CAPACITY
  {
    s[i].key.Key?
  }

  // ----- The invariant

  /** The stored distance is the circular distance to the home slot. */
  ghost predicate DibOk(s: Table, hash: string -> nat, i: int)
    requires 0 <= i < CAPACITY
  {
    Full(s, i) ==> 0 <= s[i].dib < CAPACITY && i == Index(Home(hash, s[i].key.s), s[i].dib)
  }

  /** A displaced entry, or the hole left by one, follows an entry displaced by at most one less. */
  ghost predicate StepOk(s: Table, hole: int, i: int)
    requires 0 <= i < CAPACITY
  {
    var p := Index(i, CAPACITY - 1);
    (Full(s, i) || i == hole) && s[i].dib > 0 ==> (Full(s, p) || p == hole) && s[p].dib >= s[i].dib - 1
  }

  ghost predicate Dibs(s: Table, hash: string -> nat) {
    forall i :: 0 <= i < CAPACITY ==> DibOk(s, hash, i)
  }

  ghost predicate Steps(s: Table, hole: int) {
    forall i :: 0 <= i < CAPACITY ==> StepOk(s, hole, i)
  }

  ghost predicate Unique(s: Table) {
    forall i, j :: 0 <= i < j < CAPACITY && Full(s, i) && Full(s, j) ==> s[i].key != s[j].key
  }

  ghost predicate TableOk(s: Table, hash: string -> nat, hole: int) {
    Dibs(s, hash) && Steps(s, hole) && Unique(s)
  }

  ghost function Indices(n: nat): (r: set<int>)
    ensures |r| == n && forall i :: i in r <==> 0 <= i < n
  {
    if n == 0 then {} else Indices(n - 1) + {n - 1}
  }

  ghost function Occupied(s: Table): set<int> {
    set i: int | 0 <= i < CAPACITY && Full(s, i)
  }

  ghost predicate Stores(s: Table, k: string, v: int) {
    exists i :: 0 <= i < CAPACITY && Full(s, i) && s[i].key.s == k && s[i].value == v
  }

  /** The map the table stands for. */
  ghost function Contents(s: Table): map<string, int>
    requires Unique(s)
  {
    map i | i in Occupied(s) :: s[i].key.s := s[i].value
  }

  lemma ContentsAre(s: Table, k: string, v: int)
    requires Unique(s)
    ensures Stores(s, k, v) <==> k in Contents(s) && Contents(s)[k] == v
  {
    if i :| 0 <= i < CAPACITY && Full(s, i) && s[i].key.s == k && s[i].value == v {
      assert i in Occupied(s);
    }
    if k in Contents(s) && Contents(s)[k] == v {
      var i :| i in Occupied(s) && s[i].key.s == k;
    }
  }

  predicate Gives(m: map<string, int>, k: string, v: int) {
    k in m && m[k] == v
  }

  lemma SameMap(m: map<string, int>, n: map<string, int>)
    requires forall k, v :: Gives(m, k, v) <==> Gives(n, k, v)
    ensures m == n
  {
    forall k | k in m ensures k in n && n[k] == m[k] { assert Gives(m, k, m[k]); }
    forall k | k in n ensures k in m { assert Gives(n, k, n[k]); }
  }

  lemma KeyAt(s: Table, i: int)
    requires Unique(s) && 0 <= i < CAPACITY && Full(s, i)
    ensures s[i].key.s in Contents(s) && Contents(s)[s[i].key.s] == s[i].value
  {
    assert i in Occupied(s);
  }

  lemma SlotOf(s: Table, k: string) returns (i: int)
    requires Unique(s) && k in Contents(s)
    ensures 0 <= i < CAPACITY && s[i].key == Key(k) && s[i].value == Contents(s)[k]
  {
    i :| i in Occupied(s) && s[i].key.s == k;
  }

  // ----- Lookup

  lemma IndexBack(home: int, d: nat)
    requires d > 0
    ensures Index(Index(home, d), CAPACITY - 1) == Index(home, d - 1)
  {
  }

  /** On the way from its home slot to an entry, every slot is taken, by an entry at least as far from
      home as the search has come. */
  lemma {:induction false} PathTaken(s: Table, home: int, far: nat, d: nat)
    requires Steps(s, -1) && Full(s, Index(home, far)) && s[Index(home, far)].dib >= far && d <= far
    ensures Full(s, Index(home, d)) && s[Index(home, d)].dib >= d
    decreases far
  {
    if d < far {
      assert StepOk(s, -1, Index(home, far));
      IndexBack(home, far);
      PathTaken(s, home, far - 1, d);
    }
  }

  /** A stored key: the search from its home slot meets it, and nothing that would stop it before. */
  lemma SearchPath(s: Table, hash: string -> nat, i: int, d: nat)
    requires TableOk(s, hash, -1) && 0 <= i < CAPACITY && Full(s, i) && d <= s[i].dib
    ensures s[i].dib < CAPACITY && Index(Home(hash, s[i].key.s), s[i].dib) == i
    ensures Full(s, Index(Home(hash, s[i].key.s), d)) && s[Index(Home(hash, s[i].key.s), d)].dib >= d
  {
    assert DibOk(s, hash, i);
    PathTaken(s, Home(hash, s[i].key.s), s[i].dib, d);
  }

  lemma SearchEnd(s: Table, hash: string -> nat, i: int)
    requires Dibs(s, hash) && 0 <= i < CAPACITY && Full(s, i)
    ensures 0 <= s[i].dib < CAPACITY && s[Index(Home(hash, s[i].key.s), s[i].dib)] == s[i]
  {
    assert DibOk(s, hash, i);
  }

  /** What the search has seen after i probes without a verdict. */
  ghost predicate Passed(s: Table, home: int, key: string, i: int) {
    forall j :: 0 <= j < i ==> s[Index(home, j)].key != Key(key)
  }

  /** An empty slot or one closer to its home than the search has come means the key is absent. */
  lemma EarlyExit(s: Table, hash: string -> nat, key: string, i: nat)
    requires TableOk(s, hash, -1) && i < CAPACITY && Passed(s, Home(hash, key), key, i)
    requires var t := s[Index(Home(hash, key), i)]; t.key == Null || t.dib < i
    ensures key !in Contents(s)
  {
    hide Index, Home, Steps, Dibs, Unique, Contents;
    if key in Contents(s) {
      var p := SlotOf(s, key);
      SearchEnd(s, hash, p);
      if i <= s[p].dib { SearchPath(s, hash, p, i); }
    }
  }

  lemma NotFound(s: Table, hash: string -> nat, key: string)
    requires TableOk(s, hash, -1) && Passed(s, Home(hash, key), key, CAPACITY)
    ensures key !in Contents(s)
  {
    hide Index, Home, Steps, Dibs, Unique, Contents;
    if key in Contents(s) {
      var p := SlotOf(s, key);
      SearchEnd(s, hash, p);
    }
  }

  // ----- Insertion

  /** Slot i takes over the carried entry. */
  function Placed(s: Table, i: int, key: string, value: int, dib: int): Table
    requires 0 <= i < CAPACITY
  {
    s[i := Slot(Key(key), value, dib)]
  }

  /** An entry carried to slot i that may go there: its distance is right, and the slot before is at
      most one less displaced. */
  ghost predicate Fits(s: Table, hash: string -> nat, i: int, key: string, dib: int)
    requires 0 <= i < CAPACITY
  {
    && 0 <= dib < CAPACITY && i == Index(Home(hash, key), dib)
    && (dib > 0 ==> Full(s, Index(i, CAPACITY - 1)) && s[Index(i, CAPACITY - 1)].dib >= dib - 1)
    && Absent(s, key)
  }

  lemma PlaceSteps(s: Table, i: int, key: string, value: int, dib: int)
    requires Steps(s, -1) && 0 <= i < CAPACITY && (Full(s, i) ==> s[i].dib < dib) && dib >= 0
    requires dib > 0 ==> Full(s, Index(i, CAPACITY - 1)) && s[Index(i, CAPACITY - 1)].dib >= dib - 1
    ensures Steps(Placed(s, i, key, value, dib), -1)
  {
    var t := Placed(s, i, key, value, dib);
    forall j | 0 <= j < CAPACITY ensures StepOk(t, -1, j) {
      assert StepOk(s, -1, j);
    }
  }

  /** Displacing a nearer entry, or filling an empty slot, keeps the table in order. */
  lemma PlaceOk(s: Table, hash: string -> nat, i: int, key: string, value: int, dib: int)
    requires TableOk(s, hash, -1) && 0 <= i < CAPACITY && Fits(s, hash, i, key, dib) && (Full(s, i) ==> s[i].dib < dib)
    ensures TableOk(Placed(s, i, key, value, dib), hash, -1)
  {
    hide Steps;
    var t := Placed(s, i, key, value, dib);
    PlaceSteps(s, i, key, value, dib);
    forall j | 0 <= j < CAPACITY ensures DibOk(t, hash, j) {
      assert DibOk(s, hash, j);
    }
  }

  lemma PlaceStores(s: Table, i: int, key: string, value: int, dib: int, k: string, v: int)
    requires 0 <= i < CAPACITY && Unique(s)
    ensures Stores(Placed(s, i, key, value, dib), k, v)
       <==> (k == key && v == value) || (Stores(s, k, v) && !(Full(s, i) && k == s[i].key.s))
  {
    var t := Placed(s, i, key, value, dib);
    if k == key && v == value { assert Full(t, i) && t[i].key.s == k && t[i].value == v; }
    if Stores(s, k, v) && !(Full(s, i) && k == s[i].key.s) {
      var j :| 0 <= j < CAPACITY && Full(s, j) && s[j].key.s == k && s[j].value == v;
      assert Full(t, j) && t[j].key.s == k && t[j].value == v;
    }
    if Stores(t, k, v) {
      var j :| 0 <= j < CAPACITY && Full(t, j) && t[j].key.s == k && t[j].value == v;
      if j != i { assert Full(s, j) && s[j].key.s == k && s[j].value == v; }
    }
  }

  ghost predicate Absent(s: Table, key: string) {
    forall j :: 0 <= j < CAPACITY && Full(s, j) ==> s[j].key != Key(key)
  }

  lemma AbsentIff(s: Table, key: string)
    requires Unique(s)
    ensures Absent(s, key) <==> key !in Contents(s)
  {
    if key in Contents(s) { var i := SlotOf(s, key); }
    if i :| 0 <= i < CAPACITY && Full(s, i) && s[i].key == Key(key) { assert i in Occupied(s); }
  }

  /** The carried entry goes in, and the one it displaced, if any, comes out: the table and the
      carried entry together still make up the same map. */
  lemma PlaceContents(s: Table, i: int, key: string, value: int, dib: int)
    requires 0 <= i < CAPACITY && Unique(s) && Unique(Placed(s, i, key, value, dib)) && Absent(s, key)
    ensures var t := Placed(s, i, key, value, dib);
            if Full(s, i) then Absent(t, s[i].key.s) && Contents(t)[s[i].key.s := s[i].value] == Contents(s)[key := value]
            else Contents(t) == Contents(s)[key := value]
  {
    hide Contents;
    var t := Placed(s, i, key, value, dib);
    AbsentIff(s, key);
    var m := if Full(s, i) then Contents(t)[s[i].key.s := s[i].value] else Contents(t);
    forall k, v ensures Gives(m, k, v) <==> Gives(Contents(s)[key := value], k, v) {
      PlaceStores(s, i, key, value, dib, k, v);
      ContentsAre(s, k, v);
      ContentsAre(t, k, v);
      if Full(s, i) && k == s[i].key.s {
        assert Stores(s, k, s[i].value);
        ContentsAre(s, k, s[i].value);
      }
    }
    SameMap(m, Contents(s)[key := value]);
  }

  // ----- Counting

  lemma SubsetCard(a: set<int>, b: set<int>)
    requires a <= b
    ensures |a| <= |b|
  {
    assert b == a + (b - a);
  }

  lemma PlaceCount(s: Table, i: int, key: string, value: int, dib: int)
    requires 0 <= i < CAPACITY
    ensures |Occupied(Placed(s, i, key, value, dib))| == |Occupied(s)| + if Full(s, i) then 0 else 1
  {
    PlaceOccupies(s, i, key, value, dib);
    hide Occupied, Placed;
    if Full(s, i) { assert Occupied(s) + {i} == Occupied(s); }
  }

  lemma PlaceOccupies(s: Table, i: int, key: string, value: int, dib: int)
    requires 0 <= i < CAPACITY
    ensures Occupied(Placed(s, i, key, value, dib)) == Occupied(s) + {i} && (i in Occupied(s) <==> Full(s, i))
  {
  }

  lemma IndexOnto(home: int, x: int)
    requires 0 <= x < CAPACITY
    ensures 0 <= (x - home) % CAPACITY < CAPACITY && Index(home, (x - home) % CAPACITY) == x
  {
    var q := (x - home) / CAPACITY;
    var y := home + (x - home) % CAPACITY;
    assert y == x - CAPACITY * q;
    assert y / CAPACITY == -q;
    assert y % CAPACITY == x;
  }

  /** If every slot the search visits is taken, the table is full. */
  lemma AllTaken(s: Table, home: int)
    requires forall j :: 0 <= j < CAPACITY ==> Full(s, Index(home, j))
    ensures |Occupied(s)| == CAPACITY
  {
    hide Index, Indices;
    forall x | x in Indices(CAPACITY) ensures x in Occupied(s) {
      IndexOnto(home, x);
      assert Full(s, Index(home, (x - home) % CAPACITY));
    }
    assert Occupied(s) == Indices(CAPACITY);
  }

  /** In a table with a free slot no entry is as far from home as it could be. */
  lemma DibSmall(s: Table, home: int, d: nat)
    requires Steps(s, -1) && |Occupied(s)| < CAPACITY && Full(s, Index(home, d)) && s[Index(home, d)].dib >= d
    ensures d < CAPACITY - 1
  {
    if d >= CAPACITY - 1 {
      forall j | 0 <= j < CAPACITY ensures Full(s, Index(home, j)) { PathTaken(s, home, d, j); }
      AllTaken(s, home);
    }
  }

  // ----- The insertion loop

  /** Nothing displaced yet: the key travels at its own distance past entries at least as far away. */
  ghost predicate Seeking(s: Table, hash: string -> nat, key: string, i: int) {
    && 0 <= i <= CAPACITY && TableOk(s, hash, -1) && |Occupied(s)| < CAPACITY && Passed(s, Home(hash, key), key, i)
    && (forall j :: 0 <= j < i ==> Full(s, Index(Home(hash, key), j)))
    && (i > 0 ==> s[Index(Home(hash, key), i - 1)].dib >= i - 1)
  }

  /** The key is in the table, and another entry is being carried on; together they are the new map. */
  ghost predicate Carrying(s: Table, s0: Table, hash: string -> nat, key: string, value: int, i: int, k: string, v: int, d: int) {
    && 0 <= i <= CAPACITY && TableOk(s, hash, -1) && TableOk(s0, hash, -1) && Absent(s0, key)
    && |Occupied(s)| == |Occupied(s0)| < CAPACITY
    && Fits(s, hash, Index(Home(hash, key), i), k, d)
    && Contents(s)[k := v] == Contents(s0)[key := value]
    && (forall j :: 0 <= j < i ==> Full(s, Index(Home(hash, key), j)))
    && (forall j :: i <= j < CAPACITY ==> s[Index(Home(hash, key), j)] == s0[Index(Home(hash, key), j)])
  }

  lemma SeekStarts(s: Table, hash: string -> nat, key: string)
    requires TableOk(s, hash, -1) && |Occupied(s)| < CAPACITY
    ensures Seeking(s, hash, key, 0)
  {
  }

  lemma SeekEnds(s: Table, hash: string -> nat, key: string, i: int)
    requires Seeking(s, hash, key, i)
    ensures i < CAPACITY
  {
    if i == CAPACITY { AllTaken(s, Home(hash, key)); }
  }

  lemma SeekOn(s: Table, hash: string -> nat, key: string, i: int)
    requires Seeking(s, hash, key, i) && i < CAPACITY
    requires var t := s[Index(Home(hash, key), i)]; t.key.Key? && t.key != Key(key) && i <= t.dib
    ensures Seeking(s, hash, key, i + 1)
  {
    hide TableOk;
  }

  /** The key meets an empty slot or a nearer entry: it is new, and it fits there. */
  lemma SeekFits(s: Table, hash: string -> nat, key: string, i: int)
    requires Seeking(s, hash, key, i) && i < CAPACITY
    requires var t := s[Index(Home(hash, key), i)]; t.key == Null || t.dib < i
    ensures Absent(s, key) && Fits(s, hash, Index(Home(hash, key), i), key, i)
  {
    EarlyExit(s, hash, key, i);
    AbsentIff(s, key);
    if i > 0 { IndexBack(Home(hash, key), i); }
  }

  lemma IndexNext(home: int, i: nat)
    ensures Index(Index(home, i), 1) == Index(home, i + 1)
    ensures Index(Index(home, i + 1), CAPACITY - 1) == Index(home, i)
  {
  }

  lemma OtherIndex(home: int, i: int, j: int)
    requires 0 <= i < j < CAPACITY
    ensures Index(home, i) != Index(home, j)
  {
  }

  /** What comes out of a slot fits the next one, unless a nearer entry has to give way there too. */
  lemma NextFits(s: Table, t: Table, hash: string -> nat, home: int, i: int, d: int)
    requires TableOk(s, hash, -1) && |Occupied(s)| < CAPACITY && 0 <= i < CAPACITY
    requires Full(s, Index(home, i)) && Absent(t, s[Index(home, i)].key.s)
    requires Full(t, Index(home, i)) && t[Index(home, i)].dib >= s[Index(home, i)].dib
    ensures var x := s[Index(home, i)]; Fits(t, hash, Index(home, i + 1), x.key.s, x.dib + 1)
  {
    var x := s[Index(home, i)];
    assert DibOk(s, hash, Index(home, i));
    SearchEnd(s, hash, Index(home, i));
    DibSmall(s, Home(hash, x.key.s), x.dib);
    IndexNext(home, i);
    IndexNext(Home(hash, x.key.s), x.dib);
  }

  /** The swap of the insertion loop. */
  lemma Displace(s: Table, hash: string -> nat, home: int, i: int, k: string, v: int, d: int)
    requires TableOk(s, hash, -1) && |Occupied(s)| < CAPACITY && 0 <= i < CAPACITY
    requires Fits(s, hash, Index(home, i), k, d) && Full(s, Index(home, i)) && s[Index(home, i)].dib < d
    ensures var x, t := s[Index(home, i)], Placed(s, Index(home, i), k, v, d);
      && TableOk(t, hash, -1) && |Occupied(t)| == |Occupied(s)|
      && Fits(t, hash, Index(home, i + 1), x.key.s, x.dib + 1)
      && Contents(t)[x.key.s := x.value] == Contents(s)[k := v]
  {
    hide Index;
    var idx := Index(home, i);
    PlaceOk(s, hash, idx, k, v, d);
    PlaceContents(s, idx, k, v, d);
    PlaceCount(s, idx, k, v, d);
    NextFits(s, Placed(s, idx, k, v, d), hash, home, i, d);
  }

  /** From seeking to carrying: the key displaces a nearer entry. */
  lemma SeekDisplaces(s: Table, hash: string -> nat, key: string, value: int, i: int)
    requires Seeking(s, hash, key, i) && i < CAPACITY
    requires var t := s[Index(Home(hash, key), i)]; t.key.Key? && t.dib < i
    ensures var idx := Index(Home(hash, key), i);
            Carrying(Placed(s, idx, key, value, i), s, hash, key, value, i + 1, s[idx].key.s, s[idx].value, s[idx].dib + 1)
  {
    hide Index, TableOk, Contents, Occupied, Fits;
    var home := Home(hash, key);
    SeekFits(s, hash, key, i);
    Displace(s, hash, home, i, key, value, i);
    forall j | i + 1 <= j < CAPACITY ensures Index(home, j) != Index(home, i) { OtherIndex(home, i, j); }
  }

  lemma CarryDisplaces(s: Table, s0: Table, hash: string -> nat, key: string, value: int, i: int, k: string, v: int, d: int)
    requires Carrying(s, s0, hash, key, value, i, k, v, d) && i < CAPACITY
    requires var t := s[Index(Home(hash, key), i)]; t.key.Key? && t.dib < d
    ensures var idx := Index(Home(hash, key), i);
            Carrying(Placed(s, idx, k, v, d), s0, hash, key, value, i + 1, s[idx].key.s, s[idx].value, s[idx].dib + 1)
  {
    hide Index, TableOk, Contents, Occupied, Fits;
    var home := Home(hash, key);
    Displace(s, hash, home, i, k, v, d);
    forall j | i + 1 <= j < CAPACITY ensures Index(home, j) != Index(home, i) { OtherIndex(home, i, j); }
  }

  lemma CarryOn(s: Table, s0: Table, hash: string -> nat, key: string, value: int, i: int, k: string, v: int, d: int)
    requires Carrying(s, s0, hash, key, value, i, k, v, d) && i < CAPACITY
    requires var t := s[Index(Home(hash, key), i)]; t.key.Key? && t.dib >= d
    ensures Carrying(s, s0, hash, key, value, i + 1, k, v, d + 1)
  {
    hide Contents, Occupied;
    var home := Home(hash, key);
    PassFits(s, hash, home, i, k, d);
  }

  lemma PassFits(s: Table, hash: string -> nat, home: int, i: int, k: string, d: int)
    requires TableOk(s, hash, -1) && |Occupied(s)| < CAPACITY && 0 <= i < CAPACITY
    requires Fits(s, hash, Index(home, i), k, d) && Full(s, Index(home, i)) && s[Index(home, i)].dib >= d
    ensures Fits(s, hash, Index(home, i + 1), k, d + 1)
  {
    var x := s[Index(home, i)];
    DibSmall(s, Home(hash, k), d);
    IndexNext(home, i);
    IndexNext(Home(hash, k), d);
  }

  lemma CarryEnds(s: Table, s0: Table, hash: string -> nat, key: string, value: int, i: int, k: string, v: int, d: int)
    requires Carrying(s, s0, hash, key, value, i, k, v, d)
    ensures i < CAPACITY
    ensures s[Index(Home(hash, key), i)].key != Key(key)
  {
    if i == CAPACITY { AllTaken(s, Home(hash, key)); }
  }

  /** The carried entry finds an empty slot. */
  lemma CarryPlaces(s: Table, s0: Table, hash: string -> nat, key: string, value: int, i: int, k: string, v: int, d: int)
    requires Carrying(s, s0, hash, key, value, i, k, v, d) && i < CAPACITY && !Full(s, Index(Home(hash, key), i))
    ensures Inserted(s0, hash, key, value, Placed(s, Index(Home(hash, key), i), k, v, d))
  {
    hide Index, Contents, Occupied;
    PlaceOk(s, hash, Index(Home(hash, key), i), k, v, d);
    PlaceContents(s, Index(Home(hash, key), i), k, v, d);
    PlaceCount(s, Index(Home(hash, key), i), k, v, d);
  }

  ghost predicate Inserted(s0: Table, hash: string -> nat, key: string, value: int, t: Table) {
    TableOk(s0, hash, -1) && TableOk(t, hash, -1)
    && Contents(t) == Contents(s0)[key := value] && Absent(s0, key) && |Occupied(t)| == |Occupied(s0)| + 1
  }

  lemma SeekPlaces(s: Table, hash: string -> nat, key: string, value: int, i: int)
    requires Seeking(s, hash, key, i) && i < CAPACITY && !Full(s, Index(Home(hash, key), i))
    ensures Inserted(s, hash, key, value, Placed(s, Index(Home(hash, key), i), key, value, i))
  {
    hide Index, Contents, Occupied;
    SeekFits(s, hash, key, i);
    PlaceOk(s, hash, Index(Home(hash, key), i), key, value, i);
    PlaceContents(s, Index(Home(hash, key), i), key, value, i);
    PlaceCount(s, Index(Home(hash, key), i), key, value, i);
  }

  lemma PlacedIs(s: Table, i: int, key: string, value: int, dib: int)
    requires 0 <= i < CAPACITY
    ensures Placed(s, i, key, value, dib) == s[i := Slot(Key(key), value, dib)]
  {
  }

  lemma FullIs(s: Table, i: int)
    requires 0 <= i < CAPACITY
    ensures Full(s, i) <==> s[i].key.Key?
  {
  }

  lemma SeekTable(s: Table, hash: string -> nat, key: string, i: int)
    requires Seeking(s, hash, key, i)
    ensures TableOk(s, hash, -1)
  {
  }

  lemma InsertedIs(s: Table, hash: string -> nat, key: string, value: int, t: Table)
    requires Inserted(s, hash, key, value, t)
    ensures TableOk(t, hash, -1) && Unique(s) && Unique(t) && Contents(t) == Contents(s)[key := value]
    ensures |Occupied(t)| == |Occupied(s)| + 1
  {
  }

  /** Overwriting the value of a stored key. */
  lemma UpdateValue(s: Table, hash: string -> nat, i: int, value: int)
    requires TableOk(s, hash, -1) && 0 <= i < CAPACITY && Full(s, i)
    ensures var t := s[i := s[i].(value := value)];
      && TableOk(t, hash, -1) && Occupied(t) == Occupied(s) && Contents(t) == Contents(s)[s[i].key.s := value]
  {
    hide Contents, Unique, Stores, Steps, Dibs;
    var t := s[i := s[i].(value := value)];
    UpdateOk(s, hash, i, value);
    assert Occupied(t) == Occupied(s);
    var m := Contents(s)[s[i].key.s := value];
    forall k, v ensures Gives(m, k, v) <==> Gives(Contents(t), k, v) {
      UpdateStores(s, i, value, k, v);
      ContentsAre(s, k, v);
      ContentsAre(t, k, v);
    }
    SameMap(m, Contents(t));
  }

  lemma UpdateOk(s: Table, hash: string -> nat, i: int, value: int)
    requires TableOk(s, hash, -1) && 0 <= i < CAPACITY && Full(s, i)
    ensures TableOk(s[i := s[i].(value := value)], hash, -1)
  {
    var t := s[i := s[i].(value := value)];
    forall j | 0 <= j < CAPACITY ensures DibOk(t, hash, j) && StepOk(t, -1, j) {
      assert DibOk(s, hash, j) && StepOk(s, -1, j);
    }
  }

  lemma UpdateStores(s: Table, i: int, value: int, k: string, v: int)
    requires Unique(s) && 0 <= i < CAPACITY && Full(s, i)
    ensures Stores(s[i := s[i].(value := value)], k, v) <==> if k == s[i].key.s then v == value else Stores(s, k, v)
  {
    var t := s[i := s[i].(value := value)];
    if k == s[i].key.s {
      assert Full(t, i) && t[i].key.s == k;
    } else {
      if Stores(s, k, v) {
        var j :| 0 <= j < CAPACITY && Full(s, j) && s[j].key.s == k && s[j].value == v;
        assert Full(t, j) && t[j].key.s == k && t[j].value == v;
      }
      if Stores(t, k, v) {
        var j :| 0 <= j < CAPACITY && Full(t, j) && t[j].key.s == k && t[j].value == v;
        assert Full(s, j) && s[j].key.s == k && s[j].value == v;
      }
    }
  }

  // ----- Removal

  /** The hole at h, which keeps its distance, takes over the entry after it, which leaves a hole. */
  function Shifted(s: Table, h: int): Table
    requires 0 <= h < CAPACITY
  {
    var c := Index(h, 1);
    s[h := s[c].(dib := s[c].dib - 1)][c := s[c].(key := Null)]
  }

  function Emptied(s: Table, i: int): Table
    requires 0 <= i < CAPACITY
  {
    s[i := s[i].(key := Null)]
  }

  lemma EmptyOk(s: Table, hash: string -> nat, i: int)
    requires TableOk(s, hash, -1) && 0 <= i < CAPACITY && Full(s, i)
    ensures TableOk(Emptied(s, i), hash, i)
  {
    var t := Emptied(s, i);
    forall j | 0 <= j < CAPACITY ensures DibOk(t, hash, j) && StepOk(t, i, j) {
      assert DibOk(s, hash, j) && StepOk(s, -1, j);
    }
  }

  lemma ShiftSteps(s: Table, h: int)
    requires Steps(s, h) && 0 <= h < CAPACITY && !Full(s, h) && Full(s, Index(h, 1)) && s[Index(h, 1)].dib > 0
    ensures Steps(Shifted(s, h), Index(h, 1))
  {
    var c, t := Index(h, 1), Shifted(s, h);
    assert Index(c, CAPACITY - 1) == h;
    forall j | 0 <= j < CAPACITY ensures StepOk(t, c, j) {
      assert StepOk(s, h, j) && StepOk(s, h, c);
    }
  }

  /** The entry shifted back is one place nearer to its home. */
  lemma ShiftedDib(s: Table, hash: string -> nat, h: int)
    requires Dibs(s, hash) && 0 <= h < CAPACITY && Full(s, Index(h, 1)) && s[Index(h, 1)].dib > 0
    ensures DibOk(Shifted(s, h), hash, h)
  {
    hide Index, Home;
    var c := Index(h, 1);
    assert DibOk(s, hash, c);
    OneBack(Home(hash, s[c].key.s), s[c].dib, h);
  }

  lemma OneBack(home: int, d: nat, h: int)
    requires d > 0 && 0 <= h < CAPACITY && Index(home, d) == Index(h, 1)
    ensures Index(home, d - 1) == h && Index(h, 1) != h
  {
  }

  lemma ShiftDibs(s: Table, hash: string -> nat, h: int)
    requires Dibs(s, hash) && 0 <= h < CAPACITY && Full(s, Index(h, 1)) && s[Index(h, 1)].dib > 0
    ensures Dibs(Shifted(s, h), hash)
  {
    var c, t := Index(h, 1), Shifted(s, h);
    ShiftedDib(s, hash, h);
    hide Index, Home;
    forall j | 0 <= j < CAPACITY && j != h ensures DibOk(t, hash, j) {
      assert DibOk(s, hash, j);
    }
  }

  lemma ShiftOk(s: Table, hash: string -> nat, h: int)
    requires TableOk(s, hash, h) && 0 <= h < CAPACITY && !Full(s, h) && Full(s, Index(h, 1)) && s[Index(h, 1)].dib > 0
    ensures TableOk(Shifted(s, h), hash, Index(h, 1)) && !Full(Shifted(s, h), Index(h, 1))
  {
    ShiftSteps(s, h);
    ShiftDibs(s, hash, h);
    var c, t := Index(h, 1), Shifted(s, h);
    forall i, j | 0 <= i < j < CAPACITY && Full(t, i) && Full(t, j) ensures t[i].key != t[j].key {
      assert Full(s, if i == h then c else i) && Full(s, if j == h then c else j);
    }
  }

  /** Nothing follows the hole that would have to move: the hole is an ordinary empty slot. */
  lemma StopOk(s: Table, hash: string -> nat, h: int)
    requires TableOk(s, hash, h) && 0 <= h < CAPACITY && !Full(s, h)
    requires !Full(s, Index(h, 1)) || s[Index(h, 1)].dib == 0
    ensures TableOk(s, hash, -1)
  {
    forall j | 0 <= j < CAPACITY ensures StepOk(s, -1, j) {
      assert StepOk(s, h, j);
      if Index(j, CAPACITY - 1) == h { assert j == Index(h, 1); }
    }
  }

  lemma ShiftStores(s: Table, h: int, k: string, v: int)
    requires 0 <= h < CAPACITY && !Full(s, h) && Full(s, Index(h, 1))
    ensures Stores(Shifted(s, h), k, v) <==> Stores(s, k, v)
  {
    var c, t := Index(h, 1), Shifted(s, h);
    if Stores(s, k, v) {
      var j :| 0 <= j < CAPACITY && Full(s, j) && s[j].key.s == k && s[j].value == v;
      var i := if j == c then h else j;
      assert Full(t, i) && t[i].key.s == k && t[i].value == v;
    }
    if Stores(t, k, v) {
      var j :| 0 <= j < CAPACITY && Full(t, j) && t[j].key.s == k && t[j].value == v;
      var i := if j == h then c else j;
      assert Full(s, i) && s[i].key.s == k && s[i].value == v;
    }
  }

  lemma ShiftCount(s: Table, h: int)
    requires 0 <= h < CAPACITY && !Full(s, h) && Full(s, Index(h, 1))
    ensures |Occupied(Shifted(s, h))| == |Occupied(s)|
  {
    var c, t := Index(h, 1), Shifted(s, h);
    assert c != h;
    forall i | 0 <= i < CAPACITY ensures Full(t, i) <==> (Full(s, i) && i != c) || i == h {}
    hide Index, Shifted;
    assert Occupied(t) == Occupied(s) - {c} + {h};
  }

  lemma ShiftMap(s: Table, h: int)
    requires 0 <= h < CAPACITY && !Full(s, h) && Full(s, Index(h, 1)) && Unique(s) && Unique(Shifted(s, h))
    ensures Contents(Shifted(s, h)) == Contents(s)
  {
    hide Contents, Stores, Unique, Shifted, Index;
    var t := Shifted(s, h);
    forall k, v ensures Gives(Contents(s), k, v) <==> Gives(Contents(t), k, v) {
      ShiftStores(s, h, k, v);
      ContentsAre(s, k, v);
      ContentsAre(t, k, v);
    }
    SameMap(Contents(s), Contents(t));
  }

  lemma ShiftContents(s: Table, hash: string -> nat, h: int)
    requires TableOk(s, hash, h) && 0 <= h < CAPACITY && !Full(s, h) && Full(s, Index(h, 1)) && s[Index(h, 1)].dib > 0
    ensures Unique(s) && TableOk(Shifted(s, h), hash, Index(h, 1)) && !Full(Shifted(s, h), Index(h, 1))
    ensures Contents(Shifted(s, h)) == Contents(s) && |Occupied(Shifted(s, h))| == |Occupied(s)|
  {
    hide Contents, Unique, Steps, Dibs, Occupied;
    ShiftOk(s, hash, h);
    ShiftMap(s, h);
    ShiftCount(s, h);
  }

  lemma EmptyStores(s: Table, i: int, k: string, v: int)
    requires Unique(s) && 0 <= i < CAPACITY && Full(s, i)
    ensures Stores(Emptied(s, i), k, v) <==> Stores(s, k, v) && k != s[i].key.s
  {
    var t := Emptied(s, i);
    if Stores(s, k, v) && k != s[i].key.s {
      var j :| 0 <= j < CAPACITY && Full(s, j) && s[j].key.s == k && s[j].value == v;
      assert Full(t, j) && t[j].key.s == k && t[j].value == v;
    }
    if Stores(t, k, v) {
      var j :| 0 <= j < CAPACITY && Full(t, j) && t[j].key.s == k && t[j].value == v;
      assert Full(s, j) && s[j].key.s == k && s[j].value == v;
    }
  }

  lemma EmptyMap(s: Table, i: int)
    requires 0 <= i < CAPACITY && Full(s, i) && Unique(s) && Unique(Emptied(s, i))
    ensures Contents(Emptied(s, i)) == Contents(s) - {s[i].key.s}
  {
    hide Contents, Stores, Unique, Emptied;
    var t := Emptied(s, i);
    var m := Contents(s) - {s[i].key.s};
    forall k, v ensures Gives(m, k, v) <==> Gives(Contents(t), k, v) {
      EmptyStores(s, i, k, v);
      ContentsAre(s, k, v);
      ContentsAre(t, k, v);
    }
    SameMap(m, Contents(t));
  }

  lemma EmptyContents(s: Table, hash: string -> nat, i: int)
    requires TableOk(s, hash, -1) && 0 <= i < CAPACITY && Full(s, i)
    ensures Unique(s) && TableOk(Emptied(s, i), hash, i)
    ensures Contents(Emptied(s, i)) == Contents(s) - {s[i].key.s}
    ensures |Occupied(Emptied(s, i))| == |Occupied(s)| - 1
  {
    hide Contents, Unique, Steps, Dibs;
    EmptyOk(s, hash, i);
    EmptyMap(s, i);
    assert i in Occupied(s) && Occupied(Emptied(s, i)) == Occupied(s) - {i};
  }

  // ----- The table

  class RHHashMap {
    const slots: array<Slot>
    var size: int
    const hash: string -> nat

    /** Every entry keeps its distance, displaced entries follow each other, keys are unique, and
        `size` counts the entries, of which there are at most three quarters of the capacity. */
    ghost predicate Valid()
      reads this, slots
    {
      slots.Length == CAPACITY && TableOk(slots[..], hash, -1) && size == |Occupied(slots[..])| <= CAPACITY * 3 / 4
    }

    ghost function Map(): map<string, int>
      reads this, slots
      requires Valid()
    {
      Contents(slots[..])
    }

    /** `rh_init`. */
    constructor (hash: string -> nat)
      ensures Valid() && fresh(slots) && this.hash == hash && Map() == map[]
    {
      slots := new Slot[CAPACITY](_ => Slot(Null, 0, 0));
      size := 0;
      this.hash := hash;
      new;
      assert Occupied(slots[..]) == {};
    }

    /** The search of `rh_get` and `rh_remove`: the slot of the key, or -1 if it has none. */
    method Find(key: string) returns (found: int)
      requires Valid()
      ensures found == -1 <==> key !in Map()
      ensures found != -1 ==> 0 <= found < CAPACITY && slots[found].key == Key(key) && Map()[key] == slots[found].value
    {
      hide TableOk, Contents, Unique, Home, Index;
      assert Unique(slots[..]) by { UniqueOf(slots[..], hash); }
      var ideal := hash(key) % CAPACITY;
      HomeIs(hash, key);
      var i := 0;
      while i < CAPACITY
        invariant 0 <= i <= CAPACITY && Passed(slots[..], ideal, key, i)
      {
        IndexIs(ideal, i);
        var idx := (ideal + i) % CAPACITY;
        if slots[idx].key == Null || slots[idx].dib < i {
          EarlyExit(slots[..], hash, key, i);
          return -1;
        }
        if slots[idx].key == Key(key) {
          KeyAt(slots[..], idx);
          return idx;
        }
        i := i + 1;
      }
      NotFound(slots[..], hash, key);
      return -1;
    }

    /** `rh_put`: it refuses only at the load guard, and then changes nothing; otherwise the table
        stands for the updated map. */
    method Put(key: string, value: int) returns (ok: bool)
      requires Valid()
      modifies this, slots
      ensures Valid()
      ensures ok <==> old(size) < CAPACITY * 3 / 4
      ensures !ok ==> slots[..] == old(slots[..]) && size == old(size)
      ensures ok ==> Map() == old(Map())[key := value]
    {
      if size >= CAPACITY * 3 / 4 { return false; }
      TableIs();
      hide *;
      ghost var s := slots[..];
      var ideal := hash(key) % CAPACITY;
      HomeIs(hash, key);
      SeekStarts(s, hash, key);
      var i := 0;
      while true
        invariant 0 <= i && Seeking(s, hash, key, i) && slots[..] == s && size == old(size) == |Occupied(s)|
        decreases CAPACITY - i
      {
        SeekEnds(s, hash, key, i);
        IndexIs(ideal, i);
        var idx := (ideal + i) % CAPACITY;
        if slots[idx].key == Null {
          PutNew(key, value, i, idx);
          InsertedIs(s, hash, key, value, slots[..]);
          TableNow();
          return true;
        }
        if slots[idx].key == Key(key) {
          SeekTable(s, hash, key, i);
          PutValue(value, idx, s);
          return true;
        }
        if i > slots[idx].dib {
          PutOver(key, value, i, idx);
          InsertedIs(s, hash, key, value, slots[..]);
          TableNow();
          return true;
        }
        SeekOn(s, hash, key, i);
        i := i + 1;
      }
    }

    /** The branch for an empty slot. */
    method PutNew(key: string, value: int, i: int, idx: int)
      requires slots.Length == CAPACITY && Seeking(slots[..], hash, key, i) && i < CAPACITY && idx == Index(Home(hash, key), i)
      requires slots[idx].key == Null && size == |Occupied(slots[..])| < CAPACITY * 3 / 4
      modifies this, slots
      ensures Valid() && Inserted(old(slots[..]), hash, key, value, slots[..])
    {
      ghost var s := slots[..];
      hide *;
      FullIs(s, idx);
      SeekPlaces(s, hash, key, value, i);
      slots[idx] := Slot(Key(key), value, i);
      PlacedIs(s, idx, key, value, i);
      InsertedIs(s, hash, key, value, slots[..]);
      size := size + 1;
      TableNow();
    }

    /** The branch for the slot of the key itself. */
    method PutValue(value: int, idx: int, ghost s: Table)
      requires slots.Length == CAPACITY && slots[..] == s && TableOk(s, hash, -1) && 0 <= idx < CAPACITY && s[idx].key.Key?
      requires size == |Occupied(s)| < CAPACITY * 3 / 4
      modifies slots
      ensures slots[..] == s[idx := s[idx].(value := value)] && Unique(s)
      ensures Valid() && Map() == Contents(s)[s[idx].key.s := value]
    {
      hide *;
      FullIs(s, idx);
      UniqueOf(s, hash);
      UpdateValue(s, hash, idx, value);
      var x := slots[idx].(value := value);
      slots[idx] := x;
      assert slots[..] == s[idx := x];
      TableNow();
    }

    /** The branch for a nearer entry, which is carried on. */
    method PutOver(key: string, value: int, i: int, idx: int)
      requires slots.Length == CAPACITY && Seeking(slots[..], hash, key, i) && i < CAPACITY && idx == Index(Home(hash, key), i)
      requires slots[idx].key.Key? && slots[idx].dib < i && size == |Occupied(slots[..])| < CAPACITY * 3 / 4
      modifies this, slots
      ensures Valid() && Inserted(old(slots[..]), hash, key, value, slots[..])
    {
      ghost var s := slots[..];
      hide *;
      SeekDisplaces(s, hash, key, value, i);
      var x := slots[idx];
      slots[idx] := Slot(Key(key), value, i);
      PlacedIs(s, idx, key, value, i);
      Carry(key, value, Home(hash, key), i + 1, x.key.s, x.value, x.dib + 1, s);
    }

    lemma TableIs()
      requires Valid()
      ensures slots.Length == CAPACITY && TableOk(slots[..], hash, -1) && Unique(slots[..]) && Map() == Contents(slots[..])
      ensures size == |Occupied(slots[..])| <= CAPACITY * 3 / 4 < CAPACITY
    {
    }

    lemma TableNow()
      requires slots.Length == CAPACITY && TableOk(slots[..], hash, -1) && size == |Occupied(slots[..])| <= CAPACITY * 3 / 4
      ensures Valid() && Unique(slots[..]) && Map() == Contents(slots[..])
    {
    }

    /** The rest of the loop of `rh_put`, once the key itself is in the table. */
    method Carry(key: string, value: int, ideal: int, start: int, insKey: string, insVal: int, insDib: int, ghost s0: Table)
      requires ideal == Home(hash, key) && slots.Length == CAPACITY && size == |Occupied(s0)| < CAPACITY * 3 / 4
      requires Carrying(slots[..], s0, hash, key, value, start, insKey, insVal, insDib)
      modifies this, slots
      ensures Valid() && Inserted(s0, hash, key, value, slots[..])
    {
      hide TableOk, Contents, Unique, Home, Index, Occupied, Fits;
      var i, k, v, d := start, insKey, insVal, insDib;
      while true
        invariant Carrying(slots[..], s0, hash, key, value, i, k, v, d) && size == old(size)
        decreases CAPACITY - i
      {
        ghost var s := slots[..];
        CarryEnds(s, s0, hash, key, value, i, k, v, d);
        IndexIs(ideal, i);
        var idx := (ideal + i) % CAPACITY;
        assert slots[idx].key != Key(key);  // so the update branch is never taken from here on
        if slots[idx].key == Null {
          CarryPlaces(s, s0, hash, key, value, i, k, v, d);
          slots[idx] := Slot(Key(k), v, d);
          assert slots[..] == Placed(s, idx, k, v, d);
          size := size + 1;
          return;
        }
        if d > slots[idx].dib {
          CarryDisplaces(s, s0, hash, key, value, i, k, v, d);
          var x := slots[idx];
          slots[idx] := Slot(Key(k), v, d);
          assert slots[..] == Placed(s, idx, k, v, d);
          k, v, d := x.key.s, x.value, x.dib;
        } else {
          CarryOn(s, s0, hash, key, value, i, k, v, d);
        }
        d := d + 1;
        i := i + 1;
      }
    }

    /** `rh_remove`: false exactly if the key is absent, and then nothing changes. */
    method Remove(key: string) returns (ok: bool)
      requires Valid()
      modifies this, slots
      ensures Valid()
      ensures ok <==> key in old(Map())
      ensures !ok ==> slots[..] == old(slots[..]) && size == old(size)
      ensures Map() == old(Map()) - {key}
    {
      hide TableOk, Contents, Unique, Home, Index, Occupied;
      var found := Find(key);
      if found < 0 { return false; }
      ghost var s := slots[..];
      EmptyContents(s, hash, found);
      slots[found] := slots[found].(key := Null);
      assert slots[..] == Emptied(s, found);
      size := size - 1;
      ShiftBack(found);
      return true;
    }

    /** The backward shift of `rh_remove`, from the hole at `found`. */
    method ShiftBack(found: int)
      requires slots.Length == CAPACITY && 0 <= found < CAPACITY && slots[found].key == Null
      requires TableOk(slots[..], hash, found) && size == |Occupied(slots[..])| < CAPACITY * 3 / 4
      modifies slots
      ensures Valid() && Unique(old(slots[..])) && Map() == Contents(old(slots[..]))
    {
      hide TableOk, Contents, Unique, Index, Occupied;
      var i := 1;
      ShiftStarts(slots[..], hash, found);
      while true
        invariant Shifting(slots[..], old(slots[..]), hash, found, i) && 1 <= i < CAPACITY
        decreases CAPACITY - i
      {
        ghost var s := slots[..];
        IndexIs(found, i);
        IndexIs(found, i - 1);
        var cur := (found + i) % CAPACITY;
        var prev := (found + i - 1) % CAPACITY;
        if slots[cur].key == Null || slots[cur].dib == 0 {
          ShiftEnds(s, old(slots[..]), hash, found, i);
          return;
        }
        ShiftStep(s, old(slots[..]), hash, found, i);
        slots[prev] := slots[cur];
        slots[prev] := slots[prev].(dib := slots[prev].dib - 1);
        slots[cur] := slots[cur].(key := Null);
        assert slots[..] == Shifted(s, prev) by { ShiftedIs(s, found, i); }
        i := i + 1;
      }
    }
  }

  /** After i - 1 shifts the hole is i - 1 slots after the removed entry, and the map is the same. */
  ghost predicate Shifting(s: Table, s0: Table, hash: string -> nat, found: int, i: int) {
    && 1 <= i <= CAPACITY && 0 <= found < CAPACITY
    && TableOk(s, hash, Index(found, i - 1)) && !Full(s, Index(found, i - 1)) && Unique(s0)
    && Contents(s) == Contents(s0) && |Occupied(s)| == |Occupied(s0)| < CAPACITY * 3 / 4
    && forall j :: 0 <= j < i - 1 ==> Full(s, Index(found, j))
  }

  lemma ShiftStarts(s: Table, hash: string -> nat, found: int)
    requires 0 <= found < CAPACITY && TableOk(s, hash, found) && !Full(s, found) && |Occupied(s)| < CAPACITY * 3 / 4
    ensures Shifting(s, s, hash, found, 1)
  {
  }

  lemma ShiftEnds(s: Table, s0: Table, hash: string -> nat, found: int, i: int)
    requires Shifting(s, s0, hash, found, i)
    requires !Full(s, Index(found, i)) || s[Index(found, i)].dib == 0
    ensures TableOk(s, hash, -1) && Unique(s) && Unique(s0) && Contents(s) == Contents(s0) && |Occupied(s)| == |Occupied(s0)|
  {
    IndexNext(found, i - 1);
    StopOk(s, hash, Index(found, i - 1));
  }

  lemma ShiftStep(s: Table, s0: Table, hash: string -> nat, found: int, i: int)
    requires Shifting(s, s0, hash, found, i) && i < CAPACITY
    requires Full(s, Index(found, i)) && s[Index(found, i)].dib != 0
    ensures Shifting(Shifted(s, Index(found, i - 1)), s0, hash, found, i + 1) && i + 1 < CAPACITY
  {
    hide TableOk, Contents, Occupied, Unique;
    var t := Shifted(s, Index(found, i - 1));
    IndexNext(found, i - 1);
    DibPositive(s, hash, Index(found, i - 1), Index(found, i));
    ShiftContents(s, hash, Index(found, i - 1));
    forall j | 0 <= j < i ensures Full(t, Index(found, j)) {
      OtherIndex(found, j, i);
    }
    if i + 1 == CAPACITY { NearlyFull(t, found); }
  }

  lemma DibPositive(s: Table, hash: string -> nat, h: int, i: int)
    requires TableOk(s, hash, h) && 0 <= i < CAPACITY && Full(s, i) && s[i].dib != 0
    ensures s[i].dib > 0
  {
    assert DibOk(s, hash, i);
  }

  lemma NearlyFull(s: Table, home: int)
    requires forall j :: 0 <= j < CAPACITY - 1 ==> Full(s, Index(home, j))
    ensures |Occupied(s)| >= CAPACITY - 1
  {
    hide Index, Indices;
    var last := Index(home, CAPACITY - 1);
    forall x | 0 <= x < CAPACITY && x != last ensures x in Occupied(s) {
      IndexOnto(home, x);
      assert (x - home) % CAPACITY < CAPACITY - 1 ==> Full(s, Index(home, (x - home) % CAPACITY));
    }
    assert Indices(CAPACITY) - {last} <= Occupied(s);
    SubsetCard(Indices(CAPACITY) - {last}, Occupied(s));
  }

  lemma ShiftedIs(s: Table, found: int, i: int)
    requires 0 <= found < CAPACITY && 1 <= i < CAPACITY
    ensures var p, c := Index(found, i - 1), Index(found, i);
            p != c && Shifted(s, p) == s[p := s[c].(dib := s[c].dib - 1)][c := s[c].(key := Null)]
  {
    IndexNext(found, i - 1);
  }

  lemma UniqueOf(s: Table, hash: string -> nat)
    requires TableOk(s, hash, -1)
    ensures Unique(s)
  {
  }

  lemma HomeIs(hash: string -> nat, key: string)
    ensures Home(hash, key) == hash(key) % CAPACITY
  {
  }

  lemma IndexIs(base: int, i: int)
    ensures Index(base, i) == (base + i) % CAPACITY
  {
  }

  // ----- The refusal of an update

  ghost function KeysBelow(s: Table, n: nat): set<string>
    requires n <= CAPACITY
  {
    if n == 0 then {} else if s[n - 1].key.Key? then KeysBelow(s, n - 1) + {s[n - 1].key.s} else KeysBelow(s, n - 1)
  }

  ghost function OccupiedBelow(s: Table, n: nat): set<int>
    requires n <= CAPACITY
  {
    if n == 0 then {} else if Full(s, n - 1) then OccupiedBelow(s, n - 1) + {n - 1} else OccupiedBelow(s, n - 1)
  }

  lemma {:induction false} BelowAre(s: Table, n: nat)
    requires n <= CAPACITY
    ensures forall k :: k in KeysBelow(s, n) <==> exists i :: 0 <= i < n && s[i].key == Key(k)
    ensures forall i :: i in OccupiedBelow(s, n) <==> 0 <= i < n && Full(s, i)
  {
    if n > 0 { BelowAre(s, n - 1); }
  }

  lemma NewEntry(s: Table, n: nat)
    requires Unique(s) && n < CAPACITY && Full(s, n)
    ensures s[n].key.s !in KeysBelow(s, n) && n !in OccupiedBelow(s, n)
  {
    BelowAre(s, n);
  }

  lemma {:induction false} KeysCount(s: Table, n: nat)
    requires Unique(s) && n <= CAPACITY
    ensures |KeysBelow(s, n)| == |OccupiedBelow(s, n)|
  {
    hide Unique;
    if n > 0 {
      KeysCount(s, n - 1);
      if Full(s, n - 1) { NewEntry(s, n - 1); }
    }
  }

  /** As many keys as entries. */
  lemma MapSize(s: Table)
    requires Unique(s)
    ensures |Contents(s)| == |Occupied(s)|
  {
    KeysCount(s, CAPACITY);
    BelowAre(s, CAPACITY);
    assert Occupied(s) == OccupiedBelow(s, CAPACITY);
    forall k ensures k in Contents(s) <==> k in KeysBelow(s, CAPACITY) {
      if k in Contents(s) { var i := SlotOf(s, k); }
      if i :| 0 <= i < CAPACITY && s[i].key == Key(k) { KeyAt(s, i); }
    }
    assert Contents(s).Keys == KeysBelow(s, CAPACITY);
    assert |Contents(s)| == |Contents(s).Keys|;
  }

  lemma {:induction false} DistinctCount(keys: seq<string>)
    requires forall i, j :: 0 <= i < j < |keys| ==> keys[i] != keys[j]
    ensures |set k | k in keys| == |keys|
  {
    var all := set k | k in keys;
    if keys == [] {
      assert all == {};
    } else {
      var r, last := keys[..|keys| - 1], keys[|keys| - 1];
      DistinctCount(r);
      assert all == (set k | k in r) + {last};
    }
  }

  /** Whatever the hash function: with any 24 keys put, putting one of them again is refused. */
  method UpdateRefused(hash: string -> nat, keys: seq<string>, value: int) returns (table: RHHashMap, ok: bool)
    requires |keys| == CAPACITY * 3 / 4 && forall i, j :: 0 <= i < j < |keys| ==> keys[i] != keys[j]
    ensures table.Valid() && !ok && table.Map().Keys == (set k | k in keys) && table.Map()[keys[0]] == 0
  {
    hide TableOk, Contents, Occupied;
    table := new RHHashMap(hash);
    for n := 0 to |keys|
      invariant table.Valid() && fresh(table) && fresh(table.slots) && table.hash == hash
      invariant table.Map().Keys == (set k | k in keys[..n])
      invariant n > 0 ==> table.Map()[keys[0]] == 0
    {
      SizeIs(table, keys, n);
      assert keys[..n + 1] == keys[..n] + [keys[n]];
      ok := table.Put(keys[n], n);
    }
    SizeIs(table, keys, |keys|);
    assert keys[..|keys|] == keys;
    ok := table.Put(keys[0], value);
  }

  lemma SizeIs(table: RHHashMap, keys: seq<string>, n: nat)
    requires table.Valid() && n <= |keys| && table.Map().Keys == (set k | k in keys[..n])
    requires forall i, j :: 0 <= i < j < |keys| ==> keys[i] != keys[j]
    ensures table.size == n
  {
    UniqueOf(table.slots[..], table.hash);
    MapSize(table.slots[..]);
    DistinctCount(keys[..n]);
    assert |table.Map()| == |table.Map().Keys|;
  }
}
