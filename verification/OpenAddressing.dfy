/** hash_open_addressing.c: probing with tombstones.  The hash functions are arbitrary functions of the key. */
module OpenAddressing {
  const CAPACITY := 64

  datatype Option<T> = None | Some(value: T)

  datatype Slot = Empty | Tombstone | Used(key: string, value: int)

  datatype ProbeMethod = Linear | Quadratic | Double

  /** The probe sequence of every key. */
  type Path = (string, nat) -> nat

  /** The step of double hashing, made odd by setting the low bit. */
  function OddStep(hash: nat): (r: nat)
    ensures r % 2 == 1 && r / 2 == (31 - hash % 31) / 2 && 1 <= r <= 31
  {
    var s := 31 - hash % 31;
    if s % 2 == 0 then s + 1 else s
  }

  function Probe(how: ProbeMethod, h1: string -> nat, h2: string -> nat): Path {
    (key: string, i: nat) =>
      match how
      case Linear => (h1(key) % CAPACITY + i) % CAPACITY
      case Quadratic => (h1(key) % CAPACITY + i * i) % CAPACITY
      case Double => (h1(key) % CAPACITY + i * OddStep(h2(key))) % CAPACITY
  }

  ghost predicate InTable(path: Path) {
    forall key, i: nat :: path(key, i) < CAPACITY
  }

  ghost predicate VisitsAll(path: Path) {
    forall key, slot: nat :: slot < CAPACITY ==> Visited(path, key, slot)
  }

  ghost predicate Visited(path: Path, key: string, slot: nat) {
    exists i: nat :: i < CAPACITY && path(key, i) == slot
  }

  // ----- An odd step visits every slot

  /** h to the 16 is 1 modulo 64 for odd h, so h to the 15 inverts h. */
  lemma OddInverse(h: nat) returns (inverse: int, e: int)
    requires h % 2 == 1
    ensures h * inverse == 64 * e + 1
  {
    var b := OddSquare(h);
    var c := SquareStep(4, b);
    var d := SquareStep(8, c);
    e := SquareStep(16, d);
    var x, y, z := 8 * b + 1, 16 * c + 1, 32 * d + 1;
    inverse := h * x * y * z;
    FourFactors(h, x, y, z);
  }

  /** The square of an odd number is 1 modulo 8. */
  lemma OddSquare(h: nat) returns (b: int)
    requires h % 2 == 1
    ensures h * h == 8 * b + 1
  {
    var a := h / 2;
    EvenProduct(a);
    b := a * (a + 1) / 2;
    assert h * h == 4 * (a * (a + 1)) + 1 by { assert h == 2 * a + 1; }
  }

  /** Squaring doubles the modulus for which a number is 1. */
  lemma SquareStep(k: int, b: int) returns (c: int)
    ensures (2 * k * b + 1) * (2 * k * b + 1) == 4 * k * c + 1
  {
    var t := k * b;
    c := t * b + b;
    assert (2 * t + 1) * (2 * t + 1) == 4 * (t * t) + 4 * t + 1;
    assert k * (t * b) == t * t;
    assert k * c == k * (t * b) + k * b;
  }

  lemma {:induction false} EvenProduct(a: nat)
    ensures (a * (a + 1)) % 2 == 0
  {
    if a > 0 {
      EvenProduct(a - 1);
      assert a * (a + 1) == (a - 1) * a + 2 * a;
    }
  }

  lemma FourFactors(h: int, x: int, y: int, z: int)
    requires h * h == x && x * x == y && y * y == z
    ensures h * (h * x * y * z) == z * z
  {
    assert h * (h * x * y * z) == (h * h) * x * y * z;
    assert (x * x) * y * z == y * y * z;
  }

  /** Stepping by any odd number visits every slot of 64. */
  lemma OddStepVisits(base: nat, h: nat, slot: nat) returns (i: nat)
    requires h % 2 == 1 && slot < CAPACITY
    ensures i < CAPACITY && (base + i * h) % CAPACITY == slot
  {
    var inverse, e := OddInverse(h);
    var d := slot - base;
    i := (d * inverse) % CAPACITY;
    var t := (d * inverse) / CAPACITY;
    assert i == d * inverse - 64 * t;
    assert i * h == d * (h * inverse) - 64 * (t * h) by {
      assert (d * inverse - 64 * t) * h == d * inverse * h - 64 * t * h;
      assert d * inverse * h == d * (h * inverse);
    }
    assert d * (64 * e + 1) == 64 * (d * e) + d;
    assert base + i * h == slot + 64 * (d * e - t * h);
    Remainder(slot, d * e - t * h);
  }

  lemma Remainder(r: nat, m: int)
    requires r < 64
    ensures (r + 64 * m) % 64 == r
  {
  }

  /** Linear probing and double hashing reach every slot. */
  lemma ProbesVisitAll(how: ProbeMethod, h1: string -> nat, h2: string -> nat)
    requires how != Quadratic
    ensures VisitsAll(Probe(how, h1, h2))
  {
    forall key, slot: nat | slot < CAPACITY ensures Visited(Probe(how, h1, h2), key, slot) {
      var h := if how == Linear then 1 else OddStep(h2(key));
      var i := OddStepVisits(h1(key) % CAPACITY, h, slot);
      assert Probe(how, h1, h2)(key, i) == slot;
    }
  }

  lemma {:induction false} SquareModFour(i: nat)
    ensures (i * i) % 4 < 2
  {
    if i >= 2 {
      SquareModFour(i - 2);
      FourMore(i, i * i, (i - 2) * (i - 2));
    }
  }

  lemma FourMore(i: int, square: int, smaller: int)
    requires square == i * i && smaller == (i - 2) * (i - 2)
    ensures square == smaller + 4 * (i - 1) && square % 4 == smaller % 4
  {
    assert square == smaller + 4 * (i - 1);
  }

  /** Quadratic probing misses slots: none of its offsets is 2. */
  lemma QuadraticMisses(h1: string -> nat, h2: string -> nat, key: string, i: nat)
    ensures Probe(Quadratic, h1, h2)(key, i) != (h1(key) % CAPACITY + 2) % CAPACITY
  {
    SquareModFour(i);
    OffsetDiffers(h1(key) % CAPACITY, i * i);
  }

  lemma OffsetDiffers(base: nat, square: nat)
    requires square % 4 < 2
    ensures (base + square) % CAPACITY != (base + 2) % CAPACITY
  {
  }

  const OFFSETS: set<int> := {0, 1, 4, 9, 16, 17, 25, 33, 36, 41, 49, 57}

  lemma OffsetsAre()
    ensures |OFFSETS| == 12 && forall o :: o in OFFSETS ==> 0 <= o < CAPACITY
  {
  }

  /** Modulo 64 a square is one of twelve numbers. */
  lemma SquareOffset(i: nat)
    ensures (i * i) % CAPACITY in OFFSETS
  {
    hide OFFSETS;
    if i % 2 == 1 {
      var b := OddSquare(i);
      OddResidue(b);
    } else {
      var t := i / 2;
      Doubled(i, t);
      if t % 2 == 1 {
        var b := OddSquare(t);
        TwiceOdd(i * i, b);
      } else {
        var u := t / 2;
        Doubled(t, u);
        if u % 2 == 1 {
          var b := OddSquare(u);
          FourTimesOdd(i * i, b);
        } else {
          Doubled(u, u / 2);
          ZeroOffset(i * i, u / 2 * (u / 2));
        }
      }
    }
  }

  lemma Doubled(i: int, t: int)
    requires i == 2 * t
    ensures i * i == 4 * (t * t)
  {
  }

  lemma TwiceOdd(square: int, b: int)
    requires square == 4 * (8 * b + 1)
    ensures square % CAPACITY in OFFSETS
  {
    if b % 2 == 0 { Remainder(4, b / 2); } else { Remainder(36, b / 2); }
  }

  lemma FourTimesOdd(square: int, b: int)
    requires square == 16 * (8 * b + 1)
    ensures square % CAPACITY in OFFSETS
  {
  }

  lemma ZeroOffset(square: int, b: int)
    requires square == 64 * b
    ensures square % CAPACITY in OFFSETS
  {
  }

  lemma OddResidue(b: int)
    ensures (8 * b + 1) % CAPACITY in OFFSETS
  {
    var q, r := b / 8, b % 8;
    assert 8 * b + 1 == 64 * q + (8 * r + 1);
  }

  /** Each of the twelve is the square of an attempt. */
  function Root(offset: int): (i: nat)
    requires offset in OFFSETS
    ensures i < CAPACITY && (i * i) % CAPACITY == offset
  {
    if offset == 17 then 9 else if offset == 33 then 15 else if offset == 41 then 13 else if offset == 57 then 11
    else if offset == 0 then 0 else if offset == 1 then 1 else if offset == 4 then 2 else if offset == 9 then 3
    else if offset == 16 then 4 else if offset == 25 then 5 else if offset == 36 then 6 else 7
  }

  /** A quadratic path visits exactly the slots at the twelve offsets from its home. */
  lemma QuadraticVisits(h1: string -> nat, h2: string -> nat, key: string, slot: nat)
    requires slot < CAPACITY
    ensures Visited(Probe(Quadratic, h1, h2), key, slot) <==> (slot - h1(key) % CAPACITY) % CAPACITY in OFFSETS
  {
    var path, base := Probe(Quadratic, h1, h2), h1(key) % CAPACITY;
    forall i: nat | path(key, i) == slot ensures (slot - base) % CAPACITY in OFFSETS {
      SquareOffset(i);
      OffsetOf(base, i * i, slot);
    }
    if (slot - base) % CAPACITY in OFFSETS {
      var i := Root((slot - base) % CAPACITY);
      OffsetBack(base, i * i, slot);
      assert path(key, i) == slot;
    }
  }

  lemma OffsetOf(base: nat, square: nat, slot: nat)
    requires (base + square) % CAPACITY == slot
    ensures (slot - base) % CAPACITY == square % CAPACITY
  {
  }

  lemma OffsetBack(base: nat, square: nat, slot: nat)
    requires slot < CAPACITY && square % CAPACITY == (slot - base) % CAPACITY
    ensures (base + square) % CAPACITY == slot
  {
  }

  ghost function Shifted(offsets: set<int>, base: nat): set<int> {
    set o | o in offsets :: (base + o) % CAPACITY
  }

  lemma ShiftedAdd(rest: set<int>, o: int, base: nat)
    ensures Shifted(rest + {o}, base) == Shifted(rest, base) + {(base + o) % CAPACITY}
  {
    forall x | x in Shifted(rest + {o}, base) ensures x in Shifted(rest, base) + {(base + o) % CAPACITY} {
      var p :| p in rest + {o} && x == (base + p) % CAPACITY;
      assert p == o || p in rest;
    }
    forall x | x in Shifted(rest, base) + {(base + o) % CAPACITY} ensures x in Shifted(rest + {o}, base) {
      var p :| p in rest + {o} && x == (base + p) % CAPACITY;
    }
  }

  lemma {:induction false} ShiftedCard(offsets: set<int>, n: nat, base: nat)
    requires n <= CAPACITY && forall o :: o in offsets ==> 0 <= o < n
    ensures |Shifted(offsets, base)| == |offsets|
  {
    hide Shifted;
    if n == 0 {
      NoOffsets(offsets);
      ShiftedNone(base);
    } else if n - 1 in offsets {
      ShiftedCard(offsets - {n - 1}, n - 1, base);
      ShiftedLast(offsets, n - 1, base);
    } else {
      ShiftedCard(offsets, n - 1, base);
    }
  }

  lemma ShiftedLast(offsets: set<int>, o: int, base: nat)
    requires o in offsets && 0 <= o < CAPACITY && forall p :: p in offsets && p != o ==> 0 <= p < o
    ensures |Shifted(offsets, base)| == |Shifted(offsets - {o}, base)| + 1 && |offsets| == |offsets - {o}| + 1
  {
    hide Shifted;
    var rest := offsets - {o};
    assert offsets == rest + {o};
    ShiftedAdd(rest, o, base);
    ShiftedApart(rest, o, base);
  }

  lemma NoOffsets(offsets: set<int>)
    requires forall o :: o in offsets ==> 0 <= o < 0
    ensures offsets == {}
  {
    forall o: int ensures o !in offsets {}
  }

  lemma ShiftedNone(base: nat)
    ensures Shifted({}, base) == {}
  {
  }

  lemma ShiftedApart(rest: set<int>, o: int, base: nat)
    requires o !in rest && 0 <= o < CAPACITY && forall p :: p in rest ==> 0 <= p < CAPACITY
    ensures (base + o) % CAPACITY !in Shifted(rest, base)
  {
    forall p | p in rest ensures (base + p) % CAPACITY != (base + o) % CAPACITY { NotSame(base, o, p); }
  }

  lemma NotSame(base: nat, o: int, p: int)
    requires 0 <= o < CAPACITY && 0 <= p < CAPACITY && o != p
    ensures (base + p) % CAPACITY != (base + o) % CAPACITY
  {
  }

  // ----- What a table means

  type Table = s: seq<Slot> | |s| == CAPACITY witness seq(CAPACITY, _ => Empty)

  /** The i-th slot on the key's path. */
  function Blank(): Table {
    seq(CAPACITY, _ => Empty)
  }

  function At(s: Table, path: Path, key: string, i: nat): Slot
    requires InTable(path)
  {
    s[path(key, i)]
  }

  predicate Matches(s: Slot, key: string) {
    s.Used? && s.key == key
  }

  /** What a search that follows the path from its i-th slot answers. */
  ghost function LookupFrom(s: Table, path: Path, key: string, i: nat): Option<int>
    requires InTable(path)
    decreases CAPACITY - i
  {
    if i >= CAPACITY || At(s, path, key, i).Empty? then None
    else if Matches(At(s, path, key, i), key) then Some(At(s, path, key, i).value)
    else LookupFrom(s, path, key, i + 1)
  }

  ghost function Lookup(s: Table, path: Path, key: string): Option<int>
    requires InTable(path)
  {
    LookupFrom(s, path, key, 0)
  }

  /** The search passes the first n slots of the path. */
  ghost predicate Passed(s: Table, path: Path, key: string, n: nat)
    requires InTable(path)
  {
    forall m: nat :: m < n ==> !At(s, path, key, m).Empty? && !Matches(At(s, path, key, m), key)
  }

  /** The occupied slot lies on its key's path, with no empty slot before it. */
  ghost predicate Reachable(s: Table, path: Path, slot: nat)
    requires InTable(path) && slot < CAPACITY
  {
    s[slot].Used? ==> exists n: nat :: ReachedAt(s, path, s[slot].key, slot, n)
  }

  ghost predicate ReachedAt(s: Table, path: Path, key: string, slot: nat, n: nat)
    requires InTable(path)
  {
    n < CAPACITY && path(key, n) == slot && forall m: nat :: m < n ==> !At(s, path, key, m).Empty?
  }

  ghost predicate TableOk(s: Table, path: Path) {
    InTable(path) && forall slot: nat :: slot < CAPACITY ==> Reachable(s, path, slot)
  }

  function Copies(s: Table, key: string, n: nat): nat
    requires n <= CAPACITY
  {
    if n == 0 then 0 else Copies(s, key, n - 1) + if Matches(s[n - 1], key) then 1 else 0
  }

  function Occupied(s: Table, n: nat): nat
    requires n <= CAPACITY
  {
    if n == 0 then 0 else Occupied(s, n - 1) + if s[n - 1].Used? then 1 else 0
  }

  // ----- Counting

  lemma {:induction false} CopiesSet(s: Table, key: string, i: nat, slot: Slot, n: nat)
    requires i < CAPACITY && n <= CAPACITY
    ensures Copies(s[i := slot], key, n) == Copies(s, key, n) +
              if i < n then (if Matches(slot, key) then 1 else 0) - (if Matches(s[i], key) then 1 else 0) else 0
  {
    if n > 0 { CopiesSet(s, key, i, slot, n - 1); }
  }

  lemma {:induction false} OccupiedSet(s: Table, i: nat, slot: Slot, n: nat)
    requires i < CAPACITY && n <= CAPACITY
    ensures Occupied(s[i := slot], n) == Occupied(s, n) +
              if i < n then (if slot.Used? then 1 else 0) - (if s[i].Used? then 1 else 0) else 0
  {
    if n > 0 { OccupiedSet(s, i, slot, n - 1); }
  }

  lemma {:induction false} NoCopies(s: Table, key: string, n: nat)
    requires n <= CAPACITY
    ensures Copies(s, key, n) == 0 <==> forall i :: 0 <= i < n ==> !Matches(s[i], key)
  {
    if n > 0 { NoCopies(s, key, n - 1); }
  }

  lemma {:induction false} AllOccupied(s: Table, n: nat)
    requires n <= CAPACITY && forall i :: 0 <= i < n ==> s[i].Used?
    ensures Occupied(s, n) == n
  {
    if n > 0 { AllOccupied(s, n - 1); }
  }

  lemma {:induction false} OccupiedAtLeast(s: Table, some: set<int>, n: nat)
    requires n <= CAPACITY && forall i :: i in some ==> 0 <= i < n && s[i].Used?
    ensures |some| <= Occupied(s, n)
  {
    if n == 0 {
      forall i: int ensures i !in some {}
      assert some == {};
    } else {
      OccupiedAtLeast(s, some - {n - 1}, n - 1);
      assert n - 1 in some ==> some == some - {n - 1} + {n - 1};
      assert n - 1 !in some ==> some == some - {n - 1};
    }
  }

  // ----- Searching

  lemma {:induction false} PassTo(s: Table, path: Path, key: string, n: nat)
    requires InTable(path) && n <= CAPACITY && Passed(s, path, key, n)
    ensures Lookup(s, path, key) == LookupFrom(s, path, key, n)
  {
    if n > 0 {
      PassTo(s, path, key, n - 1);
      assert !At(s, path, key, n - 1).Empty?;
    }
  }

  lemma {:induction false} NothingFound(s: Table, path: Path, key: string, i: nat)
    requires InTable(path) && forall j :: 0 <= j < CAPACITY ==> !Matches(s[j], key)
    ensures LookupFrom(s, path, key, i) == None
    decreases CAPACITY - i
  {
    if i < CAPACITY { NothingFound(s, path, key, i + 1); }
  }

  lemma NotBehind(s: Table, path: Path, key: string, j: nat, m: nat, n: nat)
    requires InTable(path) && n <= CAPACITY && Passed(s, path, key, n) && ReachedAt(s, path, key, j, m)
    requires n == CAPACITY || At(s, path, key, n).Empty?
    ensures !Matches(s[j], key)
  {
    var there := At(s, path, key, m);
  }

  /** Once an empty slot or the end is met without a match, the key is nowhere in the table. */
  lemma NotOnPath(s: Table, path: Path, key: string, n: nat)
    requires TableOk(s, path) && n <= CAPACITY && Passed(s, path, key, n)
    requires n == CAPACITY || At(s, path, key, n).Empty?
    ensures forall j :: 0 <= j < CAPACITY ==> !Matches(s[j], key)
  {
    forall j: nat | j < CAPACITY ensures !Matches(s[j], key) {
      if Matches(s[j], key) {
        assert Reachable(s, path, j);
        var m: nat :| ReachedAt(s, path, key, j, m);
        NotBehind(s, path, key, j, m, n);
      }
    }
  }

  lemma {:induction false} SearchStops(s: Table, path: Path, key: string, i: nat) returns (n: nat)
    requires InTable(path) && i <= CAPACITY && Passed(s, path, key, i)
    ensures i <= n <= CAPACITY && Passed(s, path, key, n)
    ensures n == CAPACITY || At(s, path, key, n).Empty? || Matches(At(s, path, key, n), key)
    decreases CAPACITY - i
  {
    if i == CAPACITY || At(s, path, key, i).Empty? || Matches(At(s, path, key, i), key) {
      n := i;
    } else {
      n := SearchStops(s, path, key, i + 1);
    }
  }

  /** A search finds a key exactly if it is anywhere in the table, tombstones or not. */
  lemma LookupFinds(s: Table, path: Path, key: string)
    requires TableOk(s, path)
    ensures Lookup(s, path, key) == None <==> Copies(s, key, CAPACITY) == 0
  {
    NoCopies(s, key, CAPACITY);
    var n := SearchStops(s, path, key, 0);
    PassTo(s, path, key, n);
    if n == CAPACITY || At(s, path, key, n).Empty? { NotOnPath(s, path, key, n); }
  }

  // ----- Changing one slot

  /** Filling a slot, or turning one into a tombstone, leaves every other entry reachable. */
  lemma StillReachable(s: Table, path: Path, i: nat, slot: Slot)
    requires TableOk(s, path) && i < CAPACITY && !slot.Empty?
    requires slot.Used? ==> exists n: nat :: ReachedAt(s, path, slot.key, i, n)
    ensures TableOk(s[i := slot], path)
  {
    var s': Table := s[i := slot];
    forall j: nat | j < CAPACITY ensures Reachable(s', path, j) {
      if s'[j].Used? {
        var key := s'[j].key;
        assert j != i ==> Reachable(s, path, j);
        var n: nat :| ReachedAt(s, path, key, j, n);
        assert ReachedAt(s', path, key, j, n) by {
          forall m: nat | m < n ensures !At(s', path, key, m).Empty? { assert !At(s, path, key, m).Empty?; }
        }
      }
    }
  }

  /** Other keys do not notice: the slot held neither them before nor them after. */
  lemma OthersUnchanged(s: Table, path: Path, i: nat, slot: Slot, key: string)
    requires TableOk(s, path) && i < CAPACITY && !slot.Empty? && !Matches(s[i], key) && !Matches(slot, key)
    ensures Lookup(s[i := slot], path, key) == Lookup(s, path, key)
  {
    var s': Table := s[i := slot];
    var n := SearchStops(s, path, key, 0);
    PassTo(s, path, key, n);
    forall m: nat | m < n ensures !At(s', path, key, m).Empty? && !Matches(At(s', path, key, m), key) {
      assert !At(s, path, key, m).Empty?;
    }
    PassTo(s', path, key, n);
    if n == CAPACITY || At(s, path, key, n).Empty? {
      NotOnPath(s, path, key, n);
      NothingFound(s', path, key, n);
    }
  }

  /** The insertion loop stops at the first slot that is not another key's. */
  ghost predicate Crowded(s: Table, path: Path, key: string, n: nat)
    requires InTable(path)
  {
    forall m: nat :: m < n ==> At(s, path, key, m).Used? && !Matches(At(s, path, key, m), key)
  }

  /** Where the insertion loop stops: at the first slot of the path that is not in use, or holds the key. */
  ghost predicate InsertsAt(s: Table, path: Path, key: string, n: nat)
    requires InTable(path)
  {
    n < CAPACITY && Crowded(s, path, key, n) && (!At(s, path, key, n).Used? || Matches(At(s, path, key, n), key))
  }

  /** Where the search loop finds the key. */
  ghost predicate FindsAt(s: Table, path: Path, key: string, n: nat)
    requires InTable(path)
  {
    n < CAPACITY && Passed(s, path, key, n) && Matches(At(s, path, key, n), key)
  }

  /** Each loop stops in one place only. */
  lemma StopsOnce(s: Table, path: Path, key: string, m: nat, n: nat)
    requires InTable(path)
    requires (InsertsAt(s, path, key, m) && InsertsAt(s, path, key, n)) || (FindsAt(s, path, key, m) && FindsAt(s, path, key, n))
    ensures m == n
  {
    var first, second := At(s, path, key, m), At(s, path, key, n);
  }

  /** A tombstone comes before any empty slot and any copy of the key. */
  ghost predicate TombstoneFirst(s: Table, path: Path, key: string)
    requires InTable(path)
  {
    exists n: nat :: n < CAPACITY && Crowded(s, path, key, n) && At(s, path, key, n).Tombstone?
  }

  ghost predicate Unique(s: Table) {
    forall key :: Copies(s, key, CAPACITY) <= 1
  }

  /** Storing the pair at the stop of the insertion loop: a search now finds the new value, other keys are as before,
      and there is one more copy of the key unless the stop was a copy itself. */
  lemma Stored(s: Table, path: Path, key: string, value: int, n: nat)
    requires TableOk(s, path) && InsertsAt(s, path, key, n)
    ensures var s' := s[path(key, n) := Used(key, value)];
      && TableOk(s', path)
      && Lookup(s', path, key) == Some(value) && FindsAt(s', path, key, n)
      && (forall k :: k != key ==> Lookup(s', path, k) == Lookup(s, path, k))
      && (forall k :: Copies(s', k, CAPACITY) == Copies(s, k, CAPACITY) + if k == key && !At(s, path, key, n).Used? then 1 else 0)
      && Occupied(s', CAPACITY) == Occupied(s, CAPACITY) + if At(s, path, key, n).Used? then 0 else 1
  {
    hide LookupFrom, Lookup, Copies, Occupied;
    var i, slot := path(key, n), Used(key, value);
    var s': Table := s[i := slot];
    assert ReachedAt(s, path, key, i, n) by {
      forall m: nat | m < n ensures !At(s, path, key, m).Empty? { assert At(s, path, key, m).Used?; }
    }
    StillReachable(s, path, i, slot);
    forall m: nat | m < n ensures At(s', path, key, m) == At(s, path, key, m) && At(s, path, key, m).Used? {
      assert At(s, path, key, m).Used? && !Matches(At(s, path, key, m), key);
    }
    PassTo(s', path, key, n);
    FoundAt(s', path, key, n);
    forall k | k != key ensures Lookup(s', path, k) == Lookup(s, path, k) { OthersUnchanged(s, path, i, slot, k); }
    forall k ensures Copies(s', k, CAPACITY) == Copies(s, k, CAPACITY) + if k == key && !s[i].Used? then 1 else 0 {
      CopiesSet(s, k, i, slot, CAPACITY);
    }
    OccupiedSet(s, i, slot, CAPACITY);
  }

  lemma FoundAt(s: Table, path: Path, key: string, n: nat)
    requires InTable(path) && n < CAPACITY && Matches(At(s, path, key, n), key)
    ensures LookupFrom(s, path, key, n) == Some(At(s, path, key, n).value)
  {
  }

  /** The key gets a second copy exactly when it is stored already and a tombstone is met first. */
  lemma DuplicatesIff(s: Table, path: Path, key: string, n: nat)
    requires TableOk(s, path) && InsertsAt(s, path, key, n)
    ensures At(s, path, key, n).Tombstone? <==> TombstoneFirst(s, path, key)
    ensures !At(s, path, key, n).Used? && !At(s, path, key, n).Tombstone? ==> Copies(s, key, CAPACITY) == 0
  {
    if TombstoneFirst(s, path, key) {
      var m: nat :| m < CAPACITY && Crowded(s, path, key, m) && At(s, path, key, m).Tombstone?;
      var first, second := At(s, path, key, m), At(s, path, key, n);
    }
    if At(s, path, key, n).Empty? {
      forall m: nat | m < n ensures !At(s, path, key, m).Empty? { assert At(s, path, key, m).Used?; }
      NotOnPath(s, path, key, n);
      NoCopies(s, key, CAPACITY);
    }
  }

  /** A path through every slot meets room while the table is not full. */
  lemma RoomOnPath(s: Table, path: Path, key: string)
    requires InTable(path) && VisitsAll(path) && Occupied(s, CAPACITY) < CAPACITY
    ensures !Crowded(s, path, key, CAPACITY)
  {
    if Crowded(s, path, key, CAPACITY) {
      forall j: nat | j < CAPACITY ensures s[j].Used? {
        assert Visited(path, key, j);
        var i: nat :| i < CAPACITY && path(key, i) == j;
        assert At(s, path, key, i).Used?;
      }
      AllOccupied(s, CAPACITY);
    }
  }

  /** The slots of a key's quadratic path. */
  ghost function QuadraticSlots(h1: string -> nat, key: string): set<int> {
    Shifted(OFFSETS, h1(key) % CAPACITY)
  }

  lemma QuadraticSlotsAre(h1: string -> nat, h2: string -> nat, key: string)
    ensures |QuadraticSlots(h1, key)| == 12
    ensures forall slot: nat :: slot < CAPACITY ==>
              (slot in QuadraticSlots(h1, key) <==> Visited(Probe(Quadratic, h1, h2), key, slot))
    ensures forall slot :: slot in QuadraticSlots(h1, key) ==> 0 <= slot < CAPACITY
  {
    hide OFFSETS, Root, Visited;
    OffsetsAre();
    var base := h1(key) % CAPACITY;
    ShiftedCard(OFFSETS, CAPACITY, base);
    forall slot: nat | slot < CAPACITY
      ensures slot in Shifted(OFFSETS, base) <==> Visited(Probe(Quadratic, h1, h2), key, slot)
    {
      QuadraticVisits(h1, h2, key, slot);
      var o := (slot - base) % CAPACITY;
      OffsetBack(base, o, slot);
      forall p | p in OFFSETS && (base + p) % CAPACITY == slot ensures p == o { OffsetOf(base, p, slot); }
    }
  }

  /** A quadratic path is crowded exactly if its twelve slots all hold other keys. */
  lemma CrowdedIff(s: Table, h1: string -> nat, h2: string -> nat, key: string)
    ensures InTable(Probe(Quadratic, h1, h2))
    ensures Crowded(s, Probe(Quadratic, h1, h2), key, CAPACITY)
            <==> forall slot :: slot in QuadraticSlots(h1, key) && 0 <= slot < CAPACITY ==> s[slot].Used? && s[slot].key != key
  {
    var path := Probe(Quadratic, h1, h2);
    hide OFFSETS;
    QuadraticSlotsAre(h1, h2, key);
    if Crowded(s, path, key, CAPACITY) {
      forall slot | slot in QuadraticSlots(h1, key) && 0 <= slot < CAPACITY ensures s[slot].Used? && s[slot].key != key {
        assert Visited(path, key, slot);
        var i: nat :| i < CAPACITY && path(key, i) == slot;
        assert At(s, path, key, i).Used? && !Matches(At(s, path, key, i), key);
      }
    }
    forall m: nat | m < CAPACITY ensures Visited(path, key, path(key, m)) {}
  }

  /** With fewer than twelve entries no quadratic path is crowded. */
  lemma QuadraticRoom(s: Table, h1: string -> nat, h2: string -> nat, key: string)
    requires Occupied(s, CAPACITY) < 12
    ensures InTable(Probe(Quadratic, h1, h2)) && !Crowded(s, Probe(Quadratic, h1, h2), key, CAPACITY)
  {
    hide Occupied;
    CrowdedIff(s, h1, h2, key);
    QuadraticSlotsAre(h1, h2, key);
    if Crowded(s, Probe(Quadratic, h1, h2), key, CAPACITY) {
      OccupiedAtLeast(s, QuadraticSlots(h1, key), CAPACITY);
    }
  }

  /** Turning the found copy into a tombstone: one copy fewer, and the key is gone exactly if it was the only one. */
  lemma Buried(s: Table, path: Path, key: string, n: nat)
    requires TableOk(s, path) && n < CAPACITY && Matches(At(s, path, key, n), key)
    ensures var s' := s[path(key, n) := Tombstone];
      && TableOk(s', path)
      && (Lookup(s', path, key) == None <==> Copies(s, key, CAPACITY) == 1)
      && (forall k :: k != key ==> Lookup(s', path, k) == Lookup(s, path, k))
      && (forall k :: Copies(s', k, CAPACITY) == Copies(s, k, CAPACITY) - if k == key then 1 else 0)
      && Occupied(s', CAPACITY) == Occupied(s, CAPACITY) - 1
  {
    hide LookupFrom, Lookup, Copies, Occupied;
    var i := path(key, n);
    var s': Table := s[i := Tombstone];
    StillReachable(s, path, i, Tombstone);
    forall k ensures Copies(s', k, CAPACITY) == Copies(s, k, CAPACITY) - if k == key then 1 else 0 {
      CopiesSet(s, k, i, Tombstone, CAPACITY);
    }
    forall k | k != key ensures Lookup(s', path, k) == Lookup(s, path, k) { OthersUnchanged(s, path, i, Tombstone, k); }
    OccupiedSet(s, i, Tombstone, CAPACITY);
    LookupFinds(s', path, key);
  }

  // ----- The program

  class OAHashMap {
    const how: ProbeMethod
    const h1: string -> nat
    const h2: string -> nat
    const slots: array<Slot>
    var size: int

    ghost function ProbePath(): Path {
      Probe(how, h1, h2)
    }

    ghost predicate Valid()
      reads this, slots
    {
      slots.Length == CAPACITY && TableOk(slots[..], ProbePath()) && size == Occupied(slots[..], CAPACITY)
    }

    ghost function Find(key: string): Option<int>
      requires Valid()
      reads this, slots
    {
      Lookup(slots[..], ProbePath(), key)
    }

    ghost function CopiesOf(key: string): nat
      requires Valid()
      reads this, slots
    {
      Copies(slots[..], key, CAPACITY)
    }

    ghost predicate TombstoneAhead(key: string)
      requires Valid()
      reads this, slots
    {
      TombstoneFirst(slots[..], ProbePath(), key)
    }

    /** Every slot of the key's path holds another key. */
    ghost predicate PathCrowded(key: string)
      requires Valid()
      reads this, slots
    {
      Crowded(slots[..], ProbePath(), key, CAPACITY)
    }

    constructor (method_: ProbeMethod, first: string -> nat, second: string -> nat)
      ensures Valid() && Unique(slots[..]) && size == 0 && how == method_ && h1 == first && h2 == second && fresh(slots)
      ensures slots[..] == Blank() && forall key :: Find(key) == None && CopiesOf(key) == 0
    {
      how, h1, h2 := method_, first, second;
      slots := new Slot[CAPACITY](_ => Empty);
      size := 0;
      new;
      NoneOccupied(slots[..], CAPACITY);
      forall key ensures Copies(slots[..], key, CAPACITY) == 0 && Find(key) == None {
        NoCopies(slots[..], key, CAPACITY);
        NothingFound(slots[..], ProbePath(), key, 0);
      }
    }

    method Get(key: string) returns (value: Option<int>)
      requires Valid()
      ensures value == Find(key) && (value == None <==> CopiesOf(key) == 0)
    {
      ghost var s, path := slots[..], ProbePath();
      LookupFinds(s, path, key);
      for i := 0 to CAPACITY
        invariant Passed(s, path, key, i)
      {
        var slot := slots[Probe(how, h1, h2)(key, i)];
        assert slot == At(s, path, key, i);
        PassTo(s, path, key, i);
        if slot.Empty? { return None; }
        if slot.Used? && slot.key == key { return Some(slot.value); }
      }
      PassTo(s, path, key, CAPACITY);
      return None;
    }

    /** Insert or update.  Searching agrees with a map; but a key met behind a tombstone is stored a second time. */
    method Put(key: string, value: int) returns (ok: bool)
      requires Valid()
      modifies this, slots
      ensures Valid()
      ensures ok ==> Find(key) == Some(value) && forall k :: k != key ==> Find(k) == old(Find(k))
      ensures !ok ==> slots[..] == old(slots[..]) && size == old(size)
      ensures ok ==> exists n :: InsertsAt(old(slots[..]), ProbePath(), key, n)
                                 && slots[..] == old(slots[..])[ProbePath()(key, n) := Used(key, value)]
      ensures ok <==> old(size) < 42 && !old(PathCrowded(key))
      ensures how != Quadratic ==> ok == (old(size) < 42)
      ensures old(size) < 12 ==> ok
      ensures ok ==> size - old(size) == CopiesOf(key) - old(CopiesOf(key))
      ensures ok ==> forall k :: k != key ==> CopiesOf(k) == old(CopiesOf(k))
      ensures ok && (old(CopiesOf(key)) == 0 || old(TombstoneAhead(key))) ==> CopiesOf(key) == old(CopiesOf(key)) + 1
      ensures ok && old(CopiesOf(key)) > 0 && !old(TombstoneAhead(key)) ==> CopiesOf(key) == old(CopiesOf(key))
    {
      hide Lookup, Copies, Occupied, TombstoneFirst, FindsAt, LookupFrom, Reachable;
      if size >= CAPACITY * 2 / 3 { return false; }
      ghost var s, path := slots[..], ProbePath();
      if how != Quadratic {
        ProbesVisitAll(how, h1, h2);
        RoomOnPath(s, path, key);
      } else if size < 12 {
        QuadraticRoom(s, h1, h2, key);
      }
      for i := 0 to CAPACITY
        invariant slots[..] == s && size == old(size) && Crowded(s, path, key, i)
      {
        var idx := Probe(how, h1, h2)(key, i);
        var slot := slots[idx];
        assert slot == At(s, path, key, i);
        if slot.Empty? || slot.Tombstone? {
          Stored(s, path, key, value, i);
          DuplicatesIff(s, path, key, i);
          slots[idx] := Used(key, value);
          size := size + 1;
          assert InsertsAt(s, path, key, i) && slots[..] == s[path(key, i) := Used(key, value)];
          return true;
        }
        if slot.key == key {
          Stored(s, path, key, value, i);
          DuplicatesIff(s, path, key, i);
          CopyThere(s, key, idx);
          slots[idx] := Used(key, value);
          assert InsertsAt(s, path, key, i) && slots[..] == s[path(key, i) := Used(key, value)];
          return true;
        }
      }
      return false;
    }

    /** Removes the copy that a search finds; the key is absent afterwards exactly if it was stored at most once. */
    method Remove(key: string) returns (ok: bool)
      requires Valid()
      modifies this, slots
      ensures Valid() && ok == (old(CopiesOf(key)) > 0)
      ensures Find(key) == None <==> old(CopiesOf(key)) <= 1
      ensures forall k :: k != key ==> Find(k) == old(Find(k)) && CopiesOf(k) == old(CopiesOf(k))
      ensures CopiesOf(key) == old(CopiesOf(key)) - (if ok then 1 else 0)
      ensures size == old(size) - if ok then 1 else 0
      ensures ok ==> exists n :: FindsAt(old(slots[..]), ProbePath(), key, n)
                                 && slots[..] == old(slots[..])[ProbePath()(key, n) := Tombstone]
    {
      hide Lookup, Copies, Occupied;
      ghost var s, path := slots[..], ProbePath();
      LookupFinds(s, path, key);
      for i := 0 to CAPACITY
        invariant slots[..] == s && size == old(size) && Passed(s, path, key, i)
      {
        var idx := Probe(how, h1, h2)(key, i);
        var slot := slots[idx];
        assert slot == At(s, path, key, i);
        if slot.Empty? {
          NotOnPath(s, path, key, i);
          NoCopies(s, key, CAPACITY);
          return false;
        }
        if slot.Used? && slot.key == key {
          Buried(s, path, key, i);
          CopyThere(s, key, idx);
          slots[idx] := Tombstone;
          size := size - 1;
          assert FindsAt(s, path, key, i) && slots[..] == s[path(key, i) := Tombstone];
          return true;
        }
      }
      NotOnPath(s, path, key, CAPACITY);
      NoCopies(s, key, CAPACITY);
      return false;
    }
  }

  lemma CopyThere(s: Table, key: string, i: nat)
    requires i < CAPACITY && Matches(s[i], key)
    ensures Copies(s, key, CAPACITY) > 0
  {
    NoCopies(s, key, CAPACITY);
  }

  lemma {:induction false} NoneOccupied(s: Table, n: nat)
    requires n <= CAPACITY && forall i :: 0 <= i < n ==> !s[i].Used?
    ensures Occupied(s, n) == 0
  {
    if n > 0 { NoneOccupied(s, n - 1); }
  }

  /** A key stored behind a tombstone, put again and removed, is still found, with its old value. */
  lemma PutRemoveRestores(s: Table, path: Path, key: string, value: int, n: nat)
    requires TableOk(s, path) && InsertsAt(s, path, key, n) && At(s, path, key, n).Tombstone?
    requires Copies(s, key, CAPACITY) > 0
    ensures var put := s[path(key, n) := Used(key, value)];
      && Copies(put, key, CAPACITY) > 1 && Lookup(put, path, key) == Some(value) && FindsAt(put, path, key, n)
      && Lookup(put[path(key, n) := Tombstone], path, key) == Lookup(s, path, key) != None
  {
    Stored(s, path, key, value, n);
    LookupFinds(s, path, key);
    assert s[path(key, n) := Used(key, value)][path(key, n) := Tombstone] == s;
  }

  /** Such a table arises: two keys with one home are put, and the first is removed.  The slots written are the stops
      of the loops. */
  lemma TombstoneAheadArises(how: ProbeMethod, h1: string -> nat, h2: string -> nat, a: string, b: string)
    requires a != b && h1(a) % CAPACITY == h1(b) % CAPACITY
    ensures InTable(Probe(how, h1, h2))
    ensures var path := Probe(how, h1, h2);
      var one: Table := Blank()[path(a, 0) := Used(a, 1)];
      var two: Table := one[path(b, 1) := Used(b, 2)];
      var s: Table := two[path(a, 0) := Tombstone];
      && InsertsAt(Blank(), path, a, 0) && InsertsAt(one, path, b, 1) && FindsAt(two, path, a, 0)
      && TableOk(s, path) && At(s, path, b, 0).Tombstone? && TombstoneFirst(s, path, b) && Lookup(s, path, b) == Some(2)
  {
    hide Lookup, LookupFrom, Copies, Occupied, Blank;
    var path := Probe(how, h1, h2);
    SameHome(how, h1, h2, a, b);
    hide Probe;
    BlankOk(path);
    Stored(Blank(), path, a, 1, 0);
    var one: Table := Blank()[path(a, 0) := Used(a, 1)];
    assert InsertsAt(one, path, b, 1);
    Stored(one, path, b, 2, 1);
    var two: Table := one[path(b, 1) := Used(b, 2)];
    Buried(two, path, a, 0);
    var s: Table := two[path(a, 0) := Tombstone];
    assert At(s, path, b, 0).Tombstone? && Crowded(s, path, b, 0);
  }

  lemma SameHome(how: ProbeMethod, h1: string -> nat, h2: string -> nat, a: string, b: string)
    requires h1(a) % CAPACITY == h1(b) % CAPACITY
    ensures InTable(Probe(how, h1, h2)) && Probe(how, h1, h2)(a, 0) == Probe(how, h1, h2)(b, 0) != Probe(how, h1, h2)(b, 1)
  {
  }

  lemma BlankOk(path: Path)
    requires InTable(path)
    ensures TableOk(Blank(), path) && forall i :: 0 <= i < CAPACITY ==> Blank()[i] == Empty
  {
  }

  /** A value that comes back: with a put and removed and b put behind it, b is updated and removed, and still found
      with the value it had before the update. */
  method StaleValueReturns(how: ProbeMethod, h1: string -> nat, h2: string -> nat, a: string, b: string)
    returns (updated: Option<int>, after: Option<int>)
    requires a != b && h1(a) % CAPACITY == h1(b) % CAPACITY
    ensures updated == Some(3) && after == Some(2)
  {
    hide Lookup, Copies, Occupied, TombstoneFirst, InsertsAt, FindsAt, Unique, Probe;
    var hm := new OAHashMap(how, h1, h2);
    ghost var path := hm.ProbePath();
    TombstoneAheadArises(how, h1, h2, a, b);
    var ok := hm.Put(a, 1);
    ghost var m: nat :| InsertsAt(Blank(), path, a, m) && hm.slots[..] == Blank()[path(a, m) := Used(a, 1)];
    StopsOnce(Blank(), path, a, m, 0);
    ghost var one := hm.slots[..];
    ok := hm.Put(b, 2);
    m :| InsertsAt(one, path, b, m) && hm.slots[..] == one[path(b, m) := Used(b, 2)];
    StopsOnce(one, path, b, m, 1);
    ghost var two := hm.slots[..];
    ok := hm.Remove(a);
    m :| FindsAt(two, path, a, m) && hm.slots[..] == two[path(a, m) := Tombstone];
    StopsOnce(two, path, a, m, 0);
    updated, after := UpdateAndRemove(hm, b, 3);
  }

  /** A key behind a tombstone, updated and removed. */
  method UpdateAndRemove(hm: OAHashMap, key: string, value: int) returns (updated: Option<int>, after: Option<int>)
    requires hm.Valid() && hm.size < 12 && hm.TombstoneAhead(key) && hm.CopiesOf(key) > 0
    modifies hm, hm.slots
    ensures hm.Valid() && updated == Some(value) && after == old(hm.Find(key)) && after != None
  {
    hide Lookup, Copies, Occupied, TombstoneFirst, Unique, Probe;
    ghost var s, path := hm.slots[..], hm.ProbePath();
    var ok := hm.Put(key, value);
    ghost var n: nat :| InsertsAt(s, path, key, n) && hm.slots[..] == s[path(key, n) := Used(key, value)];
    DuplicatesIff(s, path, key, n);
    PutRemoveRestores(s, path, key, value, n);
    updated := hm.Get(key);
    ghost var put := hm.slots[..];
    ok := hm.Remove(key);
    ghost var m: nat :| FindsAt(put, path, key, m) && hm.slots[..] == put[path(key, m) := Tombstone];
    StopsOnce(put, path, key, m, n);
    after := hm.Get(key);
  }

  /** Twelve keys with one home fill their quadratic path: the put of a thirteenth fails, with 52 slots free. */
  method QuadraticFills(h1: string -> nat, h2: string -> nat, keys: seq<string>) returns (hm: OAHashMap, ok: bool)
    requires |keys| == 13 && (forall i, j :: 0 <= i < j < 13 ==> keys[i] != keys[j])
    requires forall i :: 0 <= i < 13 ==> h1(keys[i]) == h1(keys[0])
    ensures hm.Valid() && hm.how == Quadratic && hm.size == 12 && !ok
  {
    hide Lookup, Copies, Crowded, Occupied;
    hm := new OAHashMap(Quadratic, h1, h2);
    for k := 0 to 12
      invariant hm.Valid() && hm.how == Quadratic && hm.h1 == h1 && hm.h2 == h2 && hm.size == k && fresh(hm) && fresh(hm.slots)
      invariant forall key :: key !in keys[..k] ==> hm.CopiesOf(key) == 0
    {
      assert keys[k] !in keys[..k];
      ok := hm.Put(keys[k], k);
      assert keys[..k + 1] == keys[..k] + [keys[k]];
    }
    OneHomeCrowded(hm.slots[..], h1, h2, keys);
    ok := hm.Put(keys[12], 12);
  }

  /** If a table's twelve entries all have one home, they take the whole path. */
  lemma OneHomeCrowded(s: Table, h1: string -> nat, h2: string -> nat, keys: seq<string>)
    requires |keys| == 13 && (forall i, j :: 0 <= i < j < 13 ==> keys[i] != keys[j])
    requires forall i :: 0 <= i < 13 ==> h1(keys[i]) == h1(keys[0])
    requires TableOk(s, Probe(Quadratic, h1, h2)) && Occupied(s, CAPACITY) == 12
    requires forall key :: key !in keys[..12] ==> Copies(s, key, CAPACITY) == 0
    ensures Crowded(s, Probe(Quadratic, h1, h2), keys[12], CAPACITY)
  {
    hide Copies, Crowded, OFFSETS, Occupied;
    var path, all := Probe(Quadratic, h1, h2), QuadraticSlots(h1, keys[12]);
    QuadraticSlotsAre(h1, h2, keys[12]);
    var used := set i | 0 <= i < CAPACITY && s[i].Used?;
    OccupiedIs(s, CAPACITY);
    assert |used| == 12 by { assert used == set i | 0 <= i < CAPACITY && i < CAPACITY && s[i].Used?; }
    forall i: nat | i in used ensures i in all && s[i].key in keys[..12] {
      if s[i].key !in keys[..12] { NoCopies(s, s[i].key, CAPACITY); }
      var j :| 0 <= j < 12 && keys[j] == s[i].key;
      assert h1(s[i].key) == h1(keys[12]);
      assert Reachable(s, path, i);
      var n: nat :| ReachedAt(s, path, s[i].key, i, n);
      assert path(keys[12], n) == path(s[i].key, n) == i;
    }
    SubsetEqual(used, all);
    CrowdedIff(s, h1, h2, keys[12]);
    forall slot | slot in all ensures s[slot].key != keys[12] {
      assert s[slot].key in keys[..12];
    }
  }

  lemma {:induction false} OccupiedIs(s: Table, n: nat)
    requires n <= CAPACITY
    ensures |set i | 0 <= i < CAPACITY && i < n && s[i].Used?| == Occupied(s, n)
  {
    var now := set i | 0 <= i < CAPACITY && i < n && s[i].Used?;
    if n == 0 {
      assert now == {};
    } else {
      OccupiedIs(s, n - 1);
      var before := set i | 0 <= i < CAPACITY && i < n - 1 && s[i].Used?;
      assert now == if s[n - 1].Used? then before + {n - 1} else before;
    }
  }

  lemma SubsetEqual(a: set<int>, b: set<int>)
    requires a <= b && |a| == |b|
    ensures a == b
  {
    assert |b - a| == 0;
  }
}
