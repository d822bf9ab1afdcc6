/** slab_allocator.c: fixed-size objects in slabs, a bitmap per slab, and a partial and a full list.
    The address of a new slab's memory is the caller's choice, as malloc's answer. */
module SlabAllocator {
  const PAGE_SIZE := 4096
  const POINTER_SIZE := 8
  const BITS := 64

  datatype Option<T> = None | Some(value: T)

  /** What slab_cache_alloc does: return NULL, stop at its assertion, or hand out an object. */
  datatype Answer = NoMemory | AssertionFails | Object(address: nat)

  /** The zero bits among the first n. */
  function Zeros(bitmap: seq<bool>, n: nat): nat
    requires n <= |bitmap|
  {
    if n == 0 then 0 else Zeros(bitmap, n - 1) + if bitmap[n - 1] then 0 else 1
  }

  lemma {:induction false} ZerosUpdate(bitmap: seq<bool>, i: nat, b: bool, n: nat)
    requires n <= |bitmap| && i < |bitmap|
    ensures Zeros(bitmap[i := b], n) == Zeros(bitmap, n) +
              if i < n then (if b then 0 else 1) - (if bitmap[i] then 0 else 1) else 0
  {
    if n > 0 { ZerosUpdate(bitmap, i, b, n - 1); }
  }

  lemma {:induction false} NoZeros(bitmap: seq<bool>, n: nat)
    requires n <= |bitmap|
    ensures Zeros(bitmap, n) == 0 <==> forall i :: 0 <= i < n ==> bitmap[i]
    ensures Zeros(bitmap, n) == n <==> forall i :: 0 <= i < n ==> !bitmap[i]
    ensures Zeros(bitmap, n) <= n
  {
    if n > 0 { NoZeros(bitmap, n - 1); }
  }

  /** The first zero bit, or -1. */
  method FindFreeSlot(bitmap: seq<bool>, count: nat) returns (slot: int)
    requires count <= |bitmap|
    ensures slot == -1 <==> Zeros(bitmap, count) == 0
    ensures slot != -1 ==> 0 <= slot < count && !bitmap[slot] && forall i :: 0 <= i < slot ==> bitmap[i]
  {
    NoZeros(bitmap, count);
    for i := 0 to count
      invariant forall j :: 0 <= j < i ==> bitmap[j]
    {
      if !bitmap[i] { return i; }
    }
    return -1;
  }

  // ----- Addresses

  function Address(base: nat, size: nat, slot: nat): (a: nat)
    ensures a >= base
  {
    base + slot * size
  }

  lemma AddressInside(base: nat, size: nat, slot: nat, count: nat)
    requires slot < count
    ensures base <= Address(base, size, slot) && Address(base, size, slot) + size <= base + count * size
  {
    assert (count - slot - 1) * size >= 0;
    assert count * size == slot * size + size + (count - slot - 1) * size;
  }

  lemma AddressSlot(base: nat, size: nat, slot: nat)
    requires size > 0
    ensures (Address(base, size, slot) - base) / size == slot
  {
    var x := slot * size;
    var q := x / size;
    assert x - q * size == (slot - q) * size;
    AtLeast(slot - q, size);
  }

  lemma SlotBelow(x: nat, size: nat, count: nat)
    requires size > 0 && x < count * size
    ensures x / size < count
  {
    var q := x / size;
    if q >= count { Multiples(count, q, size); }
  }

  lemma Multiples(a: nat, b: nat, size: nat)
    requires a <= b
    ensures a * size <= b * size
  {
    assert (b - a) * size == b * size - a * size && (b - a) * size >= 0;
  }

  lemma AtLeast(k: int, size: int)
    requires size >= 0
    ensures k > 0 ==> k * size >= size
    ensures k < 0 ==> k * size <= -size
  {
    if k > 0 {
      assert k * size == size + (k - 1) * size && (k - 1) * size >= 0;
    } else if k < 0 {
      assert k * size == -size - (-k - 1) * size && (-k - 1) * size >= 0;
    }
  }

  /** Different slots of one slab are at least an object apart. */
  lemma AddressesApart(base: nat, size: nat, i: nat, j: nat)
    requires i < j
    ensures Address(base, size, i) + size <= Address(base, size, j)
  {
    AddressInside(base, size, i, j);
  }

  class Slab {
    var next: Slab?
    const memory: nat
    var bitmap: seq<bool>
    var freeCount: int

    constructor (base: nat, objs: nat)
      requires objs <= BITS
      ensures memory == base && next == null && freeCount == objs && bitmap == seq(BITS, _ => false)
    {
      memory := base;
      next := null;
      bitmap := seq(BITS, _ => false);
      freeCount := objs;
    }
  }

  // ----- Lists

  function At(s: seq<Slab>, i: nat): Slab? {
    if i < |s| then s[i] else null
  }

  ghost predicate Linked(s: seq<Slab>, i: nat)
    requires i < |s|
    reads s[i]
  {
    s[i].next == At(s, i + 1)
  }

  ghost predicate IsList(head: Slab?, s: seq<Slab>)
    reads s
  {
    head == At(s, 0) && forall i :: 0 <= i < |s| ==> Linked(s, i)
  }

  ghost predicate Distinct(s: seq<Slab>) {
    forall i, j :: 0 <= i < j < |s| ==> s[i] != s[j]
  }

  ghost predicate Disjoint(s: seq<Slab>, t: seq<Slab>) {
    forall x :: x in s ==> x !in t
  }

  lemma TailIsList(p: seq<Slab>)
    requires p != [] && IsList(p[0], p)
    ensures IsList(p[0].next, p[1..])
  {
    assert Linked(p, 0);
    forall i | 0 <= i < |p[1..]| ensures Linked(p[1..], i) { assert Linked(p, i + 1); }
  }

  lemma FrontIsList(slab: Slab, f: seq<Slab>)
    requires IsList(slab.next, f)
    ensures IsList(slab, [slab] + f)
  {
    var g := [slab] + f;
    forall i | 0 <= i < |g| ensures Linked(g, i) {
      if i > 0 { assert Linked(f, i - 1); }
    }
  }

  /** The first element of p moves to the front of f. */
  lemma FrontMoves(p: seq<Slab>, f: seq<Slab>)
    requires p != [] && Distinct(p) && Distinct(f) && Disjoint(p, f)
    ensures Distinct(p[1..]) && Distinct([p[0]] + f) && Disjoint(p[1..], [p[0]] + f)
    ensures p[0] !in p[1..] && p[0] !in f
    ensures forall x :: x in p || x in f <==> x in p[1..] || x in [p[0]] + f
  {
    assert p[0] in p && p == [p[0]] + p[1..];
  }

  class SlabCache {
    const objSize: nat
    const objsPerSlab: nat
    var partialHead: Slab?
    var fullHead: Slab?
    var totalAllocated: int
    var totalFreed: int
    /** The two lists, all slabs, and the objects handed out and not yet freed, with slab and slot. */
    ghost var partialList: seq<Slab>
    ghost var fullList: seq<Slab>
    ghost var slabs: set<Slab>
    ghost var live: map<nat, (Slab, nat)>

    ghost predicate Lists()
      reads this, slabs
    {
      && (forall s :: s in partialList ==> s in slabs) && (forall s :: s in fullList ==> s in slabs)
      && (forall s :: s in slabs ==> s in partialList || s in fullList)
      && Distinct(partialList) && Distinct(fullList) && Disjoint(partialList, fullList)
      && IsList(partialHead, partialList) && IsList(fullHead, fullList)
    }

    function Span(): nat {
      objsPerSlab * objSize
    }

    ghost predicate SlabOk(s: Slab)
      reads s
    {
      && objsPerSlab <= BITS == |s.bitmap| && s.memory > 0
      && s.freeCount >= Zeros(s.bitmap, objsPerSlab)
      && forall i :: objsPerSlab <= i < BITS ==> !s.bitmap[i]
    }

    predicate Apart(a: nat, b: nat) {
      a + Span() <= b || b + Span() <= a
    }

    ghost predicate LiveAt(a: nat, s: Slab, i: nat)
      reads s
    {
      i < objsPerSlab <= |s.bitmap| && s.bitmap[i] && a == Address(s.memory, objSize, i)
    }

    /** Bitmaps, counts and addresses say the same as the set of live objects. */
    ghost predicate Objects()
      reads this, slabs
    {
      && objSize > 0 && 0 < objsPerSlab <= BITS
      && (forall s :: s in slabs ==> SlabOk(s))
      && (forall s, t :: s in slabs && t in slabs && s != t ==> Apart(s.memory, t.memory))
      && (forall a :: a in live ==> live[a].0 in slabs && LiveAt(a, live[a].0, live[a].1))
      && (forall s, i: nat :: s in slabs && i < objsPerSlab && s.bitmap[i] ==> Address(s.memory, objSize, i) in live)
    }

    /** What every call keeps, whatever pointers are freed: free_count is never too low. */
    ghost predicate Inv()
      reads this, slabs
    {
      && Lists() && Objects()
      && (forall s :: s in partialList ==> s.freeCount > 0)
      && (forall s :: s in fullList ==> s.freeCount == 0)
    }

    /** By how much free_count exceeds the number of zero bits. */
    function Surplus(s: Slab): int
      reads s`bitmap, s`freeCount
    {
      if objsPerSlab <= |s.bitmap| then s.freeCount - Zeros(s.bitmap, objsPerSlab) else 0
    }

    /** How many more objects the slabs of the list give until one has all its bits set and free_count above 0. */
    ghost function Supply(list: seq<Slab>): nat
      reads list`bitmap, list`freeCount
    {
      if list == [] then 0
      else
        (if objsPerSlab <= |list[0].bitmap| then Zeros(list[0].bitmap, objsPerSlab) else 0)
        + if Surplus(list[0]) > 0 then 0 else Supply(list[1..])
    }

    ghost predicate Exact()
      reads this`slabs, slabs`bitmap, slabs`freeCount
    {
      forall s :: s in slabs ==> Surplus(s) == 0
    }

    ghost predicate Valid()
      reads this, slabs
    {
      Inv() && Exact()
    }

    /** The statistics count the live objects. */
    ghost predicate Counted()
      reads this
    {
      totalAllocated - totalFreed == |live|
    }

    /** slab_cache_init; `base` is where the first slab's memory is, or None if malloc fails. */
    constructor (size: nat, align: nat, base: Option<nat>)
      requires align == 0 || PowerOfTwo(align)
      requires base.Some? ==> base.value > 0
      ensures Valid() && Counted() && live == map[] && totalAllocated == totalFreed == 0
      ensures objSize >= size && objSize >= POINTER_SIZE
      ensures size > 0 ==> objSize % (if align == 0 then POINTER_SIZE else align) == 0
      ensures Rounded(objSize, size, if align == 0 then POINTER_SIZE else align)
      ensures 1 <= objsPerSlab <= BITS && (objsPerSlab > 1 ==> Span() <= PAGE_SIZE)
      ensures objsPerSlab < BITS ==> Span() + objSize > PAGE_SIZE
      ensures fullList == [] && |partialList| == (if base.Some? then 1 else 0)
      ensures base.Some? ==> partialList[0].memory == base.value && fresh(slabs)
    {
      hide Lists, Objects, Zeros, PowerOfTwo;
      var rounded, n := Layout(size, align);
      objSize := rounded;
      objsPerSlab := n;
      totalAllocated, totalFreed := 0, 0;
      live := map[];
      fullHead, fullList := null, [];
      partialHead, partialList, slabs := null, [], {};
      new;
      if base.Some? {
        var slab := new Slab(base.value, n);
        partialHead, partialList, slabs := slab, [slab], {slab};
        FirstSlab(slab);
      } else {
        NoSlab();
      }
    }

    lemma NoSlab()
      requires partialList == [] && fullList == [] && slabs == {} && live == map[] && totalAllocated == totalFreed
      requires partialHead == null && fullHead == null && objSize > 0 && 0 < objsPerSlab <= BITS
      ensures Valid() && Counted()
    {
    }

    lemma FirstSlab(slab: Slab)
      requires partialList == [slab] && fullList == [] && slabs == {slab} && live == map[] && totalAllocated == totalFreed
      requires partialHead == slab && fullHead == null && objSize > 0 && 0 < objsPerSlab <= BITS
      requires slab.next == null && slab.bitmap == seq(BITS, _ => false) && slab.freeCount == objsPerSlab && slab.memory > 0
      ensures Valid() && Counted()
    {
      NoZeros(slab.bitmap, objsPerSlab);
    }

    /** The address is one that malloc may return: its region touches no slab. */
    ghost predicate FreshRegion(base: nat)
      reads this, slabs
    {
      base > 0 && forall s :: s in slabs ==> Apart(s.memory, base)
    }

    /** Add the slab that slab_create returns to the empty partial list. */
    method AddSlab(base: nat)
      requires Inv() && partialList == [] && FreshRegion(base)
      modifies this
      ensures Inv() && |partialList| == 1 && fresh(partialList[0])
      ensures slabs == old(slabs) + {partialList[0]} && fullList == old(fullList)
      ensures live == old(live) && totalAllocated == old(totalAllocated) && totalFreed == old(totalFreed)
      ensures partialList[0].memory == base && Surplus(partialList[0]) == 0 && !NoSlotLeft(partialList[0])
    {
      hide Lists, IsList, Objects, Zeros;
      OnlyFull();
      assert 0 < objsPerSlab <= BITS by { Sizes(); }
      var slab := new Slab(base, objsPerSlab);
      NoZeros(slab.bitmap, objsPerSlab);
      partialHead := slab;
      partialList := [slab];
      slabs := slabs + {slab};
      OneSlab(slab);
      SlabAdded(slab);
    }

    lemma Sizes()
      requires Objects()
      ensures 0 < objsPerSlab <= BITS
    {
    }

    twostate lemma SlabAdded(new slab: Slab)
      requires old(Objects()) && slabs == old(slabs) + {slab} && live == old(live)
      requires forall s :: s in old(slabs) ==> Apart(s.memory, slab.memory)
      requires SlabOk(slab) && forall i: nat :: i < objsPerSlab ==> !slab.bitmap[i]
      requires forall s :: s in old(slabs) ==> unchanged(s)
      ensures Objects()
    {
      hide Address, Zeros;
      forall s | s in slabs ensures SlabOk(s) {
        if s != slab { assert old(SlabOk(s)); }
      }
      forall a | a in live ensures live[a].0 in slabs && LiveAt(a, live[a].0, live[a].1) {
        assert old(LiveAt(a, live[a].0, live[a].1));
      }
    }

    lemma OnlyFull()
      requires Lists() && partialList == []
      ensures IsList(fullHead, fullList) && Distinct(fullList) && forall s :: s in slabs <==> s in fullList
    {
    }

    lemma OneSlab(slab: Slab)
      requires partialList == [slab] && partialHead == slab && slab.next == null && slab !in fullList
      requires IsList(fullHead, fullList) && Distinct(fullList) && forall s :: s in slabs <==> s == slab || s in fullList
      ensures Lists()
    {
      assert Linked([slab], 0);
    }

    /** Set the bit of a free slot and hand the object out. */
    method MarkUsed(slab: Slab, slot: nat) returns (obj: nat)
      requires Objects() && slab in slabs && slot < objsPerSlab && !slab.bitmap[slot]
      modifies this`live, this`totalAllocated, slab`bitmap, slab`freeCount
      ensures Objects() && slab.freeCount == old(slab.freeCount) - 1 && slab.bitmap == old(slab.bitmap)[slot := true]
      ensures Surplus(slab) == old(Surplus(slab))
      ensures obj == Address(slab.memory, objSize, slot) && obj !in old(live)
      ensures live == old(live)[obj := (slab, slot)]
      ensures totalAllocated == old(totalAllocated) + 1
    {
      hide Address, Zeros;
      ghost var before := live;
      obj := Address(slab.memory, objSize, slot);
      NotLive(slab, slot);
      ZerosUpdate(slab.bitmap, slot, true, objsPerSlab);
      slab.bitmap := slab.bitmap[slot := true];
      slab.freeCount := slab.freeCount - 1;
      totalAllocated := totalAllocated + 1;
      live := live[obj := (slab, slot)];
    }

    /** Objects of different slabs, or of different slots, are at least an object size apart. */
    lemma ObjectsApart(s: Slab, i: nat, t: Slab, j: nat)
      requires Objects() && s in slabs && t in slabs && i < objsPerSlab && j < objsPerSlab && (s != t || i != j)
      ensures var a, b := Address(s.memory, objSize, i), Address(t.memory, objSize, j);
        a + objSize <= b || b + objSize <= a
    {
      hide Address;
      if s == t {
        if i < j { AddressesApart(s.memory, objSize, i, j); } else { AddressesApart(s.memory, objSize, j, i); }
      } else {
        AddressInside(s.memory, objSize, i, objsPerSlab);
        AddressInside(t.memory, objSize, j, objsPerSlab);
        assert Apart(s.memory, t.memory);
      }
    }

    lemma NotLive(s: Slab, i: nat)
      requires Objects() && s in slabs && i < objsPerSlab && !s.bitmap[i]
      ensures Address(s.memory, objSize, i) !in live
    {
      hide Address;
      var a := Address(s.memory, objSize, i);
      if a in live {
        ObjectsApart(s, i, live[a].0, live[a].1);
      }
    }

    /** No two live objects overlap. */
    lemma LiveObjectsDisjoint(a: nat, b: nat)
      requires Objects() && a in live && b in live && a != b
      ensures a + objSize <= b || b + objSize <= a
    {
      ObjectsApart(live[a].0, live[a].1, live[b].0, live[b].1);
    }

    /** Only links have changed. */
    twostate lemma ObjectsKept()
      requires old(Objects()) && slabs == old(slabs) && live == old(live)
      requires forall s :: s in slabs ==> s.bitmap == old(s.bitmap) && s.freeCount == old(s.freeCount)
      ensures Objects()
    {
      hide Address, Zeros;
      forall s | s in slabs ensures SlabOk(s) { assert old(SlabOk(s)); }
      forall a | a in live ensures live[a].0 in slabs && LiveAt(a, live[a].0, live[a].1) {
        assert old(LiveAt(a, live[a].0, live[a].1));
      }
    }

    /** No link has changed. */
    twostate lemma ListsKept()
      requires old(Lists()) && slabs == old(slabs) && partialList == old(partialList) && fullList == old(fullList)
      requires partialHead == old(partialHead) && fullHead == old(fullHead)
      requires forall s :: s in slabs ==> s.next == old(s.next)
      ensures Lists()
    {
      forall i | 0 <= i < |partialList| ensures Linked(partialList, i) {
        assert old(Linked(partialList, i)) && partialList[i] in partialList;
      }
      forall i | 0 <= i < |fullList| ensures Linked(fullList, i) {
        assert old(Linked(fullList, i)) && fullList[i] in fullList;
      }
    }

    /** The first partial slab becomes the first full one. */
    method MoveToFull()
      requires Lists() && partialList != []
      modifies this`partialHead, this`fullHead, this`partialList, this`fullList, slabs`next
      ensures (old(Objects()) ==> Objects()) && Lists() && partialList == old(partialList)[1..] && fullList == [old(partialList)[0]] + old(fullList)
    {
      hide Objects, Apart, IsList, Distinct, Disjoint;
      ghost var p, f := partialList, fullList;
      HeadIsFirst();
      var slab: Slab := partialHead;
      FrontMoves(p, f);
      TailIsList(p);
      assert slab in slabs by { assert p[0] in p; }
      partialHead := slab.next;
      slab.next := fullHead;
      fullHead := slab;
      partialList := p[1..];
      fullList := [slab] + f;
      FrontIsList(slab, f);
      if old(Objects()) { ObjectsKept(); }
    }

    /** slab_cache_alloc; `base` answers the malloc of a new slab, should one be needed.  The assertion fails exactly if
        the first partial slab has no zero bit; no slab's surplus changes. */
    method Alloc(base: Option<nat>) returns (answer: Answer)
      requires Inv()
      requires base.Some? ==> FreshRegion(base.value)
      modifies this, slabs
      ensures Inv() && (old(Counted()) ==> Counted()) && (old(Exact()) ==> Exact())
      ensures answer == NoMemory <==> old(partialList) == [] && base == None
      ensures answer == AssertionFails <==> old(partialList) != [] && old(NoSlotLeft(partialList[0]))
      ensures old(Exact()) ==> answer != AssertionFails
      ensures !answer.Object? ==> unchanged(this) && unchanged(slabs)
      ensures answer.Object? ==> Given(old(live), answer.address) && totalAllocated == old(totalAllocated) + 1
      ensures totalFreed == old(totalFreed) && old(slabs) <= slabs && fresh(slabs - old(slabs))
      ensures old(partialList) != [] ==> slabs == old(slabs)
      ensures forall s :: s in old(slabs) ==> Surplus(s) == old(Surplus(s))
      ensures answer.Object? && old(partialList) != [] ==> Supply(partialList) == old(Supply(partialList)) - 1
    {
      hide Lists, Objects, Zeros, Surplus, Supply;
      if partialHead == null {
        HeadIsFirst();
        match base {
          case None => return NoMemory;
          case Some(b) => AddSlab(b);
        }
      }
      HeadIsFirst();
      if Exact() { ExactHasRoom(); }
      answer := AllocFirst();
    }

    lemma ExactHasRoom()
      requires Inv() && Exact() && partialList != []
      ensures !NoSlotLeft(partialList[0])
    {
      assert partialList[0] in partialList && partialList[0] in slabs;
    }

    /** All bits of the slab are set. */
    ghost predicate NoSlotLeft(s: Slab)
      reads s`bitmap
    {
      objsPerSlab <= |s.bitmap| && Zeros(s.bitmap, objsPerSlab) == 0
    }

    lemma HeadIsFirst()
      requires Lists()
      ensures partialHead == At(partialList, 0)
    {
    }

    /** Take a free slot of the first partial slab, which goes to the full list when its free_count reaches 0. */
    method AllocFirst() returns (answer: Answer)
      requires Inv() && partialList != []
      modifies this, slabs
      ensures Inv() && slabs == old(slabs) && totalFreed == old(totalFreed)
      ensures answer != NoMemory && (answer == AssertionFails <==> old(NoSlotLeft(partialList[0])))
      ensures answer == AssertionFails ==> unchanged(this) && unchanged(slabs)
      ensures answer.Object? ==> Given(old(live), answer.address) && totalAllocated == old(totalAllocated) + 1
      ensures answer.Object? ==> Supply(partialList) == old(Supply(partialList)) - 1
      ensures forall s :: s in slabs ==> Surplus(s) == old(Surplus(s))
    {
      hide Lists, Objects, Zeros, Surplus, Supply, Given;
      var slab := partialHead;
      FirstPartial();
      var slot := FindFreeSlot(slab.bitmap, objsPerSlab);
      if slot < 0 { return AssertionFails; }
      var obj := TakeSlot(slab, slot);
      FirstPartial();
      OnlyFirst();
      if slab.freeCount == 0 {
        NothingLeft(partialList);
        MoveToFull();
      }
      return Object(obj);
    }

    /** The address is new among the live objects, and at least an object size from each of the others. */
    ghost predicate Given(before: map<nat, (Slab, nat)>, obj: nat)
      reads this`live
    {
      && obj > 0 && obj !in before && live.Keys == before.Keys + {obj} && |live| == |before| + 1
      && forall a :: a in before ==> obj + objSize <= a || a + objSize <= obj
    }

    /** Mark the slot of the first partial slab as used. */
    method TakeSlot(slab: Slab, slot: nat) returns (obj: nat)
      requires Lists() && Objects() && partialList != [] && slab == partialList[0] && slab in slabs
      requires |slab.bitmap| == BITS && slab.memory > 0 && slot < objsPerSlab <= BITS && !slab.bitmap[slot]
      modifies this`live, this`totalAllocated, slab`bitmap, slab`freeCount
      ensures Lists() && Objects() && slab.freeCount == old(slab.freeCount) - 1
      ensures Given(old(live), obj) && totalAllocated == old(totalAllocated) + 1
      ensures Surplus(slab) == old(Surplus(slab)) && Supply(partialList) == old(Supply(partialList)) - 1
    {
      hide Lists, Objects, Zeros, Address, Surplus, Supply;
      obj := MarkUsed(slab, slot);
      ListsKept();
      OnlyFirst();
      OneFewer(partialList);
      forall a | a in old(live) ensures obj + objSize <= a || a + objSize <= obj { LiveObjectsDisjoint(obj, a); }
      assert live.Keys == old(live.Keys) + {obj};
    }

    twostate lemma OneFewer(list: seq<Slab>)
      requires list != [] && forall s :: s in list[1..] ==> s.bitmap == old(s.bitmap) && s.freeCount == old(s.freeCount)
      requires objsPerSlab <= |list[0].bitmap| == old(|list[0].bitmap|)
      requires Surplus(list[0]) == old(Surplus(list[0])) && list[0].freeCount == old(list[0].freeCount) - 1
      ensures Supply(list) == old(Supply(list)) - 1
    {
      SupplyKept(list[1..]);
    }

    twostate lemma {:induction false} SupplyKept(list: seq<Slab>)
      requires forall s :: s in list ==> s.bitmap == old(s.bitmap) && s.freeCount == old(s.freeCount)
      ensures Supply(list) == old(Supply(list))
    {
      if list != [] {
        assert list[0] in list;
        SupplyKept(list[1..]);
      }
    }

    lemma NothingLeft(list: seq<Slab>)
      requires list != [] && SlabOk(list[0]) && list[0].freeCount == 0
      ensures Supply(list) == Supply(list[1..])
    {
    }

    lemma FirstPartial()
      requires Lists() && Objects() && partialList != []
      ensures partialHead == partialList[0] && partialHead in partialList && partialHead in slabs && SlabOk(partialHead)
      ensures |partialHead.bitmap| == BITS && partialHead.memory > 0
    {
    }

    lemma OnlyFirst()
      requires Lists() && partialList != []
      ensures forall s :: s in partialList[1..] ==> s in partialList && s != partialList[0]
      ensures forall s :: s in fullList ==> s != partialList[0]
    {
      assert partialList[0] in partialList;
    }

    predicate Holds(s: Slab, obj: nat) {
      s.memory <= obj < s.memory + Span()
    }

    /** Walk a list to the first slab whose memory holds obj; `prev` is the slab before it. */
    method Locate(head: Slab?, ghost list: seq<Slab>, obj: nat) returns (prev: Slab?, slab: Slab?, ghost k: nat)
      requires IsList(head, list)
      ensures k <= |list| && slab == At(list, k) && prev == if k == 0 then null else list[k - 1]
      ensures forall i :: 0 <= i < k ==> !Holds(list[i], obj)
      ensures slab != null ==> Holds(slab, obj)
    {
      prev, slab, k := null, head, 0;
      while slab != null
        invariant k <= |list| && slab == At(list, k) && prev == if k == 0 then null else list[k - 1]
        invariant forall i :: 0 <= i < k ==> !Holds(list[i], obj)
        decreases |list| - k
      {
        assert Linked(list, k);
        if slab.memory <= obj && obj < slab.memory + objsPerSlab * objSize { return; }
        prev := slab;
        slab := slab.next;
        k := k + 1;
      }
    }

    /** The slab that holds a live object is its own, and the division finds its slot. */
    lemma OwnerFound(s: Slab, obj: nat)
      requires Objects() && obj in live && s in slabs && Holds(s, obj)
      ensures live[obj] == (s, (obj - s.memory) / objSize)
    {
      hide Address;
      OwnerHolds(obj);
      var (t, i) := live[obj];
      AddressSlot(t.memory, objSize, i);
      RegionsApart(s, t);
    }

    lemma RegionsApart(s: Slab, t: Slab)
      requires Objects() && s in slabs && t in slabs
      ensures s == t || Apart(s.memory, t.memory)
    {
    }

    lemma OwnerHolds(obj: nat)
      requires Objects() && obj in live
      ensures live[obj].0 in slabs && Holds(live[obj].0, obj)
    {
      hide Address;
      var (t, i) := live[obj];
      assert LiveAt(obj, t, i);
      AddressInside(t.memory, objSize, i, objsPerSlab);
    }

    /** The slot that a pointer into a slab belongs to; the pointer need not be the start of the object. */
    function SlotOf(s: Slab, obj: nat): nat
      requires objSize > 0
    {
      if obj < s.memory then 0 else (obj - s.memory) / objSize
    }

    /** That slot is in use. */
    ghost predicate InUse(s: Slab, obj: nat)
      requires objSize > 0
      reads s`bitmap
    {
      SlotOf(s, obj) < |s.bitmap| && s.bitmap[SlotOf(s, obj)]
    }

    /** The object that a pointer into a slab belongs to. */
    function ObjectOf(s: Slab, obj: nat): nat
      requires objSize > 0
    {
      Address(s.memory, objSize, SlotOf(s, obj))
    }

    lemma SlotInside(s: Slab, obj: nat)
      requires objSize > 0 && Holds(s, obj)
      ensures SlotOf(s, obj) < objsPerSlab
    {
      SlotBelow(obj - s.memory, objSize, objsPerSlab);
    }

    /** A slot in use holds a live object, which is registered as that slot's. */
    lemma LiveSlot(s: Slab, i: nat)
      requires Objects() && s in slabs && i < objsPerSlab && s.bitmap[i]
      ensures Address(s.memory, objSize, i) in live && live[Address(s.memory, objSize, i)] == (s, i)
    {
      hide Address;
      var a := Address(s.memory, objSize, i);
      AddressInside(s.memory, objSize, i, objsPerSlab);
      AddressSlot(s.memory, objSize, i);
      OwnerFound(s, a);
    }

    /** No other live object is registered for a slot, and no other slot has its address. */
    lemma OnlyObject(slab: Slab, slot: nat)
      requires Objects() && slab in slabs && slot < objsPerSlab && slab.bitmap[slot]
      ensures forall a :: a in live && a != Address(slab.memory, objSize, slot) ==> live[a] != (slab, slot)
      ensures forall s, i: nat :: s in slabs && i < objsPerSlab && s.bitmap[i] && (s != slab || i != slot) ==>
                Address(s.memory, objSize, i) != Address(slab.memory, objSize, slot)
    {
      hide Address;
      forall a | a in live && a != Address(slab.memory, objSize, slot) ensures live[a] != (slab, slot) {
        assert LiveAt(a, live[a].0, live[a].1);
      }
      forall s, i: nat | s in slabs && i < objsPerSlab && s.bitmap[i] && (s != slab || i != slot)
        ensures Address(s.memory, objSize, i) != Address(slab.memory, objSize, slot)
      {
        ObjectsApart(s, i, slab, slot);
      }
    }

    /** Clear the bit of a slot and count one more as free, whether the slot was in use or not. */
    method ClearSlot(slab: Slab, slot: nat)
      requires Objects() && slab in slabs && slot < objsPerSlab
      modifies this`live, slab`bitmap, slab`freeCount
      ensures Objects() && slab.freeCount == old(slab.freeCount) + 1 && slab.bitmap == old(slab.bitmap)[slot := false]
      ensures Surplus(slab) == old(Surplus(slab)) + if old(slab.bitmap[slot]) then 0 else 1
      ensures old(slab.bitmap[slot]) ==>
                Address(slab.memory, objSize, slot) in old(live) && live == old(live) - {Address(slab.memory, objSize, slot)}
      ensures !old(slab.bitmap[slot]) ==> live == old(live) && slab.bitmap == old(slab.bitmap)
    {
      hide Address, Zeros;
      ghost var obj := Address(slab.memory, objSize, slot);
      if slab.bitmap[slot] {
        LiveSlot(slab, slot);
        OnlyObject(slab, slot);
        live := live - {obj};
      }
      ZerosUpdate(slab.bitmap, slot, false, objsPerSlab);
      slab.bitmap := slab.bitmap[slot := false];
      slab.freeCount := slab.freeCount + 1;
    }

    /** Unlink full slab k, found behind `prev`. */
    method Unlink(prev: Slab?, slab: Slab, ghost k: nat)
      requires Lists() && k < |fullList| && slab == fullList[k] && prev == if k == 0 then null else fullList[k - 1]
      modifies this`fullHead, this`fullList, slabs`next
      ensures fullList == old(fullList)[..k] + old(fullList)[k + 1..] && slabs == old(slabs)
      ensures IsList(fullHead, fullList) && IsList(partialHead, partialList)
    {
      ghost var p, f := partialList, fullList;
      assert Linked(f, k) && f[k] in f;
      forall i | 0 <= i < |f| && i != k ensures f[i] != slab && f[i] in f {}
      forall i | 0 <= i < |p| ensures p[i] in p && p[i] != slab && p[i] != prev {}
      label before:
      if prev == null { fullHead := slab.next; } else { prev.next := slab.next; }
      fullList := f[..k] + f[k + 1..];
      forall i | 0 <= i < |fullList| ensures Linked(fullList, i) {
        assert old@before(Linked(f, if i < k then i else i + 1));
      }
      forall i | 0 <= i < |p| ensures Linked(p, i) { assert old@before(Linked(p, i)); }
    }

    /** Move full slab k, found behind `prev`, to the front of the partial list. */
    method MoveToPartial(prev: Slab?, slab: Slab, ghost k: nat)
      requires Lists() && k < |fullList| && slab == fullList[k] && prev == if k == 0 then null else fullList[k - 1]
      modifies this`partialHead, this`fullHead, this`partialList, this`fullList, slabs`next
      ensures Lists() && (old(Objects()) ==> Objects())
      ensures partialList == [slab] + old(partialList) && fullList == old(fullList)[..k] + old(fullList)[k + 1..]
    {
      hide Objects, Apart, IsList, Distinct, Disjoint;
      ghost var p, f := partialList, fullList;
      assert slab in slabs by { assert f[k] in f; }
      BackMoves(p, f, k);
      Unlink(prev, slab, k);
      slab.next := partialHead;
      partialHead := slab;
      partialList := [slab] + p;
      FrontIsList(slab, p);
      if old(Objects()) { ObjectsKept(); }
    }

    /** Free the object of full slab k that the pointer belongs to; the slab then has room. */
    method FreeFull(prev: Slab?, slab: Slab, ghost k: nat, obj: nat)
      requires Inv() && Holds(slab, obj)
      requires k < |fullList| && slab == fullList[k] && prev == if k == 0 then null else fullList[k - 1]
      modifies this, slabs
      ensures Inv() && slabs == old(slabs) && old(InUse(slab, obj))
      ensures forall s :: s in slabs ==> Surplus(s) == old(Surplus(s))
      ensures ObjectOf(slab, obj) in old(live) && live == old(live) - {ObjectOf(slab, obj)}
      ensures totalAllocated == old(totalAllocated) && totalFreed == old(totalFreed)
    {
      hide Lists, Objects, Zeros, Surplus;
      FullSlab(k);
      FullInUse(slab, obj);
      SlotInside(slab, obj);
      var slot := (obj - slab.memory) / objSize;
      ClearSlot(slab, slot);
      ListsKept();
      MoveToPartial(prev, slab, k);
      FullRest(old(fullList), k);
    }

    /** In a full slab every slot is in use. */
    lemma FullInUse(s: Slab, obj: nat)
      requires Objects() && s in slabs && s.freeCount == 0 && Holds(s, obj)
      ensures InUse(s, obj)
    {
      assert SlabOk(s);
      SlotInside(s, obj);
      NoZeros(s.bitmap, objsPerSlab);
    }

    lemma FullSlab(k: nat)
      requires Lists() && Objects() && k < |fullList|
      ensures fullList[k] in slabs && fullList[k] in fullList && objSize > 0 && fullList[k] !in partialList
      ensures Distinct(fullList)
    {
    }

    lemma FullRest(f: seq<Slab>, k: nat)
      requires k < |f| && Distinct(f)
      ensures forall s :: s in f[..k] + f[k + 1..] ==> s in f && s != f[k]
    {
      RemovedFrom(f, k);
    }

    /** Free a slot of a slab that has room already.  If the slot was not in use, free_count is one too high. */
    method FreePartial(slab: Slab, obj: nat)
      requires Inv() && Holds(slab, obj) && slab in partialList
      modifies this, slabs
      ensures Inv() && slabs == old(slabs) && totalAllocated == old(totalAllocated) && totalFreed == old(totalFreed)
      ensures Surplus(slab) == old(Surplus(slab)) + if old(InUse(slab, obj)) then 0 else 1
      ensures forall s :: s in slabs && s != slab ==> Surplus(s) == old(Surplus(s))
      ensures old(InUse(slab, obj)) ==> ObjectOf(slab, obj) in old(live) && live == old(live) - {ObjectOf(slab, obj)}
      ensures !old(InUse(slab, obj)) ==> live == old(live) && slab.bitmap == old(slab.bitmap)
    {
      hide Lists, Objects, Zeros, Surplus;
      PartialSlab(slab);
      SlotInside(slab, obj);
      var slot := (obj - slab.memory) / objSize;
      ClearSlot(slab, slot);
      ListsKept();
    }

    lemma PartialSlab(s: Slab)
      requires Lists() && Objects() && s in partialList
      ensures s in slabs && objSize > 0 && s !in fullList && SlabOk(s)
    {
    }

    /** slab_cache_free, for any pointer; 0 is NULL.  A pointer into a slot in use, be it to the middle, frees that
        slot's object; a pointer into a free slot raises that slab's surplus; NULL and pointers into no slab free nothing. */
    method Free(obj: nat)
      requires Inv()
      modifies this, slabs
      ensures Inv() && slabs == old(slabs) && totalAllocated == old(totalAllocated)
      ensures totalFreed == old(totalFreed) + if obj == 0 then 0 else 1
      ensures old(Unknown(obj)) ==> live == old(live)
      ensures forall s :: s in slabs && Holds(s, obj) && old(InUse(s, obj)) ==>
                ObjectOf(s, obj) in old(live) && live == old(live) - {ObjectOf(s, obj)}
      ensures forall s :: s in slabs && Holds(s, obj) && !old(InUse(s, obj)) ==> live == old(live) && s.bitmap == old(s.bitmap)
      ensures forall s :: s in slabs ==> Surplus(s) == old(Surplus(s)) + if Holds(s, obj) && !old(InUse(s, obj)) then 1 else 0
      ensures old(Counted()) ==> (Counted() <==> obj == 0 || old(PointsIntoUse(obj)))
      ensures obj in old(live) ==> live == old(live) - {obj} && (old(Exact()) ==> Exact())
    {
      hide Lists, Objects, Zeros, Surplus, InUse, Holds, ObjectOf;
      OwnObject(obj);
      if obj == 0 { ZeroUnknown(); return; }
      CountFreed();
      Release(obj);
    }

    method CountFreed()
      requires Inv()
      modifies this`totalFreed
      ensures Inv() && totalFreed == old(totalFreed) + 1
    {
      hide Lists, Objects;
      totalFreed := totalFreed + 1;
      ListsKept();
      ObjectsKept();
    }

    /** The search of slab_cache_free in the two lists, and what it does to the slab it finds. */
    method Release(obj: nat)
      requires Inv()
      modifies this, slabs
      ensures Inv() && slabs == old(slabs) && totalAllocated == old(totalAllocated) && totalFreed == old(totalFreed)
      ensures !old(PointsIntoUse(obj)) ==> live == old(live)
      ensures old(Unknown(obj)) ==> live == old(live) && !old(PointsIntoUse(obj))
      ensures forall s :: s in slabs && Holds(s, obj) && old(InUse(s, obj)) ==>
                ObjectOf(s, obj) in old(live) && live == old(live) - {ObjectOf(s, obj)}
      ensures forall s :: s in slabs && Holds(s, obj) && !old(InUse(s, obj)) ==> live == old(live) && s.bitmap == old(s.bitmap)
      ensures forall s :: s in slabs ==> Surplus(s) == old(Surplus(s)) + if Holds(s, obj) && !old(InUse(s, obj)) then 1 else 0
    {
      hide Lists, Objects, Zeros, Surplus, InUse, ObjectOf;
      HeadsAreLists();
      var prev, slab, k := Locate(fullHead, fullList, obj);
      if slab != null {
        FullSlab(k);
        OnlyHolder(slab, obj);
        FreeFull(prev, slab, k, obj);
        return;
      }
      prev, slab, k := Locate(partialHead, partialList, obj);
      if slab != null {
        PartialSlab(slab);
        OnlyHolder(slab, obj);
        FreePartial(slab, obj);
        return;
      }
      NotHeld(obj);
    }

    /** The pointer belongs to a slot in use. */
    ghost predicate PointsIntoUse(obj: nat)
      reads this`slabs, slabs`bitmap
    {
      objSize > 0 && exists s :: s in slabs && Holds(s, obj) && InUse(s, obj)
    }

    /** A pointer belongs to at most one slab. */
    lemma OnlyHolder(s: Slab, obj: nat)
      requires Objects() && s in slabs && Holds(s, obj)
      ensures forall t :: t in slabs && Holds(t, obj) ==> t == s
    {
      forall t | t in slabs && Holds(t, obj) ensures t == s { RegionsApart(s, t); }
    }

    /** A live object is the object of its slot. */
    lemma OwnObject(obj: nat)
      requires Objects()
      ensures objSize > 0
      ensures obj in live ==> exists s :: s in slabs && Holds(s, obj) && InUse(s, obj) && ObjectOf(s, obj) == obj
    {
      hide Address;
      if obj in live {
        OwnerHolds(obj);
        var (s, i) := live[obj];
        assert LiveAt(obj, s, i);
        AddressSlot(s.memory, objSize, i);
        assert SlotOf(s, obj) == i;
      }
    }

    lemma ZeroUnknown()
      requires Objects()
      ensures Unknown(0) && 0 !in live
    {
      forall s | s in slabs ensures !Holds(s, 0) { assert SlabOk(s); }
      if 0 in live { OwnerHolds(0); }
    }

    /** Freeing an object twice: the second time the statistics and the slab's free_count go wrong. */
    method DoubleFree(obj: nat)
      requires Inv() && Counted() && obj in live
      modifies this, slabs
      ensures Inv() && !Counted() && obj !in live && slabs == old(slabs)
      ensures forall s :: s in slabs ==> Surplus(s) == old(Surplus(s)) + if Holds(s, obj) then 1 else 0
      ensures exists s :: s in slabs && Holds(s, obj)
    {
      hide Lists, Objects, Surplus;
      OwnObject(obj);
      ghost var s :| s in slabs && Holds(s, obj) && InUse(s, obj) && ObjectOf(s, obj) == obj;
      OnlyHolder(s, obj);
      Free(obj);
      FreedSlot(s, obj);
      OnlyHolder(s, obj);
      Free(obj);
    }

    /** With some free_count too high, as many more calls succeed as Supply says, and the next one fails its assertion;
        malloc is never asked. */
    method AllocUntilAssertion() returns (given: nat)
      requires Inv() && exists s :: s in slabs && Surplus(s) > 0
      modifies this, slabs
      ensures Inv() && given == old(Supply(partialList))
      ensures partialList != [] && NoSlotLeft(partialList[0])
    {
      hide Objects, Surplus, Supply;
      ghost var s :| s in slabs && Surplus(s) > 0;
      given := 0;
      while true
        invariant Inv() && slabs == old(slabs) && Surplus(s) > 0
        invariant given + Supply(partialList) == old(Supply(partialList))
        decreases Supply(partialList)
      {
        StaysPartial(s);
        SupplyGone();
        var answer := Alloc(None);
        if answer == AssertionFails { return; }
        given := given + 1;
      }
    }

    /** A slab whose free_count is too high never becomes full. */
    lemma StaysPartial(s: Slab)
      requires Inv() && s in slabs && Surplus(s) > 0
      ensures s in partialList && s !in fullList
    {
      assert SlabOk(s);
      assert s in partialList || s in fullList;
    }

    /** The assertion fails exactly when the supply has run out. */
    lemma SupplyGone()
      requires Inv() && partialList != []
      ensures NoSlotLeft(partialList[0]) <==> Supply(partialList) == 0
    {
      assert partialList[0] in partialList && SlabOk(partialList[0]);
    }

    lemma FreedSlot(s: Slab, obj: nat)
      requires Objects() && s in slabs && Holds(s, obj) && ObjectOf(s, obj) == obj && obj !in live
      ensures !PointsIntoUse(obj) && !InUse(s, obj)
    {
      hide Address;
      OnlyHolder(s, obj);
      SlotInside(s, obj);
      if InUse(s, obj) { LiveSlot(s, SlotOf(s, obj)); }
    }

    ghost predicate Unknown(obj: nat)
      reads this`slabs
    {
      forall s :: s in slabs ==> !Holds(s, obj)
    }

    lemma HeadsAreLists()
      requires Lists()
      ensures IsList(partialHead, partialList) && IsList(fullHead, fullList)
    {
    }

    lemma NotHeld(obj: nat)
      requires Lists() && (forall s :: s in partialList + fullList ==> !Holds(s, obj))
      ensures Unknown(obj)
    {
    }
  }

  // ----- Sizes

  ghost predicate PowerOfTwo(n: nat) {
    n == 1 || (n > 1 && n % 2 == 0 && PowerOfTwo(n / 2))
  }

  /** m is the least multiple of a that is not below size. */
  predicate LeastMultiple(m: nat, size: nat, a: nat) {
    a > 0 && m % a == 0 && size <= m < size + a
  }

  /** The least multiple of a that is not below size, but never less than a pointer. */
  ghost predicate Rounded(objSize: nat, size: nat, a: nat) {
    exists m: nat :: LeastMultiple(m, size, a) && objSize == if m < POINTER_SIZE then POINTER_SIZE else m
  }

  /** The object size, rounded up, and the number of objects in a slab. */
  method Layout(size: nat, align: nat) returns (objSize: nat, n: nat)
    requires align == 0 || PowerOfTwo(align)
    ensures objSize >= size && objSize >= POINTER_SIZE
    ensures size > 0 ==> objSize % (if align == 0 then POINTER_SIZE else align) == 0
    ensures Rounded(objSize, size, if align == 0 then POINTER_SIZE else align)
    ensures 1 <= n <= BITS && (n > 1 ==> n * objSize <= PAGE_SIZE)
    ensures n < BITS ==> n * objSize + objSize > PAGE_SIZE
  {
    hide PowerOfTwo, RoundUp;
    var alignment := if align == 0 then POINTER_SIZE else align;
    assert PowerOfTwo(alignment) && alignment > 0 by { PowersArePositive(alignment, align); }
    objSize := RoundUp(size, alignment);
    RoundUpIs(size, alignment);
    assert LeastMultiple(objSize, size, alignment);
    if objSize < POINTER_SIZE {
      SmallPower(alignment, size);
      objSize := POINTER_SIZE;
    }
    n := PAGE_SIZE / objSize;
    if n > BITS { n := BITS; }
    if n < 1 { n := 1; }
    CapacityFits(objSize, n);
  }

  lemma PowersArePositive(alignment: nat, align: nat)
    requires align == 0 || PowerOfTwo(align)
    requires alignment == if align == 0 then POINTER_SIZE else align
    ensures PowerOfTwo(alignment) && alignment > 0
  {
    assert PowerOfTwo(4) by { assert PowerOfTwo(2); }
  }

  /** Adding alignment - 1 and clearing the low bits rounds up to a multiple of a power of two. */
  function RoundUp(size: nat, alignment: nat): nat
    requires alignment > 0
  {
    (size + alignment - 1) / alignment * alignment
  }

  lemma RoundUpIs(size: nat, alignment: nat)
    requires alignment > 0
    ensures size <= RoundUp(size, alignment) < size + alignment && RoundUp(size, alignment) % alignment == 0
  {
    var q := (size + alignment - 1) / alignment;
    MultipleOf(q, alignment);
  }

  lemma MultipleOf(q: nat, a: nat)
    requires a > 0
    ensures (q * a) % a == 0
  {
    var x := q * a;
    assert x - (x / a) * a == (q - x / a) * a;
    AtLeast(q - x / a, a);
  }

  lemma SmallPower(alignment: nat, size: nat)
    requires PowerOfTwo(alignment) && RoundUp(size, alignment) < POINTER_SIZE
    ensures size > 0 ==> POINTER_SIZE % alignment == 0
  {
    if size > 0 {
      RoundUpIs(size, alignment);
      SmallMultiple(RoundUp(size, alignment), alignment);
    }
  }

  lemma SmallMultiple(x: nat, a: nat)
    requires a > 0 && x > 0 && x % a == 0
    ensures x >= a
  {
  }

  /** Between 1 and 64 objects, as many as fit a page. */
  lemma CapacityFits(size: nat, n: nat)
    requires size > 0 && n == (if PAGE_SIZE / size > BITS then BITS else if PAGE_SIZE / size < 1 then 1 else PAGE_SIZE / size)
    ensures n > 1 ==> n * size <= PAGE_SIZE
    ensures n < BITS ==> n * size + size > PAGE_SIZE
  {
    var q := PAGE_SIZE / size;
    assert q * size <= PAGE_SIZE < q * size + size;
    assert (q - n) * size == q * size - n * size;
    AtLeast(q - n, size);
  }

  /** Element k of f moves to the front of p. */
  lemma BackMoves(p: seq<Slab>, f: seq<Slab>, k: nat)
    requires k < |f| && Distinct(p) && Distinct(f) && Disjoint(p, f)
    ensures var g := f[..k] + f[k + 1..];
      && Distinct(g) && Distinct([f[k]] + p) && Disjoint([f[k]] + p, g) && f[k] !in g && f[k] !in p
      && forall x :: x in p || x in f <==> x in [f[k]] + p || x in g
  {
    RemovedFrom(f, k);
    assert f[k] in f;
  }

  lemma RemovedFrom(f: seq<Slab>, k: nat)
    requires k < |f| && Distinct(f)
    ensures Distinct(f[..k] + f[k + 1..])
    ensures forall s :: s in f <==> s in f[..k] + f[k + 1..] || s == f[k]
    ensures f[k] !in f[..k] + f[k + 1..]
  {
    assert f == f[..k] + [f[k]] + f[k + 1..];
  }
}
