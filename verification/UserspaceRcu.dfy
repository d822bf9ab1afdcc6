/** The RCU-protected list of userspace_rcu.c as a step machine.

    Any number of threads, which may register at any time, run `rcu_list_find`, `rcu_list_insert`
    and `rcu_list_delete`; one step is one access to shared memory.  Freed addresses may be
    allocated and inserted again.  One thread at a time is inside `rcu_list_delete`, which reads the
    head node outside any read section. */
module UserspaceRcu {
  /** An address; 0 is NULL. */
  type Addr = nat

  /** An allocated node is private to the thread preparing it, in the list, or unlinked by the
      deleter and waiting for the grace period. */
  datatype Owner = Private(t: nat) | Listed | Unlinked

  datatype Cell = Cell(key: int, value: int, next: Addr, owner: Owner)

  datatype Pc =
    | Idle
    | FindLock(key: int)
    | FindHead(key: int)
    | FindKey(key: int, p: Addr)
    | FindValue(key: int, p: Addr)
    | FindNext(key: int, p: Addr)
    | FindUnlock(key: int, result: int)
    | InsertLoad(node: Addr, key: int, value: int)
    | InsertLink(node: Addr, key: int, value: int, seen: Addr)
    | InsertCas(node: Addr, key: int, value: int, seen: Addr)
    | DeleteHead(key: int)
    | DeleteKey(key: int, p: Addr)
    | DeleteNext(key: int, p: Addr)
    | DeleteCas(key: int, p: Addr, next: Addr)
    | SyncBegin(key: int, p: Addr)
    | SyncScan(key: int, p: Addr, n: nat, i: nat)
    | DeleteReturn(key: int, result: int)

  /** A registered thread and its reader count. */
  datatype Thread = Thread(pc: Pc, count: int)

  /** Allocated memory is the domain of `heap`. */
  datatype State = State(head: Addr, heap: map<Addr, Cell>, threads: seq<Thread>)

  datatype Choice =
    | Register
    | CallFind(key: int)
    | CallInsert(a: Addr, key: int, value: int, junk: Addr)
    | CallDelete(key: int)
    | Go(spurious: bool)

  const START := State(0, map[], [])

  // ----- Memory accesses, total so that a bad one would show up in the theorems

  function KeyOf(s: State, a: Addr): int { if a in s.heap then s.heap[a].key else 0 }

  function ValueOf(s: State, a: Addr): int { if a in s.heap then s.heap[a].value else 0 }

  function NextOf(s: State, a: Addr): Addr { if a in s.heap then s.heap[a].next else 0 }

  function SetOwner(heap: map<Addr, Cell>, a: Addr, o: Owner): map<Addr, Cell> {
    if a in heap then heap[a := heap[a].(owner := o)] else heap
  }

  function SetNext(heap: map<Addr, Cell>, a: Addr, x: Addr): map<Addr, Cell> {
    if a in heap then heap[a := heap[a].(next := x)] else heap
  }

  function Goto(s: State, t: nat, pc: Pc): State
    requires t < |s.threads|
  {
    s.(threads := s.threads[t := s.threads[t].(pc := pc)])
  }

  // ----- One step

  predicate Deleting(pc: Pc) {
    pc.DeleteHead? || pc.DeleteKey? || pc.DeleteNext? || pc.DeleteCas? || pc.SyncBegin? || pc.SyncScan?
  }

  predicate Finding(pc: Pc) {
    pc.FindLock? || pc.FindHead? || pc.FindKey? || pc.FindValue? || pc.FindNext? || pc.FindUnlock?
  }

  function StepIdle(s: State, t: nat, c: Choice): State
    requires t < |s.threads|
  {
    match c
    case CallFind(key) => Goto(s, t, FindLock(key))
    case CallInsert(a, key, value, junk) =>
      if a != 0 && a !in s.heap then Goto(s.(heap := s.heap[a := Cell(key, value, junk, Private(t))]), t, InsertLoad(a, key, value))
      else s
    case CallDelete(key) =>
      if forall v | 0 <= v < |s.threads| :: !Deleting(s.threads[v].pc) then Goto(s, t, DeleteHead(key)) else s
    case _ => s
  }

  function StepFind(s: State, t: nat): State
    requires t < |s.threads|
  {
    var th := s.threads[t];
    match th.pc
    case FindLock(key) => s.(threads := s.threads[t := Thread(FindHead(key), th.count + 1)])
    case FindHead(key) => Goto(s, t, FindKey(key, s.head))
    case FindKey(key, p) =>
      Goto(s, t, if p == 0 then FindUnlock(key, -1) else if KeyOf(s, p) == key then FindValue(key, p) else FindNext(key, p))
    case FindValue(key, p) => Goto(s, t, FindUnlock(key, ValueOf(s, p)))
    case FindNext(key, p) => Goto(s, t, FindKey(key, NextOf(s, p)))
    case FindUnlock(_, _) => s.(threads := s.threads[t := Thread(Idle, th.count - 1)])
    case _ => s
  }

  function StepInsert(s: State, t: nat, spurious: bool): State
    requires t < |s.threads|
  {
    match s.threads[t].pc
    case InsertLoad(node, key, value) => Goto(s, t, InsertLink(node, key, value, s.head))
    case InsertLink(node, key, value, seen) =>
      Goto(s.(heap := SetNext(s.heap, node, seen)), t, InsertCas(node, key, value, seen))
    case InsertCas(node, key, value, seen) =>
      if s.head == seen && !spurious then
        Goto(s.(head := node, heap := SetOwner(s.heap, node, Listed)), t, Idle)
      else Goto(s, t, InsertLoad(node, key, value))
    case _ => s
  }

  /** `rcu_list_delete`; the compare-and-swap is the strong one, and `urcu_synchronize` reads the
      thread count once and then starts over whenever it meets a positive reader count. */
  function StepDelete(s: State, t: nat): State
    requires t < |s.threads|
  {
    match s.threads[t].pc
    case DeleteHead(key) => Goto(s, t, if s.head == 0 then DeleteReturn(key, 0) else DeleteKey(key, s.head))
    case DeleteKey(key, p) => Goto(s, t, if KeyOf(s, p) != key then DeleteReturn(key, 0) else DeleteNext(key, p))
    case DeleteNext(key, p) => Goto(s, t, DeleteCas(key, p, NextOf(s, p)))
    case DeleteCas(key, p, next) =>
      if s.head == p then Goto(s.(head := next, heap := SetOwner(s.heap, p, Unlinked)), t, SyncBegin(key, p))
      else Goto(s, t, DeleteReturn(key, 0))
    case SyncBegin(key, p) => Goto(s, t, SyncScan(key, p, |s.threads|, 0))
    case SyncScan(key, p, n, i) =>
      if i < n && i < |s.threads| then Goto(s, t, SyncScan(key, p, n, if s.threads[i].count > 0 then 0 else i + 1))
      else Goto(s.(heap := s.heap - {p}), t, DeleteReturn(key, 1))
    case DeleteReturn(_, _) => Goto(s, t, Idle)
    case _ => s
  }

  function Step(s: State, t: nat, c: Choice): State {
    if t >= |s.threads| then if c.Register? then s.(threads := s.threads + [Thread(Idle, 0)]) else s
    else
      var pc := s.threads[t].pc;
      if pc.Idle? then StepIdle(s, t, c)
      else if !c.Go? then s
      else if Finding(pc) then StepFind(s, t)
      else if Deleting(pc) || pc.DeleteReturn? then StepDelete(s, t)
      else StepInsert(s, t, c.spurious)
  }

  type Schedule = seq<(nat, Choice)>

  function Run(sched: Schedule): State {
    if sched == [] then START
    else var last := sched[|sched| - 1]; Step(Run(sched[..|sched| - 1]), last.0, last.1)
  }

  // ----- The invariant

  function At(a: seq<Addr>, i: int): Addr {
    if 0 <= i < |a| then a[i] else 0
  }

  predicate Pos(list: seq<Addr>, a: Addr, i: int) {
    0 <= i < |list| && list[i] == a
  }

  /** The nodes from head on are `list`; all of them, and no others, are marked as listed. */
  ghost predicate Chain(s: State, list: seq<Addr>) {
    && 0 !in s.heap
    && (if list == [] then s.head == 0 else Pos(list, s.head, 0))
    && (forall i, j :: 0 <= i < j < |list| ==> list[i] != list[j])
    && (forall a, i {:trigger Pos(list, a, i)} :: Pos(list, a, i) ==>
          a in s.heap && s.heap[a].owner == Listed && s.heap[a].next == At(list, i + 1))
    && (forall a :: a in s.heap && s.heap[a].owner == Listed ==> exists i :: Pos(list, a, i))
  }

  predicate InSection(pc: Pc) {
    Finding(pc) && !pc.FindLock?
  }

  predicate Holds(pc: Pc, a: Addr) {
    match pc
    case FindKey(_, p) => p == a
    case FindValue(_, p) => p == a
    case FindNext(_, p) => p == a
    case _ => false
  }

  predicate Usable(s: State, a: Addr) {
    a in s.heap && !s.heap[a].owner.Private?
  }

  ghost predicate ReaderOk(s: State, pc: Pc) {
    match pc
    case FindKey(_, p) => p == 0 || Usable(s, p)
    case FindValue(_, p) => Usable(s, p)
    case FindNext(_, p) => Usable(s, p)
    case _ => true
  }

  predicate InList(s: State, a: Addr) {
    a in s.heap && s.heap[a].owner == Listed
  }

  /** The node that thread t prepares holds what the call asked for. */
  predicate Prepared(s: State, t: nat, node: Addr, key: int, value: int) {
    node in s.heap && s.heap[node].owner == Private(t) && s.heap[node].key == key && s.heap[node].value == value
  }

  /** While a node waits for the grace period, whoever still holds it is ahead of the scan. */
  ghost predicate WriterOk(s: State, t: nat)
    requires t < |s.threads|
  {
    match s.threads[t].pc
    case InsertLoad(node, key, value) => Prepared(s, t, node, key, value)
    case InsertLink(node, key, value, _) => Prepared(s, t, node, key, value)
    case InsertCas(node, key, value, seen) => Prepared(s, t, node, key, value) && s.heap[node].next == seen
    case DeleteKey(_, p) => InList(s, p)
    case DeleteNext(key, p) => InList(s, p) && s.heap[p].key == key
    case DeleteCas(key, p, next) => InList(s, p) && s.heap[p].key == key && s.heap[p].next == next
    case SyncBegin(_, p) => p in s.heap && s.heap[p].owner == Unlinked
    case SyncScan(_, p, n, i) =>
      && p in s.heap && s.heap[p].owner == Unlinked && n <= |s.threads|
      && forall v :: 0 <= v < |s.threads| && Holds(s.threads[v].pc, p) ==> i <= v < n
    case _ => true
  }

  ghost predicate ThreadOk(s: State, t: nat)
    requires t < |s.threads|
  {
    && s.threads[t].count == (if InSection(s.threads[t].pc) then 1 else 0)
    && ReaderOk(s, s.threads[t].pc) && WriterOk(s, t)
  }

  /** An unlinked node belongs to the running deletion and leads back into the list. */
  ghost predicate UnlinkedOk(s: State) {
    && (forall a :: a in s.heap && s.heap[a].owner == Unlinked ==> s.heap[a].next == 0 || InList(s, s.heap[a].next))
    && (forall a :: a in s.heap && s.heap[a].owner == Unlinked ==>
          exists t :: 0 <= t < |s.threads| && Reclaims(s.threads[t].pc, a))
    && (forall a :: a in s.heap && s.heap[a].owner.Private? ==> s.heap[a].owner.t < |s.threads|)
  }

  predicate Reclaims(pc: Pc, a: Addr) {
    (pc.SyncBegin? || pc.SyncScan?) && pc.p == a
  }

  ghost predicate OneDeleter(s: State) {
    forall u, v :: 0 <= u < v < |s.threads| ==> !(Deleting(s.threads[u].pc) && Deleting(s.threads[v].pc))
  }

  ghost predicate Inv(s: State, list: seq<Addr>) {
    && Chain(s, list) && UnlinkedOk(s) && OneDeleter(s)
    && (forall t :: 0 <= t < |s.threads| ==> ThreadOk(s, t))
  }

  /** What a step does to the list: a successful insertion puts its node in front, a successful deletion takes the
      first node out, and nothing else changes it. */
  function ListAfter(s: State, t: nat, c: Choice, list: seq<Addr>): seq<Addr> {
    if t >= |s.threads| || !c.Go? then list
    else match s.threads[t].pc
      case InsertCas(node, _, _, seen) => if s.head == seen && !c.spurious then [node] + list else list
      case DeleteCas(_, p, _) => if s.head == p && list != [] then list[1..] else list
      case _ => list
  }

  // ----- Preservation

  /** What a step of thread t leaves to the others: their private nodes, and every node that is
      listed or unlinked unless t frees it; no other thread is handed an unlinked node. */
  ghost predicate Quiet(s: State, s': State, t: nat)
    requires t < |s.threads|
  {
    && |s'.threads| == |s.threads|
    && (forall v :: 0 <= v < |s.threads| && v != t ==> s'.threads[v] == s.threads[v])
    && (forall a :: a in s.heap && s.heap[a].owner.Private? && s.heap[a].owner.t != t ==>
          a in s'.heap && s'.heap[a] == s.heap[a])
    && (forall v, a :: 0 <= v < |s.threads| && v != t && Holds(s.threads[v].pc, a) && Usable(s, a) ==> Usable(s', a))
    && (!Deleting(s.threads[t].pc) ==>
          forall a :: Usable(s, a) ==> a in s'.heap && s'.heap[a] == s.heap[a])
    && (forall a :: Holds(s'.threads[t].pc, a) && !Holds(s.threads[t].pc, a) && a in s.heap ==> s.heap[a].owner != Unlinked)
  }

  lemma InvAt(s: State, list: seq<Addr>, t: nat)
    requires Inv(s, list) && t < |s.threads|
    ensures ThreadOk(s, t) && Chain(s, list) && UnlinkedOk(s) && OneDeleter(s)
  {
  }

  lemma OthersKeep(s: State, s': State, t: nat, v: nat)
    requires t < |s.threads| && v < |s.threads| && v != t && ThreadOk(s, v)
    requires Quiet(s, s', t) && OneDeleter(s)
    ensures ThreadOk(s', v)
  {
    match s.threads[v].pc
    case SyncScan(_, p, n, i) =>
      forall w | 0 <= w < |s'.threads| && Holds(s'.threads[w].pc, p) ensures i <= w < n {
        assert Holds(s.threads[w].pc, p);
      }
    case FindKey(_, p) => assert Holds(s.threads[v].pc, p);
    case FindValue(_, p) => assert Holds(s.threads[v].pc, p);
    case FindNext(_, p) => assert Holds(s.threads[v].pc, p);
    case _ =>
  }

  lemma Compose(s: State, s': State, t: nat, list: seq<Addr>, list': seq<Addr>)
    requires Inv(s, list) && t < |s.threads| && Quiet(s, s', t)
    requires ThreadOk(s', t) && Chain(s', list') && UnlinkedOk(s')
    requires Deleting(s'.threads[t].pc) ==>
               Deleting(s.threads[t].pc) || forall v :: 0 <= v < |s.threads| ==> !Deleting(s.threads[v].pc)
    ensures Inv(s', list')
  {
    forall v | 0 <= v < |s'.threads| ensures ThreadOk(s', v) {
      if v != t { assert ThreadOk(s, v); OthersKeep(s, s', t, v); }
    }
  }

  /** A step that only moves thread t. */
  lemma MoveInv(s: State, t: nat, th: Thread, list: seq<Addr>)
    requires Inv(s, list) && t < |s.threads|
    requires ThreadOk(s.(threads := s.threads[t := th]), t)
    requires forall a :: Holds(th.pc, a) && !Holds(s.threads[t].pc, a) && a in s.heap ==> s.heap[a].owner != Unlinked
    requires forall a :: Reclaims(s.threads[t].pc, a) ==> Reclaims(th.pc, a)
    requires Deleting(th.pc) ==>
               Deleting(s.threads[t].pc) || forall v :: 0 <= v < |s.threads| ==> !Deleting(s.threads[v].pc)
    ensures Inv(s.(threads := s.threads[t := th]), list)
  {
    var s' := s.(threads := s.threads[t := th]);
    forall a | a in s'.heap && s'.heap[a].owner == Unlinked
      ensures exists v :: 0 <= v < |s'.threads| && Reclaims(s'.threads[v].pc, a)
    {
      var v :| 0 <= v < |s.threads| && Reclaims(s.threads[v].pc, a);
      assert Reclaims(s'.threads[v].pc, a);
    }
    Compose(s, s', t, list, list);
  }

  lemma StepFindInv(s: State, t: nat, list: seq<Addr>)
    requires Inv(s, list) && t < |s.threads| && Finding(s.threads[t].pc)
    ensures Inv(StepFind(s, t), list)
  {
    assert ThreadOk(s, t);
    var s' := StepFind(s, t);
    if s.threads[t].pc.FindNext? { NextUsable(s, s.threads[t].pc.p, list); }
    MoveInv(s, t, s'.threads[t], list);
  }

  /** Following `next` from a node a reader may use leads to the end or into the list. */
  lemma NextUsable(s: State, p: Addr, list: seq<Addr>)
    requires Chain(s, list) && UnlinkedOk(s) && Usable(s, p)
    ensures s.heap[p].next == 0 || InList(s, s.heap[p].next)
  {
    if s.heap[p].owner == Listed {
      var i :| Pos(list, p, i);
      if i + 1 < |list| { assert Pos(list, list[i + 1], i + 1); }
    }
  }

  lemma InsertStartInv(s: State, t: nat, c: Choice, list: seq<Addr>)
    requires Inv(s, list) && t < |s.threads| && s.threads[t].pc.Idle?
    requires c.CallInsert? && c.a != 0 && c.a !in s.heap
    ensures Inv(StepIdle(s, t, c), list)
  {
    var s' := StepIdle(s, t, c);
    InvAt(s, list, t);
    InsertStartQuiet(s, t, c, list);
    hide *;
    Compose(s, s', t, list, list);
  }

  lemma InsertStartQuiet(s: State, t: nat, c: Choice, list: seq<Addr>)
    requires t < |s.threads| && s.threads[t].pc.Idle? && ThreadOk(s, t) && Chain(s, list) && UnlinkedOk(s)
    requires c.CallInsert? && c.a != 0 && c.a !in s.heap
    ensures var s' := StepIdle(s, t, c);
      Quiet(s, s', t) && ThreadOk(s', t) && Chain(s', list) && UnlinkedOk(s') && !Deleting(s'.threads[t].pc)
  {
    InsertStartChain(s, t, c, list);
    InsertStartOthers(s, t, c);
    hide Chain, UnlinkedOk, Quiet, ReaderOk;
    SameUnlinked(s, StepIdle(s, t, c), t);
  }

  lemma InsertStartOthers(s: State, t: nat, c: Choice)
    requires t < |s.threads| && s.threads[t].pc.Idle? && ThreadOk(s, t) && c.CallInsert? && c.a != 0 && c.a !in s.heap
    ensures Quiet(s, StepIdle(s, t, c), t) && ThreadOk(StepIdle(s, t, c), t)
  {
  }

  lemma InsertStartChain(s: State, t: nat, c: Choice, list: seq<Addr>)
    requires t < |s.threads| && s.threads[t].pc.Idle? && Chain(s, list) && c.CallInsert? && c.a != 0 && c.a !in s.heap
    ensures Chain(StepIdle(s, t, c), list)
  {
  }

  /** The unlinked nodes are fine as long as they, and the list, are still the same. */
  lemma SameUnlinked(s: State, s': State, t: nat)
    requires UnlinkedOk(s) && t < |s.threads| == |s'.threads|
    requires forall v :: 0 <= v < |s.threads| && v != t ==> s'.threads[v] == s.threads[v]
    requires forall a :: Reclaims(s.threads[t].pc, a) ==> Reclaims(s'.threads[t].pc, a)
    requires forall a :: a in s'.heap && s'.heap[a].owner == Unlinked ==> a in s.heap && s'.heap[a] == s.heap[a]
    requires forall a :: InList(s, a) ==> InList(s', a)
    requires forall a :: a in s'.heap && s'.heap[a].owner.Private? ==>
               s'.heap[a].owner.t == t || (a in s.heap && s'.heap[a].owner == s.heap[a].owner)
    ensures UnlinkedOk(s')
  {
    forall a | a in s'.heap && s'.heap[a].owner == Unlinked
      ensures exists v :: 0 <= v < |s'.threads| && Reclaims(s'.threads[v].pc, a)
    {
      var v :| 0 <= v < |s.threads| && Reclaims(s.threads[v].pc, a);
      assert Reclaims(s'.threads[v].pc, a);
    }
  }

  lemma StepIdleInv(s: State, t: nat, c: Choice, list: seq<Addr>)
    requires Inv(s, list) && t < |s.threads| && s.threads[t].pc.Idle?
    ensures Inv(StepIdle(s, t, c), list)
  {
    assert ThreadOk(s, t);
    var s' := StepIdle(s, t, c);
    if c.CallInsert? {
      if c.a != 0 && c.a !in s.heap { InsertStartInv(s, t, c, list); }
    } else if s' != s {
      MoveInv(s, t, s'.threads[t], list);
    }
  }

  lemma InsertLinkInv(s: State, t: nat, list: seq<Addr>)
    requires Inv(s, list) && t < |s.threads| && s.threads[t].pc.InsertLink?
    ensures Inv(StepInsert(s, t, false), list)
  {
    var s' := StepInsert(s, t, false);
    InvAt(s, list, t);
    InsertLinkQuiet(s, t, list);
    hide *;
    Compose(s, s', t, list, list);
  }

  lemma InsertLinkQuiet(s: State, t: nat, list: seq<Addr>)
    requires t < |s.threads| && s.threads[t].pc.InsertLink? && ThreadOk(s, t) && Chain(s, list) && UnlinkedOk(s)
    ensures var s' := StepInsert(s, t, false);
      Quiet(s, s', t) && ThreadOk(s', t) && Chain(s', list) && UnlinkedOk(s') && !Deleting(s'.threads[t].pc)
  {
    InsertLinkChain(s, t, list);
    InsertLinkOthers(s, t);
    InsertLinkOwn(s, t);
    hide Chain, UnlinkedOk, Quiet, ReaderOk;
    SameUnlinked(s, StepInsert(s, t, false), t);
  }

  lemma InsertLinkOthers(s: State, t: nat)
    requires t < |s.threads| && s.threads[t].pc.InsertLink? && ThreadOk(s, t)
    ensures Quiet(s, StepInsert(s, t, false), t)
  {
  }

  lemma InsertLinkOwn(s: State, t: nat)
    requires t < |s.threads| && s.threads[t].pc.InsertLink? && ThreadOk(s, t)
    ensures ThreadOk(StepInsert(s, t, false), t)
  {
  }

  lemma InsertLinkChain(s: State, t: nat, list: seq<Addr>)
    requires t < |s.threads| && s.threads[t].pc.InsertLink? && ThreadOk(s, t) && Chain(s, list)
    ensures Chain(StepInsert(s, t, false), list)
  {
  }

  lemma InsertChain(s: State, s': State, node: Addr, list: seq<Addr>)
    requires Chain(s, list)
    requires node in s.heap && s.heap[node].owner.Private? && s.heap[node].next == s.head
    requires s'.head == node && s'.heap == SetOwner(s.heap, node, Listed)
    ensures Chain(s', [node] + list)
  {
    var list' := [node] + list;
    assert Pos(list', node, 0);
    forall i, j | 0 <= i < j < |list'| ensures list'[i] != list'[j] {
      assert Pos(list, list'[j], j - 1);
    }
    forall a, i | Pos(list', a, i)
      ensures a in s'.heap && s'.heap[a].owner == Listed && s'.heap[a].next == At(list', i + 1)
    {
      if i > 0 { assert Pos(list, a, i - 1); }
    }
    forall a | a in s'.heap && s'.heap[a].owner == Listed ensures exists i :: Pos(list', a, i) {
      if a != node {
        var i :| Pos(list, a, i);
        assert Pos(list', a, i + 1);
      }
    }
  }

  lemma InsertCasInv(s: State, t: nat, list: seq<Addr>) returns (list': seq<Addr>)
    requires Inv(s, list) && t < |s.threads| && s.threads[t].pc.InsertCas? && s.head == s.threads[t].pc.seen
    ensures Inv(StepInsert(s, t, false), list') && list' == [s.threads[t].pc.node] + list
  {
    var s' := StepInsert(s, t, false);
    InvAt(s, list, t);
    list' := [s.threads[t].pc.node] + list;
    InsertChain(s, s', s.threads[t].pc.node, list);
    InsertCasQuiet(s, t);
    hide *;
    Compose(s, s', t, list, list');
  }

  lemma InsertCasQuiet(s: State, t: nat)
    requires t < |s.threads| && s.threads[t].pc.InsertCas? && ThreadOk(s, t) && UnlinkedOk(s) && s.head == s.threads[t].pc.seen
    ensures var s' := StepInsert(s, t, false);
      Quiet(s, s', t) && ThreadOk(s', t) && UnlinkedOk(s') && !Deleting(s'.threads[t].pc)
  {
    InsertCasOthers(s, t);
    hide UnlinkedOk, Quiet, ReaderOk;
    SameUnlinked(s, StepInsert(s, t, false), t);
  }

  lemma InsertCasOthers(s: State, t: nat)
    requires t < |s.threads| && s.threads[t].pc.InsertCas? && ThreadOk(s, t) && s.head == s.threads[t].pc.seen
    ensures Quiet(s, StepInsert(s, t, false), t)
  {
  }

  lemma StepInsertInv(s: State, t: nat, spurious: bool, list: seq<Addr>) returns (list': seq<Addr>)
    requires Inv(s, list) && t < |s.threads|
    requires s.threads[t].pc.InsertLoad? || s.threads[t].pc.InsertLink? || s.threads[t].pc.InsertCas?
    ensures Inv(StepInsert(s, t, spurious), list') && list' == ListAfter(s, t, Go(spurious), list)
  {
    list' := list;
    InvAt(s, list, t);
    hide Inv, Chain, UnlinkedOk;
    match s.threads[t].pc
    case InsertLoad(_, _, _) => MoveInv(s, t, StepInsert(s, t, spurious).threads[t], list);
    case InsertLink(_, _, _, _) => InsertLinkInv(s, t, list);
    case InsertCas(_, _, _, seen) =>
      if s.head == seen && !spurious {
        list' := InsertCasInv(s, t, list);
      } else {
        MoveInv(s, t, StepInsert(s, t, spurious).threads[t], list);
      }
  }

  lemma UnlinkChain(s: State, s': State, list: seq<Addr>)
    requires Chain(s, list) && InList(s, s.head)
    requires s'.head == s.heap[s.head].next && s'.heap == SetOwner(s.heap, s.head, Unlinked)
    ensures list != [] && list[0] == s.head && Chain(s', list[1..])
  {
    var i :| Pos(list, s.head, i);
    var list' := list[1..];
    if list' != [] { assert list'[0] == At(list, 1) && Pos(list, list'[0], 1) && Pos(list', list'[0], 0); }
    forall a, i | Pos(list', a, i)
      ensures a in s'.heap && s'.heap[a].owner == Listed && s'.heap[a].next == At(list', i + 1)
    {
      assert Pos(list, a, i + 1);
    }
    forall a | a in s'.heap && s'.heap[a].owner == Listed ensures exists i :: Pos(list', a, i) {
      var j :| Pos(list, a, j);
      assert Pos(list', a, j - 1);
    }
  }

  /** No deletion has unlinked a node that is not yet freed. */
  lemma NoneUnlinked(s: State, t: nat)
    requires t < |s.threads| && UnlinkedOk(s) && OneDeleter(s)
    requires Deleting(s.threads[t].pc) && !s.threads[t].pc.SyncBegin? && !s.threads[t].pc.SyncScan?
    ensures forall a :: a in s.heap ==> s.heap[a].owner != Unlinked
  {
    forall a | a in s.heap ensures s.heap[a].owner != Unlinked {
      if s.heap[a].owner == Unlinked {
        var v :| 0 <= v < |s.threads| && Reclaims(s.threads[v].pc, a);
        assert Deleting(s.threads[v].pc) && v != t;
        assert false;
      }
    }
  }

  lemma UnlinkInv(s: State, t: nat, list: seq<Addr>) returns (list': seq<Addr>)
    requires Inv(s, list) && t < |s.threads| && s.threads[t].pc.DeleteCas? && s.head == s.threads[t].pc.p
    ensures list != [] && list[0] == s.threads[t].pc.p && list' == list[1..]
    ensures Inv(StepDelete(s, t), list')
  {
    var s' := StepDelete(s, t);
    InvAt(s, list, t);
    NoneUnlinked(s, t);
    UnlinkChain(s, s', list);
    list' := list[1..];
    UnlinkQuiet(s, t, list');
    hide *;
    Compose(s, s', t, list, list');
  }

  lemma UnlinkQuiet(s: State, t: nat, list': seq<Addr>)
    requires t < |s.threads| && s.threads[t].pc.DeleteCas? && s.head == s.threads[t].pc.p && ThreadOk(s, t) && UnlinkedOk(s)
    requires Chain(StepDelete(s, t), list') && forall a :: a in s.heap ==> s.heap[a].owner != Unlinked
    ensures var s' := StepDelete(s, t);
      Quiet(s, s', t) && ThreadOk(s', t) && UnlinkedOk(s') && Deleting(s.threads[t].pc)
  {
    var s' := StepDelete(s, t);
    UnlinkOthers(s, t);
    hide Quiet;
    if list' != [] { assert Pos(list', s'.head, 0); }
    assert Reclaims(s'.threads[t].pc, s.head);
  }

  lemma UnlinkOthers(s: State, t: nat)
    requires t < |s.threads| && s.threads[t].pc.DeleteCas? && s.head == s.threads[t].pc.p && ThreadOk(s, t)
    ensures Quiet(s, StepDelete(s, t), t)
  {
  }

  /** The grace period is over: no reader holds the node, and it is freed. */
  lemma FreeInv(s: State, t: nat, list: seq<Addr>)
    requires Inv(s, list) && t < |s.threads| && s.threads[t].pc.SyncScan?
    requires s.threads[t].pc.i >= s.threads[t].pc.n
    ensures Inv(StepDelete(s, t), list)
  {
    var s' := StepDelete(s, t);
    InvAt(s, list, t);
    FreeChain(s, t, list);
    FreeQuiet(s, t);
    hide *;
    Compose(s, s', t, list, list);
  }

  lemma FreeChain(s: State, t: nat, list: seq<Addr>)
    requires t < |s.threads| && s.threads[t].pc.SyncScan? && s.threads[t].pc.i >= s.threads[t].pc.n
    requires ThreadOk(s, t) && Chain(s, list)
    ensures Chain(StepDelete(s, t), list)
  {
  }

  lemma FreeQuiet(s: State, t: nat)
    requires t < |s.threads| && s.threads[t].pc.SyncScan? && s.threads[t].pc.i >= s.threads[t].pc.n
    requires ThreadOk(s, t) && UnlinkedOk(s) && OneDeleter(s)
    ensures Quiet(s, StepDelete(s, t), t) && ThreadOk(StepDelete(s, t), t) && UnlinkedOk(StepDelete(s, t))
    ensures Deleting(s.threads[t].pc)
  {
    OneUnlinked(s, t);
    FreeLeavesNone(s, t);
    hide UnlinkedOk, OneDeleter;
  }

  /** The node that a deleter is about to free is the only unlinked one. */
  lemma OneUnlinked(s: State, t: nat)
    requires t < |s.threads| && s.threads[t].pc.SyncScan? && UnlinkedOk(s) && OneDeleter(s)
    ensures forall a :: a in s.heap && s.heap[a].owner == Unlinked ==> a == s.threads[t].pc.p
  {
    forall a | a in s.heap && s.heap[a].owner == Unlinked ensures a == s.threads[t].pc.p {
      var v :| 0 <= v < |s.threads| && Reclaims(s.threads[v].pc, a);
      assert Deleting(s.threads[v].pc);
    }
  }

  lemma FreeLeavesNone(s: State, t: nat)
    requires t < |s.threads| && s.threads[t].pc.SyncScan? && s.threads[t].pc.i >= s.threads[t].pc.n && UnlinkedOk(s)
    requires forall a :: a in s.heap && s.heap[a].owner == Unlinked ==> a == s.threads[t].pc.p
    ensures UnlinkedOk(StepDelete(s, t))
  {
  }

  lemma DeleteReadInv(s: State, t: nat, list: seq<Addr>)
    requires Inv(s, list) && t < |s.threads|
    requires var pc := s.threads[t].pc; pc.DeleteHead? || pc.DeleteKey? || pc.DeleteNext? || pc.SyncBegin? || pc.DeleteReturn?
    ensures Inv(StepDelete(s, t), list)
  {
    assert ThreadOk(s, t);
    MoveInv(s, t, StepDelete(s, t).threads[t], list);
  }

  lemma SyncScanInv(s: State, t: nat, list: seq<Addr>)
    requires Inv(s, list) && t < |s.threads| && s.threads[t].pc.SyncScan?
    ensures Inv(StepDelete(s, t), list)
  {
    assert ThreadOk(s, t);
    var n, i := s.threads[t].pc.n, s.threads[t].pc.i;
    if i >= n {
      FreeInv(s, t, list);
    } else {
      assert ThreadOk(s, i);
      MoveInv(s, t, StepDelete(s, t).threads[t], list);
    }
  }

  lemma StepDeleteInv(s: State, t: nat, list: seq<Addr>) returns (list': seq<Addr>)
    requires Inv(s, list) && t < |s.threads| && (Deleting(s.threads[t].pc) || s.threads[t].pc.DeleteReturn?)
    ensures forall c: Choice :: c.Go? ==> list' == ListAfter(s, t, c, list)
    ensures Inv(StepDelete(s, t), list')
  {
    list' := list;
    match s.threads[t].pc
    case DeleteCas(_, p, _) =>
      assert ThreadOk(s, t);
      if s.head == p { list' := UnlinkInv(s, t, list); } else { MoveInv(s, t, StepDelete(s, t).threads[t], list); }
    case SyncScan(_, _, _, _) => SyncScanInv(s, t, list);
    case SyncBegin(_, _) | DeleteHead(_) | DeleteKey(_, _) | DeleteNext(_, _) | DeleteReturn(_, _) => DeleteReadInv(s, t, list);
  }

  lemma RegisterInv(s: State, list: seq<Addr>)
    requires Inv(s, list)
    ensures Inv(s.(threads := s.threads + [Thread(Idle, 0)]), list)
  {
    var s' := s.(threads := s.threads + [Thread(Idle, 0)]);
    forall v | 0 <= v < |s'.threads| ensures ThreadOk(s', v) {
      if v < |s.threads| { assert ThreadOk(s, v) && s'.threads[v] == s.threads[v]; }
    }
    forall a | a in s'.heap && s'.heap[a].owner == Unlinked
      ensures exists v :: 0 <= v < |s'.threads| && Reclaims(s'.threads[v].pc, a)
    {
      var v :| 0 <= v < |s.threads| && Reclaims(s.threads[v].pc, a);
      assert Reclaims(s'.threads[v].pc, a);
    }
  }

  // ----- Every run

  lemma StepInv(s: State, t: nat, c: Choice, list: seq<Addr>) returns (list': seq<Addr>)
    requires Inv(s, list)
    ensures Inv(Step(s, t, c), list') && list' == ListAfter(s, t, c, list)
  {
    list' := list;
    if t >= |s.threads| {
      if c.Register? { RegisterInv(s, list); }
    } else if s.threads[t].pc.Idle? {
      StepIdleInv(s, t, c, list);
    } else if c.Go? {
      if Finding(s.threads[t].pc) { StepFindInv(s, t, list); }
      else if Deleting(s.threads[t].pc) || s.threads[t].pc.DeleteReturn? { list' := StepDeleteInv(s, t, list); }
      else { list' := StepInsertInv(s, t, c.spurious, list); }
    }
  }

  // ----- The list of entries that insertions and deletions act on

  datatype Event = Internal | Inserted(key: int, value: int) | Deleted(key: int)

  /** The visible effect of a step, with what the call asked for: the successful compare-and-swaps. */
  function EventOf(s: State, t: nat, c: Choice): Event {
    if t >= |s.threads| || !c.Go? then Internal
    else match s.threads[t].pc
      case InsertCas(_, key, value, seen) => if s.head == seen && !c.spurious then Inserted(key, value) else Internal
      case DeleteCas(key, p, _) => if s.head == p then Deleted(key) else Internal
      case _ => Internal
  }

  function History(sched: Schedule): seq<Event> {
    if sched == [] then []
    else
      var init, last := sched[..|sched| - 1], sched[|sched| - 1];
      History(init) + [EventOf(Run(init), last.0, last.1)]
  }

  type Entries = seq<(int, int)>

  datatype Outcome = Stuck | Reached(entries: Entries)

  /** A deletion is possible only if the first entry has its key. */
  predicate Legal(entries: Entries, e: Event) {
    e.Deleted? ==> entries != [] && entries[0].0 == e.key
  }

  function Apply(entries: Entries, e: Event): Entries
    requires Legal(entries, e)
  {
    match e
    case Internal => entries
    case Inserted(k, v) => [(k, v)] + entries
    case Deleted(_) => entries[1..]
  }

  function Replay(es: seq<Event>): Outcome {
    if es == [] then Reached([])
    else
      var before, e := Replay(es[..|es| - 1]), es[|es| - 1];
      if before.Reached? && Legal(before.entries, e) then Reached(Apply(before.entries, e)) else Stuck
  }

  /** The keys and values along the list. */
  function Contents(s: State, list: seq<Addr>): Entries {
    seq(|list|, i requires 0 <= i < |list| => (KeyOf(s, list[i]), ValueOf(s, list[i])))
  }

  lemma ContentsAfter(s: State, t: nat, c: Choice, list: seq<Addr>)
    requires Inv(s, list)
    ensures Legal(Contents(s, list), EventOf(s, t, c))
    ensures Contents(Step(s, t, c), ListAfter(s, t, c, list)) == Apply(Contents(s, list), EventOf(s, t, c))
  {
    hide Inv, Step, Contents;
    var s', list' := Step(s, t, c), ListAfter(s, t, c, list);
    forall a | a in list ensures KeyOf(s', a) == KeyOf(s, a) && ValueOf(s', a) == ValueOf(s, a) {
      var i :| 0 <= i < |list| && list[i] == a;
      ListedAt(s, list, i);
      NodeStays(s, t, c, list, a);
    }
    ContentsSame(s, s', list);
    if EventOf(s, t, c).Inserted? {
      InsertedStays(s, t, c, list);
      assert list' == [s.threads[t].pc.node] + list;
      ContentsFirst(s', list');
      assert list'[1..] == list;
    } else if EventOf(s, t, c).Deleted? {
      DeletesFirst(s, t, list);
      ContentsFirst(s, list);
      ContentsFirst(s', list);
    }
  }

  lemma ListedAt(s: State, list: seq<Addr>, i: int)
    requires Inv(s, list) && 0 <= i < |list|
    ensures InList(s, list[i])
  {
    assert Pos(list, list[i], i);
  }

  lemma InsertedStays(s: State, t: nat, c: Choice, list: seq<Addr>)
    requires Inv(s, list) && EventOf(s, t, c).Inserted?
    ensures var node := s.threads[t].pc.node;
      EventOf(s, t, c) == Inserted(KeyOf(Step(s, t, c), node), ValueOf(Step(s, t, c), node))
  {
    assert ThreadOk(s, t);
  }

  lemma DeletesFirst(s: State, t: nat, list: seq<Addr>)
    requires Inv(s, list) && t < |s.threads| && s.threads[t].pc.DeleteCas? && s.head == s.threads[t].pc.p
    ensures list != [] && list[0] == s.threads[t].pc.p && KeyOf(s, list[0]) == s.threads[t].pc.key
  {
    assert ThreadOk(s, t);
    var list' := UnlinkInv(s, t, list);
  }

  /** The nodes that are in the list after a schedule. */
  function ListOf(sched: Schedule): seq<Addr> {
    if sched == [] then []
    else
      var init, last := sched[..|sched| - 1], sched[|sched| - 1];
      ListAfter(Run(init), last.0, last.1, ListOf(init))
  }

  /** For every schedule, insertions and deletions act, in order, on one list of entries: insertions in front,
      deletions on a first entry with their key; and the nodes from head hold exactly that list. */
  lemma {:induction false} RefinesList(sched: Schedule)
    ensures Inv(Run(sched), ListOf(sched)) && Chain(Run(sched), ListOf(sched))
    ensures Replay(History(sched)) == Reached(Contents(Run(sched), ListOf(sched)))
  {
    if sched != [] {
      hide Inv, Step, ListAfter, Contents;
      var init, last := sched[..|sched| - 1], sched[|sched| - 1];
      RefinesList(init);
      ContentsAfter(Run(init), last.0, last.1, ListOf(init));
      var list := StepInv(Run(init), last.0, last.1, ListOf(init));
      InvChain(Run(sched), list);
      assert History(sched)[..|History(sched)| - 1] == History(init);
    }
  }

  lemma InvChain(s: State, list: seq<Addr>)
    requires Inv(s, list)
    ensures Chain(s, list)
  {
  }

  // ----- What a search answers

  /** The value of the first entry with the key, -1 if there is none. */
  function Lookup(entries: Entries, key: int): int {
    if entries == [] then -1 else if entries[0].0 == key then entries[0].1 else Lookup(entries[1..], key)
  }

  /** The part of the list that starts at p. */
  function From(list: seq<Addr>, p: Addr): seq<Addr> {
    if list == [] then [] else if list[0] == p then list else From(list[1..], p)
  }

  /** The entries that a search which is at p still has before it; p may have been unlinked. */
  function Rest(s: State, list: seq<Addr>, p: Addr): Entries {
    if p == 0 then []
    else if p in list then Contents(s, From(list, p))
    else [(KeyOf(s, p), ValueOf(s, p))] + Contents(s, From(list, NextOf(s, p)))
  }

  lemma {:induction false} FromPos(list: seq<Addr>, i: nat)
    requires i < |list| && forall j, k :: 0 <= j < k < |list| ==> list[j] != list[k]
    ensures From(list, list[i]) == list[i..]
  {
    if i > 0 { FromPos(list[1..], i - 1); }
  }

  lemma {:induction false} FromNone(list: seq<Addr>, p: Addr)
    requires p !in list
    ensures From(list, p) == []
  {
    if list != [] { FromNone(list[1..], p); }
  }

  lemma {:induction false} FromIn(list: seq<Addr>, p: Addr)
    ensures forall x :: x in From(list, p) ==> x in list
  {
    if list != [] { FromIn(list[1..], p); }
  }

  lemma ContentsFirst(s: State, list: seq<Addr>)
    requires list != []
    ensures Contents(s, list) == [(KeyOf(s, list[0]), ValueOf(s, list[0]))] + Contents(s, list[1..])
  {
  }

  /** Passing p leaves what follows it. */
  lemma RestStep(s: State, list: seq<Addr>, p: Addr)
    requires Inv(s, list) && Usable(s, p)
    ensures Rest(s, list, p) == [(KeyOf(s, p), ValueOf(s, p))] + Rest(s, list, NextOf(s, p))
  {
    InvAtList(s, list, p);
    hide Inv, Contents;
    var next := NextOf(s, p);
    if p in list {
      var i := PosOf(s, list, p);
      FromPos(list, i);
      ContentsFirst(s, list[i..]);
      assert list[i..][1..] == list[i + 1..];
      if i + 1 < |list| { FromPos(list, i + 1); } else { assert list[i + 1..] == []; ContentsNone(s); }
    } else if next == 0 {
      FromNone(list, next);
      ContentsNone(s);
    }
  }

  lemma ContentsNone(s: State)
    ensures Contents(s, []) == []
  {
  }

  lemma PosOf(s: State, list: seq<Addr>, p: Addr) returns (i: nat)
    requires Chain(s, list) && p in list
    ensures i < |list| && list[i] == p && NextOf(s, p) == At(list, i + 1)
    ensures forall j, k :: 0 <= j < k < |list| ==> list[j] != list[k]
    ensures i + 1 < |list| ==> list[i + 1] != 0 && list[i + 1] in list
  {
    i :| 0 <= i < |list| && list[i] == p;
    assert Pos(list, p, i);
    if i + 1 < |list| { assert Pos(list, list[i + 1], i + 1); }
  }

  lemma InvAtList(s: State, list: seq<Addr>, p: Addr)
    requires Inv(s, list) && Usable(s, p)
    ensures Chain(s, list) && p != 0 && 0 !in list && (NextOf(s, p) == 0 || NextOf(s, p) in list)
    ensures p !in list ==> s.heap[p].owner == Unlinked
  {
    NextUsable(s, p, list);
    ListedIn(s, list);
  }

  lemma ListedIn(s: State, list: seq<Addr>)
    requires Chain(s, list)
    ensures forall a :: a in list <==> InList(s, a)
    ensures 0 !in list
  {
    forall a ensures a in list <==> InList(s, a) {
      if a in list {
        var i :| 0 <= i < |list| && list[i] == a;
        assert Pos(list, a, i);
      }
    }
  }

  /** A node that stays usable keeps its fields. */
  lemma NodeStays(s: State, t: nat, c: Choice, list: seq<Addr>, a: Addr)
    requires Inv(s, list) && Usable(s, a)
    ensures a in Step(s, t, c).heap ==>
              var cell, cell' := s.heap[a], Step(s, t, c).heap[a];
              cell'.key == cell.key && cell'.value == cell.value && cell'.next == cell.next && !cell'.owner.Private?
    ensures InList(s, a) ==> a in Step(s, t, c).heap
  {
    if t < |s.threads| { assert ThreadOk(s, t); }
  }

  lemma ContentsSame(s: State, s': State, list: seq<Addr>)
    requires forall a :: a in list ==> KeyOf(s', a) == KeyOf(s, a) && ValueOf(s', a) == ValueOf(s, a)
    ensures Contents(s', list) == Contents(s, list)
  {
  }

  /** How a step changes the list. */
  lemma ListChanges(s: State, t: nat, c: Choice, list: seq<Addr>)
    requires Inv(s, list)
    ensures var list' := ListAfter(s, t, c, list);
      || list' == list
      || (exists node :: list' == [node] + list && node in s.heap && s.heap[node].owner.Private?)
      || (list != [] && list' == list[1..] && forall a :: a in s.heap ==> s.heap[a].owner != Unlinked)
  {
    if t < |s.threads| {
      assert ThreadOk(s, t);
      if s.threads[t].pc.DeleteCas? { NoneUnlinked(s, t); }
    }
  }

  /** No step changes what a search has before it, as long as its node is not freed. */
  lemma RestStays(s: State, t: nat, c: Choice, list: seq<Addr>, p: Addr)
    requires Inv(s, list) && (p == 0 || (Usable(s, p) && p in Step(s, t, c).heap))
    ensures Rest(Step(s, t, c), ListAfter(s, t, c, list), p) == Rest(s, list, p)
  {
    if p != 0 {
      var s', list' := Step(s, t, c), ListAfter(s, t, c, list);
      InvAtList(s, list, p);
      ListedIn(s, list);
      NodeStays(s, t, c, list, p);
      forall a | a in list ensures KeyOf(s', a) == KeyOf(s, a) && ValueOf(s', a) == ValueOf(s, a) {
        NodeStays(s, t, c, list, a);
      }
      ListChanges(s, t, c, list);
      RestKept(s, s', list, list', p);
    }
  }

  lemma RestKept(s: State, s': State, list: seq<Addr>, list': seq<Addr>, p: Addr)
    requires Chain(s, list) && Usable(s, p) && p in s'.heap && p != 0 && (NextOf(s, p) == 0 || NextOf(s, p) in list)
    requires p !in list ==> s.heap[p].owner == Unlinked
    requires KeyOf(s', p) == KeyOf(s, p) && ValueOf(s', p) == ValueOf(s, p) && NextOf(s', p) == NextOf(s, p)
    requires forall a :: a in list ==> KeyOf(s', a) == KeyOf(s, a) && ValueOf(s', a) == ValueOf(s, a)
    requires || list' == list
             || (exists node :: list' == [node] + list && node in s.heap && s.heap[node].owner.Private?)
             || (list != [] && list' == list[1..] && forall a :: a in s.heap ==> s.heap[a].owner != Unlinked)
    ensures Rest(s', list', p) == Rest(s, list, p)
  {
    ListedIn(s, list);
    var next := NextOf(s, p);
    hide Contents, Chain;
    FromIn(list, p);
    FromIn(list, next);
    ContentsSame(s, s', From(list, p));
    ContentsSame(s, s', From(list, next));
    if list' == list {
    } else if node :| list' == [node] + list && node in s.heap && s.heap[node].owner.Private? {
      FromBehind(node, list, p);
      if next != node { FromBehind(node, list, next); }
    } else if list[0] == p {
      FirstLeaves(s, s', list, p);
    } else {
      assert p in list' <==> p in list;
    }
  }

  lemma FromBehind(node: Addr, list: seq<Addr>, p: Addr)
    requires p != node
    ensures From([node] + list, p) == From(list, p) && (p in [node] + list <==> p in list)
  {
    assert ([node] + list)[1..] == list;
  }

  /** The first node, once unlinked, still leads to the rest of the list. */
  lemma FirstLeaves(s: State, s': State, list: seq<Addr>, p: Addr)
    requires Chain(s, list) && list != [] && list[0] == p && p != 0
    requires KeyOf(s', p) == KeyOf(s, p) && ValueOf(s', p) == ValueOf(s, p) && NextOf(s', p) == NextOf(s, p)
    requires forall a :: a in list ==> KeyOf(s', a) == KeyOf(s, a) && ValueOf(s', a) == ValueOf(s, a)
    ensures Rest(s', list[1..], p) == Rest(s, list, p)
  {
    assert Pos(list, p, 0);
    var tail, next := list[1..], NextOf(s, p);
    ContentsFirst(s, list);
    ContentsSame(s, s', tail);
    assert p !in tail by { assert forall i :: 0 <= i < |tail| ==> tail[i] == list[i + 1]; }
    assert next == At(list, 1);
    if tail != [] { FromPos(tail, 0); assert tail[0..] == tail; } else { assert From(tail, next) == []; }
  }

  predicate Searching(pc: Pc) {
    pc.FindKey? || pc.FindValue? || pc.FindNext? || pc.FindUnlock?
  }

  /** The search at pc will answer r. */
  predicate Answers(s: State, list: seq<Addr>, pc: Pc, r: int) {
    match pc
    case FindKey(key, p) => r == Lookup(Rest(s, list, p), key)
    case FindValue(_, p) => r == ValueOf(s, p)
    case FindNext(key, p) => r == Lookup(Rest(s, list, NextOf(s, p)), key)
    case FindUnlock(_, result) => r == result
    case _ => true
  }

  /** Loading the head fixes the answer. */
  lemma AnswerBegins(s: State, t: nat, c: Choice, list: seq<Addr>)
    requires Inv(s, list) && t < |s.threads| && s.threads[t].pc.FindHead? && c.Go?
    ensures var s' := Step(s, t, c);
      t < |s'.threads| && ListAfter(s, t, c, list) == list
      && Answers(s', list, s'.threads[t].pc, Lookup(Contents(s, list), s.threads[t].pc.key))
  {
    var s' := Step(s, t, c);
    ContentsSame(s, s', list);
    if list == [] {
      ContentsNone(s);
    } else {
      assert Pos(list, s.head, 0);
    }
  }

  /** The search's own steps work towards that answer. */
  lemma AnswerOwn(s: State, t: nat, c: Choice, list: seq<Addr>, r: int)
    requires Inv(s, list) && t < |s.threads| && Searching(s.threads[t].pc) && Answers(s, list, s.threads[t].pc, r)
    ensures var s' := Step(s, t, c); t < |s'.threads| && ListAfter(s, t, c, list) == list && Answers(s', list, s'.threads[t].pc, r)
  {
    assert ThreadOk(s, t);
    hide Inv, Rest;
    if s.threads[t].pc.FindKey? && s.threads[t].pc.p != 0 {
      RestStep(s, list, s.threads[t].pc.p);
      LookupFirst(Rest(s, list, s.threads[t].pc.p), Rest(s, list, NextOf(s, s.threads[t].pc.p)), s.threads[t].pc.key);
    }
    if c.Go? { RestUnmoved(s, Step(s, t, c), list); RestZero(s, list); }
  }

  lemma RestZero(s: State, list: seq<Addr>)
    ensures Rest(s, list, 0) == []
  {
  }

  lemma RestUnmoved(s: State, s': State, list: seq<Addr>)
    requires s'.heap == s.heap
    ensures forall p :: Rest(s', list, p) == Rest(s, list, p)
  {
    forall p ensures Rest(s', list, p) == Rest(s, list, p) {
      ContentsSame(s, s', From(list, p));
      ContentsSame(s, s', From(list, NextOf(s, p)));
    }
  }

  lemma LookupFirst(entries: Entries, rest: Entries, key: int)
    requires entries != [] && entries == [entries[0]] + rest
    ensures Lookup(entries, key) == if entries[0].0 == key then entries[0].1 else Lookup(rest, key)
  {
    assert entries[1..] == rest;
  }

  /** Nothing another thread does changes it. */
  lemma AnswerStays(s: State, t: nat, c: Choice, list: seq<Addr>, v: nat, r: int)
    requires Inv(s, list) && v < |s.threads| && v != t && Searching(s.threads[v].pc) && Answers(s, list, s.threads[v].pc, r)
    requires Inv(Step(s, t, c), ListAfter(s, t, c, list))
    ensures var s' := Step(s, t, c);
      v < |s'.threads| && s'.threads[v] == s.threads[v] && Answers(s', ListAfter(s, t, c, list), s'.threads[v].pc, r)
  {
    OnlyOwnThread(s, t, c, v);
    assert ThreadOk(s, v) && ThreadOk(Step(s, t, c), v);
    hide Inv, Rest, Step, ListAfter;
    match s.threads[v].pc {
      case FindKey(_, p) => RestStays(s, t, c, list, p);
      case FindValue(_, p) => NodeStays(s, t, c, list, p);
      case FindNext(_, p) =>
        NodeStays(s, t, c, list, p);
        InvAtList(s, list, p);
        NextStays(s, t, c, list, NextOf(s, p));
        RestStays(s, t, c, list, NextOf(s, p));
      case FindUnlock(_, _) =>
    }
  }

  lemma NextStays(s: State, t: nat, c: Choice, list: seq<Addr>, p: Addr)
    requires Inv(s, list) && (p == 0 || p in list)
    ensures p == 0 || (Usable(s, p) && p in Step(s, t, c).heap)
  {
    if p != 0 {
      ListedIn(s, list);
      NodeStays(s, t, c, list, p);
    }
  }

  lemma OnlyOwnThread(s: State, t: nat, c: Choice, v: nat)
    requires v < |s.threads| && v != t
    ensures v < |Step(s, t, c).threads| && Step(s, t, c).threads[v] == s.threads[v]
  {
  }

  /** Step j of the schedule is the read of the head by thread t's present search for `key`. */
  ghost predicate ReadHead(sched: Schedule, t: nat, j: nat, key: int) {
    && j < |sched| && sched[j].0 == t && sched[j].1.Go?
    && t < |Run(sched[..j]).threads| && Run(sched[..j]).threads[t].pc == FindHead(key)
    && forall m :: j < m <= |sched| ==> t < |Run(sched[..m]).threads| && Searching(Run(sched[..m]).threads[t].pc)
  }

  lemma ReadHeadLast(sched: Schedule, t: nat, key: int)
    requires sched != [] && sched[|sched| - 1].0 == t && sched[|sched| - 1].1.Go?
    requires var s := Run(sched[..|sched| - 1]); t < |s.threads| && s.threads[t].pc == FindHead(key)
    requires t < |Run(sched).threads| && Searching(Run(sched).threads[t].pc)
    ensures ReadHead(sched, t, |sched| - 1, key)
  {
    hide Run;
    assert sched[..|sched|] == sched;
  }

  lemma ReadHeadLonger(sched: Schedule, t: nat, j: nat, key: int)
    requires sched != [] && ReadHead(sched[..|sched| - 1], t, j, key)
    requires t < |Run(sched).threads| && Searching(Run(sched).threads[t].pc)
    ensures ReadHead(sched, t, j, key) && sched[..|sched| - 1][..j] == sched[..j]
  {
    hide Run, Searching;
    var init := sched[..|sched| - 1];
    SamePrefix(sched, j);
    forall m | j < m <= |sched| ensures t < |Run(sched[..m]).threads| && Searching(Run(sched[..m]).threads[t].pc) {
      if m < |sched| { SamePrefix(sched, m); } else { assert sched[..m] == sched; }
    }
  }

  lemma SamePrefix(sched: Schedule, j: nat)
    requires j < |sched|
    ensures sched[..|sched| - 1][..j] == sched[..j]
  {
  }

  /** Only a read of the head starts a search. */
  lemma StartsSearching(s: State, t: nat, c: Choice, v: nat)
    requires v < |Step(s, t, c).threads| && Searching(Step(s, t, c).threads[v].pc)
    ensures v < |s.threads| && (Searching(s.threads[v].pc) || (v == t && c.Go? && s.threads[v].pc.FindHead?))
  {
    if t < |s.threads| {
      if s.threads[t].pc.Idle? { hide StepFind, StepDelete, StepInsert; }
      else if Finding(s.threads[t].pc) { hide StepDelete, StepInsert, StepIdle; }
      else if Deleting(s.threads[t].pc) { hide StepFind, StepInsert, StepIdle; }
      else { hide StepFind, StepIdle; }
    }
  }

  /** A search in progress will answer what the list held when it read the head. */
  lemma {:induction false} SearchFollows(sched: Schedule, t: nat) returns (j: nat, key: int)
    requires t < |Run(sched).threads| && Searching(Run(sched).threads[t].pc)
    ensures ReadHead(sched, t, j, key)
    ensures Answers(Run(sched), ListOf(sched), Run(sched).threads[t].pc, Lookup(Contents(Run(sched[..j]), ListOf(sched[..j])), key))
  {
    assert sched != [];
    var init, last := sched[..|sched| - 1], sched[|sched| - 1];
    var s, list := Run(init), ListOf(init);
    RefinesList(init);
    RefinesList(sched);
    StartsSearching(s, last.0, last.1, t);
    hide Step, Inv, Answers, ReadHead, ListAfter, Contents, Lookup, Searching, Chain;
    if Searching(s.threads[t].pc) {
      j, key := SearchFollows(init, t);
      ReadHeadLonger(sched, t, j, key);
      var r := Lookup(Contents(Run(init[..j]), ListOf(init[..j])), key);
      if last.0 == t { AnswerOwn(s, t, last.1, list, r); } else { AnswerStays(s, last.0, last.1, list, t, r); }
    } else {
      j, key := |init|, s.threads[t].pc.key;
      ReadHeadLast(sched, t, key);
      AnswerBegins(s, t, last.1, list);
    }
  }

  // ----- Calls and their answers

  datatype Call = NoCall | Find(key: int) | Insert(key: int, value: int) | Delete(key: int)

  /** The call that a thread at pc is in. */
  function InCall(pc: Pc): Call {
    match pc
    case Idle => NoCall
    case FindLock(key) => Find(key)
    case FindHead(key) => Find(key)
    case FindKey(key, _) => Find(key)
    case FindValue(key, _) => Find(key)
    case FindNext(key, _) => Find(key)
    case FindUnlock(key, _) => Find(key)
    case InsertLoad(_, key, value) => Insert(key, value)
    case InsertLink(_, key, value, _) => Insert(key, value)
    case InsertCas(_, key, value, _) => Insert(key, value)
    case DeleteHead(key) => Delete(key)
    case DeleteKey(key, _) => Delete(key)
    case DeleteNext(key, _) => Delete(key)
    case DeleteCas(key, _, _) => Delete(key)
    case SyncBegin(key, _) => Delete(key)
    case SyncScan(key, _, _, _) => Delete(key)
    case DeleteReturn(key, _) => Delete(key)
  }

  /** The call that a choice asks for. */
  function Asked(c: Choice): Call {
    match c
    case CallFind(key) => Find(key)
    case CallInsert(_, key, value, _) => Insert(key, value)
    case CallDelete(key) => Delete(key)
    case _ => NoCall
  }

  /** A call begins as it was asked for and keeps its arguments. */
  lemma CallStays(s: State, t: nat, c: Choice, v: nat)
    requires v < |Step(s, t, c).threads| && InCall(Step(s, t, c).threads[v].pc) != NoCall
    ensures v < |s.threads|
    ensures var call := InCall(Step(s, t, c).threads[v].pc);
      InCall(s.threads[v].pc) == call || (v == t && s.threads[t].pc.Idle? && Asked(c) == call)
  {
    if t < |s.threads| {
      if Finding(s.threads[t].pc) {
        FindCall(s, t);
        hide StepFind;
      } else if Deleting(s.threads[t].pc) || s.threads[t].pc.DeleteReturn? {
        DeleteCall(s, t);
        hide StepDelete;
      } else if !s.threads[t].pc.Idle? {
        InsertCall(s, t, c);
        hide StepInsert;
      }
    }
  }

  lemma FindCall(s: State, t: nat)
    requires t < |s.threads| && Finding(s.threads[t].pc)
    ensures var s' := StepFind(s, t);
      && s'.threads == s.threads[t := s'.threads[t]]
      && (InCall(s'.threads[t].pc) == NoCall || InCall(s'.threads[t].pc) == InCall(s.threads[t].pc))
  {
  }

  lemma DeleteCall(s: State, t: nat)
    requires t < |s.threads| && (Deleting(s.threads[t].pc) || s.threads[t].pc.DeleteReturn?)
    ensures var s' := StepDelete(s, t);
      && s'.threads == s.threads[t := s'.threads[t]]
      && (InCall(s'.threads[t].pc) == NoCall || InCall(s'.threads[t].pc) == InCall(s.threads[t].pc))
  {
  }

  /** An insertion leaves its call exactly when it puts the pair it was asked for in front of the list. */
  lemma InsertCall(s: State, t: nat, c: Choice)
    requires t < |s.threads| && InCall(s.threads[t].pc).Insert?
    ensures var s', call := Step(s, t, c), InCall(s.threads[t].pc);
      && s'.threads == s.threads[t := s'.threads[t]]
      && (if EventOf(s, t, c) == Internal then InCall(s'.threads[t].pc) == call
          else EventOf(s, t, c) == Inserted(call.key, call.value) && s'.threads[t].pc == Idle)
  {
  }

  /** Thread t is in a call after a schedule. */
  predicate Calling(sched: Schedule, t: nat, call: Call) {
    t < |Run(sched).threads| && InCall(Run(sched).threads[t].pc) == call
  }

  /** Thread t has been in `call` since it was asked for it at step j. */
  ghost predicate Called(sched: Schedule, t: nat, j: nat, call: Call) {
    && j < |sched| && sched[j].0 == t && Asked(sched[j].1) == call && Calling(sched[..j], t, NoCall)
    && forall m :: j < m <= |sched| ==> Calling(sched[..m], t, call)
  }

  lemma CalledLonger(sched: Schedule, t: nat, j: nat, call: Call)
    requires sched != [] && Called(sched[..|sched| - 1], t, j, call) && Calling(sched, t, call)
    ensures Called(sched, t, j, call)
  {
    hide Calling;
    SamePrefix(sched, j);
    forall m | j < m <= |sched| ensures Calling(sched[..m], t, call) {
      if m < |sched| { SamePrefix(sched, m); } else { assert sched[..m] == sched; }
    }
  }

  lemma CalledNow(sched: Schedule, t: nat, call: Call)
    requires sched != [] && sched[|sched| - 1].0 == t && Asked(sched[|sched| - 1].1) == call
    requires Calling(sched[..|sched| - 1], t, NoCall) && Calling(sched, t, call)
    ensures Called(sched, t, |sched| - 1, call)
  {
    hide Calling;
    assert sched[..|sched|] == sched;
  }

  /** Every thread in a call was asked for exactly that call, and has been in it since. */
  lemma {:induction false} CalledWith(sched: Schedule, t: nat, call: Call) returns (j: nat)
    requires Calling(sched, t, call) && call != NoCall
    ensures Called(sched, t, j, call)
  {
    assert sched != [];
    var init, last := sched[..|sched| - 1], sched[|sched| - 1];
    CallStays(Run(init), last.0, last.1, t);
    hide Step, Called;
    if InCall(Run(init).threads[t].pc) == call {
      j := CalledWith(init, t, call);
      CalledLonger(sched, t, j, call);
    } else {
      j := |init|;
      CalledNow(sched, t, call);
    }
  }

  function EventAt(sched: Schedule, i: nat): Event
    requires i < |sched|
  {
    EventOf(Run(sched[..i]), sched[i].0, sched[i].1)
  }

  function CallOf(e: Event): Call {
    match e
    case Internal => NoCall
    case Inserted(key, value) => Insert(key, value)
    case Deleted(key) => Delete(key)
  }

  /** Every insertion and deletion was asked for, with that key and value, in the call that is still running. */
  lemma EventsAreAsked(sched: Schedule, i: nat) returns (j: nat)
    requires i < |sched| && EventAt(sched, i) != Internal
    ensures Called(sched[..i], sched[i].0, j, CallOf(EventAt(sched, i)))
  {
    j := CalledWith(sched[..i], sched[i].0, CallOf(EventAt(sched, i)));
  }

  /** For every schedule, a search that is about to return r was asked for its key at step c, and read the head at a
      later step j, when the first entry with the key in the abstract list had the value r, or when no entry had the
      key and r is -1. */
  lemma FindAnswers(sched: Schedule, t: nat) returns (c: nat, j: nat, key: int, entries: Entries)
    requires t < |Run(sched).threads| && Run(sched).threads[t].pc.FindUnlock?
    ensures Called(sched, t, c, Find(key)) && c < j && ReadHead(sched, t, j, key)
    ensures Replay(History(sched[..j])) == Reached(entries)
    ensures Run(sched).threads[t].pc.result == Lookup(entries, key)
  {
    j, key := SearchFollows(sched, t);
    RefinesList(sched[..j]);
    entries := Contents(Run(sched[..j]), ListOf(sched[..j]));
    c := CalledWith(sched, t, Find(Run(sched).threads[t].pc.key));
    AskedBeforeRead(sched, t, c, Find(Run(sched).threads[t].pc.key), j, key);
  }

  lemma AskedBeforeRead(sched: Schedule, t: nat, c: nat, call: Call, j: nat, key: int)
    requires Called(sched, t, c, call) && ReadHead(sched, t, j, key)
    ensures c < j && Calling(sched[..j], t, call) && call == Find(key)
  {
    hide Run;
    assert Calling(sched[..c], t, NoCall);
  }

  /** Since step j thread t has inserted and deleted nothing. */
  ghost predicate Silent(sched: Schedule, t: nat, j: nat) {
    forall m: nat :: j < m < |sched| && sched[m].0 == t ==> EventAt(sched, m) == Internal
  }

  /** Since step j thread t has done one thing: at step k it deleted a first entry with the key. */
  ghost predicate DeletedOnce(sched: Schedule, t: nat, j: nat, k: nat, key: int) {
    && j < k < |sched| && sched[k].0 == t && EventAt(sched, k) == Deleted(key)
    && forall m: nat :: j < m < |sched| && m != k && sched[m].0 == t ==> EventAt(sched, m) == Internal
  }

  /** At step h, after step j, the deletion by thread t loaded the head, and it was p. */
  ghost predicate LoadedHead(sched: Schedule, t: nat, j: nat, h: nat, key: int, p: Addr) {
    && j < h < |sched| && sched[h].0 == t && sched[h].1.Go?
    && t < |Run(sched[..h]).threads| && Run(sched[..h]).threads[t].pc == DeleteHead(key) && Run(sched[..h]).head == p
  }

  function EntriesAt(sched: Schedule): Entries {
    Contents(Run(sched), ListOf(sched))
  }

  /** p was the first node then, and its key is still that of the first entry then. */
  ghost predicate SawFirst(sched: Schedule, t: nat, j: nat, h: nat, key: int, p: Addr) {
    && LoadedHead(sched, t, j, h, key, p)
    && EntriesAt(sched[..h]) != [] && EntriesAt(sched[..h])[0].0 == KeyOf(Run(sched), p)
  }

  /** When the head was loaded there was no first entry with the key, or the head has moved by step k. */
  ghost predicate NothingToDelete(sched: Schedule, t: nat, j: nat, h: nat, k: nat, key: int) {
    && h < |sched| && LoadedHead(sched, t, j, h, key, Run(sched[..h]).head)
    && (EntriesAt(sched[..h]) == [] || EntriesAt(sched[..h])[0].0 != key
        || (h < k < |sched| && Run(sched[..k]).head != Run(sched[..h]).head))
  }

  ghost predicate DeleteSoFar(sched: Schedule, t: nat, pc: Pc, j: nat, h: nat, k: nat) {
    match pc
    case DeleteHead(_) => Silent(sched, t, j)
    case DeleteKey(key, p) => Silent(sched, t, j) && SawFirst(sched, t, j, h, key, p)
    case DeleteNext(key, p) => Silent(sched, t, j) && SawFirst(sched, t, j, h, key, p)
    case DeleteCas(key, p, _) => Silent(sched, t, j) && SawFirst(sched, t, j, h, key, p)
    case SyncBegin(key, _) => DeletedOnce(sched, t, j, k, key)
    case SyncScan(key, _, _, _) => DeletedOnce(sched, t, j, k, key)
    case DeleteReturn(key, result) =>
      if result == 1 then DeletedOnce(sched, t, j, k, key)
      else result == 0 && Silent(sched, t, j) && NothingToDelete(sched, t, j, h, k, key)
    case _ => true
  }

  lemma EventPrefix(sched: Schedule, m: nat)
    requires m + 1 < |sched|
    ensures EventAt(sched[..|sched| - 1], m) == EventAt(sched, m)
  {
    hide EventOf, Run;
    SamePrefix(sched, m);
  }

  /** The last step is internal or another thread's. */
  ghost predicate QuietLast(sched: Schedule, t: nat) {
    sched != [] && (sched[|sched| - 1].0 == t ==> EventAt(sched, |sched| - 1) == Internal)
  }

  lemma SilentLonger(sched: Schedule, t: nat, j: nat)
    requires QuietLast(sched, t) && Silent(sched[..|sched| - 1], t, j)
    ensures Silent(sched, t, j)
  {
    hide EventAt;
    forall m: nat | j < m < |sched| && sched[m].0 == t ensures EventAt(sched, m) == Internal {
      if m + 1 < |sched| { EventPrefix(sched, m); }
    }
  }

  lemma DeletedLonger(sched: Schedule, t: nat, j: nat, k: nat, key: int)
    requires QuietLast(sched, t) && DeletedOnce(sched[..|sched| - 1], t, j, k, key)
    ensures DeletedOnce(sched, t, j, k, key)
  {
    hide EventAt;
    EventPrefix(sched, k);
    forall m: nat | j < m < |sched| && m != k && sched[m].0 == t ensures EventAt(sched, m) == Internal {
      if m + 1 < |sched| { EventPrefix(sched, m); }
    }
  }

  lemma DeletedNow(sched: Schedule, t: nat, j: nat, key: int)
    requires sched != [] && Silent(sched[..|sched| - 1], t, j) && j + 1 < |sched|
    requires sched[|sched| - 1].0 == t && EventAt(sched, |sched| - 1) == Deleted(key)
    ensures DeletedOnce(sched, t, j, |sched| - 1, key)
  {
    hide EventAt;
    forall m: nat | j < m < |sched| - 1 && sched[m].0 == t ensures EventAt(sched, m) == Internal { EventPrefix(sched, m); }
  }

  lemma LoadedLonger(sched: Schedule, t: nat, j: nat, h: nat, key: int, p: Addr)
    requires sched != [] && LoadedHead(sched[..|sched| - 1], t, j, h, key, p)
    ensures LoadedHead(sched, t, j, h, key, p) && sched[..|sched| - 1][..h] == sched[..h]
  {
    SamePrefix(sched, h);
    hide Run;
  }

  lemma NothingLonger(sched: Schedule, t: nat, j: nat, h: nat, k: nat, key: int)
    requires sched != [] && NothingToDelete(sched[..|sched| - 1], t, j, h, k, key)
    ensures NothingToDelete(sched, t, j, h, k, key)
  {
    hide Run, EntriesAt;
    LoadedLonger(sched, t, j, h, key, Run(sched[..|sched| - 1][..h]).head);
    if k + 1 < |sched| { SamePrefix(sched, k); }
  }

  lemma SawLonger(sched: Schedule, t: nat, j: nat, h: nat, key: int, p: Addr)
    requires sched != [] && SawFirst(sched[..|sched| - 1], t, j, h, key, p)
    requires KeyOf(Run(sched), p) == KeyOf(Run(sched[..|sched| - 1]), p)
    ensures SawFirst(sched, t, j, h, key, p)
  {
    hide Run, EntriesAt, KeyOf;
    LoadedLonger(sched, t, j, h, key, p);
  }

  /** The first entry is the head's. */
  lemma HeadEntry(s: State, list: seq<Addr>)
    requires Inv(s, list)
    ensures Contents(s, list) == [] <==> s.head == 0
    ensures s.head != 0 ==> Contents(s, list)[0].0 == KeyOf(s, s.head)
  {
  }

  /** The key of a node that a deletion holds does not change before it unlinks the node. */
  lemma HeldKeyStays(s: State, t: nat, c: Choice, list: seq<Addr>, v: nat)
    requires Inv(s, list) && v < |s.threads|
    requires s.threads[v].pc.DeleteKey? || s.threads[v].pc.DeleteNext? || s.threads[v].pc.DeleteCas?
    ensures KeyOf(Step(s, t, c), s.threads[v].pc.p) == KeyOf(s, s.threads[v].pc.p)
    ensures s.threads[v].pc.DeleteCas? || s.threads[v].pc.DeleteNext? ==> KeyOf(s, s.threads[v].pc.p) == s.threads[v].pc.key
  {
    assert ThreadOk(s, v);
    NodeStays(s, t, c, list, s.threads[v].pc.p);
  }

  /** A deletion that does not move, or is not chosen, or only reads, has done nothing in the step. */
  lemma QuietStep(sched: Schedule, t: nat)
    requires sched != []
    requires var init, last := sched[..|sched| - 1], sched[|sched| - 1];
      t < |Run(init).threads| && (last.0 == t ==> EventOf(Run(init), t, last.1) == Internal)
    ensures QuietLast(sched, t)
  {
  }

  lemma FarUnmoved(sched: Schedule, t: nat, pc: Pc, j: nat, h: nat, k: nat)
    requires sched != [] && InCall(pc).Delete? && QuietLast(sched, t)
    requires t < |Run(sched[..|sched| - 1]).threads| && Run(sched[..|sched| - 1]).threads[t].pc == pc
    requires DeleteSoFar(sched[..|sched| - 1], t, pc, j, h, k)
    ensures DeleteSoFar(sched, t, pc, j, h, k)
  {
    var init, last := sched[..|sched| - 1], sched[|sched| - 1];
    RefinesList(init);
    hide Inv, Silent, SawFirst, DeletedOnce, NothingToDelete, Step;
    match pc {
      case DeleteHead(_) => SilentLonger(sched, t, j);
      case DeleteKey(key, p) =>
        SilentLonger(sched, t, j);
        HeldKeyStays(Run(init), last.0, last.1, ListOf(init), t);
        SawLonger(sched, t, j, h, key, p);
      case DeleteNext(key, p) =>
        SilentLonger(sched, t, j);
        HeldKeyStays(Run(init), last.0, last.1, ListOf(init), t);
        SawLonger(sched, t, j, h, key, p);
      case DeleteCas(key, p, _) =>
        SilentLonger(sched, t, j);
        HeldKeyStays(Run(init), last.0, last.1, ListOf(init), t);
        SawLonger(sched, t, j, h, key, p);
      case SyncBegin(key, _) => DeletedLonger(sched, t, j, k, key);
      case SyncScan(key, _, _, _) => DeletedLonger(sched, t, j, k, key);
      case DeleteReturn(key, result) =>
        if result == 1 {
          DeletedLonger(sched, t, j, k, key);
        } else {
          SilentLonger(sched, t, j);
          NothingLonger(sched, t, j, h, k, key);
        }
    }
  }

  /** Loading the head. */
  lemma FarLoads(sched: Schedule, t: nat, key: int, j: nat)
    requires sched != [] && j + 1 < |sched| && Silent(sched[..|sched| - 1], t, j)
    requires sched[|sched| - 1].0 == t && sched[|sched| - 1].1.Go?
    requires t < |Run(sched[..|sched| - 1]).threads| && Run(sched[..|sched| - 1]).threads[t].pc == DeleteHead(key)
    ensures t < |Run(sched).threads| && DeleteSoFar(sched, t, Run(sched).threads[t].pc, j, |sched| - 1, |sched| - 1)
  {
    var init, last := sched[..|sched| - 1], sched[|sched| - 1];
    RefinesList(init);
    HeadEntry(Run(init), ListOf(init));
    hide Inv, Silent;
    QuietStep(sched, t);
    SilentLonger(sched, t, j);
    assert LoadedHead(sched, t, j, |init|, key, Run(init).head);
  }

  /** Comparing the key. */
  lemma FarCompares(sched: Schedule, t: nat, key: int, p: Addr, j: nat, h: nat, k: nat)
    requires sched != [] && Silent(sched[..|sched| - 1], t, j) && SawFirst(sched[..|sched| - 1], t, j, h, key, p)
    requires sched[|sched| - 1].0 == t && sched[|sched| - 1].1.Go?
    requires t < |Run(sched[..|sched| - 1]).threads| && Run(sched[..|sched| - 1]).threads[t].pc == DeleteKey(key, p)
    ensures t < |Run(sched).threads| && DeleteSoFar(sched, t, Run(sched).threads[t].pc, j, h, k)
  {
    var init := sched[..|sched| - 1];
    QuietStep(sched, t);
    SilentLonger(sched, t, j);
    assert Run(sched).heap == Run(init).heap;
    SawLonger(sched, t, j, h, key, p);
    hide Silent;
  }

  /** The compare-and-swap. */
  lemma FarSwaps(sched: Schedule, t: nat, pc: Pc, j: nat, h: nat)
    requires sched != [] && pc.DeleteCas? && Silent(sched[..|sched| - 1], t, j) && SawFirst(sched[..|sched| - 1], t, j, h, pc.key, pc.p)
    requires sched[|sched| - 1].0 == t && sched[|sched| - 1].1.Go?
    requires t < |Run(sched[..|sched| - 1]).threads| && Run(sched[..|sched| - 1]).threads[t].pc == pc
    ensures t < |Run(sched).threads| && DeleteSoFar(sched, t, Run(sched).threads[t].pc, j, h, |sched| - 1)
  {
    var init := sched[..|sched| - 1];
    if Run(init).head == pc.p {
      DeletedNow(sched, t, j, pc.key);
    } else {
      QuietStep(sched, t);
      SilentLonger(sched, t, j);
      LoadedLonger(sched, t, j, h, pc.key, pc.p);
    }
    hide Silent, DeletedOnce;
  }

  /** The steps of a deletion that neither load the head nor compare nor swap. */
  lemma FarGoesOn(sched: Schedule, t: nat, pc: Pc, j: nat, h: nat, k: nat)
    requires sched != [] && (pc.DeleteNext? || pc.SyncBegin? || pc.SyncScan?) && DeleteSoFar(sched[..|sched| - 1], t, pc, j, h, k)
    requires sched[|sched| - 1].0 == t && sched[|sched| - 1].1.Go?
    requires t < |Run(sched[..|sched| - 1]).threads| && Run(sched[..|sched| - 1]).threads[t].pc == pc
    ensures t < |Run(sched).threads| && DeleteSoFar(sched, t, Run(sched).threads[t].pc, j, h, k)
  {
    QuietStep(sched, t);
    if pc.DeleteNext? {
      assert Run(sched).heap == Run(sched[..|sched| - 1]).heap;
      SilentLonger(sched, t, j);
      SawLonger(sched, t, j, h, pc.key, pc.p);
    } else {
      DeletedLonger(sched, t, j, k, pc.key);
    }
    hide Silent, DeletedOnce, SawFirst;
  }

  lemma FarMoves(sched: Schedule, t: nat, pc: Pc, j: nat, h0: nat, k0: nat) returns (h: nat, k: nat)
    requires sched != [] && InCall(pc).Delete? && j + 1 < |sched| && DeleteSoFar(sched[..|sched| - 1], t, pc, j, h0, k0)
    requires sched[|sched| - 1].0 == t && sched[|sched| - 1].1.Go? && !pc.DeleteReturn?
    requires t < |Run(sched[..|sched| - 1]).threads| && Run(sched[..|sched| - 1]).threads[t].pc == pc
    ensures t < |Run(sched).threads| && DeleteSoFar(sched, t, Run(sched).threads[t].pc, j, h, k)
  {
    hide Run, Silent, DeletedOnce, SawFirst;
    h, k := h0, k0;
    match pc {
      case DeleteHead(key) =>
        FarLoads(sched, t, key, j);
        h, k := |sched| - 1, |sched| - 1;
      case DeleteKey(key, p) => FarCompares(sched, t, key, p, j, h, k);
      case DeleteCas(_, _, _) =>
        FarSwaps(sched, t, pc, j, h);
        k := |sched| - 1;
      case _ => FarGoesOn(sched, t, pc, j, h, k);
    }
  }

  /** What a deletion in progress has seen and done. */
  lemma {:induction false} DeleteFollows(sched: Schedule, t: nat, key: int) returns (j: nat, h: nat, k: nat)
    requires Calling(sched, t, Delete(key))
    ensures Called(sched, t, j, Delete(key)) && DeleteSoFar(sched, t, Run(sched).threads[t].pc, j, h, k)
  {
    assert sched != [];
    var init, last := sched[..|sched| - 1], sched[|sched| - 1];
    CallStays(Run(init), last.0, last.1, t);
    var pc, pc' := Run(init).threads[t].pc, Run(sched).threads[t].pc;
    if InCall(pc) == Delete(key) {
      DeleteStays(Run(init), last.0, last.1, t);
      hide Step, Called, DeleteSoFar;
      j, h, k := DeleteFollows(init, t, key);
      CalledLonger(sched, t, j, Delete(key));
      CalledBefore(init, t, j, Delete(key));
      if last.0 == t && last.1.Go? {
        h, k := FarMoves(sched, t, pc, j, h, k);
      } else {
        QuietStep(sched, t);
        FarUnmoved(sched, t, pc, j, h, k);
      }
    } else {
      DeleteStarts(Run(init), t, last.1);
      j, h, k := |init|, 0, 0;
      CalledNow(sched, t, Delete(key));
    }
  }

  lemma CalledBefore(sched: Schedule, t: nat, j: nat, call: Call)
    requires Called(sched, t, j, call)
    ensures j < |sched|
  {
  }

  /** A deletion moves only by its own steps, and its last one leaves the call. */
  lemma DeleteStays(s: State, t: nat, c: Choice, v: nat)
    requires v < |s.threads| && InCall(s.threads[v].pc).Delete?
    requires v < |Step(s, t, c).threads| && InCall(Step(s, t, c).threads[v].pc).Delete?
    ensures t != v || !c.Go? ==> Step(s, t, c).threads[v].pc == s.threads[v].pc && (t == v ==> EventOf(s, t, c) == Internal)
    ensures t == v && c.Go? ==> !s.threads[v].pc.DeleteReturn?
  {
  }

  lemma DeleteStarts(s: State, t: nat, c: Choice)
    requires t < |s.threads| && s.threads[t].pc.Idle? && t < |Step(s, t, c).threads|
    requires InCall(Step(s, t, c).threads[t].pc).Delete?
    ensures Step(s, t, c).threads[t].pc.DeleteHead?
  {
  }

  /** For every schedule, a deletion that is about to return was asked for its key at step j, and since then it
      returns 1 exactly if it deleted a first entry with that key, once; and it returns 0 only if, when it loaded the head
      at step h, the list was empty or its first entry had another key, or the head had moved by step k. */
  lemma DeleteAnswers(sched: Schedule, t: nat) returns (j: nat, h: nat, k: nat, entries: Entries)
    requires t < |Run(sched).threads| && Run(sched).threads[t].pc.DeleteReturn?
    ensures var key, result := Run(sched).threads[t].pc.key, Run(sched).threads[t].pc.result;
      && Called(sched, t, j, Delete(key)) && (result == 0 || result == 1)
      && (result == 1 ==> DeletedOnce(sched, t, j, k, key))
      && (result == 0 ==>
            && Silent(sched, t, j) && h < |sched| && LoadedHead(sched, t, j, h, key, Run(sched[..h]).head)
            && Replay(History(sched[..h])) == Reached(entries)
            && (entries == [] || entries[0].0 != key || (h < k < |sched| && Run(sched[..k]).head != Run(sched[..h]).head)))
  {
    var pc := Run(sched).threads[t].pc;
    j, h, k := DeleteFollows(sched, t, pc.key);
    entries := [];
    if pc.result == 0 {
      RefinesList(sched[..h]);
      entries := EntriesAt(sched[..h]);
    }
  }

  // ----- How calls begin and end

  /** An idle thread that is asked for a call is in it from then on; an insertion needs a free address, a deletion that
      no other is running. */
  lemma CallBegins(s: State, t: nat, c: Choice)
    requires t < |s.threads| && s.threads[t].pc.Idle?
    requires c.CallInsert? ==> c.a != 0 && c.a !in s.heap
    requires c.CallDelete? ==> forall v :: 0 <= v < |s.threads| ==> !Deleting(s.threads[v].pc)
    ensures InCall(Step(s, t, c).threads[t].pc) == Asked(c)
  {
  }

  /** A step moves no thread but its own. */
  lemma OthersStand(s: State, t: nat, c: Choice, v: nat)
    requires v < |s.threads| && v != t
    ensures v < |Step(s, t, c).threads| && Step(s, t, c).threads[v] == s.threads[v]
  {
    if t < |s.threads| {
      if Finding(s.threads[t].pc) {
        FindCall(s, t);
        hide StepFind;
      } else if Deleting(s.threads[t].pc) || s.threads[t].pc.DeleteReturn? {
        DeleteCall(s, t);
        hide StepDelete;
      } else if !s.threads[t].pc.Idle? {
        InsertCall(s, t, c);
        hide StepInsert;
      }
    }
  }

  /** A search is left only with its answer, and a deletion only with its result. */
  lemma FindLeaves(s: State, t: nat, c: Choice)
    requires t < |s.threads| && Finding(s.threads[t].pc)
    ensures InCall(Step(s, t, c).threads[t].pc) == InCall(s.threads[t].pc) || (s.threads[t].pc.FindUnlock? && Step(s, t, c).threads[t].pc == Idle)
  {
    hide StepDelete, StepInsert, StepIdle;
  }

  lemma DeleteLeaves(s: State, t: nat, c: Choice)
    requires t < |s.threads| && (Deleting(s.threads[t].pc) || s.threads[t].pc.DeleteReturn?)
    ensures InCall(Step(s, t, c).threads[t].pc) == InCall(s.threads[t].pc) || (s.threads[t].pc.DeleteReturn? && Step(s, t, c).threads[t].pc == Idle)
  {
    hide StepFind, StepInsert, StepIdle;
  }

  /** Step i takes thread t out of the call that it was in. */
  predicate Ends(sched: Schedule, i: nat, t: nat, call: Call) {
    i < |sched| && call != NoCall && Calling(sched[..i], t, call) && !Calling(sched[..i + 1], t, call)
  }

  lemma EndsAtStep(sched: Schedule, i: nat, t: nat, call: Call)
    requires Ends(sched, i, t, call)
    ensures sched[i].0 == t && Run(sched[..i + 1]) == Step(Run(sched[..i]), t, sched[i].1)
  {
    hide Step;
    assert sched[..i + 1][..i] == sched[..i];
    if sched[i].0 != t { OthersStand(Run(sched[..i]), sched[i].0, sched[i].1, t); }
  }

  /** For every schedule, a call of `rcu_list_find` ends only by returning what the abstract list held for its key when
      the same call loaded the head at step j. */
  lemma FindEnds(sched: Schedule, i: nat, t: nat, key: int) returns (c: nat, j: nat, entries: Entries)
    requires Ends(sched, i, t, Find(key))
    ensures sched[i].0 == t && Called(sched[..i], t, c, Find(key)) && c < j < i && ReadHead(sched[..i], t, j, key)
    ensures Replay(History(sched[..j])) == Reached(entries)
    ensures Run(sched[..i]).threads[t].pc == FindUnlock(key, Lookup(entries, key))
  {
    EndsAtStep(sched, i, t, Find(key));
    FindLeaves(Run(sched[..i]), t, sched[i].1);
    hide Step, Called, ReadHead, Run, History, Replay, Lookup;
    var k;
    c, j, k, entries := FindAnswers(sched[..i], t);
    ReadHeadAt(sched[..i], t, c, j, k, Run(sched[..i]).threads[t].pc.key);
    assert sched[..i][..j] == sched[..j];
  }

  lemma ReadHeadAt(sched: Schedule, t: nat, c: nat, j: nat, key: int, asked: int)
    requires Called(sched, t, c, Find(key)) && ReadHead(sched, t, j, key) && Calling(sched, t, Find(asked))
    ensures j < |sched| && key == asked
  {
    hide Run;
    assert sched[..|sched|] == sched;
  }

  /** For every schedule, a call of `rcu_list_insert` ends only with the step that inserts its pair. */
  lemma InsertEnds(sched: Schedule, i: nat, t: nat, key: int, value: int)
    requires Ends(sched, i, t, Insert(key, value))
    ensures sched[i].0 == t && EventAt(sched, i) == Inserted(key, value)
  {
    EndsAtStep(sched, i, t, Insert(key, value));
    InsertCall(Run(sched[..i]), t, sched[i].1);
    hide Step;
  }

  /** For every schedule, a call of `rcu_list_delete` ends only by returning 1 or 0, as `DeleteAnswers` says. */
  lemma DeleteEnds(sched: Schedule, i: nat, t: nat, key: int) returns (j: nat, h: nat, k: nat, entries: Entries)
    requires Ends(sched, i, t, Delete(key))
    ensures sched[i].0 == t && Called(sched[..i], t, j, Delete(key))
    ensures var before, pc := sched[..i], Run(sched[..i]).threads[t].pc;
      || (pc == DeleteReturn(key, 1) && DeletedOnce(before, t, j, k, key))
      || (pc == DeleteReturn(key, 0) && Silent(before, t, j) && h < i && LoadedHead(before, t, j, h, key, Run(before[..h]).head)
          && Replay(History(before[..h])) == Reached(entries)
          && (entries == [] || entries[0].0 != key || (h < k < i && Run(before[..k]).head != Run(before[..h]).head)))
  {
    EndsAtStep(sched, i, t, Delete(key));
    DeleteLeaves(Run(sched[..i]), t, sched[i].1);
    hide Step, Called, DeletedOnce, Silent, LoadedHead, Run, History, Replay;
    j, h, k, entries := DeleteAnswers(sched[..i], t);
  }

  // ----- Calls that run alone

  /** The state after k steps of thread t alone, without spurious failures. */
  function Alone(s: State, t: nat, k: nat): State
    decreases k
  {
    if k == 0 then s else Alone(Step(s, t, Go(false)), t, k - 1)
  }

  /** Nobody is inside a read section. */
  ghost predicate NoReader(s: State) {
    forall v :: 0 <= v < |s.threads| ==> !InSection(s.threads[v].pc)
  }

  /** The most steps that the call of a thread at pc can still take if nobody interferes. */
  function Most(s: State, list: seq<Addr>, pc: Pc): nat {
    match pc
    case FindLock(_) => 2 * |Contents(s, list)| + 4
    case FindHead(_) => 2 * |Contents(s, list)| + 3
    case FindKey(_, p) => 2 * |Rest(s, list, p)| + 2
    case FindValue(_, _) => 2
    case FindNext(_, p) => 2 * |Rest(s, list, NextOf(s, p))| + 3
    case FindUnlock(_, _) => 1
    case InsertLoad(_, _, _) => 3
    case InsertLink(_, _, _, seen) => if s.head == seen then 2 else 5
    case InsertCas(_, _, _, seen) => if s.head == seen then 1 else 4
    case DeleteHead(_) => |s.threads| + 7
    case DeleteKey(_, _) => |s.threads| + 6
    case DeleteNext(_, _) => |s.threads| + 5
    case DeleteCas(_, _, _) => |s.threads| + 4
    case SyncBegin(_, _) => |s.threads| + 3
    case SyncScan(_, _, n, i) => (if i < n then n - i else 0) + 2
    case DeleteReturn(_, _) => 1
    case Idle => 0
  }

  lemma FindDrops(s: State, t: nat, list: seq<Addr>)
    requires Inv(s, list) && t < |s.threads| && Finding(s.threads[t].pc)
    ensures var s' := Step(s, t, Go(false)); |s'.threads| == |s.threads| && Most(s', list, s'.threads[t].pc) < Most(s, list, s.threads[t].pc)
  {
    var s', pc := StepFind(s, t), s.threads[t].pc;
    assert Step(s, t, Go(false)) == s';
    InvAt(s, list, t);
    hide Inv, ThreadOk, Rest, Contents, Step, StepDelete, StepInsert, StepIdle, Chain, UnlinkedOk, OneDeleter;
    match pc
    case FindLock(_) => ContentsSame(s, s', list);
    case FindHead(_) => RestFromHead(s, list); RestSame(s, s', list, s.head);
    case FindKey(_, p) =>
      RestSame(s, s', list, NextOf(s, p));
      if p != 0 { RestHere(s, list, t); }
    case FindNext(_, p) => RestSame(s, s', list, NextOf(s, p));
    case _ =>
  }

  lemma RestSame(s: State, s': State, list: seq<Addr>, p: Addr)
    requires s'.heap == s.heap
    ensures Rest(s', list, p) == Rest(s, list, p)
  {
    hide Rest;
    RestUnmoved(s, s', list);
  }

  lemma RestFromHead(s: State, list: seq<Addr>)
    requires Chain(s, list)
    ensures Rest(s, list, s.head) == Contents(s, list)
  {
    if list != [] {
      assert Pos(list, s.head, 0);
      FromPos(list, 0);
      assert list[0..] == list;
    }
  }

  lemma RestHere(s: State, list: seq<Addr>, t: nat)
    requires Inv(s, list) && t < |s.threads| && s.threads[t].pc.FindKey? && s.threads[t].pc.p != 0
    ensures |Rest(s, list, s.threads[t].pc.p)| == |Rest(s, list, NextOf(s, s.threads[t].pc.p))| + 1
  {
    InvAt(s, list, t);
    RestStep(s, list, s.threads[t].pc.p);
  }

  lemma InsertDrops(s: State, t: nat, list: seq<Addr>)
    requires t < |s.threads| && InCall(s.threads[t].pc).Insert?
    ensures var s' := Step(s, t, Go(false));
      |s'.threads| == |s.threads| && forall l :: Most(s', l, s'.threads[t].pc) < Most(s, list, s.threads[t].pc)
  {
    hide StepFind, StepDelete, StepIdle, Contents, Rest;
  }

  lemma DeleteDrops(s: State, t: nat, list: seq<Addr>)
    requires t < |s.threads| && InCall(s.threads[t].pc).Delete? && NoReader(s)
    requires forall v :: 0 <= v < |s.threads| ==> ThreadOk(s, v)
    ensures var s' := Step(s, t, Go(false));
      && |s'.threads| == |s.threads| && NoReader(s')
      && forall l :: Most(s', l, s'.threads[t].pc) < Most(s, list, s.threads[t].pc)
  {
    if s.threads[t].pc.SyncScan? && s.threads[t].pc.i < |s.threads| { assert ThreadOk(s, s.threads[t].pc.i); }
    if s.threads[t].pc.SyncScan? { assert ThreadOk(s, t); }
    hide StepFind, StepInsert, StepIdle, Contents, Rest, ThreadOk;
  }

  /** Wherever a call is, run alone it ends: an insertion within 5 steps, a deletion, if nobody is inside a search, within
      7 more than there are threads, and a search within 6 more than twice the list. */
  lemma {:induction false} CallAlone(s: State, t: nat, list: seq<Addr>) returns (k: nat)
    requires Inv(s, list) && t < |s.threads| && InCall(s.threads[t].pc) != NoCall
    requires InCall(s.threads[t].pc).Delete? ==> NoReader(s)
    ensures k <= Most(s, list, s.threads[t].pc)
    ensures t < |Alone(s, t, k).threads| && InCall(Alone(s, t, k).threads[t].pc) == NoCall
    decreases Most(s, list, s.threads[t].pc)
  {
    var s' := Step(s, t, Go(false));
    var list' := StepInv(s, t, Go(false), list);
    OneDrop(s, t, list);
    hide Step, Inv, Most, ListAfter, NoReader;
    k := 0;
    if InCall(s'.threads[t].pc) != NoCall { k := CallAlone(s', t, list'); }
    k := k + 1;
    assert Alone(s, t, k) == Alone(s', t, k - 1);
  }

  lemma OneDrop(s: State, t: nat, list: seq<Addr>)
    requires Inv(s, list) && t < |s.threads| && InCall(s.threads[t].pc) != NoCall
    requires InCall(s.threads[t].pc).Delete? ==> NoReader(s)
    ensures var s', list' := Step(s, t, Go(false)), ListAfter(s, t, Go(false), list);
      && |s'.threads| == |s.threads| && Most(s', list', s'.threads[t].pc) < Most(s, list, s.threads[t].pc)
      && (InCall(s'.threads[t].pc) == NoCall || InCall(s'.threads[t].pc) == InCall(s.threads[t].pc))
      && (InCall(s.threads[t].pc).Delete? ==> NoReader(s'))
  {
    if Finding(s.threads[t].pc) {
      FindDrops(s, t, list);
      FindLeaves(s, t, Go(false));
    } else if InCall(s.threads[t].pc).Insert? {
      InsertDrops(s, t, list);
      InsertCall(s, t, Go(false));
    } else {
      DeleteDrops(s, t, list);
      DeleteLeaves(s, t, Go(false));
    }
    hide Step, Inv, Most, NoReader;
  }

  lemma MostBound(s: State, t: nat, list: seq<Addr>)
    requires Inv(s, list) && t < |s.threads|
    ensures Most(s, list, s.threads[t].pc) <= match InCall(s.threads[t].pc)
                                              case Find(_) => 2 * |list| + 6
                                              case Insert(_, _) => 5
                                              case Delete(_) => |s.threads| + 7
                                              case NoCall => 0
  {
    InvAt(s, list, t);
    hide Inv;
    forall p ensures |Rest(s, list, p)| <= |list| + 1 { RestBound(s, list, p); }
    hide Rest;
  }

  lemma {:induction false} FromBound(list: seq<Addr>, p: Addr)
    ensures |From(list, p)| <= |list|
  {
    if list != [] { FromBound(list[1..], p); }
  }

  lemma RestBound(s: State, list: seq<Addr>, p: Addr)
    ensures |Rest(s, list, p)| <= |list| + 1
  {
    FromBound(list, p);
    FromBound(list, NextOf(s, p));
  }

  /** A deletion that waits for a reader waits for as long as the reader stays inside. */
  lemma {:induction false} DeleteWaits(s: State, t: nat, v: nat, k: nat)
    requires t < |s.threads| && v < |s.threads| && v != t && s.threads[t].pc.SyncScan? && s.threads[v].count > 0
    requires s.threads[t].pc.i <= v < s.threads[t].pc.n
    ensures t < |Alone(s, t, k).threads| && Alone(s, t, k).threads[t].pc.SyncScan?
    decreases k
  {
    if k > 0 { DeleteWaits(Step(s, t, Go(false)), t, v, k - 1); }
  }

  /** What the next step of thread t must not do: read freed memory, unlink to anything but the
      head's current successor, or free a node that is not allocated or that a reader still holds. */
  ghost predicate NextStepSafe(s: State, t: nat)
    requires t < |s.threads|
  {
    match s.threads[t].pc
    case FindKey(_, p) => p == 0 || p in s.heap
    case FindValue(_, p) => p in s.heap
    case FindNext(_, p) => p in s.heap
    case InsertLink(node, _, _, _) => node in s.heap
    case DeleteKey(_, p) => p in s.heap
    case DeleteNext(_, p) => p in s.heap
    case DeleteCas(_, p, next) => s.head == p ==> p in s.heap && s.heap[p].next == next
    case SyncScan(_, p, n, i) =>
      i >= n ==> && p in s.heap && s.heap[p].owner == Unlinked
                 && forall v :: 0 <= v < |s.threads| ==> !Holds(s.threads[v].pc, p)
    case _ => true
  }

  /** Grace-period safety, for every schedule, however readers start, stop and register while
      `urcu_synchronize` looks at their counters one by one. */
  lemma SafeInAllRuns(sched: Schedule, t: nat)
    requires t < |Run(sched).threads|
    ensures NextStepSafe(Run(sched), t)
  {
    RefinesList(sched);
    assert ThreadOk(Run(sched), t);
  }
}
