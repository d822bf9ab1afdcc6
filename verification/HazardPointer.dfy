/** The hazard-pointer stack of hazard_pointer.c as a step machine.

    Any number of threads up to the table size run `hps_push`, `hps_pop` and `hp_retire` at the
    same time.  One step is one load, store or compare-and-swap on shared memory, together with the
    thread-local work that follows it.  A schedule picks, step by step, which thread moves and what
    its client asks for; every theorem below is about every schedule. */
module HazardPointer {
  const MAX_THREADS := 16
  const HP_PER_THREAD := 2
  const RETIRE_LIMIT := 64

  /** An address; 0 is NULL. */
  type Addr = nat

  /** Who may use an allocated node.  Clients own the nodes they allocated (`Private`) or popped
      (`Popped`); `Listed(t)` marks a node handed to `hp_retire` by thread t and not freed yet. */
  datatype Owner = Private(t: nat) | Stacked | Popped(t: nat) | Listed(t: nat)

  datatype Cell = Cell(next: Addr, owner: Owner)

  /** Where a thread is; the fields are the locals that are still live there. */
  datatype Pc =
    | RegisterSlot(k: nat)
    | Idle
    | PushLoad(node: Addr)
    | PushLink(node: Addr, seen: Addr)
    | PushCas(node: Addr, seen: Addr)
    | PopLoad
    | PopProtect(seen: Addr)
    | PopCheck(seen: Addr)
    | PopNext(seen: Addr)
    | PopCas(seen: Addr, next: Addr)
    | PopRelease(seen: Addr)
    | ScanBegin
    | ScanSlot(n: nat, u: nat, k: nat)

  /** A registered thread: its program point, its row of the hazard table and its retired array.
      While it scans, entries `..keep` were kept and entries `i..count` are still to be examined.
      `suspects` is a history variable that no step reads back: the addresses that were in a hazard
      slot, or about to be stored in one, when the scan began. */
  datatype Thread = Thread(
    pc: Pc, slots: seq<Addr>, retired: seq<Addr>, count: nat, i: nat, keep: nat, suspects: set<Addr>)

  /** Allocated memory is the domain of `heap`: a freed address is absent and may come back. */
  datatype State = State(head: Addr, heap: map<Addr, Cell>, threads: seq<Thread>)

  /** What the scheduler and the client choose: registration, allocation at a fresh or previously
      freed address, a call, or one more step of the running call, in which a weak
      compare-and-swap may fail for no reason. */
  datatype Choice =
    | Register
    | Malloc(a: Addr, junk: Addr)
    | CallPush(a: Addr)
    | CallPop
    | CallRetire(a: Addr)
    | Go(spurious: bool)

  datatype Event = Internal | Pushed(a: Addr) | PoppedTop(a: Addr) | FoundEmpty

  const START := State(0, map[], [])

  function NewThread(): Thread {
    Thread(RegisterSlot(0), [0, 0], seq(RETIRE_LIMIT, _ => 0), 0, 0, 0, {})
  }

  // ----- Memory and array accesses, total so that a bad one would show up in the theorems

  function NextOf(heap: map<Addr, Cell>, a: Addr): Addr {
    if a in heap then heap[a].next else 0
  }

  function SetNext(heap: map<Addr, Cell>, a: Addr, x: Addr): map<Addr, Cell> {
    if a in heap then heap[a := heap[a].(next := x)] else heap
  }

  function SetOwner(heap: map<Addr, Cell>, a: Addr, o: Owner): map<Addr, Cell> {
    if a in heap then heap[a := heap[a].(owner := o)] else heap
  }

  function Put(a: seq<Addr>, i: nat, x: Addr): seq<Addr> {
    if i < |a| then a[i := x] else a
  }

  function At(a: seq<Addr>, i: int): Addr {
    if 0 <= i < |a| then a[i] else 0
  }

  // ----- One step

  /** The addresses thread th shows or is about to show in its hazard slots. */
  function Shown(th: Thread): set<Addr> {
    {At(th.slots, 0), At(th.slots, 1)} + (if th.pc.PopProtect? then {th.pc.seen} else {}) - {0}
  }

  function ShownByAll(threads: seq<Thread>): set<Addr> {
    if threads == [] then {} else Shown(threads[0]) + ShownByAll(threads[1..])
  }

  function Goto(s: State, t: nat, pc: Pc): State
    requires t < |s.threads|
  {
    s.(threads := s.threads[t := s.threads[t].(pc := pc)])
  }

  /** `hp_retire`, up to the start of its scan if the array became full. */
  function Retire(s: State, t: nat, a: Addr): State
    requires t < |s.threads|
  {
    var th := s.threads[t];
    var th1 := th.(retired := Put(th.retired, th.count, a), count := th.count + 1);
    var th2 := if th1.count < RETIRE_LIMIT then th1
               else th1.(pc := ScanBegin, i := 0, keep := 0, suspects := ShownByAll(s.threads));
    s.(heap := SetOwner(s.heap, a, Listed(t)), threads := s.threads[t := th2])
  }

  /** The end of one round of the scan: the next entry, or the end of the call. */
  function Advance(th: Thread): Thread {
    if th.i + 1 < th.count then th.(pc := ScanBegin, i := th.i + 1)
    else th.(pc := Idle, count := th.keep, i := 0, keep := 0, suspects := {})
  }

  function Keep(th: Thread): Thread {
    Advance(th.(retired := Put(th.retired, th.keep, At(th.retired, th.i)), keep := th.keep + 1))
  }

  function StepIdle(s: State, t: nat, c: Choice): State
    requires t < |s.threads|
  {
    match c
    case Malloc(a, junk) =>
      if a != 0 && a !in s.heap then s.(heap := s.heap[a := Cell(junk, Private(t))]) else s
    case CallPush(a) =>
      if a in s.heap && s.heap[a].owner == Private(t) then Goto(s, t, PushLoad(a)) else s
    case CallPop => Goto(s, t, PopLoad)
    case CallRetire(a) =>
      if a in s.heap && s.heap[a].owner == Popped(t) then Retire(s, t, a) else s
    case _ => s
  }

  function StepPush(s: State, t: nat, spurious: bool): (State, Event)
    requires t < |s.threads|
  {
    match s.threads[t].pc
    case PushLoad(node) => (Goto(s, t, PushLink(node, s.head)), Internal)
    case PushLink(node, seen) =>
      (Goto(s, t, PushCas(node, seen)).(heap := SetNext(s.heap, node, seen)), Internal)
    case PushCas(node, seen) =>
      if s.head == seen && !spurious then
        (Goto(s, t, Idle).(head := node, heap := SetOwner(s.heap, node, Stacked)), Pushed(node))
      else (Goto(s, t, PushLoad(node)), Internal)
    case _ => (s, Internal)
  }

  function StepPop(s: State, t: nat, spurious: bool): (State, Event)
    requires t < |s.threads|
  {
    var th := s.threads[t];
    match th.pc
    case PopLoad =>
      if s.head == 0 then (Goto(s, t, Idle), FoundEmpty) else (Goto(s, t, PopProtect(s.head)), Internal)
    case PopProtect(seen) =>
      (s.(threads := s.threads[t := th.(pc := PopCheck(seen), slots := Put(th.slots, 0, seen))]), Internal)
    case PopCheck(seen) => (Goto(s, t, if s.head == seen then PopNext(seen) else PopLoad), Internal)
    case PopNext(seen) => (Goto(s, t, PopCas(seen, NextOf(s.heap, seen))), Internal)
    case PopCas(seen, next) =>
      if s.head == seen && !spurious then
        (Goto(s, t, PopRelease(seen)).(head := next, heap := SetOwner(s.heap, seen, Popped(t))), PoppedTop(seen))
      else (Goto(s, t, PopLoad), Internal)
    case PopRelease(seen) =>
      (s.(threads := s.threads[t := th.(pc := Idle, slots := Put(th.slots, 0, 0))]), Internal)
    case _ => (s, Internal)
  }

  /** `hp_is_protected` on entry i, one slot at a time, and what the scan does with the answer. */
  function StepScan(s: State, t: nat): State
    requires t < |s.threads|
  {
    var th := s.threads[t];
    match th.pc
    case ScanBegin => Goto(s, t, ScanSlot(|s.threads|, 0, 0))
    case ScanSlot(n, u, k) =>
      if u < n && u < |s.threads| then
        if At(s.threads[u].slots, k) == At(th.retired, th.i) then s.(threads := s.threads[t := Keep(th)])
        else if k + 1 < HP_PER_THREAD then Goto(s, t, ScanSlot(n, u, k + 1))
        else Goto(s, t, ScanSlot(n, u + 1, 0))
      else s.(heap := s.heap - {At(th.retired, th.i)}, threads := s.threads[t := Advance(th)])
    case _ => s
  }

  function StepRegister(s: State, t: nat): State
    requires t < |s.threads|
  {
    var th := s.threads[t];
    match th.pc
    case RegisterSlot(k) =>
      var pc := if k + 1 < HP_PER_THREAD then RegisterSlot(k + 1) else Idle;
      s.(threads := s.threads[t := th.(pc := pc, slots := Put(th.slots, k, 0))])
    case _ => s
  }

  /** One step of thread t; a choice that does not fit where the thread is leaves the state alone. */
  function Step(s: State, t: nat, c: Choice): (State, Event) {
    if t >= |s.threads| then
      (if c.Register? && |s.threads| < MAX_THREADS then s.(threads := s.threads + [NewThread()]) else s, Internal)
    else if s.threads[t].pc.Idle? then (StepIdle(s, t, c), Internal)
    else if !c.Go? then (s, Internal)
    else match s.threads[t].pc
      case PushLoad(_) | PushLink(_, _) | PushCas(_, _) => StepPush(s, t, c.spurious)
      case ScanBegin | ScanSlot(_, _, _) => (StepScan(s, t), Internal)
      case RegisterSlot(_) => (StepRegister(s, t), Internal)
      case _ => StepPop(s, t, c.spurious)
  }

  type Schedule = seq<(nat, Choice)>

  /** The state after a schedule. */
  function Run(sched: Schedule): State {
    if sched == [] then START
    else var last := sched[|sched| - 1]; Step(Run(sched[..|sched| - 1]), last.0, last.1).0
  }

  /** The visible events of a schedule, in order. */
  function History(sched: Schedule): seq<Event> {
    if sched == [] then []
    else
      var last := sched[|sched| - 1];
      History(sched[..|sched| - 1]) + [Step(Run(sched[..|sched| - 1]), last.0, last.1).1]
  }

  // ----- The atomic stack

  predicate Legal(stk: seq<Addr>, e: Event) {
    match e
    case Internal => true
    case Pushed(a) => a !in stk
    case PoppedTop(a) => stk != [] && stk[0] == a
    case FoundEmpty => stk == []
  }

  function Apply(stk: seq<Addr>, e: Event): seq<Addr>
    requires Legal(stk, e)
  {
    match e
    case Pushed(a) => [a] + stk
    case PoppedTop(a) => stk[1..]
    case _ => stk
  }

  datatype Outcome = Stuck | Reached(stk: seq<Addr>)

  /** The atomic stack on a history: what it holds at the end, or `Stuck` if some event is one it
      could not have produced. */
  function Replay(es: seq<Event>): Outcome {
    if es == [] then Reached([])
    else
      var before := Replay(es[..|es| - 1]);
      var e := es[|es| - 1];
      if before.Reached? && Legal(before.stk, e) then Reached(Apply(before.stk, e)) else Stuck
  }

  // ----- The invariant

  ghost predicate Distinct(a: seq<Addr>) {
    forall i, j :: 0 <= i < j < |a| ==> a[i] != a[j]
  }

  predicate Pos(stk: seq<Addr>, a: Addr, i: int) {
    0 <= i < |stk| && stk[i] == a
  }

  lemma AllPos(stk: seq<Addr>)
    ensures forall a :: a in stk ==> exists i :: Pos(stk, a, i)
  {
    forall i | 0 <= i < |stk| ensures Pos(stk, stk[i], i) {}
  }

  ghost predicate ChainOk(s: State, stk: seq<Addr>) {
    && 0 !in s.heap
    && (if stk == [] then s.head == 0 else Pos(stk, s.head, 0))
    && Distinct(stk)
    && (forall a, i {:trigger Pos(stk, a, i)} :: Pos(stk, a, i) ==>
          a in s.heap && s.heap[a] == Cell(At(stk, i + 1), Stacked))
    && (forall a :: a in s.heap && s.heap[a].owner == Stacked ==> a in stk)
  }

  /** Thread th has validated its hazard pointer on a. */
  predicate Guards(th: Thread, a: Addr) {
    match th.pc
    case PopNext(seen) => seen == a
    case PopCas(seen, _) => seen == a
    case _ => false
  }

  predicate Scanning(th: Thread) {
    th.pc.ScanBegin? || th.pc.ScanSlot?
  }

  ghost predicate Active(th: Thread, j: int) {
    0 <= j < th.keep || th.i <= j < th.count
  }

  ghost predicate Holds(th: Thread, a: Addr) {
    exists j :: 0 <= j < |th.retired| && Active(th, j) && th.retired[j] == a
  }

  ghost predicate PcOk(s: State, t: nat)
    requires t < |s.threads|
  {
    var th := s.threads[t];
    match th.pc
    case PushLoad(node) => node in s.heap && s.heap[node].owner == Private(t)
    case PushLink(node, _) => node in s.heap && s.heap[node].owner == Private(t)
    case PushCas(node, seen) => node in s.heap && s.heap[node] == Cell(seen, Private(t))
    case PopProtect(seen) => seen != 0
    case PopCheck(seen) => seen == At(th.slots, 0) && seen != 0
    case PopNext(seen) => seen == At(th.slots, 0) && seen in s.heap && !s.heap[seen].owner.Private?
    case PopCas(seen, next) =>
      seen == At(th.slots, 0) && seen in s.heap && !s.heap[seen].owner.Private? && s.heap[seen].next == next
    case PopRelease(seen) => seen in s.heap && s.heap[seen].owner == Popped(t)
    case _ => true
  }

  ghost predicate ListOk(s: State, t: nat)
    requires t < |s.threads|
  {
    var th := s.threads[t];
    && |th.slots| == HP_PER_THREAD && th.slots[1] == 0
    && |th.retired| == RETIRE_LIMIT
    && (if Scanning(th) then th.keep <= th.i < th.count == RETIRE_LIMIT
        else th.keep == 0 == th.i && th.count < RETIRE_LIMIT)
    && (forall j, k :: 0 <= j < k < RETIRE_LIMIT && Active(th, j) && Active(th, k) ==> th.retired[j] != th.retired[k])
    && (forall j :: 0 <= j < RETIRE_LIMIT && Active(th, j) ==>
          th.retired[j] in s.heap && s.heap[th.retired[j]].owner == Listed(t))
    && (forall a :: a in s.heap && s.heap[a].owner == Listed(t) ==> Holds(th, a))
  }

  ghost predicate SuspectsOk(s: State, t: nat)
    requires t < |s.threads|
  {
    var th := s.threads[t];
    Scanning(th) ==>
      && |th.suspects| <= HP_PER_THREAD * MAX_THREADS
      && (forall j :: 0 <= j < th.keep && j < |th.retired| ==> th.retired[j] in th.suspects)
      && (forall v, a | 0 <= v < |s.threads| && a in Shown(s.threads[v]) ::
            a in s.heap && s.heap[a].owner == Listed(t) ==> a in th.suspects)
  }

  /** Every guard on the entry under examination is still ahead of the scan. */
  ghost predicate CursorOk(s: State, t: nat)
    requires t < |s.threads|
  {
    var th := s.threads[t];
    th.pc.ScanSlot? ==>
      && th.pc.n <= |s.threads| && th.pc.k < HP_PER_THREAD
      && (forall v :: 0 <= v < |s.threads| && Guards(s.threads[v], At(th.retired, th.i)) ==>
            v < th.pc.n && (v > th.pc.u || (v == th.pc.u && th.pc.k == 0)))
  }

  ghost predicate Inv(s: State, stk: seq<Addr>) {
    && ChainOk(s, stk)
    && |s.threads| <= MAX_THREADS
    && (forall a :: a in s.heap && !s.heap[a].owner.Stacked? ==> s.heap[a].owner.t < |s.threads|)
    && (forall t :: 0 <= t < |s.threads| ==> PcOk(s, t))
    && (forall t :: 0 <= t < |s.threads| ==> ListOk(s, t))
    && (forall t :: 0 <= t < |s.threads| ==> SuspectsOk(s, t))
    && (forall t :: 0 <= t < |s.threads| ==> CursorOk(s, t))
  }

  // ----- Preservation

  predicate Foreign(o: Owner, t: nat) {
    !o.Stacked? && o.t != t
  }

  /** What a step of thread t leaves to the other threads: their own nodes, the nodes they guard,
      and, whatever t newly shows or guards, a node of the stack. */
  ghost predicate Quiet(s: State, s': State, t: nat)
    requires t < |s.threads|
  {
    && |s'.threads| == |s.threads|
    && (forall v :: 0 <= v < |s.threads| && v != t ==> s'.threads[v] == s.threads[v])
    && (forall a :: a in s.heap && Foreign(s.heap[a].owner, t) ==> a in s'.heap && s'.heap[a] == s.heap[a])
    && (forall a :: a in s'.heap && Foreign(s'.heap[a].owner, t) ==> a in s.heap && s'.heap[a] == s.heap[a])
    && (forall v, a :: 0 <= v < |s.threads| && v != t && Guards(s.threads[v], a)
                       && a in s.heap && !s.heap[a].owner.Private? ==>
          a in s'.heap && !s'.heap[a].owner.Private? && s'.heap[a].next == NextOf(s.heap, a))
    && (forall a :: a in Shown(s'.threads[t]) && a !in Shown(s.threads[t]) && a in s.heap ==> !s.heap[a].owner.Listed?)
    && (forall a :: Guards(s'.threads[t], a) && !Guards(s.threads[t], a) && a in s.heap ==> !s.heap[a].owner.Listed?)
  }

  ghost predicate OwnOk(s: State, t: nat)
    requires t < |s.threads|
  {
    PcOk(s, t) && ListOk(s, t) && SuspectsOk(s, t) && CursorOk(s, t)
  }

  lemma InvAt(s: State, stk: seq<Addr>, t: nat)
    requires Inv(s, stk) && t < |s.threads|
    ensures PcOk(s, t) && ListOk(s, t) && SuspectsOk(s, t) && CursorOk(s, t) && ChainOk(s, stk)
  {
  }

  lemma OwnIs(s: State, t: nat)
    requires t < |s.threads|
    ensures OwnOk(s, t) <==> PcOk(s, t) && ListOk(s, t) && SuspectsOk(s, t) && CursorOk(s, t)
  {
  }

  /** Outside a scan there are no suspects and no cursor to keep right. */
  lemma OwnOutside(s: State, t: nat)
    requires t < |s.threads| && PcOk(s, t) && ListOk(s, t) && !Scanning(s.threads[t])
    ensures OwnOk(s, t)
  {
  }

  lemma HeadStacked(s: State, stk: seq<Addr>)
    requires ChainOk(s, stk)
    ensures stk == [] <==> s.head == 0
    ensures s.head != 0 ==> s.head in s.heap && s.heap[s.head].owner == Stacked && s.head in stk
    ensures 0 !in s.heap
  {
    AllPos(stk);
  }

  lemma OthersKeep(s: State, s': State, t: nat, v: nat)
    requires t < |s.threads| && Quiet(s, s', t)
    requires v < |s.threads| && v != t && OwnOk(s, v)
    ensures OwnOk(s', v)
  {
    OwnIs(s, v);
    OthersPc(s, s', t, v);
    OthersScan(s, s', t, v);
    assert s'.threads[v] == s.threads[v];
    hide PcOk, SuspectsOk, CursorOk;
    assert ListOk(s', v);
  }

  lemma OthersPc(s: State, s': State, t: nat, v: nat)
    requires t < |s.threads| && Quiet(s, s', t)
    requires v < |s.threads| && v != t && PcOk(s, v)
    ensures |s'.threads| == |s.threads| && PcOk(s', v)
  {
    var th := s.threads[v];
    match th.pc
    case PopNext(seen) => assert Guards(th, seen);
    case PopCas(seen, next) => assert Guards(th, seen);
    case _ =>
  }

  lemma OthersScan(s: State, s': State, t: nat, v: nat)
    requires t < |s.threads| && Quiet(s, s', t)
    requires v < |s.threads| && v != t && ListOk(s, v) && SuspectsOk(s, v) && CursorOk(s, v)
    ensures |s'.threads| == |s.threads| && SuspectsOk(s', v) && CursorOk(s', v)
  {
    hide Shown, Guards;
    var th := s.threads[v];
    if Scanning(th) {
      forall w, a | 0 <= w < |s'.threads| && a in Shown(s'.threads[w]) && a in s'.heap && s'.heap[a].owner == Listed(v)
        ensures a in th.suspects
      {
        assert a in s.heap && s.heap[a].owner == Listed(v);
        assert a in Shown(s.threads[w]);
      }
    }
    if th.pc.ScanSlot? {
      var a := At(th.retired, th.i);
      assert Active(th, th.i);
      forall w | 0 <= w < |s'.threads| && Guards(s'.threads[w], a)
        ensures w < th.pc.n && (w > th.pc.u || (w == th.pc.u && th.pc.k == 0))
      {
        assert Guards(s.threads[w], a);
      }
    }
  }

  lemma Compose(s: State, s': State, t: nat, stk: seq<Addr>, stk': seq<Addr>)
    requires Inv(s, stk) && t < |s.threads| && Quiet(s, s', t)
    requires OwnOk(s', t) && ChainOk(s', stk')
    ensures Inv(s', stk')
  {
    forall v | 0 <= v < |s'.threads| ensures OwnOk(s', v) {
      if v != t { assert PcOk(s, v); OthersKeep(s, s', t, v); }
    }
    forall v | 0 <= v < |s'.threads| ensures PcOk(s', v) && ListOk(s', v) && SuspectsOk(s', v) && CursorOk(s', v) {
      assert OwnOk(s', v);
    }
  }

  /** A step that only moves thread t, outside its scan, to another program point or hazard. */
  lemma MoveInv(s: State, t: nat, pc: Pc, slot: Addr, stk: seq<Addr>)
    requires Inv(s, stk) && t < |s.threads|
    requires !Scanning(s.threads[t]) && !pc.ScanBegin? && !pc.ScanSlot?
    requires PcOk(Moved(s, t, pc, slot), t)
    requires forall a :: a in Shown(Moved(s, t, pc, slot).threads[t]) - Shown(s.threads[t]) && a in s.heap ==>
               !s.heap[a].owner.Listed?
    requires forall a :: Guards(Moved(s, t, pc, slot).threads[t], a) && !Guards(s.threads[t], a) && a in s.heap ==>
               !s.heap[a].owner.Listed?
    ensures Inv(Moved(s, t, pc, slot), stk)
  {
    var s' := Moved(s, t, pc, slot);
    InvAt(s, stk, t);
    MovedList(s, t, pc, slot);
    MovedQuiet(s, t, pc, slot);
    SameChain(s, s', stk);
    OwnOutside(s', t);
    hide *;
    Compose(s, s', t, stk, stk);
  }

  lemma MovedQuiet(s: State, t: nat, pc: Pc, slot: Addr)
    requires t < |s.threads|
    requires forall a :: a in Shown(Moved(s, t, pc, slot).threads[t]) - Shown(s.threads[t]) && a in s.heap ==>
               !s.heap[a].owner.Listed?
    requires forall a :: Guards(Moved(s, t, pc, slot).threads[t], a) && !Guards(s.threads[t], a) && a in s.heap ==>
               !s.heap[a].owner.Listed?
    ensures Quiet(s, Moved(s, t, pc, slot), t)
  {
    hide Shown, Guards;
  }

  lemma MovedList(s: State, t: nat, pc: Pc, slot: Addr)
    requires t < |s.threads| && ListOk(s, t) && !Scanning(s.threads[t]) && !pc.ScanBegin? && !pc.ScanSlot?
    ensures ListOk(Moved(s, t, pc, slot), t)
  {
    var s' := Moved(s, t, pc, slot);
    var th, th' := s.threads[t], s'.threads[t];
    forall a | a in s'.heap && s'.heap[a].owner == Listed(t) ensures Holds(th', a) {
      assert Holds(th, a);
      var j :| 0 <= j < |th.retired| && Active(th, j) && th.retired[j] == a;
      assert Active(th', j) && th'.retired[j] == a;
    }
  }

  function Moved(s: State, t: nat, pc: Pc, slot: Addr): State
    requires t < |s.threads|
  {
    var th := s.threads[t];
    s.(threads := s.threads[t := th.(pc := pc, slots := Put(th.slots, 0, slot))])
  }

  lemma GotoMoves(s: State, t: nat, pc: Pc)
    requires t < |s.threads| && |s.threads[t].slots| == HP_PER_THREAD
    ensures Goto(s, t, pc) == Moved(s, t, pc, s.threads[t].slots[0])
  {
    var th := s.threads[t];
    assert Put(th.slots, 0, th.slots[0]) == th.slots;
  }

  lemma PushLinkInv(s: State, t: nat, stk: seq<Addr>)
    requires Inv(s, stk) && t < |s.threads| && s.threads[t].pc.PushLink?
    ensures Inv(StepPush(s, t, false).0, stk)
  {
    var s' := StepPush(s, t, false).0;
    InvAt(s, stk, t);
    PushLinkQuiet(s, t);
    PushLinkChain(s, t, stk);
    hide *;
    Compose(s, s', t, stk, stk);
  }

  lemma PushLinkQuiet(s: State, t: nat)
    requires t < |s.threads| && s.threads[t].pc.PushLink? && PcOk(s, t) && ListOk(s, t)
    ensures Quiet(s, StepPush(s, t, false).0, t) && OwnOk(StepPush(s, t, false).0, t)
  {
    var s' := StepPush(s, t, false).0;
    PushLinkOthers(s, t);
    PushLinkPc(s, t);
    hide ListOk, SuspectsOk, CursorOk, Quiet, PcOk;
    SameListed(s, s', t);
    OwnOutside(s', t);
  }

  lemma PushLinkPc(s: State, t: nat)
    requires t < |s.threads| && s.threads[t].pc.PushLink? && PcOk(s, t)
    ensures PcOk(StepPush(s, t, false).0, t)
  {
  }

  lemma PushLinkOthers(s: State, t: nat)
    requires t < |s.threads| && s.threads[t].pc.PushLink? && PcOk(s, t)
    ensures Quiet(s, StepPush(s, t, false).0, t)
  {
  }

  lemma PushLinkChain(s: State, t: nat, stk: seq<Addr>)
    requires t < |s.threads| && s.threads[t].pc.PushLink? && PcOk(s, t) && ChainOk(s, stk)
    ensures ChainOk(StepPush(s, t, false).0, stk)
  {
  }

  /** The retired list of thread t is fine as long as the same nodes are listed in the same array. */
  lemma SameListed(s: State, s': State, t: nat)
    requires t < |s.threads| == |s'.threads| && ListOk(s, t)
    requires !Scanning(s.threads[t]) && !Scanning(s'.threads[t])
    requires s'.threads[t] == s.threads[t].(pc := s'.threads[t].pc)
    requires forall a :: a in s.heap && s.heap[a].owner == Listed(t) <==> a in s'.heap && s'.heap[a].owner == Listed(t)
    ensures ListOk(s', t)
  {
    var th, th' := s.threads[t], s'.threads[t];
    forall a | a in s'.heap && s'.heap[a].owner == Listed(t) ensures Holds(th', a) {
      assert Holds(th, a);
      var j :| 0 <= j < |th.retired| && Active(th, j) && th.retired[j] == a;
      assert Active(th', j) && th'.retired[j] == a;
    }
  }

  lemma PushChain(s: State, t: nat, stk: seq<Addr>)
    requires ChainOk(s, stk) && t < |s.threads| && s.threads[t].pc.PushCas? && PcOk(s, t)
    requires s.head == s.threads[t].pc.seen
    ensures s.threads[t].pc.node !in stk
    ensures ChainOk(StepPush(s, t, false).0, [s.threads[t].pc.node] + stk)
  {
    var s' := StepPush(s, t, false).0;
    var node := s.threads[t].pc.node;
    var stk' := [node] + stk;
    AllPos(stk);
    assert Pos(stk', node, 0);
    forall a, i | Pos(stk', a, i) ensures a in s'.heap && s'.heap[a] == Cell(At(stk', i + 1), Stacked) {
      if i > 0 { assert Pos(stk, a, i - 1); }
    }
    forall a | a in s'.heap && s'.heap[a].owner == Stacked ensures a in stk' {
      if a != stk'[0] { assert a in stk; }
    }
  }

  lemma PushQuiet(s: State, t: nat, stk: seq<Addr>)
    requires t < |s.threads| && PcOk(s, t) && ListOk(s, t) && s.threads[t].pc.PushCas?
    requires s.head == s.threads[t].pc.seen
    ensures Quiet(s, StepPush(s, t, false).0, t) && OwnOk(StepPush(s, t, false).0, t)
  {
    hide ListOk, SuspectsOk, CursorOk;
    var s' := StepPush(s, t, false).0;
    assert s'.threads[t] == s.threads[t].(pc := Idle);
    SameListed(s, s', t);
    OwnOutside(s', t);
  }

  lemma PushSucceeds(s: State, t: nat, stk: seq<Addr>)
    requires Inv(s, stk) && t < |s.threads| && s.threads[t].pc.PushCas?
    requires s.head == s.threads[t].pc.seen
    ensures s.threads[t].pc.node !in stk
    ensures Inv(StepPush(s, t, false).0, [s.threads[t].pc.node] + stk)
  {
    var s' := StepPush(s, t, false).0;
    InvAt(s, stk, t);
    PushChain(s, t, stk);
    PushQuiet(s, t, stk);
    hide *;
    Compose(s, s', t, stk, [s.threads[t].pc.node] + stk);
  }

  lemma StepPushInv(s: State, t: nat, spurious: bool, stk: seq<Addr>)
    requires Inv(s, stk) && t < |s.threads|
    requires s.threads[t].pc.PushLoad? || s.threads[t].pc.PushLink? || s.threads[t].pc.PushCas?
    ensures Legal(stk, StepPush(s, t, spurious).1)
    ensures Inv(StepPush(s, t, spurious).0, Apply(stk, StepPush(s, t, spurious).1))
  {
    assert PcOk(s, t) && ListOk(s, t);
    match s.threads[t].pc
    case PushLoad(node) =>
      GotoMoves(s, t, PushLink(node, s.head));
      MoveInv(s, t, PushLink(node, s.head), s.threads[t].slots[0], stk);
    case PushLink(_, _) => PushLinkInv(s, t, stk);
    case PushCas(node, seen) =>
      if s.head == seen && !spurious {
        PushSucceeds(s, t, stk);
      } else {
        GotoMoves(s, t, PushLoad(node));
        MoveInv(s, t, PushLoad(node), s.threads[t].slots[0], stk);
      }
  }

  lemma PopChain(s: State, t: nat, stk: seq<Addr>)
    requires ChainOk(s, stk) && t < |s.threads| && s.threads[t].pc.PopCas? && PcOk(s, t)
    requires s.head == s.threads[t].pc.seen
    ensures stk != [] && stk[0] == s.threads[t].pc.seen
    ensures ChainOk(StepPop(s, t, false).0, stk[1..])
  {
    var s' := StepPop(s, t, false).0;
    var stk' := stk[1..];
    if stk' != [] { assert stk'[0] == At(stk, 1) && Pos(stk', stk'[0], 0) && Pos(stk, stk'[0], 1); }
    forall a, i | Pos(stk', a, i) ensures a in s'.heap && s'.heap[a] == Cell(At(stk', i + 1), Stacked) {
      assert Pos(stk, a, i + 1);
    }
    forall a | a in s'.heap && s'.heap[a].owner == Stacked ensures a in stk' {
      assert a in stk && a != stk[0];
    }
  }

  lemma PopQuiet(s: State, t: nat, stk: seq<Addr>)
    requires t < |s.threads| && PcOk(s, t) && ListOk(s, t) && ChainOk(s, stk) && s.threads[t].pc.PopCas?
    requires s.head == s.threads[t].pc.seen
    ensures Quiet(s, StepPop(s, t, false).0, t) && OwnOk(StepPop(s, t, false).0, t)
  {
    hide ListOk, SuspectsOk, CursorOk, ChainOk;
    var s' := StepPop(s, t, false).0;
    HeadStacked(s, stk);
    assert s'.threads[t] == s.threads[t].(pc := PopRelease(s.head));
    SameListed(s, s', t);
    OwnOutside(s', t);
  }

  lemma PopSucceeds(s: State, t: nat, stk: seq<Addr>)
    requires Inv(s, stk) && t < |s.threads| && s.threads[t].pc.PopCas?
    requires s.head == s.threads[t].pc.seen
    ensures stk != [] && stk[0] == s.threads[t].pc.seen
    ensures Inv(StepPop(s, t, false).0, stk[1..])
  {
    var s' := StepPop(s, t, false).0;
    InvAt(s, stk, t);
    PopChain(s, t, stk);
    HeadStacked(s, stk);
    PopQuiet(s, t, stk);
    hide *;
    Compose(s, s', t, stk, stk[1..]);
  }

  lemma StepPopInv(s: State, t: nat, spurious: bool, stk: seq<Addr>)
    requires Inv(s, stk) && t < |s.threads| && (s.threads[t].pc.PopLoad? || s.threads[t].pc.PopProtect?
             || s.threads[t].pc.PopCheck? || s.threads[t].pc.PopNext? || s.threads[t].pc.PopCas? || s.threads[t].pc.PopRelease?)
    ensures Legal(stk, StepPop(s, t, spurious).1)
    ensures Inv(StepPop(s, t, spurious).0, Apply(stk, StepPop(s, t, spurious).1))
  {
    var th := s.threads[t];
    if th.pc.PopCas? && s.head == th.pc.seen && !spurious {
      PopSucceeds(s, t, stk);
    } else {
      hide Inv, ChainOk, ListOk;
      InvAt(s, stk, t);
      HeadStacked(s, stk);
      RowLength(s, t);
      PopMoves(s, t, spurious);
      var s' := StepPop(s, t, spurious).0;
      MoveInv(s, t, s'.threads[t].pc, s'.threads[t].slots[0], stk);
    }
  }

  lemma RowLength(s: State, t: nat)
    requires t < |s.threads| && ListOk(s, t)
    ensures |s.threads[t].slots| == HP_PER_THREAD && s.threads[t].slots[1] == 0
  {
  }

  /** Every step of a pop but the successful swap only moves the thread, and shows and guards nothing new but the
      top of the stack. */
  lemma PopMoves(s: State, t: nat, spurious: bool)
    requires t < |s.threads| && PcOk(s, t) && |s.threads[t].slots| == HP_PER_THREAD && s.threads[t].slots[1] == 0
    requires s.head != 0 ==> s.head in s.heap && s.heap[s.head].owner == Stacked
    requires s.threads[t].pc.PopLoad? || s.threads[t].pc.PopProtect? || s.threads[t].pc.PopCheck? || s.threads[t].pc.PopNext?
             || s.threads[t].pc.PopCas? || s.threads[t].pc.PopRelease?
    requires s.threads[t].pc.PopCas? ==> s.head != s.threads[t].pc.seen || spurious
    ensures var s' := StepPop(s, t, spurious).0;
      && |s'.threads| == |s.threads| && |s'.threads[t].slots| == HP_PER_THREAD && PcOk(s', t) && !Scanning(s'.threads[t])
      && s' == Moved(s, t, s'.threads[t].pc, s'.threads[t].slots[0])
      && (forall a :: a in Shown(s'.threads[t]) && a !in Shown(s.threads[t]) && a in s.heap ==> !s.heap[a].owner.Listed?)
      && (forall a :: Guards(s'.threads[t], a) && !Guards(s.threads[t], a) && a in s.heap ==> !s.heap[a].owner.Listed?)
  {
    GotoMoves(s, t, StepPop(s, t, spurious).0.threads[t].pc);
  }

  lemma MallocInv(s: State, t: nat, a: Addr, junk: Addr, stk: seq<Addr>)
    requires Inv(s, stk) && t < |s.threads| && s.threads[t].pc.Idle?
    requires a != 0 && a !in s.heap
    ensures Inv(s.(heap := s.heap[a := Cell(junk, Private(t))]), stk)
  {
    var s' := s.(heap := s.heap[a := Cell(junk, Private(t))]);
    InvAt(s, stk, t);
    MallocQuiet(s, t, a, junk, stk);
    SameListed(s, s', t);
    hide *;
    OwnOutside(s', t) by { IdlePc(s', t); }
    Compose(s, s', t, stk, stk);
  }

  lemma IdlePc(s: State, t: nat)
    requires t < |s.threads| && s.threads[t].pc.Idle?
    ensures PcOk(s, t) && !Scanning(s.threads[t])
  {
  }

  lemma MallocQuiet(s: State, t: nat, a: Addr, junk: Addr, stk: seq<Addr>)
    requires t < |s.threads| && s.threads[t].pc.Idle? && ChainOk(s, stk) && a != 0 && a !in s.heap
    ensures var s' := s.(heap := s.heap[a := Cell(junk, Private(t))]); Quiet(s, s', t) && ChainOk(s', stk)
  {
  }

  lemma StepIdleInv(s: State, t: nat, c: Choice, stk: seq<Addr>)
    requires Inv(s, stk) && t < |s.threads| && s.threads[t].pc.Idle?
    ensures Inv(StepIdle(s, t, c), stk)
  {
    assert PcOk(s, t) && ListOk(s, t);
    var slot := s.threads[t].slots[0];
    match c
    case Malloc(a, junk) =>
      if a != 0 && a !in s.heap { MallocInv(s, t, a, junk, stk); }
    case CallPush(a) =>
      GotoMoves(s, t, PushLoad(a));
      if a in s.heap && s.heap[a].owner == Private(t) { MoveInv(s, t, PushLoad(a), slot, stk); }
    case CallPop =>
      GotoMoves(s, t, PopLoad);
      MoveInv(s, t, PopLoad, slot, stk);
    case CallRetire(a) =>
      if a in s.heap && s.heap[a].owner == Popped(t) { RetireInv(s, t, a, stk); }
    case _ =>
  }

  lemma RetireInv(s: State, t: nat, a: Addr, stk: seq<Addr>)
    requires Inv(s, stk) && t < |s.threads| && s.threads[t].pc.Idle?
    requires a in s.heap && s.heap[a].owner == Popped(t)
    ensures Inv(Retire(s, t, a), stk)
  {
    var s' := Retire(s, t, a);
    InvAt(s, stk, t);
    RetireQuiet(s, t, a, stk);
    RetireList(s, t, a);
    RetireSuspects(s, t, a, stk);
    RetireOwn(s, t, a);
    hide *;
    Compose(s, s', t, stk, stk);
  }

  lemma RetireQuiet(s: State, t: nat, a: Addr, stk: seq<Addr>)
    requires t < |s.threads| && s.threads[t].pc.Idle? && ChainOk(s, stk)
    requires a in s.heap && s.heap[a].owner == Popped(t)
    ensures Quiet(s, Retire(s, t, a), t) && ChainOk(Retire(s, t, a), stk)
  {
  }

  lemma RetireOwn(s: State, t: nat, a: Addr)
    requires t < |s.threads| && s.threads[t].pc.Idle? && ListOk(Retire(s, t, a), t) && SuspectsOk(Retire(s, t, a), t)
    ensures OwnOk(Retire(s, t, a), t)
  {
    hide ListOk, SuspectsOk;
  }

  lemma RetireList(s: State, t: nat, a: Addr)
    requires t < |s.threads| && s.threads[t].pc.Idle? && ListOk(s, t)
    requires a in s.heap && s.heap[a].owner == Popped(t)
    ensures ListOk(Retire(s, t, a), t)
  {
    var s' := Retire(s, t, a);
    var th, th' := s.threads[t], s'.threads[t];
    forall b | b in s'.heap && s'.heap[b].owner == Listed(t) ensures Holds(th', b) {
      if b == a {
        assert Active(th', th.count) && th'.retired[th.count] == a;
      } else {
        assert Holds(th, b);
        var j :| 0 <= j < |th.retired| && Active(th, j) && th.retired[j] == b;
        assert Active(th', j) && th'.retired[j] == b;
      }
    }
  }

  lemma ShownCard(th: Thread)
    requires |th.slots| == HP_PER_THREAD && th.slots[1] == 0
    ensures |Shown(th)| <= HP_PER_THREAD
  {
    var most := {th.slots[0], if th.pc.PopProtect? then th.pc.seen else th.slots[0]};
    assert Shown(th) <= most;
    SubsetCard(Shown(th), most);
  }

  lemma {:induction false} ShownByAllBound(threads: seq<Thread>)
    requires forall t :: 0 <= t < |threads| ==> |threads[t].slots| == HP_PER_THREAD && threads[t].slots[1] == 0
    ensures |ShownByAll(threads)| <= HP_PER_THREAD * |threads|
  {
    if threads != [] {
      hide Shown;
      ShownByAllBound(threads[1..]);
      ShownCard(threads[0]);
    }
  }

  lemma {:induction false} ShownByAllHas(threads: seq<Thread>, t: nat)
    requires t < |threads|
    ensures Shown(threads[t]) <= ShownByAll(threads)
  {
    hide Shown;
    if t > 0 {
      ShownByAllHas(threads[1..], t - 1);
      assert threads[t] == threads[1..][t - 1];
    }
  }

  lemma SubsetCard<T>(a: set<T>, b: set<T>)
    requires a <= b
    ensures |a| <= |b|
  {
    assert b == a + (b - a);
  }

  lemma RowOf(s: State, t: nat, stk: seq<Addr>)
    requires Inv(s, stk) && t < |s.threads| && s.threads[t].pc.Idle?
    ensures s.threads[t].keep == 0
  {
    assert ListOk(s, t);
  }

  lemma ThreadsShow(s: State, stk: seq<Addr>)
    requires Inv(s, stk)
    ensures |ShownByAll(s.threads)| <= HP_PER_THREAD * MAX_THREADS
  {
    hide ShownByAll, ChainOk;
    forall v | 0 <= v < |s.threads| ensures |s.threads[v].slots| == HP_PER_THREAD && s.threads[v].slots[1] == 0 {
      assert ListOk(s, v);
    }
    ShownByAllBound(s.threads);
  }

  lemma RetireSuspects(s: State, t: nat, a: Addr, stk: seq<Addr>)
    requires Inv(s, stk) && t < |s.threads| && s.threads[t].pc.Idle?
    ensures SuspectsOk(Retire(s, t, a), t)
  {
    var s' := Retire(s, t, a);
    ThreadsShow(s, stk);
    RowOf(s, t, stk);
    hide Inv, ShownByAll, Shown;
    forall v | 0 <= v < |s.threads| ensures Shown(s'.threads[v]) <= ShownByAll(s.threads) {
      RetireShows(s, t, a, v);
      ShownByAllHas(s.threads, v);
    }
  }

  lemma RetireShows(s: State, t: nat, a: Addr, v: nat)
    requires t < |s.threads| && s.threads[t].pc.Idle? && v < |s.threads|
    ensures Shown(Retire(s, t, a).threads[v]) == Shown(s.threads[v])
  {
  }

  lemma StepRegisterInv(s: State, t: nat, stk: seq<Addr>)
    requires Inv(s, stk) && t < |s.threads| && s.threads[t].pc.RegisterSlot?
    ensures Inv(StepRegister(s, t), stk)
  {
    assert PcOk(s, t) && ListOk(s, t);
    var s' := StepRegister(s, t);
    var th := s.threads[t];
    assert Put(th.slots, 1, 0) == th.slots;
    GotoMoves(s, t, s'.threads[t].pc);
    MoveInv(s, t, s'.threads[t].pc, s'.threads[t].slots[0], stk);
  }

  // ----- The scan

  lemma ScanBeginInv(s: State, t: nat, stk: seq<Addr>)
    requires Inv(s, stk) && t < |s.threads| && s.threads[t].pc.ScanBegin?
    ensures Inv(StepScan(s, t), stk)
  {
    var s' := StepScan(s, t);
    InvAt(s, stk, t);
    forall v | 0 <= v < |s.threads| ensures PcOk(s, v) {}
    ScanStarts(s, t);
    CursorMoved(s, s', t);
    ScanQuiet(s, s', t);
    SameChain(s, s', stk);
    hide *;
    OwnIs(s', t);
    Compose(s, s', t, stk, stk);
  }

  lemma ScanStarts(s: State, t: nat)
    requires t < |s.threads| && s.threads[t].pc.ScanBegin?
    ensures var s' := StepScan(s, t); CursorOk(s', t) && PcOk(s', t) && s' == Goto(s, t, s'.threads[t].pc)
  {
  }

  /** Moving the cursor leaves the retired list and the suspects as they were. */
  lemma CursorMoved(s: State, s': State, t: nat)
    requires t < |s.threads| == |s'.threads| && ListOk(s, t) && SuspectsOk(s, t)
    requires Scanning(s.threads[t]) && Scanning(s'.threads[t])
    requires s' == Goto(s, t, s'.threads[t].pc)
    ensures ListOk(s', t) && SuspectsOk(s', t)
  {
    var th, th' := s.threads[t], s'.threads[t];
    forall a | a in s'.heap && s'.heap[a].owner == Listed(t) ensures Holds(th', a) {
      assert Holds(th, a);
      var j :| 0 <= j < |th.retired| && Active(th, j) && th.retired[j] == a;
      assert Active(th', j) && th'.retired[j] == a;
    }
    forall v | 0 <= v < |s.threads| ensures Shown(s'.threads[v]) == Shown(s.threads[v]) {}
  }

  /** Passing slot k of thread u, which does not hold the entry, passes no guard of the entry. */
  lemma ScanPassInv(s: State, t: nat, stk: seq<Addr>)
    requires Inv(s, stk) && t < |s.threads| && s.threads[t].pc.ScanSlot?
    requires s.threads[t].pc.u < s.threads[t].pc.n && s.threads[t].pc.u < |s.threads|
    requires At(s.threads[s.threads[t].pc.u].slots, s.threads[t].pc.k) != At(s.threads[t].retired, s.threads[t].i)
    ensures Inv(StepScan(s, t), stk)
  {
    var s' := StepScan(s, t);
    InvAt(s, stk, t);
    forall v | 0 <= v < |s.threads| ensures PcOk(s, v) {}
    ScanPasses(s, t);
    CursorMoved(s, s', t);
    ScanQuiet(s, s', t);
    SameChain(s, s', stk);
    hide *;
    OwnIs(s', t);
    Compose(s, s', t, stk, stk);
  }

  lemma SameChain(s: State, s': State, stk: seq<Addr>)
    requires ChainOk(s, stk) && s'.heap == s.heap && s'.head == s.head
    ensures ChainOk(s', stk)
  {
  }

  lemma ScanPasses(s: State, t: nat)
    requires t < |s.threads| && s.threads[t].pc.ScanSlot? && CursorOk(s, t)
    requires s.threads[t].pc.u < s.threads[t].pc.n && s.threads[t].pc.u < |s.threads|
    requires At(s.threads[s.threads[t].pc.u].slots, s.threads[t].pc.k) != At(s.threads[t].retired, s.threads[t].i)
    requires forall v :: 0 <= v < |s.threads| ==> PcOk(s, v)
    ensures var s' := StepScan(s, t); CursorOk(s', t) && PcOk(s', t) && s' == Goto(s, t, s'.threads[t].pc)
  {
    var s' := StepScan(s, t);
    var th, th' := s.threads[t], s'.threads[t];
    forall v | 0 <= v < |s'.threads| && Guards(s'.threads[v], At(th'.retired, th'.i))
      ensures v < th'.pc.n && (v > th'.pc.u || (v == th'.pc.u && th'.pc.k == 0))
    {
      assert v != t && Guards(s.threads[v], At(th.retired, th.i));
      assert PcOk(s, v);
    }
  }

  /** A kept entry moves to the end of the kept part, and the examined part shrinks by it. */
  lemma KeepIs(th: Thread)
    requires |th.retired| == RETIRE_LIMIT && th.keep <= th.i < th.count == RETIRE_LIMIT && th.keep + 1 < RETIRE_LIMIT
    ensures Keep(th).slots == th.slots && Keep(th).retired == th.retired[th.keep := th.retired[th.i]]
    ensures forall j :: Active(Keep(th), j) <==> 0 <= j <= th.keep || th.i < j < th.count
    ensures if Scanning(Keep(th)) then Keep(th).keep <= Keep(th).i < Keep(th).count == RETIRE_LIMIT
            else Keep(th).keep == 0 == Keep(th).i && Keep(th).count < RETIRE_LIMIT
  {
  }

  lemma KeepList(s: State, t: nat)
    requires t < |s.threads| && ListOk(s, t) && s.threads[t].pc.ScanSlot?
    requires s.threads[t].keep + 1 < RETIRE_LIMIT
    ensures ListOk(s.(threads := s.threads[t := Keep(s.threads[t])]), t)
  {
    hide Keep, Holds;
    var th := s.threads[t];
    var th' := Keep(th);
    KeepIs(th);
    KeepHolds(s, t);
    forall j | 0 <= j < RETIRE_LIMIT && Active(th', j)
      ensures th'.retired[j] in s.heap && s.heap[th'.retired[j]].owner == Listed(t)
    {
      assert Active(th, if j == th.keep then th.i else j);
    }
    KeepDistinct(s, t);
  }

  lemma KeepHolds(s: State, t: nat)
    requires t < |s.threads| && ListOk(s, t) && s.threads[t].pc.ScanSlot?
    requires s.threads[t].keep + 1 < RETIRE_LIMIT
    ensures forall a :: a in s.heap && s.heap[a].owner == Listed(t) ==> Holds(Keep(s.threads[t]), a)
  {
    hide Keep;
    var th := s.threads[t];
    var th' := Keep(th);
    KeepIs(th);
    forall a | a in s.heap && s.heap[a].owner == Listed(t) ensures Holds(th', a) {
      assert Holds(th, a);
      var j :| 0 <= j < |th.retired| && Active(th, j) && th.retired[j] == a;
      var j' := if j == th.i then th.keep else j;
      assert Active(th', j') && th'.retired[j'] == a;
    }
  }

  lemma KeepDistinct(s: State, t: nat)
    requires t < |s.threads| && ListOk(s, t) && s.threads[t].pc.ScanSlot?
    requires s.threads[t].keep + 1 < RETIRE_LIMIT
    ensures |Keep(s.threads[t]).retired| == RETIRE_LIMIT
    ensures var th' := Keep(s.threads[t]);
      forall j, k :: 0 <= j < k < RETIRE_LIMIT && Active(th', j) && Active(th', k) ==> th'.retired[j] != th'.retired[k]
  {
    hide Keep, Holds;
    var th := s.threads[t];
    var th' := Keep(th);
    KeepIs(th);
    forall j, k | 0 <= j < k < RETIRE_LIMIT && Active(th', j) && Active(th', k)
      ensures th'.retired[j] != th'.retired[k]
    {
      assert Active(th, if j == th.keep then th.i else j) && Active(th, if k == th.keep then th.i else k);
    }
  }

  /** A kept entry is a suspect, so fewer entries are kept than there are suspects. */
  lemma KeepBound(s: State, t: nat)
    requires t < |s.threads| && ListOk(s, t) && SuspectsOk(s, t) && s.threads[t].pc.ScanSlot?
    requires s.threads[t].retired[s.threads[t].i] in s.threads[t].suspects
    ensures s.threads[t].keep + 1 <= |s.threads[t].suspects| <= HP_PER_THREAD * MAX_THREADS
  {
    var th := s.threads[t];
    var kept := th.retired[..th.keep] + [th.retired[th.i]];
    assert Active(th, th.i);
    assert Distinct(kept) by {
      forall i, j | 0 <= i < j < |kept| ensures kept[i] != kept[j] {
        assert Active(th, i) && Active(th, if j == th.keep then th.i else j);
      }
    }
    DistinctBound(kept, th.suspects);
  }

  lemma DistinctBound(a: seq<Addr>, b: set<Addr>)
    requires Distinct(a) && forall i :: 0 <= i < |a| ==> a[i] in b
    ensures |a| <= |b|
  {
    if a != [] {
      var x, init := a[|a| - 1], a[..|a| - 1];
      DistinctBound(init, b - {x});
    }
  }

  lemma KeepSuspects(s: State, t: nat)
    requires t < |s.threads| && ListOk(s, t) && SuspectsOk(s, t) && s.threads[t].pc.ScanSlot?
    requires s.threads[t].retired[s.threads[t].i] in s.threads[t].suspects
    ensures SuspectsOk(s.(threads := s.threads[t := Keep(s.threads[t])]), t)
  {
    var s' := s.(threads := s.threads[t := Keep(s.threads[t])]);
    forall v | 0 <= v < |s.threads| ensures Shown(s'.threads[v]) == Shown(s.threads[v]) {}
  }

  lemma ScanQuiet(s: State, s': State, t: nat)
    requires t < |s.threads| == |s'.threads| && s'.heap == s.heap && s'.threads == s.threads[t := s'.threads[t]]
    requires s'.threads[t].slots == s.threads[t].slots
    requires s'.threads[t].pc.Idle? || Scanning(s'.threads[t])
    ensures Quiet(s, s', t)
  {
    assert Shown(s'.threads[t]) <= Shown(s.threads[t]);
  }

  lemma KeepOwn(s: State, t: nat)
    requires t < |s.threads| && OwnOk(s, t) && s.threads[t].pc.ScanSlot?
    requires s.threads[t].pc.u < |s.threads| && ListOk(s, s.threads[t].pc.u)
    requires At(s.threads[s.threads[t].pc.u].slots, s.threads[t].pc.k) == At(s.threads[t].retired, s.threads[t].i)
    requires 0 !in s.heap
    ensures OwnOk(s.(threads := s.threads[t := Keep(s.threads[t])]), t)
  {
    OwnIs(s, t);
    KeepIsSuspect(s, t);
    hide ListOk, SuspectsOk, CursorOk, Shown, Keep;
    KeepBound(s, t);
    KeepList(s, t);
    KeepSuspects(s, t);
    KeepPc(s, t);
  }

  lemma KeepPc(s: State, t: nat)
    requires t < |s.threads|
    requires var s' := s.(threads := s.threads[t := Keep(s.threads[t])]); ListOk(s', t) && SuspectsOk(s', t)
    ensures OwnOk(s.(threads := s.threads[t := Keep(s.threads[t])]), t)
  {
    hide ListOk, SuspectsOk;
  }

  /** The entry that a slot shows is a suspect. */
  lemma KeepIsSuspect(s: State, t: nat)
    requires t < |s.threads| && ListOk(s, t) && SuspectsOk(s, t) && s.threads[t].pc.ScanSlot? && 0 !in s.heap
    requires s.threads[t].pc.u < |s.threads| && ListOk(s, s.threads[t].pc.u) && CursorOk(s, t)
    requires At(s.threads[s.threads[t].pc.u].slots, s.threads[t].pc.k) == At(s.threads[t].retired, s.threads[t].i)
    ensures s.threads[t].i < |s.threads[t].retired| && s.threads[t].retired[s.threads[t].i] in s.threads[t].suspects
  {
    var th := s.threads[t];
    assert Active(th, th.i);
    assert th.retired[th.i] in Shown(s.threads[th.pc.u]);
  }

  lemma ScanKeepInv(s: State, t: nat, stk: seq<Addr>)
    requires Inv(s, stk) && t < |s.threads| && s.threads[t].pc.ScanSlot?
    requires s.threads[t].pc.u < s.threads[t].pc.n && s.threads[t].pc.u < |s.threads|
    requires At(s.threads[s.threads[t].pc.u].slots, s.threads[t].pc.k) == At(s.threads[t].retired, s.threads[t].i)
    ensures Inv(StepScan(s, t), stk)
  {
    var s' := StepScan(s, t);
    assert PcOk(s, t) && ListOk(s, t) && SuspectsOk(s, t) && CursorOk(s, t);
    assert ListOk(s, s.threads[t].pc.u);
    KeepOwn(s, t);
    ScanQuiet(s, s', t);
    Compose(s, s', t, stk, stk);
  }

  lemma FreeList(s: State, t: nat, s': State)
    requires t < |s.threads| && ListOk(s, t) && SuspectsOk(s, t) && s.threads[t].pc.ScanSlot?
    requires s.threads[t].keep <= HP_PER_THREAD * MAX_THREADS
    requires s' == s.(heap := s.heap - {At(s.threads[t].retired, s.threads[t].i)}, threads := s.threads[t := Advance(s.threads[t])])
    ensures ListOk(s', t) && SuspectsOk(s', t)
  {
    FreeSuspects(s, t, s');
    FreeHolds(s, t, s');
    hide SuspectsOk, Shown, Holds;
    var th, th' := s.threads[t], s'.threads[t];
    assert Active(th, th.i);
    forall j | 0 <= j < RETIRE_LIMIT && Active(th', j)
      ensures th'.retired[j] in s'.heap && s'.heap[th'.retired[j]].owner == Listed(t)
    {
      assert Active(th, j) && j != th.i;
    }
  }

  lemma FreeHolds(s: State, t: nat, s': State)
    requires t < |s.threads| && ListOk(s, t) && s.threads[t].pc.ScanSlot?
    requires s' == s.(heap := s.heap - {At(s.threads[t].retired, s.threads[t].i)}, threads := s.threads[t := Advance(s.threads[t])])
    ensures forall a :: a in s'.heap && s'.heap[a].owner == Listed(t) ==> Holds(s'.threads[t], a)
  {
    var th, th' := s.threads[t], s'.threads[t];
    forall a | a in s'.heap && s'.heap[a].owner == Listed(t) ensures Holds(th', a) {
      assert Holds(th, a);
      var j :| 0 <= j < |th.retired| && Active(th, j) && th.retired[j] == a;
      assert Active(th', j) && th'.retired[j] == a;
    }
  }

  lemma FreeSuspects(s: State, t: nat, s': State)
    requires t < |s.threads| && SuspectsOk(s, t) && s.threads[t].pc.ScanSlot?
    requires s' == s.(heap := s.heap - {At(s.threads[t].retired, s.threads[t].i)}, threads := s.threads[t := Advance(s.threads[t])])
    ensures SuspectsOk(s', t)
  {
    forall v | 0 <= v < |s.threads| ensures Shown(s'.threads[v]) == Shown(s.threads[v]) {}
  }

  lemma KeptBound(s: State, t: nat)
    requires t < |s.threads| && ListOk(s, t) && SuspectsOk(s, t) && Scanning(s.threads[t])
    ensures s.threads[t].keep <= HP_PER_THREAD * MAX_THREADS
  {
    var th := s.threads[t];
    var kept := th.retired[..th.keep];
    assert Distinct(kept) by {
      forall i, j | 0 <= i < j < |kept| ensures kept[i] != kept[j] { assert Active(th, i) && Active(th, j); }
    }
    DistinctBound(kept, th.suspects);
  }

  lemma FreeChain(s: State, t: nat, stk: seq<Addr>)
    requires ChainOk(s, stk) && t < |s.threads| && ListOk(s, t) && s.threads[t].pc.ScanSlot?
    requires s.threads[t].pc.u >= s.threads[t].pc.n
    ensures ChainOk(StepScan(s, t), stk)
  {
    assert Active(s.threads[t], s.threads[t].i);
  }

  lemma FreeQuiet(s: State, t: nat, stk: seq<Addr>)
    requires ChainOk(s, stk)
    requires t < |s.threads| && ListOk(s, t) && CursorOk(s, t) && s.threads[t].pc.ScanSlot?
    requires s.threads[t].pc.u >= s.threads[t].pc.n
    ensures Quiet(s, StepScan(s, t), t) && ChainOk(StepScan(s, t), stk)
  {
    FreeChain(s, t, stk);
    hide ChainOk;
    var th, s' := s.threads[t], StepScan(s, t);
    var a := th.retired[th.i];
    assert Active(th, th.i);
    assert Shown(s'.threads[t]) <= Shown(th);
    forall v, b | 0 <= v < |s.threads| && v != t && Guards(s.threads[v], b)
                  && b in s.heap && !s.heap[b].owner.Private?
      ensures b in s'.heap && s'.heap[b] == s.heap[b]
    {
      assert b != a;
    }
  }

  /** The scan frees an entry only when no thread guards it. */
  lemma ScanFreeInv(s: State, t: nat, stk: seq<Addr>)
    requires Inv(s, stk) && t < |s.threads| && s.threads[t].pc.ScanSlot?
    requires s.threads[t].pc.u >= s.threads[t].pc.n
    ensures Inv(StepScan(s, t), stk)
  {
    var s' := StepScan(s, t);
    assert PcOk(s, t) && ListOk(s, t) && SuspectsOk(s, t) && CursorOk(s, t);
    var th := s.threads[t];
    assert Active(th, th.i);
    KeptBound(s, t);
    FreeList(s, t, s');
    FreeQuiet(s, t, stk);
    Compose(s, s', t, stk, stk);
  }

  lemma StepScanInv(s: State, t: nat, stk: seq<Addr>)
    requires Inv(s, stk) && t < |s.threads| && Scanning(s.threads[t])
    ensures Inv(StepScan(s, t), stk)
  {
    assert CursorOk(s, t);
    match s.threads[t].pc
    case ScanBegin => ScanBeginInv(s, t, stk);
    case ScanSlot(n, u, k) =>
      if u >= n {
        ScanFreeInv(s, t, stk);
      } else if At(s.threads[u].slots, k) == At(s.threads[t].retired, s.threads[t].i) {
        ScanKeepInv(s, t, stk);
      } else {
        ScanPassInv(s, t, stk);
      }
    case _ => assert false;
  }

  lemma RegisterInv(s: State, stk: seq<Addr>)
    requires Inv(s, stk) && |s.threads| < MAX_THREADS
    ensures Inv(s.(threads := s.threads + [NewThread()]), stk)
  {
    var s' := s.(threads := s.threads + [NewThread()]);
    forall v | 0 <= v < |s'.threads| ensures PcOk(s', v) && ListOk(s', v) && SuspectsOk(s', v) && CursorOk(s', v) {
      if v < |s.threads| {
        RegisterKeeps(s, v);
      } else {
        NewcomerOk(s, v);
      }
    }
  }

  lemma RegisterKeeps(s: State, v: nat)
    requires v < |s.threads| && PcOk(s, v) && ListOk(s, v) && SuspectsOk(s, v) && CursorOk(s, v)
    ensures var s' := s.(threads := s.threads + [NewThread()]); PcOk(s', v) && ListOk(s', v) && SuspectsOk(s', v) && CursorOk(s', v)
  {
    assert Shown(NewThread()) == {};
  }

  lemma NewcomerOk(s: State, v: nat)
    requires v == |s.threads| && forall a :: a in s.heap && !s.heap[a].owner.Stacked? ==> s.heap[a].owner.t < |s.threads|
    ensures var s' := s.(threads := s.threads + [NewThread()]); PcOk(s', v) && ListOk(s', v) && SuspectsOk(s', v) && CursorOk(s', v)
  {
  }

  // ----- Every run

  lemma StepInv(s: State, t: nat, c: Choice, stk: seq<Addr>)
    requires Inv(s, stk)
    ensures Legal(stk, Step(s, t, c).1)
    ensures Inv(Step(s, t, c).0, Apply(stk, Step(s, t, c).1))
  {
    if t >= |s.threads| {
      if c.Register? && |s.threads| < MAX_THREADS { RegisterInv(s, stk); }
    } else if s.threads[t].pc.Idle? {
      StepIdleInv(s, t, c, stk);
    } else if c.Go? {
      match s.threads[t].pc
      case PushLoad(_) | PushLink(_, _) | PushCas(_, _) => StepPushInv(s, t, c.spurious, stk);
      case ScanBegin | ScanSlot(_, _, _) => StepScanInv(s, t, stk);
      case RegisterSlot(_) => StepRegisterInv(s, t, stk);
      case PopLoad | PopProtect(_) | PopCheck(_) | PopNext(_) | PopCas(_, _) | PopRelease(_) =>
        StepPopInv(s, t, c.spurious, stk);
    }
  }

  /** Refinement.  Whatever the schedule, the events are a run of the atomic stack, and what the
      atomic stack then holds is the chain of nodes from `head`. */
  lemma {:induction false} RefinesAtomicStack(sched: Schedule)
    ensures Replay(History(sched)).Reached?
    ensures Inv(Run(sched), Replay(History(sched)).stk)
  {
    if sched != [] {
      var init, last := sched[..|sched| - 1], sched[|sched| - 1];
      RefinesAtomicStack(init);
      StepInv(Run(init), last.0, last.1, Replay(History(init)).stk);
      assert History(sched)[..|History(sched)| - 1] == History(init);
    }
  }

  /** What the next step of thread t must not do: touch freed memory, install a stale successor,
      free a node that is not allocated or that another thread is about to read, or write past the
      retired array. */
  ghost predicate NextStepSafe(s: State, t: nat)
    requires t < |s.threads|
  {
    var th := s.threads[t];
    match th.pc
    case PushLink(node, _) => node in s.heap
    case PopNext(seen) => seen in s.heap
    case PopCas(seen, next) =>
      seen in s.heap && (s.head == seen ==> s.heap[seen] == Cell(next, Stacked))
    case ScanSlot(n, u, _) =>
      th.i < |th.retired| && th.keep < |th.retired| &&
      (u >= n ==> && th.retired[th.i] in s.heap && s.heap[th.retired[th.i]].owner == Listed(t)
                  && (forall v :: 0 <= v < |s.threads| ==> !Guards(s.threads[v], th.retired[th.i])))
    case Idle => th.count < RETIRE_LIMIT == |th.retired|
    case _ => true
  }

  lemma SafeInAllRuns(sched: Schedule, t: nat)
    requires t < |Run(sched).threads|
    ensures NextStepSafe(Run(sched), t)
  {
    RefinesAtomicStack(sched);
    var s := Run(sched);
    assert PcOk(s, t) && ListOk(s, t) && CursorOk(s, t);
    if s.threads[t].pc.ScanSlot? {
      assert Active(s.threads[t], s.threads[t].i);
    }
  }

  // ----- Calls and what they return

  datatype Call = NoCall | Push(a: Addr) | Pop

  /** The push or pop that a thread at pc is in. */
  function InCall(pc: Pc): Call {
    match pc
    case PushLoad(node) => Push(node)
    case PushLink(node, _) => Push(node)
    case PushCas(node, _) => Push(node)
    case PopLoad => Pop
    case PopProtect(_) => Pop
    case PopCheck(_) => Pop
    case PopNext(_) => Pop
    case PopCas(_, _) => Pop
    case PopRelease(_) => Pop
    case _ => NoCall
  }

  function Asked(c: Choice): Call {
    match c
    case CallPush(a) => Push(a)
    case CallPop => Pop
    case _ => NoCall
  }

  /** A call begins as it was asked for and keeps its argument. */
  lemma CallStays(s: State, t: nat, c: Choice, v: nat)
    requires v < |Step(s, t, c).0.threads| && InCall(Step(s, t, c).0.threads[v].pc) != NoCall
    ensures v < |s.threads|
    ensures var call := InCall(Step(s, t, c).0.threads[v].pc);
      InCall(s.threads[v].pc) == call || (v == t && s.threads[t].pc.Idle? && Asked(c) == call)
  {
    if t < |s.threads| {
      if s.threads[t].pc.Idle? {
        hide StepPush, StepPop, StepScan, StepRegister;
      } else if InCall(s.threads[t].pc) == Pop {
        if c.Go? { PopCall(s, t, c); }
        hide StepPop;
      } else if InCall(s.threads[t].pc).Push? {
        hide StepPop, StepScan, StepRegister, StepIdle;
      } else {
        hide StepPop, StepPush, StepIdle;
      }
    }
  }

  lemma PopCall(s: State, t: nat, c: Choice)
    requires t < |s.threads| && InCall(s.threads[t].pc) == Pop && c.Go?
    ensures var s' := StepPop(s, t, c.spurious).0;
      s'.threads == s.threads[t := s'.threads[t]] && (s'.threads[t].pc.Idle? || InCall(s'.threads[t].pc) == Pop)
  {
  }

  predicate Calling(sched: Schedule, t: nat, call: Call) {
    t < |Run(sched).threads| && InCall(Run(sched).threads[t].pc) == call
  }

  /** Thread t has been in `call` since it was asked for it at step j. */
  ghost predicate Called(sched: Schedule, t: nat, j: nat, call: Call) {
    && j < |sched| && sched[j].0 == t && Asked(sched[j].1) == call && Calling(sched[..j], t, NoCall)
    && forall m :: j < m <= |sched| ==> Calling(sched[..m], t, call)
  }

  lemma SamePrefix(sched: Schedule, j: nat)
    requires j < |sched|
    ensures sched[..|sched| - 1][..j] == sched[..j]
  {
  }

  lemma CalledLonger(sched: Schedule, t: nat, j: nat, call: Call)
    requires sched != [] && Called(sched[..|sched| - 1], t, j, call) && Calling(sched, t, call)
    ensures Called(sched, t, j, call)
  {
    hide Calling;
    SamePrefix(sched, j);
    forall m | j < m <= |sched| ensures Calling(sched[..m], t, call) {
      if m < |sched| { SamePrefix(sched, m); } else { assert sched[..m] == sched; }
    }
  }

  lemma CalledNow(sched: Schedule, t: nat, call: Call)
    requires sched != [] && sched[|sched| - 1].0 == t && Asked(sched[|sched| - 1].1) == call
    requires Calling(sched[..|sched| - 1], t, NoCall) && Calling(sched, t, call)
    ensures Called(sched, t, |sched| - 1, call)
  {
    hide Calling;
    assert sched[..|sched|] == sched;
  }

  /** Every thread in a call was asked for exactly that call, and has been in it since. */
  lemma {:induction false} CalledWith(sched: Schedule, t: nat, call: Call) returns (j: nat)
    requires Calling(sched, t, call) && call != NoCall
    ensures Called(sched, t, j, call)
  {
    assert sched != [];
    var init, last := sched[..|sched| - 1], sched[|sched| - 1];
    CallStays(Run(init), last.0, last.1, t);
    hide Step, Called;
    if InCall(Run(init).threads[t].pc) == call {
      j := CalledWith(init, t, call);
      CalledLonger(sched, t, j, call);
    } else {
      j := |init|;
      CalledNow(sched, t, call);
    }
  }

  function EventAt(sched: Schedule, i: nat): Event
    requires i < |sched|
  {
    Step(Run(sched[..i]), sched[i].0, sched[i].1).1
  }

  /** Each push is of the node that the thread's call was given, and each pop belongs to a call of `hps_pop`. */
  lemma EventsAreAsked(sched: Schedule, i: nat) returns (j: nat)
    requires i < |sched| && EventAt(sched, i) != Internal
    ensures Called(sched[..i], sched[i].0, j, match EventAt(sched, i) case Pushed(a) => Push(a) case _ => Pop)
  {
    var call := match EventAt(sched, i) case Pushed(a) => Push(a) case _ => Pop;
    EventCall(Run(sched[..i]), sched[i].0, sched[i].1);
    j := CalledWith(sched[..i], sched[i].0, call);
  }

  lemma EventCall(s: State, t: nat, c: Choice)
    requires Step(s, t, c).1 != Internal
    ensures t < |s.threads| && InCall(s.threads[t].pc) == match Step(s, t, c).1 case Pushed(a) => Push(a) case _ => Pop
  {
  }

  /** Step j of the schedule is the pop of a by thread t, which is about to return it. */
  ghost predicate Took(sched: Schedule, t: nat, j: nat, a: Addr) {
    && j < |sched| && sched[j].0 == t && EventAt(sched, j) == PoppedTop(a)
    && forall m :: j < m <= |sched| ==> Releasing(sched[..m], t, a)
  }

  predicate Releasing(sched: Schedule, t: nat, a: Addr) {
    t < |Run(sched).threads| && Run(sched).threads[t].pc == PopRelease(a)
  }

  lemma ComesToRelease(s: State, t: nat, c: Choice, v: nat)
    requires v < |Step(s, t, c).0.threads| && Step(s, t, c).0.threads[v].pc.PopRelease?
    ensures v < |s.threads|
    ensures s.threads[v].pc == Step(s, t, c).0.threads[v].pc
            || (v == t && Step(s, t, c).1 == PoppedTop(Step(s, t, c).0.threads[v].pc.seen))
  {
    CallStays(s, t, c, v);
    if t < |s.threads| && InCall(s.threads[t].pc) != Pop {
      hide StepPop;
    }
  }

  /** What `hps_pop` returns is the address that its own step popped from the abstract stack. */
  lemma {:induction false} PopReturns(sched: Schedule, t: nat, a: Addr) returns (j: nat)
    requires Releasing(sched, t, a)
    ensures Took(sched, t, j, a)
  {
    assert sched != [];
    var init, last := sched[..|sched| - 1], sched[|sched| - 1];
    ComesToRelease(Run(init), last.0, last.1, t);
    hide Step, Took;
    if Run(init).threads[t].pc == PopRelease(a) {
      j := PopReturns(init, t, a);
      TookLonger(sched, t, j, a);
    } else {
      j := |init|;
      TookNow(sched, t, a);
    }
  }

  lemma TookLonger(sched: Schedule, t: nat, j: nat, a: Addr)
    requires sched != [] && Took(sched[..|sched| - 1], t, j, a) && Releasing(sched, t, a)
    ensures Took(sched, t, j, a)
  {
    hide Step, Releasing;
    SamePrefix(sched, j);
    forall m | j < m <= |sched| ensures Releasing(sched[..m], t, a) {
      if m < |sched| { SamePrefix(sched, m); } else { assert sched[..m] == sched; }
    }
  }

  lemma TookNow(sched: Schedule, t: nat, a: Addr)
    requires sched != [] && sched[|sched| - 1].0 == t && EventAt(sched, |sched| - 1) == PoppedTop(a) && Releasing(sched, t, a)
    ensures Took(sched, t, |sched| - 1, a)
  {
    hide Step, Releasing;
    assert sched[..|sched|] == sched;
  }

  // ----- How calls begin and end

  /** An idle thread that is asked for a call is in it from then on; a push is of a node of the thread's own. */
  lemma CallBegins(s: State, t: nat, c: Choice)
    requires t < |s.threads| && s.threads[t].pc.Idle?
    requires c.CallPush? ==> c.a in s.heap && s.heap[c.a].owner == Private(t)
    ensures InCall(Step(s, t, c).0.threads[t].pc) == Asked(c)
  {
    hide StepPush, StepPop, StepScan, StepRegister;
  }

  /** A step moves no thread but its own. */
  lemma OthersStand(s: State, t: nat, c: Choice, v: nat)
    requires v < |s.threads| && v != t
    ensures v < |Step(s, t, c).0.threads| && Step(s, t, c).0.threads[v] == s.threads[v]
  {
    if t < |s.threads| && InCall(s.threads[t].pc) == Pop {
      if c.Go? { PopCall(s, t, c); }
      hide StepPop;
    }
  }

  /** A push that does not succeed goes on; the one that succeeds ends the call. */
  lemma PushCall(s: State, t: nat, c: Choice)
    requires t < |s.threads| && InCall(s.threads[t].pc).Push?
    ensures var pc', e := Step(s, t, c).0.threads[t].pc, Step(s, t, c).1;
      if e == Internal then InCall(pc') == InCall(s.threads[t].pc) else e == Pushed(InCall(s.threads[t].pc).a) && pc' == Idle
  {
    hide StepPop, StepScan, StepRegister, StepIdle;
  }

  /** A pop goes on until it finds the stack empty, or has taken a node and cleared its hazard slot. */
  lemma PopLeaves(s: State, t: nat, c: Choice)
    requires t < |s.threads| && InCall(s.threads[t].pc) == Pop
    ensures var pc, th', e := s.threads[t].pc, Step(s, t, c).0.threads[t], Step(s, t, c).1;
      && (e == FoundEmpty ==> th'.pc == Idle && th'.slots == s.threads[t].slots)
      && (e.PoppedTop? ==> th'.pc == PopRelease(e.a))
      && (InCall(th'.pc) != Pop ==>
            th'.pc == Idle && (e == FoundEmpty || (pc.PopRelease? && e == Internal && th'.slots == Put(s.threads[t].slots, 0, 0))))
  {
    hide StepPush, StepScan, StepRegister, StepIdle;
  }

  /** Step i takes thread t out of the call that it was in. */
  predicate Ends(sched: Schedule, i: nat, t: nat, call: Call) {
    i < |sched| && call != NoCall && Calling(sched[..i], t, call) && !Calling(sched[..i + 1], t, call)
  }

  lemma EndsAtStep(sched: Schedule, i: nat, t: nat, call: Call)
    requires Ends(sched, i, t, call)
    ensures sched[i].0 == t && Run(sched[..i + 1]) == Step(Run(sched[..i]), t, sched[i].1).0
  {
    hide Step;
    assert sched[..i + 1][..i] == sched[..i];
    if sched[i].0 != t { OthersStand(Run(sched[..i]), sched[i].0, sched[i].1, t); }
  }

  /** For every schedule: a call of `hps_push` ends only with the step that puts its node on the stack. */
  lemma PushEnds(sched: Schedule, i: nat, t: nat, a: Addr)
    requires Ends(sched, i, t, Push(a))
    ensures sched[i].0 == t && EventAt(sched, i) == Pushed(a)
  {
    EndsAtStep(sched, i, t, Push(a));
    PushCall(Run(sched[..i]), t, sched[i].1);
    hide Step;
  }

  /** For every schedule: a call of `hps_pop` ends only by finding the stack empty at that very step, or by returning the
      address that its own step j took from the stack. */
  lemma PopEnds(sched: Schedule, i: nat, t: nat) returns (j: nat, a: Addr)
    requires Ends(sched, i, t, Pop)
    ensures sched[i].0 == t && (EventAt(sched, i) == FoundEmpty || Took(sched[..i], t, j, a))
  {
    EndsAtStep(sched, i, t, Pop);
    PopLeaves(Run(sched[..i]), t, sched[i].1);
    hide Step, Took;
    var pc := Run(sched[..i]).threads[t].pc;
    j, a := 0, 0;
    if pc.PopRelease? {
      a := pc.seen;
      j := PopReturns(sched[..i], t, a);
    }
  }

  // ----- What a thread shows when it is outside a pop

  lemma OutsideSlots(s: State, t: nat, c: Choice)
    requires t < |s.threads| && InCall(s.threads[t].pc) != Pop && |s.threads[t].slots| == HP_PER_THREAD
    ensures At(Step(s, t, c).0.threads[t].slots, 0) == At(s.threads[t].slots, 0) || At(Step(s, t, c).0.threads[t].slots, 0) == 0
  {
    hide StepPop;
  }

  /** Since step j, at which its pop answered NULL, thread t has been outside pops, showing a. */
  ghost predicate LeftShown(sched: Schedule, t: nat, j: nat, a: Addr) {
    && j < |sched| && sched[j].0 == t && EventAt(sched, j) == FoundEmpty
    && forall m :: j < m <= |sched| ==> Shows(sched[..m], t, a)
  }

  predicate Shows(sched: Schedule, t: nat, a: Addr) {
    t < |Run(sched).threads| && InCall(Run(sched).threads[t].pc) != Pop && At(Run(sched).threads[t].slots, 0) == a
  }

  /** For every schedule: a thread outside `hps_pop` shows a node only if its last pop answered NULL. */
  lemma {:induction false} ShownOutside(sched: Schedule, t: nat, a: Addr) returns (j: nat)
    requires Shows(sched, t, a) && a != 0
    ensures LeftShown(sched, t, j, a)
  {
    assert sched != [];
    var init, last := sched[..|sched| - 1], sched[|sched| - 1];
    RefinesAtomicStack(init);
    ShownComes(Run(init), last.0, last.1, t, Replay(History(init)).stk);
    hide Step, LeftShown, Inv;
    if Shows(init, t, a) {
      j := ShownOutside(init, t, a);
      LeftShownLonger(sched, t, j, a);
    } else {
      j := |init|;
      LeftShownNow(sched, t, a);
    }
  }

  lemma ShownComes(s: State, t: nat, c: Choice, v: nat, stk: seq<Addr>)
    requires Inv(s, stk)
    requires var s' := Step(s, t, c).0; v < |s'.threads| && InCall(s'.threads[v].pc) != Pop && At(s'.threads[v].slots, 0) != 0
    ensures v < |s.threads|
    ensures var s' := Step(s, t, c).0;
      (InCall(s.threads[v].pc) != Pop && At(s.threads[v].slots, 0) == At(s'.threads[v].slots, 0))
      || (v == t && Step(s, t, c).1 == FoundEmpty)
  {
    if v < |s.threads| {
      assert ListOk(s, v);
      hide Step, Inv, ListOk, Put;
      if v != t { OthersStand(s, t, c, v); }
      else if InCall(s.threads[t].pc) == Pop {
        PopLeaves(s, t, c);
        Cleared(s.threads[t].slots);
      } else { OutsideSlots(s, t, c); }
    } else {
      Newcomers(s, t, c, v);
    }
  }

  lemma Cleared(slots: seq<Addr>)
    requires |slots| == HP_PER_THREAD
    ensures At(Put(slots, 0, 0), 0) == 0
  {
  }

  lemma Newcomers(s: State, t: nat, c: Choice, v: nat)
    requires v >= |s.threads| && v < |Step(s, t, c).0.threads|
    ensures t >= |s.threads| && At(Step(s, t, c).0.threads[v].slots, 0) == 0
  {
    if t < |s.threads| && InCall(s.threads[t].pc) == Pop {
      if c.Go? { PopCall(s, t, c); }
      hide StepPop;
    }
  }

  lemma LeftShownLonger(sched: Schedule, t: nat, j: nat, a: Addr)
    requires sched != [] && LeftShown(sched[..|sched| - 1], t, j, a) && Shows(sched, t, a)
    ensures LeftShown(sched, t, j, a)
  {
    hide Step, Shows;
    SamePrefix(sched, j);
    forall m | j < m <= |sched| ensures Shows(sched[..m], t, a) {
      if m < |sched| { SamePrefix(sched, m); } else { assert sched[..m] == sched; }
    }
  }

  lemma LeftShownNow(sched: Schedule, t: nat, a: Addr)
    requires sched != [] && sched[|sched| - 1].0 == t && EventAt(sched, |sched| - 1) == FoundEmpty && Shows(sched, t, a)
    ensures LeftShown(sched, t, |sched| - 1, a)
  {
    hide Step, Shows;
    assert sched[..|sched|] == sched;
  }

  // ----- Calls that run alone

  /** The state after k steps of thread t alone, without spurious failures. */
  function Alone(s: State, t: nat, k: nat): State
    decreases k
  {
    if k == 0 then s else Alone(Step(s, t, Go(false)).0, t, k - 1)
  }

  /** How many more steps the push or pop of thread t takes if nobody interferes. */
  function Remaining(s: State, t: nat): nat
    requires t < |s.threads|
  {
    var again := if s.head == 0 then 1 else 6;
    match s.threads[t].pc
    case PushLoad(_) => 3
    case PushLink(_, seen) => if s.head == seen then 2 else 5
    case PushCas(_, seen) => if s.head == seen then 1 else 4
    case PopLoad => again
    case PopProtect(seen) => if s.head == seen then 5 else 2 + again
    case PopCheck(seen) => if s.head == seen then 4 else 1 + again
    case PopNext(seen) => if s.head == seen then 3 else 2 + again
    case PopCas(seen, _) => if s.head == seen then 2 else 1 + again
    case PopRelease(_) => 1
    case _ => 0
  }

  lemma RemainingDrops(s: State, t: nat)
    requires t < |s.threads| && InCall(s.threads[t].pc) != NoCall && PcOk(s, t)
    ensures var s' := Step(s, t, Go(false)).0;
      && |s'.threads| == |s.threads| && Remaining(s', t) == Remaining(s, t) - 1
      && (InCall(s'.threads[t].pc) == NoCall || InCall(s'.threads[t].pc) == InCall(s.threads[t].pc))
  {
    hide StepScan, StepRegister, StepIdle;
  }

  /** Wherever a push or a pop is, run alone it ends within eight steps. */
  lemma {:induction false} CallAlone(s: State, t: nat, stk: seq<Addr>) returns (k: nat)
    requires Inv(s, stk) && t < |s.threads| && InCall(s.threads[t].pc) != NoCall
    ensures k <= 8 && t < |Alone(s, t, k).threads| && InCall(Alone(s, t, k).threads[t].pc) == NoCall
    ensures k == Remaining(s, t)
    decreases Remaining(s, t)
  {
    InvAt(s, stk, t);
    RemainingDrops(s, t);
    StepInv(s, t, Go(false), stk);
    hide Step, Inv;
    var s', e := Step(s, t, Go(false)).0, Step(s, t, Go(false)).1;
    k := 0;
    if InCall(s'.threads[t].pc) != NoCall { k := CallAlone(s', t, Apply(stk, e)); }
    k := k + 1;
    assert Alone(s, t, k) == Alone(s', t, k - 1);
  }

  /** Some hazard slot holds the address. */
  ghost predicate InSlot(threads: seq<Thread>, a: Addr) {
    exists u, k :: 0 <= u < |threads| && 0 <= k < HP_PER_THREAD && SlotHolds(threads, u, k, a)
  }

  predicate SlotHolds(threads: seq<Thread>, u: int, k: int, a: Addr) {
    0 <= u < |threads| && At(threads[u].slots, k) == a
  }

  ghost function Survivors(threads: seq<Thread>, entries: seq<Addr>): seq<Addr> {
    if entries == [] then []
    else (if InSlot(threads, entries[0]) then [entries[0]] else []) + Survivors(threads, entries[1..])
  }

  ghost function Freed(threads: seq<Thread>, entries: seq<Addr>): set<Addr> {
    set a | a in entries && !InSlot(threads, a)
  }

  /** One entry examined without interference: kept if some slot holds it, otherwise freed. */
  lemma {:induction false} EntryAlone(s: State, t: nat) returns (k: nat)
    requires t < |s.threads| && s.threads[t].pc.ScanSlot?
    requires var pc := s.threads[t].pc; pc.n == |s.threads| && pc.u <= pc.n && pc.k < HP_PER_THREAD && (pc.u == pc.n ==> pc.k == 0)
    requires var pc, a := s.threads[t].pc, At(s.threads[t].retired, s.threads[t].i);
      forall u, j :: SlotHolds(s.threads, u, j, a) && 0 <= j < HP_PER_THREAD ==> u > pc.u || (u == pc.u && j >= pc.k)
    ensures k <= HP_PER_THREAD * (s.threads[t].pc.n - s.threads[t].pc.u) - s.threads[t].pc.k + 1
    ensures var th, a := s.threads[t], At(s.threads[t].retired, s.threads[t].i);
      Alone(s, t, k) == if InSlot(s.threads, a) then s.(threads := s.threads[t := Keep(th)])
                        else s.(heap := s.heap - {a}, threads := s.threads[t := Advance(th)])
    decreases s.threads[t].pc.n - s.threads[t].pc.u, HP_PER_THREAD - s.threads[t].pc.k
  {
    var th, s' := s.threads[t], Step(s, t, Go(false)).0;
    var a := At(th.retired, th.i);
    assert Alone(s, t, 1) == Alone(s', t, 0) == s';
    if th.pc.u < th.pc.n {
      if At(s.threads[th.pc.u].slots, th.pc.k) == a {
        assert SlotHolds(s.threads, th.pc.u, th.pc.k, a);
        k := 1;
      } else {
        SameSlots(s.threads, s'.threads, t, a);
        k := EntryAlone(s', t);
        k := k + 1;
        assert Alone(s, t, k) == Alone(s', t, k - 1);
        var th' := s'.threads[t];
        assert s'.threads[t := Keep(th')] == s.threads[t := Keep(th)];
        assert s'.threads[t := Advance(th')] == s.threads[t := Advance(th)];
      }
    } else {
      k := 1;
    }
  }

  lemma SameSlots(threads: seq<Thread>, threads': seq<Thread>, t: nat, a: Addr)
    requires t < |threads| == |threads'| && threads' == threads[t := threads'[t]] && threads'[t].slots == threads[t].slots
    ensures forall u, k :: SlotHolds(threads, u, k, a) <==> SlotHolds(threads', u, k, a)
    ensures InSlot(threads, a) <==> InSlot(threads', a)
  {
  }

  /** The entries that thread th has still to examine. */
  function Entries(th: Thread): seq<Addr> {
    if th.i <= th.count <= |th.retired| then th.retired[th.i..th.count] else []
  }

  /** What the rest of a scan leaves: the entries kept so far and those that a slot holds; the others are freed. */
  ghost predicate Scanned(s: State, s': State, t: nat)
    requires t < |s.threads| && s.threads[t].keep <= |s.threads[t].retired|
  {
    && |s'.threads| == |s.threads| && s'.threads == s.threads[t := s'.threads[t]] && s'.head == s.head
    && s'.threads[t].pc == Idle && s'.threads[t].slots == s.threads[t].slots
    && KeptAre(s, s'.threads[t], t) && FreedAre(s, s'.heap, t)
  }

  ghost predicate KeptAre(s: State, th': Thread, t: nat)
    requires t < |s.threads| && s.threads[t].keep <= |s.threads[t].retired|
  {
    && th'.count <= |th'.retired|
    && th'.retired[..th'.count] == s.threads[t].retired[..s.threads[t].keep] + Survivors(s.threads, Entries(s.threads[t]))
  }

  ghost predicate FreedAre(s: State, heap': map<Addr, Cell>, t: nat)
    requires t < |s.threads|
  {
    heap' == s.heap - Freed(s.threads, Entries(s.threads[t]))
  }

  /** The state once the current entry has been kept or freed. */
  ghost function AfterEntry(s: State, t: nat): State
    requires t < |s.threads|
  {
    var th, a := s.threads[t], At(s.threads[t].retired, s.threads[t].i);
    if InSlot(s.threads, a) then s.(threads := s.threads[t := Keep(th)])
    else s.(heap := s.heap - {a}, threads := s.threads[t := Advance(th)])
  }

  lemma EntryIs(s: State, t: nat) returns (k: nat)
    requires t < |s.threads| && s.threads[t].pc == ScanBegin
    ensures k <= HP_PER_THREAD * |s.threads| + 2
    ensures Alone(s, t, k) == AfterEntry(s, t)
  {
    var th, s' := s.threads[t], Step(s, t, Go(false)).0;
    var a := At(th.retired, th.i);
    SameSlots(s.threads, s'.threads, t, a);
    k := EntryAlone(s', t);
    k := k + 1;
    assert Alone(s, t, k) == Alone(s', t, k - 1);
    assert s'.threads[t := Keep(s'.threads[t])] == s.threads[t := Keep(th)];
    assert s'.threads[t := Advance(s'.threads[t])] == s.threads[t := Advance(th)];
  }

  lemma {:induction false} AloneAdds(s: State, t: nat, j: nat, k: nat)
    ensures Alone(s, t, j + k) == Alone(Alone(s, t, j), t, k)
    decreases j
  {
    hide Step;
    if j > 0 { AloneAdds(Step(s, t, Go(false)).0, t, j - 1, k); }
  }

  /** A scan without interference keeps exactly the entries that some hazard slot holds, in their order, and frees the
      others. */
  lemma {:induction false} ScanAlone(s: State, t: nat) returns (k: nat)
    requires t < |s.threads| && s.threads[t].pc == ScanBegin
    requires s.threads[t].keep <= s.threads[t].i < s.threads[t].count <= |s.threads[t].retired|
    ensures k <= (s.threads[t].count - s.threads[t].i) * (HP_PER_THREAD * |s.threads| + 2)
    ensures Scanned(s, Alone(s, t, k), t)
    decreases s.threads[t].count - s.threads[t].i
  {
    hide Step, Alone, AfterEntry, Scanned;
    k := EntryIs(s, t);
    if s.threads[t].i + 1 < s.threads[t].count {
      EntryNext(s, t);
      var s1 := AfterEntry(s, t);
      var more := ScanAlone(s1, t);
      AloneAdds(s, t, k, more);
      ScannedNext(s, Alone(s1, t, more), t);
      RoundsAdd(s.threads[t].count - s.threads[t].i, HP_PER_THREAD * |s.threads| + 2);
      k := k + more;
    } else {
      ScannedLast(s, t);
    }
  }

  lemma EntryNext(s: State, t: nat)
    requires t < |s.threads| && s.threads[t].keep <= s.threads[t].i && s.threads[t].i + 1 < s.threads[t].count <= |s.threads[t].retired|
    ensures var s' := AfterEntry(s, t);
      && |s'.threads| == |s.threads| && s'.threads[t].pc == ScanBegin && s'.threads[t].i == s.threads[t].i + 1
      && s'.threads[t].count == s.threads[t].count && |s'.threads[t].retired| == |s.threads[t].retired|
      && s'.threads[t].keep <= s'.threads[t].i && s'.threads == s.threads[t := s'.threads[t]] && s'.head == s.head
      && s'.threads[t].slots == s.threads[t].slots
      && Entries(s.threads[t]) == [s.threads[t].retired[s.threads[t].i]] + Entries(s'.threads[t])
    ensures var s', th := AfterEntry(s, t), s.threads[t];
      if InSlot(s.threads, th.retired[th.i])
      then s'.heap == s.heap && s'.threads[t].retired[..s'.threads[t].keep] == th.retired[..th.keep] + [th.retired[th.i]]
      else s'.heap == s.heap - {th.retired[th.i]} && s'.threads[t].retired[..s'.threads[t].keep] == th.retired[..th.keep]
  {
    hide InSlot;
  }

  lemma ScannedLast(s: State, t: nat)
    requires t < |s.threads| && s.threads[t].keep <= s.threads[t].i && s.threads[t].i + 1 == s.threads[t].count <= |s.threads[t].retired|
    ensures Scanned(s, AfterEntry(s, t), t)
  {
    var th := s.threads[t];
    assert th.retired[th.i..th.count] == [th.retired[th.i]];
    assert [th.retired[th.i]][1..] == [];
  }

  lemma ScannedNext(s: State, s2: State, t: nat)
    requires t < |s.threads| && s.threads[t].keep <= s.threads[t].i && s.threads[t].i + 1 < s.threads[t].count <= |s.threads[t].retired|
    requires var s1 := AfterEntry(s, t);
      && |s1.threads| == |s.threads| && s1.threads[t].keep <= |s1.threads[t].retired| && Scanned(s1, s2, t)
    ensures Scanned(s, s2, t)
  {
    EntryNext(s, t);
    hide AfterEntry, Survivors, Freed, KeptAre, FreedAre;
    var s1, th := AfterEntry(s, t), s.threads[t];
    KeptNext(s, s1, s2.threads[t], t);
    FreedNext(s, s1, s2.heap, t);
  }

  lemma KeptNext(s: State, s1: State, th2: Thread, t: nat)
    requires t < |s.threads| == |s1.threads| && s1.threads == s.threads[t := s1.threads[t]] && s1.threads[t].slots == s.threads[t].slots
    requires var th, th1 := s.threads[t], s1.threads[t];
      && th.keep <= th.i < th.count <= |th.retired| && th1.keep <= |th1.retired| && Entries(th) == [th.retired[th.i]] + Entries(th1)
      && th1.retired[..th1.keep]
         == if InSlot(s.threads, th.retired[th.i]) then th.retired[..th.keep] + [th.retired[th.i]] else th.retired[..th.keep]
    requires KeptAre(s1, th2, t)
    ensures KeptAre(s, th2, t)
  {
    var th, rest := s.threads[t], Entries(s1.threads[t]);
    FirstEntry(s.threads, th.retired[th.i], rest);
    OthersSurvive(s.threads, s1.threads, t, rest);
    var kept, others := th.retired[..th.keep], Survivors(s.threads, rest);
    assert th2.retired[..th2.count] == s1.threads[t].retired[..s1.threads[t].keep] + others;
    hide *;
    if InSlot(s.threads, th.retired[th.i]) { Regroup(kept, [th.retired[th.i]], others); }
  }

  lemma FreedNext(s: State, s1: State, heap: map<Addr, Cell>, t: nat)
    requires t < |s.threads| == |s1.threads| && s1.threads == s.threads[t := s1.threads[t]] && s1.threads[t].slots == s.threads[t].slots
    requires var th := s.threads[t];
      && th.i < th.count <= |th.retired| && Entries(th) == [th.retired[th.i]] + Entries(s1.threads[t])
      && s1.heap == if InSlot(s.threads, th.retired[th.i]) then s.heap else s.heap - {th.retired[th.i]}
    requires FreedAre(s1, heap, t)
    ensures FreedAre(s, heap, t)
  {
    var th, rest := s.threads[t], Entries(s1.threads[t]);
    FirstEntry(s.threads, th.retired[th.i], rest);
    OthersSurvive(s.threads, s1.threads, t, rest);
    hide Freed, InSlot, Entries;
    MinusTwice(s.heap, th.retired[th.i], Freed(s.threads, rest));
  }

  lemma OthersSurvive(threads: seq<Thread>, threads': seq<Thread>, t: nat, entries: seq<Addr>)
    requires t < |threads| == |threads'| && threads' == threads[t := threads'[t]] && threads'[t].slots == threads[t].slots
    ensures Survivors(threads, entries) == Survivors(threads', entries) && Freed(threads, entries) == Freed(threads', entries)
  {
    hide InSlot;
    forall a ensures InSlot(threads', a) <==> InSlot(threads, a) { SameSlots(threads, threads', t, a); }
    SameSurvivors(threads, threads', entries);
  }

  lemma Regroup(a: seq<Addr>, b: seq<Addr>, c: seq<Addr>)
    ensures a + b + c == a + (b + c)
  {
  }

  lemma MinusTwice(heap: map<Addr, Cell>, a: Addr, rest: set<Addr>)
    ensures heap - {a} - rest == heap - (rest + {a})
  {
  }

  lemma FirstEntry(threads: seq<Thread>, e: Addr, rest: seq<Addr>)
    ensures Survivors(threads, [e] + rest) == if InSlot(threads, e) then [e] + Survivors(threads, rest) else Survivors(threads, rest)
    ensures Freed(threads, [e] + rest) == if InSlot(threads, e) then Freed(threads, rest) else Freed(threads, rest) + {e}
  {
    hide InSlot;
    assert ([e] + rest)[1..] == rest;
  }

  lemma {:induction false} SameSurvivors(threads: seq<Thread>, threads': seq<Thread>, entries: seq<Addr>)
    requires forall a :: InSlot(threads, a) <==> InSlot(threads', a)
    ensures Survivors(threads, entries) == Survivors(threads', entries) && Freed(threads, entries) == Freed(threads', entries)
  {
    if entries != [] { SameSurvivors(threads, threads', entries[1..]); }
  }

  lemma RoundsAdd(entries: nat, steps: nat)
    ensures entries * steps == (entries - 1) * steps + steps
  {
  }

  /** `hp_retire` without interference: the address is appended to the retired list; when that makes the list full, exactly
      the entries that some hazard slot holds stay, in order, and all others are freed. */
  lemma RetireAlone(s: State, t: nat, a: Addr, stk: seq<Addr>) returns (k: nat)
    requires Inv(s, stk) && t < |s.threads| && s.threads[t].pc == Idle && a in s.heap && s.heap[a].owner == Popped(t)
    ensures var th, s' := s.threads[t], Alone(Step(s, t, CallRetire(a)).0, t, k);
      && th.count < |th.retired| && k <= RETIRE_LIMIT * (HP_PER_THREAD * MAX_THREADS + 2)
      && |s'.threads| == |s.threads| && s'.threads[t].pc == Idle && s'.threads[t].count <= |s'.threads[t].retired|
      && var entries := th.retired[..th.count] + [a];
         && s'.threads[t].retired[..s'.threads[t].count]
            == (if |entries| < RETIRE_LIMIT then entries else Survivors(s.threads, entries))
         && s'.heap.Keys == if |entries| < RETIRE_LIMIT then s.heap.Keys else s.heap.Keys - Freed(s.threads, entries)
  {
    InvAt(s, stk, t);
    var th, s1 := s.threads[t], Step(s, t, CallRetire(a)).0;
    var th1, entries := s1.threads[t], th.retired[..th.count] + [a];
    assert s1 == Retire(s, t, a);
    hide Inv, PcOk, Survivors, Freed, InSlot;
    assert th1.retired[..th1.count] == entries;
    assert s1.heap.Keys == s.heap.Keys;
    k := 0;
    if th1.count >= RETIRE_LIMIT {
      hide Step, Alone, Retire;
      k := ScanAlone(s1, t);
      StepBound(th1.count, |s.threads|);
      OthersSurvive(s.threads, s1.threads, t, entries);
      assert th1.retired[th1.i..th1.count] == entries && th1.retired[..th1.keep] == [];
    }
  }

  lemma StepBound(count: nat, threads: nat)
    requires count == RETIRE_LIMIT && threads <= MAX_THREADS
    ensures count * (HP_PER_THREAD * threads + 2) <= RETIRE_LIMIT * (HP_PER_THREAD * MAX_THREADS + 2)
  {
  }

  // ----- A node that stays shown

  lemma After(sched: Schedule, t: nat, c: Choice) returns (longer: Schedule)
    ensures longer == sched + [(t, c)] && Run(longer) == Step(Run(sched), t, c).0
  {
    longer := sched + [(t, c)];
    assert longer[..|longer| - 1] == sched;
  }

  function IdleThread(shown: Addr): Thread {
    Thread(Idle, [shown, 0], seq(RETIRE_LIMIT, _ => 0), 0, 0, 0, {})
  }

  lemma SlotWrites(a: Addr, b: Addr)
    ensures Put([a, 0], 0, b) == [b, 0] && Put([a, 0], 1, 0) == [a, 0]
  {
  }

  lemma RunNothing()
    ensures Run([]) == START
  {
  }

  lemma OneThread() returns (x: Schedule)
    ensures Run(x) == State(0, map[], [IdleThread(0)])
  {
    hide Run, Put, NewThread;
    SlotWrites(0, 0);
    RunNothing();
    x := After([], 0, Register);
    assert Run(x).threads == [NewThread()] && Run(x).head == 0 && Run(x).heap == map[];
    x := Registers(x, 0, []);
  }

  /** A thread clears its hazard slots and is ready. */
  lemma Registers(x: Schedule, t: nat, before: seq<Thread>) returns (y: Schedule)
    requires |before| == t && Run(x) == State(0, map[], before + [NewThread()])
    ensures Run(y) == State(0, map[], before + [IdleThread(0)])
  {
    hide Run, Put;
    SlotWrites(0, 0);
    var threads := before + [NewThread()];
    y := After(x, t, Go(false));
    assert Run(y) == State(0, map[], threads[t := IdleThread(0).(pc := RegisterSlot(1))]);
    y := After(y, t, Go(false));
    assert Run(y).threads == threads[t := IdleThread(0)] == before + [IdleThread(0)];
  }

  lemma TwoThreads() returns (x: Schedule)
    ensures Run(x) == State(0, map[], [IdleThread(0), IdleThread(0)])
  {
    hide Run, Put, NewThread;
    x := OneThread();
    x := After(x, 1, Register);
    assert [IdleThread(0)] + [NewThread()] == [IdleThread(0), NewThread()];
    x := Registers(x, 1, [IdleThread(0)]);
    assert [IdleThread(0)] + [IdleThread(0)] == [IdleThread(0), IdleThread(0)];
  }

  lemma OnePushed(junk: Addr) returns (x: Schedule)
    ensures Run(x) == State(1, map[1 := Cell(0, Stacked)], [IdleThread(0), IdleThread(0)])
  {
    x := TwoThreads();
    hide Run;
    var threads := [IdleThread(0), IdleThread(0)];
    x := After(x, 0, Malloc(1, junk));
    assert Run(x) == State(0, map[1 := Cell(junk, Private(0))], threads);
    x := After(x, 0, CallPush(1));
    assert Run(x) == State(0, map[1 := Cell(junk, Private(0))], threads[0 := threads[0].(pc := PushLoad(1))]);
    x := After(x, 0, Go(false));
    assert Run(x) == State(0, map[1 := Cell(junk, Private(0))], threads[0 := threads[0].(pc := PushLink(1, 0))]);
    x := After(x, 0, Go(false));
    assert Run(x) == State(0, map[1 := Cell(0, Private(0))], threads[0 := threads[0].(pc := PushCas(1, 0))]);
    x := After(x, 0, Go(false));
  }

  /** A pop by thread t that has shown the only node. */
  lemma ShowsOne(x: Schedule, t: nat, threads: seq<Thread>) returns (y: Schedule)
    requires Run(x) == State(1, map[1 := Cell(0, Stacked)], threads) && t < |threads| && threads[t] == IdleThread(0)
    ensures Run(y) == State(1, map[1 := Cell(0, Stacked)], threads[t := IdleThread(1).(pc := PopCheck(1))])
  {
    hide Run, Put;
    SlotWrites(0, 1);
    var heap := map[1 := Cell(0, Stacked)];
    y := After(x, t, CallPop);
    assert Run(y) == State(1, heap, threads[t := IdleThread(0).(pc := PopLoad)]);
    y := After(y, t, Go(false));
    assert Run(y) == State(1, heap, threads[t := IdleThread(0).(pc := PopProtect(1))]);
    y := After(y, t, Go(false));
  }

  lemma TakesOne(x: Schedule, t: nat, threads: seq<Thread>) returns (y: Schedule)
    requires Run(x) == State(1, map[1 := Cell(0, Stacked)], threads) && t < |threads| && threads[t] == IdleThread(0)
    ensures Run(y) == State(0, map[1 := Cell(0, Popped(t))], threads)
  {
    hide Run, Put;
    SlotWrites(1, 0);
    var heap := map[1 := Cell(0, Stacked)];
    y := ShowsOne(x, t, threads);
    y := After(y, t, Go(false));
    assert Run(y) == State(1, heap, threads[t := IdleThread(1).(pc := PopNext(1))]);
    y := After(y, t, Go(false));
    assert Run(y) == State(1, heap, threads[t := IdleThread(1).(pc := PopCas(1, 0))]);
    y := ReleasesOne(y, t, threads);
  }

  lemma ReleasesOne(x: Schedule, t: nat, threads: seq<Thread>) returns (y: Schedule)
    requires t < |threads| && threads[t] == IdleThread(0)
    requires Run(x) == State(1, map[1 := Cell(0, Stacked)], threads[t := IdleThread(1).(pc := PopCas(1, 0))])
    ensures Run(y) == State(0, map[1 := Cell(0, Popped(t))], threads)
  {
    hide Run, Put;
    SlotWrites(1, 0);
    y := After(x, t, Go(false));
    assert Run(y) == State(0, map[1 := Cell(0, Popped(t))], threads[t := IdleThread(1).(pc := PopRelease(1))]);
    y := After(y, t, Go(false));
    assert threads[t := IdleThread(0)] == threads;
  }

  /** Thread 1 has shown node 1 when thread 0 pops it; its retry finds the stack empty and answers NULL with the slot as
      it is, so that node 1 stays shown although nobody is in a pop. */
  lemma StillShown(junk: Addr) returns (x: Schedule)
    ensures Run(x) == State(0, map[1 := Cell(0, Popped(0))], [IdleThread(0), IdleThread(1)])
    ensures Shows(x, 1, 1) && InSlot(Run(x).threads, 1)
  {
    x := OnePushed(junk);
    x := ShowsOne(x, 1, [IdleThread(0), IdleThread(0)]);
    x := TakesOne(x, 0, [IdleThread(0), IdleThread(1).(pc := PopCheck(1))]);
    x := After(x, 1, Go(false));
    assert Run(x) == State(0, map[1 := Cell(0, Popped(0))], [IdleThread(0), IdleThread(1).(pc := PopLoad)]);
    x := After(x, 1, Go(false));
    assert SlotHolds(Run(x).threads, 1, 0, 1);
  }

  // ----- Conservation

  function Count(es: seq<Event>, e: Event): nat {
    if es == [] then 0 else Count(es[..|es| - 1], e) + if es[|es| - 1] == e then 1 else 0
  }

  /** In every history each push of a is matched by at most one pop of a: what was pushed and not
      yet popped is on the stack, once. */
  lemma {:induction false} PoppedAtMostOnce(es: seq<Event>, a: Addr)
    requires Replay(es).Reached?
    ensures Distinct(Replay(es).stk)
    ensures Count(es, Pushed(a)) == Count(es, PoppedTop(a)) + if a in Replay(es).stk then 1 else 0
  {
    if es != [] {
      var init, e := es[..|es| - 1], es[|es| - 1];
      PoppedAtMostOnce(init, a);
      var stk := Replay(init).stk;
      match e
      case PoppedTop(b) => assert stk == [b] + stk[1..];
      case _ =>
    }
  }
}
