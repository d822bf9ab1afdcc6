/** The Michael-Scott queue of lockfree_queue.c as a step machine.

    Any number of threads run `lf_queue_enqueue`, `lf_queue_dequeue` and `lf_queue_is_empty`; one
    step is one load, store or compare-and-swap on shared memory.  Node addresses are never reused:
    the queue has no reclamation protocol of its own. */
module LockfreeQueue {
  /** An address; 0 is NULL. */
  type Addr = nat

  /** A node, and whether it was ever linked into the queue.  Until then it belongs to the thread
      that allocated it. */
  datatype Node = Node(value: int, next: Addr, owner: Owner)
  datatype Owner = Private(t: nat) | Linked

  datatype Pc =
    | Idle
    | EnqInit(node: Addr)
    | EnqTail(node: Addr)
    | EnqNext(node: Addr, tail: Addr)
    | EnqCheck(node: Addr, tail: Addr, next: Addr)
    | EnqLink(node: Addr, tail: Addr)
    | EnqHelp(node: Addr, tail: Addr, next: Addr)
    | EnqSwing(node: Addr, tail: Addr)
    | DeqHead
    | DeqTail(head: Addr)
    | DeqNext(head: Addr, tail: Addr)
    | DeqCheck(head: Addr, tail: Addr, next: Addr)
    | DeqHelp(tail: Addr, next: Addr)
    | DeqValue(head: Addr, next: Addr)
    | DeqCas(head: Addr, next: Addr, val: int)
    | DeqStore(head: Addr, val: int)
    | EmptyHead
    | EmptyNext(head: Addr)

  datatype State = State(head: Addr, tail: Addr, nodes: map<Addr, Node>, pcs: seq<Pc>)

  datatype Choice =
    | Spawn
    | Malloc(a: Addr, value: int, junk: Addr)
    | CallEnqueue(a: Addr)
    | CallDequeue
    | CallIsEmpty
    | Go(spurious: bool)

  /** `SawEmpty` is the read of a NULL `next` after equal head and tail were loaded; a thread
      returns NULL only if it was its last step before the final check of `head`.
      `Answered` is the result of `lf_queue_is_empty`. */
  datatype Event = Internal | Enqueued(v: int) | Dequeued(v: int) | SawEmpty | Answered(empty: bool)

  /** `lf_queue_init`: one dummy node, at address 1. */
  const START := State(1, 1, map[1 := Node(-1, 0, Linked)], [])

  // ----- Memory accesses, total so that a bad one would show up in the theorems

  function Next(s: State, a: Addr): Addr {
    if a in s.nodes then s.nodes[a].next else 0
  }

  function Value(s: State, a: Addr): int {
    if a in s.nodes then s.nodes[a].value else 0
  }

  function Write(s: State, a: Addr, n: Node): State {
    if a in s.nodes then s.(nodes := s.nodes[a := n]) else s
  }

  function Goto(s: State, t: nat, pc: Pc): State
    requires t < |s.pcs|
  {
    s.(pcs := s.pcs[t := pc])
  }

  // ----- One step

  function StepIdle(s: State, t: nat, c: Choice): State
    requires t < |s.pcs|
  {
    match c
    case Malloc(a, v, junk) =>
      if a != 0 && a !in s.nodes then s.(nodes := s.nodes[a := Node(v, junk, Private(t))]) else s
    case CallEnqueue(a) =>
      if a in s.nodes && s.nodes[a].owner == Private(t) then Goto(s, t, EnqInit(a)) else s
    case CallDequeue => Goto(s, t, DeqHead)
    case CallIsEmpty => Goto(s, t, EmptyHead)
    case _ => s
  }

  function StepEnqueue(s: State, t: nat, spurious: bool): (State, Event)
    requires t < |s.pcs|
  {
    match s.pcs[t]
    case EnqInit(node) =>
      (if node in s.nodes then Write(Goto(s, t, EnqTail(node)), node, s.nodes[node].(next := 0)) else s, Internal)
    case EnqTail(node) => (Goto(s, t, EnqNext(node, s.tail)), Internal)
    case EnqNext(node, tail) => (Goto(s, t, EnqCheck(node, tail, Next(s, tail))), Internal)
    case EnqCheck(node, tail, next) =>
      (Goto(s, t, if s.tail != tail then EnqTail(node)
                  else if next == 0 then EnqLink(node, tail) else EnqHelp(node, tail, next)), Internal)
    case EnqLink(node, tail) =>
      if Next(s, tail) == 0 && !spurious && tail in s.nodes && node in s.nodes then
        (Goto(s, t, EnqSwing(node, tail)).(nodes :=
           s.nodes[tail := s.nodes[tail].(next := node)][node := s.nodes[node].(owner := Linked)]),
         Enqueued(s.nodes[node].value))
      else (Goto(s, t, EnqTail(node)), Internal)
    case EnqHelp(node, tail, next) =>
      (Goto(s, t, EnqTail(node)).(tail := if s.tail == tail && !spurious then next else s.tail), Internal)
    case EnqSwing(node, tail) =>
      (Goto(s, t, Idle).(tail := if s.tail == tail && !spurious then node else s.tail), Internal)
    case _ => (s, Internal)
  }

  function StepDequeue(s: State, t: nat, spurious: bool): (State, Event)
    requires t < |s.pcs|
  {
    match s.pcs[t]
    case DeqHead => (Goto(s, t, DeqTail(s.head)), Internal)
    case DeqTail(head) => (Goto(s, t, DeqNext(head, s.tail)), Internal)
    case DeqNext(head, tail) =>
      (Goto(s, t, DeqCheck(head, tail, Next(s, head))),
       if head == tail && Next(s, head) == 0 then SawEmpty else Internal)
    case DeqCheck(head, tail, next) =>
      (Goto(s, t, if s.head != head then DeqHead
                  else if head != tail then DeqValue(head, next)
                  else if next == 0 then Idle
                  else DeqHelp(tail, next)), Internal)
    case DeqHelp(tail, next) =>
      (Goto(s, t, DeqHead).(tail := if s.tail == tail && !spurious then next else s.tail), Internal)
    case DeqValue(head, next) => (Goto(s, t, DeqCas(head, next, Value(s, next))), Internal)
    case DeqCas(head, next, val) =>
      if s.head == head && !spurious then (Goto(s, t, DeqStore(head, val)).(head := next), Dequeued(val))
      else (Goto(s, t, DeqHead), Internal)
    case DeqStore(head, val) =>
      (if head in s.nodes then Write(Goto(s, t, Idle), head, s.nodes[head].(value := val)) else s, Internal)
    case _ => (s, Internal)
  }

  function StepIsEmpty(s: State, t: nat): (State, Event)
    requires t < |s.pcs|
  {
    match s.pcs[t]
    case EmptyHead => (Goto(s, t, EmptyNext(s.head)), Internal)
    case EmptyNext(head) => (Goto(s, t, Idle), Answered(Next(s, head) == 0))
    case _ => (s, Internal)
  }

  predicate InEnqueue(pc: Pc) {
    pc.EnqInit? || pc.EnqTail? || pc.EnqNext? || pc.EnqCheck? || pc.EnqLink? || pc.EnqHelp? || pc.EnqSwing?
  }

  predicate InIsEmpty(pc: Pc) {
    pc.EmptyHead? || pc.EmptyNext?
  }

  /** One step of thread t; a choice that does not fit where the thread is leaves the state alone. */
  function Step(s: State, t: nat, c: Choice): (State, Event) {
    if t >= |s.pcs| then (if c.Spawn? then s.(pcs := s.pcs + [Idle]) else s, Internal)
    else if s.pcs[t].Idle? then (StepIdle(s, t, c), Internal)
    else if !c.Go? then (s, Internal)
    else if InEnqueue(s.pcs[t]) then StepEnqueue(s, t, c.spurious)
    else if InIsEmpty(s.pcs[t]) then StepIsEmpty(s, t)
    else StepDequeue(s, t, c.spurious)
  }

  type Schedule = seq<(nat, Choice)>

  function Run(sched: Schedule): State {
    if sched == [] then START
    else var last := sched[|sched| - 1]; Step(Run(sched[..|sched| - 1]), last.0, last.1).0
  }

  function EventAt(sched: Schedule, i: nat): Event
    requires i < |sched|
  {
    Step(Run(sched[..i]), sched[i].0, sched[i].1).1
  }

  function History(sched: Schedule): seq<Event> {
    if sched == [] then [] else History(sched[..|sched| - 1]) + [EventAt(sched, |sched| - 1)]
  }

  // ----- The atomic queue

  predicate Legal(q: seq<int>, e: Event) {
    match e
    case Dequeued(v) => q != [] && q[0] == v
    case SawEmpty => q == []
    case Answered(empty) => empty ==> q == []
    case _ => true
  }

  function Apply(q: seq<int>, e: Event): seq<int>
    requires Legal(q, e)
  {
    match e
    case Enqueued(v) => q + [v]
    case Dequeued(v) => q[1..]
    case _ => q
  }

  datatype Outcome = Stuck | Reached(q: seq<int>)

  /** The atomic queue on a history: what it holds at the end, or `Stuck` if some event is one it
      could not have produced. */
  function Replay(es: seq<Event>): Outcome {
    if es == [] then Reached([])
    else
      var before := Replay(es[..|es| - 1]);
      var e := es[|es| - 1];
      if before.Reached? && Legal(before.q, e) then Reached(Apply(before.q, e)) else Stuck
  }

  // ----- The invariant

  /** The nodes ever linked, in order, with the values they were enqueued with; `hi` and `ti` are
      the positions of head and tail. */
  datatype Ghost = Ghost(all: seq<Addr>, vals: seq<int>, hi: nat, ti: nat)

  ghost predicate Shape(g: Ghost) {
    && |g.all| == |g.vals| && g.hi <= g.ti < |g.all| && |g.all| <= g.ti + 2
    && (forall i, j :: 0 <= i < j < |g.all| ==> g.all[i] != g.all[j])
  }

  function Succ(g: Ghost, i: int): Addr {
    if 0 <= i + 1 < |g.all| then g.all[i + 1] else 0
  }

  /** Address x is the linked node at position i. */
  predicate Pos(g: Ghost, x: Addr, i: int) {
    0 <= i < |g.all| && g.all[i] == x
  }

  ghost predicate Chain(s: State, g: Ghost) {
    && Shape(g)
    && 0 !in s.nodes
    && Pos(g, s.head, g.hi) && Pos(g, s.tail, g.ti)
    && (forall x, i {:trigger Pos(g, x, i)} :: Pos(g, x, i) ==>
          x in s.nodes && s.nodes[x].next == Succ(g, i) && s.nodes[x].owner == Linked)
    && (forall x, i {:trigger Pos(g, x, i)} :: Pos(g, x, i) && g.hi < i ==> s.nodes[x].value == g.vals[i])
  }

  predicate Mine(s: State, t: nat, node: Addr) {
    node in s.nodes && s.nodes[node].owner == Private(t)
  }

  ghost predicate TailSeen(g: Ghost, tail: Addr) {
    exists i :: Pos(g, tail, i) && i <= g.ti
  }

  ghost predicate HeadSeen(g: Ghost, head: Addr) {
    exists i :: Pos(g, head, i) && i <= g.hi
  }

  ghost predicate Adjacent(g: Ghost, x: Addr, y: Addr) {
    exists i :: Pos(g, x, i) && Pos(g, y, i + 1)
  }

  /** head was loaded before tail, and not after it in the chain. */
  ghost predicate InOrder(g: Ghost, head: Addr, tail: Addr) {
    exists i, j :: Pos(g, head, i) && Pos(g, tail, j) && i <= g.hi && i <= j <= g.ti
  }

  /** next follows head, and tail has reached it. */
  ghost predicate Takeable(g: Ghost, head: Addr, next: Addr) {
    exists i :: Pos(g, head, i) && Pos(g, next, i + 1) && i <= g.hi && i < g.ti
  }

  ghost predicate DeqOk(g: Ghost, pc: Pc)
    requires Shape(g)
  {
    match pc
    case DeqTail(head) => HeadSeen(g, head)
    case DeqNext(head, tail) => InOrder(g, head, tail)
    case DeqCheck(head, tail, next) =>
      InOrder(g, head, tail) && (if head == tail then next != 0 ==> Adjacent(g, head, next) else Takeable(g, head, next))
    case DeqHelp(tail, next) => Adjacent(g, tail, next)
    case DeqValue(head, next) => Takeable(g, head, next)
    case DeqCas(head, next, val) =>
      Takeable(g, head, next) && (head == g.all[g.hi] && g.hi + 1 < |g.vals| ==> val == g.vals[g.hi + 1])
    case DeqStore(head, val) => exists i :: Pos(g, head, i) && i < g.hi
    case EmptyNext(head) => HeadSeen(g, head)
    case _ => true
  }

  ghost predicate EnqOk(s: State, g: Ghost, t: nat, pc: Pc) {
    match pc
    case EnqInit(node) => Mine(s, t, node)
    case EnqTail(node) => Mine(s, t, node) && s.nodes[node].next == 0
    case EnqNext(node, tail) => Mine(s, t, node) && s.nodes[node].next == 0 && TailSeen(g, tail)
    case EnqCheck(node, tail, next) =>
      Mine(s, t, node) && s.nodes[node].next == 0 && TailSeen(g, tail) && (next != 0 ==> Adjacent(g, tail, next))
    case EnqLink(node, tail) => Mine(s, t, node) && s.nodes[node].next == 0 && TailSeen(g, tail)
    case EnqHelp(node, tail, next) => Mine(s, t, node) && s.nodes[node].next == 0 && Adjacent(g, tail, next)
    case EnqSwing(node, tail) => Adjacent(g, tail, node)
    case _ => true
  }

  ghost predicate PcOk(s: State, g: Ghost, t: nat)
    requires t < |s.pcs| && Shape(g)
  {
    if InEnqueue(s.pcs[t]) then EnqOk(s, g, t, s.pcs[t]) else DeqOk(g, s.pcs[t])
  }

  ghost predicate Inv(s: State, g: Ghost) {
    && Chain(s, g)
    && (forall a :: a in s.nodes && s.nodes[a].owner.Private? ==> s.nodes[a].owner.t < |s.pcs|)
    && (forall t :: 0 <= t < |s.pcs| ==> PcOk(s, g, t))
  }

  /** The abstract queue: the values after head. */
  function Contents(g: Ghost): seq<int>
    requires g.hi < |g.vals|
  {
    g.vals[g.hi + 1..]
  }

  /** What a step does to the chain: a successful link appends the node, and head and tail move to the next one. */
  function GhostAfter(s: State, g: Ghost, t: nat, c: Choice): Ghost {
    if t >= |s.pcs| || !c.Go? then g
    else match s.pcs[t]
      case EnqLink(node, tail) =>
        if Next(s, tail) == 0 && !c.spurious && tail in s.nodes && node in s.nodes then Linking(g, node, s.nodes[node].value) else g
      case EnqHelp(_, tail, _) => if s.tail == tail && !c.spurious then g.(ti := g.ti + 1) else g
      case EnqSwing(_, tail) => if s.tail == tail && !c.spurious then g.(ti := g.ti + 1) else g
      case DeqHelp(tail, _) => if s.tail == tail && !c.spurious then g.(ti := g.ti + 1) else g
      case DeqCas(head, _, _) => if s.head == head && !c.spurious then g.(hi := g.hi + 1) else g
      case _ => g
  }

  function Linking(g: Ghost, node: Addr, v: int): Ghost {
    g.(all := g.all + [node], vals := g.vals + [v])
  }

  // ----- Preservation

  /** Linking only appends, and head and tail only move forward. */
  ghost predicate Grows(g: Ghost, g': Ghost) {
    Shape(g) && Shape(g') && g.all <= g'.all && g.vals <= g'.vals && g.hi <= g'.hi && g.ti <= g'.ti
  }

  ghost predicate Quiet(s: State, s': State, t: nat)
    requires t < |s.pcs|
  {
    && |s'.pcs| == |s.pcs|
    && (forall v :: 0 <= v < |s.pcs| && v != t ==> s'.pcs[v] == s.pcs[v])
    && (forall v, a :: v != t && Mine(s, v, a) ==> a in s'.nodes && s'.nodes[a] == s.nodes[a])
    && (forall v, a :: v != t && Mine(s', v, a) ==> Mine(s, v, a))
  }

  lemma GrowPos(g: Ghost, g': Ghost)
    requires Grows(g, g')
    ensures forall x, i :: Pos(g, x, i) ==> Pos(g', x, i)
    ensures forall x :: TailSeen(g, x) ==> TailSeen(g', x)
    ensures forall x :: HeadSeen(g, x) ==> HeadSeen(g', x)
    ensures forall x, y :: Adjacent(g, x, y) ==> Adjacent(g', x, y)
    ensures forall x, y :: Takeable(g, x, y) ==> Takeable(g', x, y)
    ensures forall x, y :: InOrder(g, x, y) ==> InOrder(g', x, y)
  {
    forall x, y | InOrder(g, x, y) ensures InOrder(g', x, y) {
      var i, j :| Pos(g, x, i) && Pos(g, y, j) && i <= g.hi && i <= j <= g.ti;
      assert Pos(g', x, i) && Pos(g', y, j);
    }
  }

  lemma GrowDeq(g: Ghost, g': Ghost, pc: Pc)
    requires Grows(g, g') && DeqOk(g, pc)
    ensures DeqOk(g', pc)
  {
    GrowPos(g, g');
    match pc
    case DeqCas(head, next, val) =>
      var i :| Pos(g, head, i) && Pos(g, next, i + 1) && i <= g.hi && i < g.ti;
      if head == g'.all[g'.hi] {
        PosUnique(g', head, i, g'.hi);
      }
    case _ =>
  }

  lemma OthersKeep(s: State, g: Ghost, s': State, g': Ghost, t: nat, v: nat)
    requires Shape(g) && Shape(g')
    requires t < |s.pcs| && v < |s.pcs| && v != t && PcOk(s, g, v)
    requires Quiet(s, s', t) && Grows(g, g')
    ensures PcOk(s', g', v)
  {
    if InEnqueue(s.pcs[v]) { GrowPos(g, g'); } else { GrowDeq(g, g', s.pcs[v]); }
  }

  lemma Compose(s: State, g: Ghost, s': State, g': Ghost, t: nat)
    requires Inv(s, g) && t < |s.pcs| && Quiet(s, s', t) && Grows(g, g')
    requires Chain(s', g') && PcOk(s', g', t)
    ensures Inv(s', g')
  {
    forall v | 0 <= v < |s'.pcs| ensures PcOk(s', g', v) {
      if v != t { OthersKeep(s, g, s', g', t, v); }
    }
    forall a | a in s'.nodes && s'.nodes[a].owner.Private? ensures s'.nodes[a].owner.t < |s'.pcs| {
      assert Mine(s', s'.nodes[a].owner.t, a);
    }
  }

  lemma {:induction false} PosUnique(g: Ghost, x: Addr, i: int, j: int)
    requires Shape(g) && Pos(g, x, i) && Pos(g, x, j)
    ensures i == j
  {
  }

  /** A step that only moves thread t to another program point. */
  lemma MoveInv(s: State, g: Ghost, t: nat, pc: Pc)
    requires Inv(s, g) && t < |s.pcs| && PcOk(Goto(s, t, pc), g, t)
    ensures Inv(Goto(s, t, pc), g)
  {
    Compose(s, g, Goto(s, t, pc), g, t);
  }

  lemma StepIdleInv(s: State, g: Ghost, t: nat, c: Choice)
    requires Inv(s, g) && t < |s.pcs| && s.pcs[t].Idle?
    ensures Inv(StepIdle(s, t, c), g)
  {
    Compose(s, g, StepIdle(s, t, c), g, t);
  }

  /** Moving head or tail along the chain changes no node. */
  lemma GrowsChain(s: State, g: Ghost, s': State, g': Ghost)
    requires Chain(s, g) && Grows(g, g') && g'.all == g.all && g'.vals == g.vals && s'.nodes == s.nodes
    requires Pos(g', s'.head, g'.hi) && Pos(g', s'.tail, g'.ti)
    ensures Chain(s', g')
  {
    forall x, i | Pos(g', x, i)
      ensures x in s'.nodes && s'.nodes[x].next == Succ(g', i) && s'.nodes[x].owner == Linked
      ensures g'.hi < i ==> s'.nodes[x].value == g'.vals[i]
    {
      assert Pos(g, x, i);
    }
  }

  lemma PcGrows(s: State, g: Ghost, g': Ghost, t: nat)
    requires t < |s.pcs| && Grows(g, g') && PcOk(s, g, t)
    ensures PcOk(s, g', t)
  {
    if InEnqueue(s.pcs[t]) { GrowPos(g, g'); } else { GrowDeq(g, g', s.pcs[t]); }
  }

  lemma ShapeOf(s: State, g: Ghost)
    requires Inv(s, g)
    ensures Shape(g) && Grows(g, g)
  {
  }

  /** Moving the tail from the node at position i to the next one, if it is still there. */
  lemma SwingInv(s: State, g: Ghost, t: nat, tail: Addr, next: Addr, pc: Pc, i: int) returns (g': Ghost)
    requires Inv(s, g) && t < |s.pcs| && s.tail == tail && Pos(g, tail, i) && Pos(g, next, i + 1)
    requires Shape(g) && PcOk(Goto(s, t, pc).(tail := next), g, t)
    ensures g' == g.(ti := g.ti + 1) && Grows(g, g')
    ensures Inv(Goto(s, t, pc).(tail := next), g')
  {
    PosUnique(g, tail, i, g.ti);
    g' := g.(ti := g.ti + 1);
    GrowsChain(s, g, s.(tail := next), g');
    PcGrows(Goto(s, t, pc).(tail := next), g, g', t);
    Compose(s, g, Goto(s, t, pc).(tail := next), g', t);
  }

  lemma EnqInitInv(s: State, g: Ghost, t: nat)
    requires Inv(s, g) && t < |s.pcs| && s.pcs[t].EnqInit?
    ensures Inv(StepEnqueue(s, t, false).0, g)
  {
    var node := s.pcs[t].node;
    assert PcOk(s, g, t);
    Compose(s, g, StepEnqueue(s, t, false).0, g, t);
  }

  lemma NoSuccessor(s: State, g: Ghost, x: Addr, i: int)
    requires Chain(s, g) && Pos(g, x, i) && Next(s, x) == 0
    ensures i == |g.all| - 1
  {
    if i + 1 < |g.all| { assert Pos(g, g.all[i + 1], i + 1); }
  }

  lemma LastTail(s: State, g: Ghost, tail: Addr)
    requires Chain(s, g) && TailSeen(g, tail) && Next(s, tail) == 0
    ensures g.ti == |g.all| - 1 && tail == s.tail
  {
    var i :| Pos(g, tail, i) && i <= g.ti;
    NoSuccessor(s, g, tail, i);
  }

  lemma LinkChain(s: State, g: Ghost, s': State, node: Addr)
    requires Chain(s, g) && g.ti == |g.all| - 1
    requires node in s.nodes && s.nodes[node].owner.Private? && s.nodes[node].next == 0
    requires s'.nodes == s.nodes[s.tail := s.nodes[s.tail].(next := node)][node := s.nodes[node].(owner := Linked)]
    requires s'.head == s.head && s'.tail == s.tail
    ensures node !in g.all
    ensures Chain(s', Linking(g, node, s.nodes[node].value))
  {
    var g' := Linking(g, node, s.nodes[node].value);
    assert node !in g.all by {
      if node in g.all { var i :| 0 <= i < |g.all| && g.all[i] == node; assert Pos(g, node, i); }
    }
    assert Shape(g');
    forall x, i | Pos(g', x, i)
      ensures x in s'.nodes && s'.nodes[x].next == Succ(g', i) && s'.nodes[x].owner == Linked
      ensures g'.hi < i ==> s'.nodes[x].value == g'.vals[i]
    {
      assert i < |g.all| ==> Pos(g, x, i);
    }
  }

  /** The linearisation point of an enqueue: `tail` has no successor, so it is the last node and
      the tail pointer is on it. */
  lemma LinkInv(s: State, g: Ghost, t: nat) returns (g': Ghost)
    requires Inv(s, g) && t < |s.pcs| && s.pcs[t].EnqLink? && Next(s, s.pcs[t].tail) == 0
    ensures Inv(StepEnqueue(s, t, false).0, g') && Grows(g, g') && g' == GhostAfter(s, g, t, Go(false))
    ensures StepEnqueue(s, t, false).1 == Enqueued(Value(s, s.pcs[t].node))
    ensures Contents(g') == Contents(g) + [Value(s, s.pcs[t].node)]
  {
    var node := s.pcs[t].node;
    assert PcOk(s, g, t);
    LastTail(s, g, s.pcs[t].tail);
    LinkChain(s, g, StepEnqueue(s, t, false).0, node);
    g' := Linking(g, node, Value(s, node));
    assert Pos(g', s.tail, g.ti) && Pos(g', node, g.ti + 1);
    LinkQuiet(s, t);
    hide Quiet, Chain, Mine;
    Compose(s, g, StepEnqueue(s, t, false).0, g', t);
  }

  lemma LinkQuiet(s: State, t: nat)
    requires t < |s.pcs| && s.pcs[t].EnqLink? && Mine(s, t, s.pcs[t].node)
    requires s.pcs[t].tail in s.nodes && s.nodes[s.pcs[t].tail].owner == Linked
    ensures Quiet(s, StepEnqueue(s, t, false).0, t)
  {
  }

  lemma EnqReadInv(s: State, g: Ghost, t: nat)
    requires Inv(s, g) && t < |s.pcs| && (s.pcs[t].EnqTail? || s.pcs[t].EnqNext? || s.pcs[t].EnqCheck?)
    ensures Inv(StepEnqueue(s, t, false).0, g)
  {
    assert PcOk(s, g, t);
    match s.pcs[t]
    case EnqTail(node) =>
      assert Pos(g, s.tail, g.ti);
      MoveInv(s, g, t, EnqNext(node, s.tail));
    case EnqNext(node, tail) =>
      var i :| Pos(g, tail, i) && i <= g.ti;
      MoveInv(s, g, t, EnqCheck(node, tail, Next(s, tail)));
    case EnqCheck(node, tail, next) =>
      MoveInv(s, g, t, StepEnqueue(s, t, false).0.pcs[t]);
    case _ => assert false;
  }

  lemma EnqHelpInv(s: State, g: Ghost, t: nat, spurious: bool) returns (g': Ghost)
    requires Inv(s, g) && t < |s.pcs| && s.pcs[t].EnqHelp?
    ensures Inv(StepEnqueue(s, t, spurious).0, g') && Grows(g, g') && g' == GhostAfter(s, g, t, Go(spurious))
    ensures Contents(g') == Contents(g)
  {
    g' := g;
    ShapeOf(s, g);
    assert PcOk(s, g, t);
    hide Inv, Chain, DeqOk, Grows;
    var node, tail, next := s.pcs[t].node, s.pcs[t].tail, s.pcs[t].next;
    var i :| Pos(g, tail, i) && Pos(g, next, i + 1);
    if s.tail == tail && !spurious {
      g' := SwingInv(s, g, t, tail, next, EnqTail(node), i);
    } else {
      MoveInv(s, g, t, EnqTail(node));
    }
  }

  lemma EnqSwingInv(s: State, g: Ghost, t: nat, spurious: bool) returns (g': Ghost)
    requires Inv(s, g) && t < |s.pcs| && s.pcs[t].EnqSwing?
    ensures Inv(StepEnqueue(s, t, spurious).0, g') && Grows(g, g') && g' == GhostAfter(s, g, t, Go(spurious))
    ensures Contents(g') == Contents(g)
  {
    g' := g;
    ShapeOf(s, g);
    assert PcOk(s, g, t);
    hide Inv, Chain, Grows;
    var node, tail := s.pcs[t].node, s.pcs[t].tail;
    var i :| Pos(g, tail, i) && Pos(g, node, i + 1);
    if s.tail == tail && !spurious { g' := SwingInv(s, g, t, tail, node, Idle, i); } else { MoveInv(s, g, t, Idle); }
  }

  lemma StepEnqueueInv(s: State, g: Ghost, t: nat, spurious: bool) returns (g': Ghost)
    requires Inv(s, g) && t < |s.pcs| && InEnqueue(s.pcs[t])
    ensures Inv(StepEnqueue(s, t, spurious).0, g') && Grows(g, g') && g' == GhostAfter(s, g, t, Go(spurious))
    ensures Legal(Contents(g), StepEnqueue(s, t, spurious).1)
    ensures Contents(g') == Apply(Contents(g), StepEnqueue(s, t, spurious).1)
  {
    g' := g;
    match s.pcs[t]
    case EnqInit(_) => EnqInitInv(s, g, t);
    case EnqTail(_) | EnqNext(_, _) | EnqCheck(_, _, _) => EnqReadInv(s, g, t);
    case EnqLink(node, tail) =>
      assert PcOk(s, g, t);
      if Next(s, tail) == 0 && !spurious { g' := LinkInv(s, g, t); } else { MoveInv(s, g, t, EnqTail(node)); }
    case EnqHelp(_, _, _) => g' := EnqHelpInv(s, g, t, spurious);
    case EnqSwing(_, _) => g' := EnqSwingInv(s, g, t, spurious);
  }

  lemma TakeChain(s: State, g: Ghost, t: nat)
    requires Chain(s, g) && t < |s.pcs| && s.pcs[t].DeqCas? && PcOk(s, g, t) && s.head == s.pcs[t].head
    ensures g.hi < g.ti && g.vals[g.hi + 1] == s.pcs[t].val
    ensures Chain(StepDequeue(s, t, false).0, g.(hi := g.hi + 1))
  {
    var head, next, val := s.pcs[t].head, s.pcs[t].next, s.pcs[t].val;
    var i :| Pos(g, head, i) && Pos(g, next, i + 1) && i <= g.hi && i < g.ti;
    PosUnique(g, head, i, g.hi);
    var s' := StepDequeue(s, t, false).0;
    assert s'.nodes == s.nodes && s'.tail == s.tail && s'.head == g.all[g.hi + 1];
    GrowsChain(s, g, s', g.(hi := g.hi + 1));
  }

  /** The linearisation point of a dequeue: head steps to a node that tail has already reached, and
      the value read earlier is the one that node was enqueued with. */
  lemma TakeInv(s: State, g: Ghost, t: nat) returns (g': Ghost)
    requires Inv(s, g) && t < |s.pcs| && s.pcs[t].DeqCas? && s.head == s.pcs[t].head
    ensures Inv(StepDequeue(s, t, false).0, g') && Grows(g, g') && g' == GhostAfter(s, g, t, Go(false))
    ensures Contents(g) == [s.pcs[t].val] + Contents(g')
  {
    assert PcOk(s, g, t);
    TakeChain(s, g, t);
    g' := g.(hi := g.hi + 1);
    FrontGone(g);
    var s' := StepDequeue(s, t, false).0;
    TookHead(g, s'.pcs[t]);
    assert s'.nodes == s.nodes;
    assert Quiet(s, s', t);
    Compose(s, g, s', g', t);
  }

  lemma FrontGone(g: Ghost)
    requires g.hi + 1 < |g.vals|
    ensures Contents(g) == [g.vals[g.hi + 1]] + Contents(g.(hi := g.hi + 1))
  {
  }

  lemma TookHead(g: Ghost, pc: Pc)
    requires Shape(g) && g.hi < g.ti && pc.DeqStore? && pc.head == g.all[g.hi]
    ensures DeqOk(g.(hi := g.hi + 1), pc)
  {
    assert Pos(g.(hi := g.hi + 1), pc.head, g.hi);
  }

  /** Writing the result into a node that head has left disturbs no value still in the queue. */
  lemma StoreChain(s: State, g: Ghost, head: Addr, val: int, i: int)
    requires Chain(s, g) && Pos(g, head, i) && i < g.hi
    ensures Chain(s.(nodes := s.nodes[head := s.nodes[head].(value := val)]), g)
  {
  }

  lemma DeqStoreInv(s: State, g: Ghost, t: nat)
    requires Inv(s, g) && t < |s.pcs| && s.pcs[t].DeqStore?
    ensures Inv(StepDequeue(s, t, false).0, g)
  {
    assert PcOk(s, g, t);
    var head, val := s.pcs[t].head, s.pcs[t].val;
    var i :| Pos(g, head, i) && i < g.hi;
    StoreChain(s, g, head, val, i);
    var s' := StepDequeue(s, t, false).0;
    assert s' == Goto(s.(nodes := s.nodes[head := s.nodes[head].(value := val)]), t, Idle);
    assert Quiet(s, s', t);
    Compose(s, g, s', g, t);
  }

  lemma DeqCheckInv(s: State, g: Ghost, t: nat)
    requires Inv(s, g) && t < |s.pcs| && s.pcs[t].DeqCheck?
    ensures Inv(StepDequeue(s, t, false).0, g)
  {
    assert PcOk(s, g, t);
    var head, tail, next := s.pcs[t].head, s.pcs[t].tail, s.pcs[t].next;
    MoveInv(s, g, t, StepDequeue(s, t, false).0.pcs[t]);
  }

  /** An empty queue is seen at the read of `next`: head was on the last node then. */
  lemma DeqNextInv(s: State, g: Ghost, t: nat)
    requires Inv(s, g) && t < |s.pcs| && s.pcs[t].DeqNext?
    ensures Inv(StepDequeue(s, t, false).0, g)
    ensures Next(s, s.pcs[t].head) == 0 ==> Contents(g) == []
  {
    assert PcOk(s, g, t);
    var head, tail := s.pcs[t].head, s.pcs[t].tail;
    var i, j :| Pos(g, head, i) && Pos(g, tail, j) && i <= g.hi && i <= j <= g.ti;
    if Next(s, head) == 0 {
      NoSuccessor(s, g, head, i);
    } else {
      assert Pos(g, Next(s, head), i + 1);
      if i < j && head == tail { PosUnique(g, head, i, j); }
    }
    MoveInv(s, g, t, DeqCheck(head, tail, Next(s, head)));
  }

  lemma DeqReadInv(s: State, g: Ghost, t: nat)
    requires Inv(s, g) && t < |s.pcs| && (s.pcs[t].DeqHead? || s.pcs[t].DeqTail? || s.pcs[t].DeqValue?)
    ensures Inv(StepDequeue(s, t, false).0, g)
  {
    assert PcOk(s, g, t);
    match s.pcs[t]
    case DeqHead =>
      assert Pos(g, s.head, g.hi);
      MoveInv(s, g, t, DeqTail(s.head));
    case DeqTail(head) =>
      var i :| Pos(g, head, i) && i <= g.hi;
      assert Pos(g, s.tail, g.ti);
      MoveInv(s, g, t, DeqNext(head, s.tail));
    case DeqValue(head, next) =>
      var i :| Pos(g, head, i) && Pos(g, next, i + 1) && i <= g.hi && i < g.ti;
      MoveInv(s, g, t, DeqCas(head, next, Value(s, next)));
    case _ => assert false;
  }

  lemma DeqHelpInv(s: State, g: Ghost, t: nat, spurious: bool) returns (g': Ghost)
    requires Inv(s, g) && t < |s.pcs| && s.pcs[t].DeqHelp?
    ensures Inv(StepDequeue(s, t, spurious).0, g') && Grows(g, g') && g' == GhostAfter(s, g, t, Go(spurious))
    ensures Contents(g') == Contents(g)
  {
    g' := g;
    assert PcOk(s, g, t);
    hide Chain;
    var tail, next := s.pcs[t].tail, s.pcs[t].next;
    var i :| Pos(g, tail, i) && Pos(g, next, i + 1);
    if s.tail == tail && !spurious { g' := SwingInv(s, g, t, tail, next, DeqHead, i); }
    else { MoveInv(s, g, t, DeqHead); }
  }

  lemma DeqCasInv(s: State, g: Ghost, t: nat, spurious: bool) returns (g': Ghost)
    requires Inv(s, g) && t < |s.pcs| && s.pcs[t].DeqCas?
    ensures Inv(StepDequeue(s, t, spurious).0, g') && Grows(g, g') && g' == GhostAfter(s, g, t, Go(spurious))
    ensures Legal(Contents(g), StepDequeue(s, t, spurious).1)
    ensures Contents(g') == Apply(Contents(g), StepDequeue(s, t, spurious).1)
  {
    g' := g;
    ShapeOf(s, g);
    hide Inv, Chain, Grows;
    if s.head == s.pcs[t].head && !spurious { g' := TakeInv(s, g, t); } else { MoveInv(s, g, t, DeqHead); }
  }

  lemma StepDequeueInv(s: State, g: Ghost, t: nat, spurious: bool) returns (g': Ghost)
    requires Inv(s, g) && t < |s.pcs| && !InEnqueue(s.pcs[t]) && !InIsEmpty(s.pcs[t]) && !s.pcs[t].Idle?
    ensures Inv(StepDequeue(s, t, spurious).0, g') && Grows(g, g') && g' == GhostAfter(s, g, t, Go(spurious))
    ensures Legal(Contents(g), StepDequeue(s, t, spurious).1)
    ensures Contents(g') == Apply(Contents(g), StepDequeue(s, t, spurious).1)
  {
    g' := g;
    match s.pcs[t]
    case DeqHead | DeqTail(_) | DeqValue(_, _) => DeqReadInv(s, g, t);
    case DeqNext(_, _) => DeqNextInv(s, g, t);
    case DeqCheck(_, _, _) => DeqCheckInv(s, g, t);
    case DeqHelp(_, _) => g' := DeqHelpInv(s, g, t, spurious);
    case DeqCas(_, _, _) => g' := DeqCasInv(s, g, t, spurious);
    case DeqStore(_, _) => DeqStoreInv(s, g, t);
  }

  lemma StepIsEmptyInv(s: State, g: Ghost, t: nat)
    requires Inv(s, g) && t < |s.pcs| && InIsEmpty(s.pcs[t])
    ensures Inv(StepIsEmpty(s, t).0, g) && Legal(Contents(g), StepIsEmpty(s, t).1)
    ensures StepIsEmpty(s, t).1 == Answered(false) ==> Contents(g) != [] || s.head != s.pcs[t].head
  {
    assert PcOk(s, g, t);
    match s.pcs[t]
    case EmptyHead =>
      assert Pos(g, s.head, g.hi);
      MoveInv(s, g, t, EmptyNext(s.head));
    case EmptyNext(head) =>
      var i :| Pos(g, head, i) && i <= g.hi;
      if Next(s, head) == 0 { NoSuccessor(s, g, head, i); }
      if head == s.head { PosUnique(g, head, i, g.hi); }
      MoveInv(s, g, t, Idle);
  }

  // ----- Every run

  lemma StepInv(s: State, g: Ghost, t: nat, c: Choice) returns (g': Ghost)
    requires Inv(s, g)
    ensures Inv(Step(s, t, c).0, g') && Grows(g, g') && g' == GhostAfter(s, g, t, c)
    ensures Legal(Contents(g), Step(s, t, c).1)
    ensures Contents(g') == Apply(Contents(g), Step(s, t, c).1)
  {
    g' := g;
    if t >= |s.pcs| {
      var s' := Step(s, t, c).0;
      forall v | 0 <= v < |s'.pcs| ensures PcOk(s', g, v) {
        if v < |s.pcs| { assert PcOk(s, g, v) && s'.pcs[v] == s.pcs[v]; }
      }
    } else if s.pcs[t].Idle? {
      StepIdleInv(s, g, t, c);
    } else if c.Go? {
      if InEnqueue(s.pcs[t]) { g' := StepEnqueueInv(s, g, t, c.spurious); }
      else if InIsEmpty(s.pcs[t]) { StepIsEmptyInv(s, g, t); }
      else { g' := StepDequeueInv(s, g, t, c.spurious); }
    }
  }

  /** The chain after a schedule. */
  function GhostOf(sched: Schedule): Ghost {
    if sched == [] then Ghost([1], [-1], 0, 0)
    else
      var init, last := sched[..|sched| - 1], sched[|sched| - 1];
      GhostAfter(Run(init), GhostOf(init), last.0, last.1)
  }

  lemma {:induction false} RunInv(sched: Schedule)
    ensures Inv(Run(sched), GhostOf(sched)) && Replay(History(sched)) == Reached(Contents(GhostOf(sched)))
  {
    if sched != [] {
      hide Inv, Step, GhostAfter, Contents;
      var init, last := sched[..|sched| - 1], sched[|sched| - 1];
      RunInv(init);
      var g := StepInv(Run(init), GhostOf(init), last.0, last.1);
      assert History(sched)[..|History(sched)| - 1] == History(init);
    }
  }

  /** Refinement.  Whatever the schedule, the events are a run of the atomic queue; the linked
      nodes form one chain on which head is never past tail and tail is the last node or the one
      before it, and the values after head are what the atomic queue holds. */
  lemma RefinesAtomicQueue(sched: Schedule)
    ensures Chain(Run(sched), GhostOf(sched)) && Replay(History(sched)) == Reached(Contents(GhostOf(sched)))
  {
    RunInv(sched);
  }

  // ----- What callers put in and get back

  /** The values that clients gave the nodes they allocated, and the dummy's. */
  function Given(sched: Schedule): map<Addr, int> {
    if sched == [] then map[1 := -1]
    else
      var init, last := sched[..|sched| - 1], sched[|sched| - 1];
      GivenAfter(Run(init), Given(init), last.0, last.1)
  }

  function GivenAfter(s: State, given: map<Addr, int>, t: nat, c: Choice): map<Addr, int> {
    if t < |s.pcs| && s.pcs[t].Idle? && c.Malloc? && c.a != 0 && c.a !in s.nodes then given[c.a := c.value] else given
  }

  /** Private nodes, and the values in the chain, are as the clients gave them. */
  ghost predicate AsGiven(s: State, g: Ghost, given: map<Addr, int>) {
    && given.Keys == s.nodes.Keys
    && (forall a :: a in s.nodes && s.nodes[a].owner.Private? ==> s.nodes[a].value == given[a])
    && |g.vals| == |g.all| && forall i :: 0 <= i < |g.all| ==> g.all[i] in given && g.vals[i] == given[g.all[i]]
  }

  lemma AsGivenStep(s: State, g: Ghost, given: map<Addr, int>, t: nat, c: Choice)
    requires Inv(s, g) && AsGiven(s, g, given)
    ensures AsGiven(Step(s, t, c).0, GhostAfter(s, g, t, c), GivenAfter(s, given, t, c))
  {
    GivenNodes(s, g, given, t, c);
    GivenChain(s, g, given, t, c);
  }

  /** No step but an allocation changes the value of a private node, and none makes a linked node private. */
  lemma GivenNodes(s: State, g: Ghost, given: map<Addr, int>, t: nat, c: Choice)
    requires Inv(s, g) && AsGiven(s, g, given)
    ensures var s', given' := Step(s, t, c).0, GivenAfter(s, given, t, c);
      given'.Keys == s'.nodes.Keys && forall a :: a in s'.nodes && s'.nodes[a].owner.Private? ==> s'.nodes[a].value == given'[a]
  {
    if t < |s.pcs| && !s.pcs[t].Idle? && c.Go? {
      PrivateStays(s, g, t, c);
      hide Step, Inv;
    }
  }

  lemma PrivateStays(s: State, g: Ghost, t: nat, c: Choice)
    requires Inv(s, g) && t < |s.pcs| && !s.pcs[t].Idle? && c.Go?
    ensures var s' := Step(s, t, c).0;
      s'.nodes.Keys == s.nodes.Keys
      && forall a :: a in s'.nodes && s'.nodes[a].owner.Private? ==> s.nodes[a].owner.Private? && s'.nodes[a].value == s.nodes[a].value
  {
    assert PcOk(s, g, t);
    if s.pcs[t].DeqStore? {
      var i :| Pos(g, s.pcs[t].head, i) && i < g.hi;
    } else if s.pcs[t].EnqLink? {
      TailLinked(s, g, s.pcs[t].tail);
    }
    hide Inv, Chain, DeqOk, PcOk;
  }

  lemma GivenChain(s: State, g: Ghost, given: map<Addr, int>, t: nat, c: Choice)
    requires Inv(s, g) && AsGiven(s, g, given)
    ensures var g', given' := GhostAfter(s, g, t, c), GivenAfter(s, given, t, c);
      |g'.vals| == |g'.all| && forall i :: 0 <= i < |g'.all| ==> g'.all[i] in given' && g'.vals[i] == given'[g'.all[i]]
  {
    if t < |s.pcs| { assert PcOk(s, g, t); }
    hide Inv, Chain, DeqOk;
  }

  lemma TailLinked(s: State, g: Ghost, tail: Addr)
    requires Chain(s, g) && TailSeen(g, tail)
    ensures tail in s.nodes && s.nodes[tail].owner == Linked
  {
  }

  lemma {:induction false} RunAsGiven(sched: Schedule)
    ensures AsGiven(Run(sched), GhostOf(sched), Given(sched))
  {
    if sched != [] {
      hide Inv, Step, GhostAfter, GivenAfter, AsGiven;
      var init, last := sched[..|sched| - 1], sched[|sched| - 1];
      RunInv(init);
      RunAsGiven(init);
      AsGivenStep(Run(init), GhostOf(init), Given(init), last.0, last.1);
    }
  }

  /** The node that an enqueuing thread was given. */
  predicate Enqueuing(sched: Schedule, t: nat, node: Addr) {
    && t < |Run(sched).pcs| && InEnqueue(Run(sched).pcs[t]) && Run(sched).pcs[t].node == node
  }

  /** Thread t has been enqueuing the node since it was asked to at step j. */
  ghost predicate Called(sched: Schedule, t: nat, j: nat, node: Addr) {
    && j < |sched| && sched[j] == (t, CallEnqueue(node)) && t < |Run(sched[..j]).pcs| && Run(sched[..j]).pcs[t].Idle?
    && forall m :: j < m <= |sched| ==> Enqueuing(sched[..m], t, node)
  }

  lemma EnqueueStays(s: State, t: nat, c: Choice, v: nat)
    requires v < |Step(s, t, c).0.pcs| && InEnqueue(Step(s, t, c).0.pcs[v])
    ensures v < |s.pcs|
    ensures var node := Step(s, t, c).0.pcs[v].node;
      (InEnqueue(s.pcs[v]) && s.pcs[v].node == node) || (v == t && s.pcs[t].Idle? && c == CallEnqueue(node))
  {
    if t < |s.pcs| {
      if s.pcs[t].Idle? {
        hide StepEnqueue, StepDequeue, StepIsEmpty;
      } else if InEnqueue(s.pcs[t]) {
        if c.Go? { EnqueueCall(s, t, c.spurious); }
        hide StepEnqueue;
      } else {
        if c.Go? && !InIsEmpty(s.pcs[t]) { DequeueCall(s, t, c.spurious); }
        hide StepDequeue, StepIdle, StepEnqueue;
      }
    }
  }

  lemma EnqueueCall(s: State, t: nat, spurious: bool)
    requires t < |s.pcs| && InEnqueue(s.pcs[t])
    ensures var s' := StepEnqueue(s, t, spurious).0;
      |s'.pcs| == |s.pcs| && (forall v :: 0 <= v < |s.pcs| && v != t ==> s'.pcs[v] == s.pcs[v])
      && (s'.pcs[t].Idle? || (InEnqueue(s'.pcs[t]) && s'.pcs[t].node == s.pcs[t].node))
  {
  }

  lemma DequeueCall(s: State, t: nat, spurious: bool)
    requires t < |s.pcs| && !InEnqueue(s.pcs[t]) && !InIsEmpty(s.pcs[t])
    ensures var s' := StepDequeue(s, t, spurious).0;
      |s'.pcs| == |s.pcs| && (forall v :: 0 <= v < |s.pcs| && v != t ==> s'.pcs[v] == s.pcs[v]) && !InEnqueue(s'.pcs[t])
  {
  }

  lemma CalledLonger(sched: Schedule, t: nat, j: nat, node: Addr)
    requires sched != [] && Called(sched[..|sched| - 1], t, j, node) && Enqueuing(sched, t, node)
    ensures Called(sched, t, j, node)
  {
    hide Enqueuing, Run;
    SamePrefix(sched, j);
    forall m | j < m <= |sched| ensures Enqueuing(sched[..m], t, node) {
      if m < |sched| { SamePrefix(sched, m); } else { assert sched[..m] == sched; }
    }
  }

  lemma CalledNow(sched: Schedule, t: nat, node: Addr)
    requires sched != [] && sched[|sched| - 1] == (t, CallEnqueue(node)) && Enqueuing(sched, t, node)
    requires t < |Run(sched[..|sched| - 1]).pcs| && Run(sched[..|sched| - 1]).pcs[t].Idle?
    ensures Called(sched, t, |sched| - 1, node)
  {
    hide Enqueuing, Run;
    assert sched[..|sched|] == sched;
  }

  lemma {:induction false} CalledWith(sched: Schedule, t: nat, node: Addr) returns (j: nat)
    requires Enqueuing(sched, t, node)
    ensures Called(sched, t, j, node)
  {
    assert sched != [];
    var init, last := sched[..|sched| - 1], sched[|sched| - 1];
    EnqueueStays(Run(init), last.0, last.1, t);
    hide Step, Called;
    if InEnqueue(Run(init).pcs[t]) && Run(init).pcs[t].node == node {
      j := CalledWith(init, t, node);
      CalledLonger(sched, t, j, node);
    } else {
      j := |init|;
      CalledNow(sched, t, node);
    }
  }

  /** What is enqueued is the value that the client gave the node of the call that is running. */
  lemma EnqueuesGiven(sched: Schedule, i: nat) returns (j: nat, node: Addr)
    requires i < |sched| && EventAt(sched, i).Enqueued?
    ensures Called(sched[..i], sched[i].0, j, node)
    ensures node in Given(sched[..i]) && EventAt(sched, i).v == Given(sched[..i])[node]
  {
    var before, t := sched[..i], sched[i].0;
    RunInv(before);
    RunAsGiven(before);
    EnqueuedAt(Run(before), GhostOf(before), Given(before), t, sched[i].1);
    node := Run(before).pcs[t].node;
    hide Inv, Step, AsGiven, Called;
    j := CalledWith(before, t, node);
  }

  lemma EnqueuedAt(s: State, g: Ghost, given: map<Addr, int>, t: nat, c: Choice)
    requires Inv(s, g) && AsGiven(s, g, given) && Step(s, t, c).1.Enqueued?
    ensures t < |s.pcs| && s.pcs[t].EnqLink? && s.pcs[t].node in given && Step(s, t, c).1.v == given[s.pcs[t].node]
  {
    assert PcOk(s, g, t);
  }

  /** The node at position i, which head has left, has been given the value of the next one, or is about to be. */
  ghost predicate Filled(s: State, g: Ghost, i: int) {
    && 0 <= i && i + 1 < |g.vals| && i < |g.all| && g.all[i] in s.nodes
    && (s.nodes[g.all[i]].value == g.vals[i + 1]
        || exists t :: 0 <= t < |s.pcs| && s.pcs[t] == DeqStore(g.all[i], g.vals[i + 1]))
  }

  /** A thread about to store its result holds a node that head has left, and the value after it. */
  ghost predicate Storing(g: Ghost, pc: Pc) {
    pc.DeqStore? ==> exists i :: Pos(g, pc.head, i) && i < g.hi && i + 1 < |g.vals| && pc.val == g.vals[i + 1]
  }

  ghost predicate Results(s: State, g: Ghost) {
    && (forall i :: 0 <= i < g.hi ==> Filled(s, g, i))
    && (forall t :: 0 <= t < |s.pcs| ==> Storing(g, s.pcs[t]))
  }

  lemma StoringGrows(g: Ghost, g': Ghost, pc: Pc)
    requires Storing(g, pc) && Grows(g, g')
    ensures Storing(g', pc)
  {
    if pc.DeqStore? {
      var i :| Pos(g, pc.head, i) && i < g.hi && i + 1 < |g.vals| && pc.val == g.vals[i + 1];
      assert Pos(g', pc.head, i);
    }
  }

  /** The thread that has just moved head holds the node it left, and the front. */
  lemma TookFront(s: State, g: Ghost, t: nat, c: Choice)
    requires Inv(s, g) && t < |s.pcs| && s.pcs[t].DeqCas? && c == Go(false) && s.head == s.pcs[t].head
    ensures var g', s' := GhostAfter(s, g, t, c), Step(s, t, c).0;
      && g.hi + 1 < |g.vals| && g' == g.(hi := g.hi + 1) && s'.nodes == s.nodes && g.all[g.hi] in s.nodes
      && s'.pcs == s.pcs[t := DeqStore(g.all[g.hi], g.vals[g.hi + 1])]
  {
    assert PcOk(s, g, t);
    TakeChain(s, g, t);
  }

  /** Only a DeqStore step changes the value of a linked node, and then to its thread's result. */
  lemma ValueChanges(s: State, g: Ghost, t: nat, c: Choice, i: nat)
    requires Inv(s, g) && i < |g.all|
    ensures var x, s' := g.all[i], Step(s, t, c).0;
      && x in s.nodes && x in s'.nodes
      && (s'.nodes[x].value == s.nodes[x].value
          || (t < |s.pcs| && s.pcs[t] == DeqStore(x, s'.nodes[x].value)))
  {
    assert Pos(g, g.all[i], i);
    if t < |s.pcs| { assert PcOk(s, g, t); }
  }

  /** The others stay where they are; a thread that leaves DeqStore has stored its result. */
  lemma StoresOnLeaving(s: State, g: Ghost, t: nat, c: Choice, v: nat)
    requires Inv(s, g) && v < |s.pcs| && s.pcs[v].DeqStore?
    ensures var s' := Step(s, t, c).0;
      && v < |s'.pcs|
      && (s'.pcs[v] == s.pcs[v] || (s.pcs[v].head in s'.nodes && s'.nodes[s.pcs[v].head].value == s.pcs[v].val))
  {
    assert PcOk(s, g, v);
    var i :| Pos(g, s.pcs[v].head, i) && i < g.hi;
  }

  lemma FilledStays(s: State, g: Ghost, t: nat, c: Choice, i: nat)
    requires Inv(s, g) && Results(s, g) && Grows(g, GhostAfter(s, g, t, c)) && i < g.hi
    ensures Filled(Step(s, t, c).0, GhostAfter(s, g, t, c), i)
  {
    var s', g' := Step(s, t, c).0, GhostAfter(s, g, t, c);
    assert Filled(s, g, i);
    hide Step, GhostAfter, Inv;
    var x, v := g.all[i], g.vals[i + 1];
    assert g'.all[i] == x && g'.vals[i + 1] == v;
    ValueChanges(s, g, t, c, i);
    if s'.nodes[x].value != v {
      if s.nodes[x].value == v {
        StoredValue(s, g, t, i);
      } else {
        var u :| 0 <= u < |s.pcs| && s.pcs[u] == DeqStore(x, v);
        StoresOnLeaving(s, g, t, c, u);
        assert s'.pcs[u] == DeqStore(g'.all[i], g'.vals[i + 1]);
      }
    }
  }

  /** A thread at DeqStore on the node of position i holds the value after it. */
  lemma StoredValue(s: State, g: Ghost, t: nat, i: nat)
    requires Inv(s, g) && Results(s, g) && i < g.hi && t < |s.pcs| && s.pcs[t].DeqStore? && s.pcs[t].head == g.all[i]
    ensures i + 1 < |g.vals| && s.pcs[t].val == g.vals[i + 1]
  {
    assert Storing(g, s.pcs[t]);
    var k :| Pos(g, s.pcs[t].head, k) && k < g.hi && k + 1 < |g.vals| && s.pcs[t].val == g.vals[k + 1];
    assert Pos(g, g.all[i], i);
    PosUnique(g, g.all[i], i, k);
  }

  /** A thread comes to DeqStore only by moving head. */
  lemma StoringStays(s: State, g: Ghost, t: nat, c: Choice, v: nat)
    requires Inv(s, g) && Results(s, g) && Grows(g, GhostAfter(s, g, t, c)) && v < |Step(s, t, c).0.pcs|
    ensures Storing(GhostAfter(s, g, t, c), Step(s, t, c).0.pcs[v])
  {
    var s', g' := Step(s, t, c).0, GhostAfter(s, g, t, c);
    if s'.pcs[v].DeqStore? {
      ComesToStore(s, t, c, v);
      if v < |s.pcs| && s.pcs[v] == s'.pcs[v] {
        StoringGrows(g, g', s.pcs[v]);
      } else {
        TookFront(s, g, t, c);
        assert Pos(g', s'.pcs[v].head, g.hi);
      }
    }
  }

  lemma ComesToStore(s: State, t: nat, c: Choice, v: nat)
    requires v < |Step(s, t, c).0.pcs| && Step(s, t, c).0.pcs[v].DeqStore?
    ensures v < |s.pcs|
    ensures s.pcs[v] == Step(s, t, c).0.pcs[v]
            || (v == t && s.pcs[t].DeqCas? && c == Go(false) && s.head == s.pcs[t].head
                && Step(s, t, c).1 == Dequeued(Step(s, t, c).0.pcs[v].val))
  {
    if t < |s.pcs| {
      if s.pcs[t].Idle? { hide StepEnqueue, StepDequeue, StepIsEmpty; }
      else if InEnqueue(s.pcs[t]) { hide StepDequeue, StepIsEmpty, StepIdle; }
      else if InIsEmpty(s.pcs[t]) { hide StepDequeue, StepEnqueue, StepIdle; }
      else { hide StepEnqueue, StepIsEmpty, StepIdle; }
    }
  }

  lemma ResultsStep(s: State, g: Ghost, t: nat, c: Choice)
    requires Inv(s, g) && Results(s, g)
    ensures Results(Step(s, t, c).0, GhostAfter(s, g, t, c))
  {
    hide Inv, Step, GhostAfter, Filled, Storing;
    var s', g' := Step(s, t, c).0, GhostAfter(s, g, t, c);
    var grown := StepInv(s, g, t, c);
    forall i | 0 <= i < g'.hi ensures Filled(s', g', i) {
      if i < g.hi { FilledStays(s, g, t, c, i); } else { LastFilled(s, g, t, c); }
    }
    forall v | 0 <= v < |s'.pcs| ensures Storing(g', s'.pcs[v]) { StoringStays(s, g, t, c, v); }
  }

  lemma LastFilled(s: State, g: Ghost, t: nat, c: Choice)
    requires Inv(s, g) && GhostAfter(s, g, t, c).hi > g.hi
    ensures GhostAfter(s, g, t, c).hi == g.hi + 1 && Filled(Step(s, t, c).0, GhostAfter(s, g, t, c), g.hi)
  {
    TookFront(s, g, t, c);
    assert Step(s, t, c).0.pcs[t] == DeqStore(g.all[g.hi], g.vals[g.hi + 1]);
  }

  /** For every schedule: each node that head has left holds the value of the next one, or the thread that moved head
      is about to store it there. */
  lemma {:induction false} RunResults(sched: Schedule)
    ensures Results(Run(sched), GhostOf(sched))
  {
    if sched != [] {
      hide Inv, Step, GhostAfter, Results;
      var init, last := sched[..|sched| - 1], sched[|sched| - 1];
      RunInv(init);
      RunResults(init);
      ResultsStep(Run(init), GhostOf(init), last.0, last.1);
    }
  }

  /** A node that head has left and that holds the value after it. */
  ghost predicate Handed(s: State, g: Ghost, x: Addr, v: int) {
    x in s.nodes && s.nodes[x].value == v && exists i :: Pos(g, x, i) && i < g.hi && i + 1 < |g.vals| && g.vals[i + 1] == v
  }

  lemma HandedByStore(s: State, g: Ghost, t: nat, c: Choice)
    requires Inv(s, g) && Results(s, g) && t < |s.pcs| && s.pcs[t].DeqStore? && c.Go?
    ensures Handed(Step(s, t, c).0, GhostAfter(s, g, t, c), s.pcs[t].head, s.pcs[t].val)
  {
    assert Storing(g, s.pcs[t]);
    var i :| Pos(g, s.pcs[t].head, i) && i < g.hi && i + 1 < |g.vals| && s.pcs[t].val == g.vals[i + 1];
    assert GhostAfter(s, g, t, c) == g;
  }

  lemma HandedStays(s: State, g: Ghost, t: nat, c: Choice, x: Addr, v: int)
    requires Inv(s, g) && Results(s, g) && Handed(s, g, x, v)
    ensures Handed(Step(s, t, c).0, GhostAfter(s, g, t, c), x, v)
  {
    var i :| Pos(g, x, i) && i < g.hi && i + 1 < |g.vals| && g.vals[i + 1] == v;
    var g' := StepInv(s, g, t, c);
    hide Step, GhostAfter, Inv, Results;
    assert Pos(g', x, i) && g'.vals[i + 1] == v;
    ValueChanges(s, g, t, c, i);
    if t < |s.pcs| && s.pcs[t].DeqStore? && s.pcs[t].head == x { StoredValue(s, g, t, i); }
  }

  lemma {:induction false} HandedForGood(sched: Schedule, i: nat)
    requires i < |sched| && sched[i].1.Go? && sched[i].0 < |Run(sched[..i]).pcs| && Run(sched[..i]).pcs[sched[i].0].DeqStore?
    ensures var pc := Run(sched[..i]).pcs[sched[i].0]; Handed(Run(sched), GhostOf(sched), pc.head, pc.val)
    decreases |sched|
  {
    var init, last := sched[..|sched| - 1], sched[|sched| - 1];
    RunInv(init);
    RunResults(init);
    hide Inv, Results, Step, GhostAfter, Handed;
    if i == |sched| - 1 {
      HandedByStore(Run(init), GhostOf(init), last.0, last.1);
    } else {
      SamePrefix(sched, i);
      HandedForGood(init, i);
      var pc := Run(sched[..i]).pcs[sched[i].0];
      HandedStays(Run(init), GhostOf(init), last.0, last.1, pc.head, pc.val);
    }
  }

  /** Step j of the schedule is the head move by thread t from which it is still holding x and v. */
  ghost predicate Took(sched: Schedule, t: nat, j: nat, x: Addr, v: int) {
    && j < |sched| && sched[j].0 == t && EventAt(sched, j) == Dequeued(v)
    && forall m :: j < m <= |sched| ==> t < |Run(sched[..m]).pcs| && Run(sched[..m]).pcs[t] == DeqStore(x, v)
  }

  lemma TookLast(sched: Schedule, t: nat, x: Addr, v: int)
    requires sched != [] && sched[|sched| - 1].0 == t && EventAt(sched, |sched| - 1) == Dequeued(v)
    requires t < |Run(sched).pcs| && Run(sched).pcs[t] == DeqStore(x, v)
    ensures Took(sched, t, |sched| - 1, x, v)
  {
    hide Run, Step;
    assert sched[..|sched|] == sched;
  }

  lemma TookLonger(sched: Schedule, t: nat, j: nat, x: Addr, v: int)
    requires sched != [] && Took(sched[..|sched| - 1], t, j, x, v)
    requires t < |Run(sched).pcs| && Run(sched).pcs[t] == DeqStore(x, v)
    ensures Took(sched, t, j, x, v)
  {
    hide Run, Step;
    SamePrefix(sched, j);
    forall m | j < m <= |sched| ensures t < |Run(sched[..m]).pcs| && Run(sched[..m]).pcs[t] == DeqStore(x, v) {
      if m < |sched| { SamePrefix(sched, m); } else { assert sched[..m] == sched; }
    }
  }

  lemma {:induction false} TookBefore(sched: Schedule, t: nat) returns (j: nat)
    requires t < |Run(sched).pcs| && Run(sched).pcs[t].DeqStore?
    ensures Took(sched, t, j, Run(sched).pcs[t].head, Run(sched).pcs[t].val)
  {
    assert sched != [];
    var init, last := sched[..|sched| - 1], sched[|sched| - 1];
    var pc := Run(sched).pcs[t];
    ComesToStore(Run(init), last.0, last.1, t);
    hide Step, Took;
    if Run(init).pcs[t] == pc {
      j := TookBefore(init, t);
      TookLonger(sched, t, j, pc.head, pc.val);
    } else {
      j := |sched| - 1;
      TookLast(sched, t, pc.head, pc.val);
    }
  }

  lemma TookIsFront(sched: Schedule, t: nat, j: nat, x: Addr, v: int)
    requires Took(sched, t, j, x, v)
    ensures j < |sched| && Replay(History(sched[..j])).Reached?
    ensures Replay(History(sched[..j])).q != [] && Replay(History(sched[..j])).q[0] == v
  {
    hide Inv, Step, Run;
    RunInv(sched[..j]);
    var g := StepInv(Run(sched[..j]), GhostOf(sched[..j]), sched[j].0, sched[j].1);
  }

  /** For every schedule: when step i returns a node from `lf_queue_dequeue`, the call had moved head at an earlier
      step j, at which the front of the atomic queue was v; and from its return on, the node holds v for good. */
  lemma ReturnsFront(sched: Schedule, i: nat) returns (j: nat, x: Addr, v: int)
    requires i < |sched| && sched[i].1.Go? && sched[i].0 < |Run(sched[..i]).pcs| && Run(sched[..i]).pcs[sched[i].0].DeqStore?
    ensures Run(sched[..i]).pcs[sched[i].0] == DeqStore(x, v)
    ensures Took(sched[..i], sched[i].0, j, x, v) && Replay(History(sched[..j])).Reached?
    ensures Replay(History(sched[..j])).q != [] && Replay(History(sched[..j])).q[0] == v
    ensures forall m :: i < m <= |sched| ==> Value(Run(sched[..m]), x) == v
  {
    var t, before := sched[i].0, sched[..i];
    x, v := Run(before).pcs[t].head, Run(before).pcs[t].val;
    hide Run, History, Replay;
    j := TookBefore(before, t);
    TookIsFront(before, t, j, x, v);
    assert before[..j] == sched[..j];
    forall m | i < m <= |sched| ensures Value(Run(sched[..m]), x) == v {
      assert sched[..m][..i] == before && sched[..m][i] == sched[i];
      HandedForGood(sched[..m], i);
    }
  }

  /** What the next step of thread t must not do: dereference NULL or an unknown address, or swing
      head or tail to anything but the current successor of the node it is on. */
  ghost predicate NextStepSafe(s: State, t: nat)
    requires t < |s.pcs|
  {
    match s.pcs[t]
    case EnqInit(node) => node in s.nodes
    case EnqNext(_, tail) => tail in s.nodes
    case EnqLink(node, tail) => tail in s.nodes && node in s.nodes && s.nodes[node].next == 0
    case EnqHelp(_, tail, next) => tail in s.nodes && next in s.nodes && s.nodes[tail].next == next
    case EnqSwing(node, tail) => tail in s.nodes && node in s.nodes && s.nodes[tail].next == node
    case DeqNext(head, _) => head in s.nodes
    case DeqHelp(tail, next) => tail in s.nodes && next in s.nodes && s.nodes[tail].next == next
    case DeqValue(_, next) => next in s.nodes
    case DeqCas(head, next, _) => head in s.nodes && next in s.nodes && s.nodes[head].next == next
    case DeqStore(head, _) => head in s.nodes
    case EmptyNext(head) => head in s.nodes
    case _ => true
  }

  lemma SafeInAllRuns(sched: Schedule, t: nat)
    requires t < |Run(sched).pcs|
    ensures NextStepSafe(Run(sched), t)
  {
    RunInv(sched);
    var s, g := Run(sched), GhostOf(sched);
    assert PcOk(s, g, t);
  }

  /** `lf_queue_is_empty` answers true only when the queue is empty; when it answers false, the queue
      holds something now, or head has moved since the call loaded it. */
  lemma IsEmptyAnswers(sched: Schedule, t: nat)
    requires t < |Run(sched).pcs| && Run(sched).pcs[t].EmptyNext?
    ensures Replay(History(sched)).Reached?
    ensures Next(Run(sched), Run(sched).pcs[t].head) == 0 ==> Replay(History(sched)).q == []
    ensures Next(Run(sched), Run(sched).pcs[t].head) != 0 ==>
              Replay(History(sched)).q != [] || Run(sched).head != Run(sched).pcs[t].head
  {
    RunInv(sched);
    StepIsEmptyInv(Run(sched), GhostOf(sched), t);
  }

  /** Thread t read NULL after loading equal head and tail, and returns NULL if head has not moved. */
  predicate AtNull(s: State, t: nat) {
    t < |s.pcs| && s.pcs[t].DeqCheck? && s.pcs[t].head == s.pcs[t].tail && s.pcs[t].next == 0
  }

  /** Only the thread's own read of NULL, from equal head and tail, leads to a NULL return. */
  lemma NullRead(s: State, t: nat, c: Choice, v: nat)
    requires AtNull(Step(s, t, c).0, v)
    requires !(v < |s.pcs| && s.pcs[v] == Step(s, t, c).0.pcs[v])
    ensures v == t && Step(s, t, c).1 == SawEmpty
  {
    if t < |s.pcs| {
      if s.pcs[t].Idle? {
        IdleReads(s, t, c);
      } else if InEnqueue(s.pcs[t]) {
        EnqueueReads(s, t, c);
      } else if !InIsEmpty(s.pcs[t]) && c.Go? {
        DequeueReads(s, t, c);
      }
    }
  }

  /** An idle or enqueuing thread does not become one that has read NULL. */
  lemma IdleReads(s: State, t: nat, c: Choice)
    requires t < |s.pcs| && s.pcs[t].Idle?
    ensures var s' := StepIdle(s, t, c); s'.pcs == s.pcs[t := s'.pcs[t]] && !AtNull(s', t)
  {
  }

  lemma EnqueueReads(s: State, t: nat, c: Choice)
    requires t < |s.pcs| && InEnqueue(s.pcs[t])
    ensures var s' := Step(s, t, c).0; |s'.pcs| == |s.pcs| && s'.pcs == s.pcs[t := s'.pcs[t]] && !AtNull(s', t)
  {
  }

  lemma DequeueReads(s: State, t: nat, c: Choice)
    requires t < |s.pcs| && !InEnqueue(s.pcs[t]) && !s.pcs[t].Idle? && !InIsEmpty(s.pcs[t]) && c.Go?
    ensures var s', e := Step(s, t, c).0, Step(s, t, c).1;
      |s'.pcs| == |s.pcs| && s'.pcs == s.pcs[t := s'.pcs[t]] && (AtNull(s', t) ==> e == SawEmpty || s'.pcs[t] == s.pcs[t])
  {
  }

  lemma NullStep(sched: Schedule, t: nat)
    requires sched != [] && AtNull(Run(sched), t)
    ensures AtNull(Run(sched[..|sched| - 1]), t)
            || (sched[|sched| - 1].0 == t && EventAt(sched, |sched| - 1) == SawEmpty)
  {
    var init, last := sched[..|sched| - 1], sched[|sched| - 1];
    if !AtNull(Run(init), t) {
      NullRead(Run(init), last.0, last.1, t);
    }
  }

  lemma SawEmptyWhenEmpty(sched: Schedule, i: nat)
    requires i < |sched| && EventAt(sched, i) == SawEmpty
    ensures Replay(History(sched[..i])) == Reached([])
  {
    RunInv(sched[..i]);
    var g' := StepInv(Run(sched[..i]), GhostOf(sched[..i]), sched[i].0, sched[i].1);
  }

  /** Step i of the schedule is the read by thread t that it is still waiting to confirm. */
  ghost predicate Confirms(sched: Schedule, t: nat, i: nat) {
    && i < |sched| && sched[i].0 == t && EventAt(sched, i) == SawEmpty
    && forall j :: i < j <= |sched| ==> AtNull(Run(sched[..j]), t)
  }

  lemma ConfirmsLonger(sched: Schedule, t: nat, i: nat)
    requires sched != [] && Confirms(sched[..|sched| - 1], t, i) && AtNull(Run(sched), t)
    ensures Confirms(sched, t, i)
  {
    hide Run, Step, AtNull;
    var init := sched[..|sched| - 1];
    SamePrefix(sched, i);
    forall j | i < j <= |sched| ensures AtNull(Run(sched[..j]), t) {
      if j < |sched| { SamePrefix(sched, j); } else { assert sched[..j] == sched; }
    }
  }

  lemma SamePrefix(sched: Schedule, j: nat)
    requires j < |sched|
    ensures sched[..|sched| - 1][..j] == sched[..j]
  {
  }

  /** When thread t is about to return NULL, its last step was a read of `next` that found the
      atomic queue empty, and it has been waiting to check `head` ever since. */
  lemma {:induction false} NullSeen(sched: Schedule, t: nat) returns (i: nat)
    requires AtNull(Run(sched), t)
    ensures Confirms(sched, t, i)
    ensures Replay(History(sched[..i])) == Reached([])
  {
    assert sched != [];
    hide *;
    NullStep(sched, t);
    if AtNull(Run(sched[..|sched| - 1]), t) {
      i := NullSeen(sched[..|sched| - 1], t);
      ConfirmsLonger(sched, t, i);
    } else {
      i := |sched| - 1;
      ConfirmsLast(sched, t);
    }
    ConfirmsRead(sched, t, i);
    SawEmptyWhenEmpty(sched, i);
  }

  lemma ConfirmsRead(sched: Schedule, t: nat, i: nat)
    requires Confirms(sched, t, i)
    ensures i < |sched| && EventAt(sched, i) == SawEmpty
  {
  }

  lemma ConfirmsLast(sched: Schedule, t: nat)
    requires sched != [] && AtNull(Run(sched), t)
    requires sched[|sched| - 1].0 == t && EventAt(sched, |sched| - 1) == SawEmpty
    ensures Confirms(sched, t, |sched| - 1)
  {
    hide Run, Step, AtNull;
    assert sched[..|sched|] == sched;
  }

  // ----- How calls begin and end

  /** An idle thread that is asked for a call is in it from then on; an enqueue is of a node of the thread's own. */
  lemma CallBegins(s: State, t: nat, c: Choice)
    requires t < |s.pcs| && s.pcs[t].Idle?
    ensures var pc := Step(s, t, c).0.pcs[t];
      && (c.CallEnqueue? && Mine(s, t, c.a) ==> pc == EnqInit(c.a))
      && (c.CallDequeue? ==> pc == DeqHead) && (c.CallIsEmpty? ==> pc == EmptyHead)
      && (c.Malloc? ==> pc == Idle && (c.a != 0 && c.a !in s.nodes ==>
            c.a in Step(s, t, c).0.nodes && Step(s, t, c).0.nodes[c.a].value == c.value && Mine(Step(s, t, c).0, t, c.a)))
  {
  }

  predicate InDequeue(pc: Pc) {
    !pc.Idle? && !InEnqueue(pc) && !InIsEmpty(pc)
  }

  /** A step moves no thread but its own. */
  lemma OthersStand(s: State, t: nat, c: Choice, v: nat)
    requires v < |s.pcs| && v != t
    ensures v < |Step(s, t, c).0.pcs| && Step(s, t, c).0.pcs[v] == s.pcs[v]
  {
    if t < |s.pcs| {
      if InEnqueue(s.pcs[t]) {
        if c.Go? { EnqueueCall(s, t, c.spurious); }
        hide StepEnqueue;
      } else if InDequeue(s.pcs[t]) {
        if c.Go? { DequeueCall(s, t, c.spurious); }
        hide StepDequeue, StepIdle;
      }
    }
  }

  /** An enqueue links its node once, and ends after that. */
  lemma EnqueueMoves(s: State, t: nat, c: Choice)
    requires t < |s.pcs| && InEnqueue(s.pcs[t])
    ensures var pc, pc', e := s.pcs[t], Step(s, t, c).0.pcs[t], Step(s, t, c).1;
      && (e != Internal ==> e.Enqueued? && !pc.EnqSwing? && pc'.EnqSwing?)
      && (e == Internal ==> (pc'.EnqSwing? <==> pc.EnqSwing? && pc' != Idle))
      && (InEnqueue(pc') || (pc.EnqSwing? && pc' == Idle))
  {
    hide StepDequeue, StepIdle;
  }

  /** A dequeue ends with its store, or with NULL after an unmoved head was seen without successor. */
  lemma DequeueMoves(s: State, t: nat, c: Choice)
    requires t < |s.pcs| && InDequeue(s.pcs[t])
    ensures var pc, pc', e := s.pcs[t], Step(s, t, c).0.pcs[t], Step(s, t, c).1;
      && (e.Dequeued? ==> pc.DeqCas? && pc' == DeqStore(pc.head, e.v))
      && (e != Internal ==> e.Dequeued? || e == SawEmpty)
      && (InDequeue(pc') || (pc' == Idle && e == Internal && (pc.DeqStore? || (AtNull(s, t) && s.head == pc.head))))
  {
    hide StepEnqueue, StepIdle;
  }

  lemma LastStep(sched: Schedule, i: nat)
    requires i < |sched|
    ensures Run(sched[..i + 1]) == Step(Run(sched[..i]), sched[i].0, sched[i].1).0
  {
    hide Step;
    assert sched[..i + 1][..i] == sched[..i];
  }

  predicate Dequeuing(sched: Schedule, t: nat) {
    t < |Run(sched).pcs| && InDequeue(Run(sched).pcs[t])
  }

  /** For every schedule, a step that ends a call of `lf_queue_dequeue` and does not return a node confirms a read of
      next at step j of the same call, at which the atomic queue was empty, and head has not moved since it was loaded. */
  lemma NullOnlyIfEmpty(sched: Schedule, i: nat, t: nat) returns (j: nat)
    requires i < |sched| && Dequeuing(sched[..i], t) && !Dequeuing(sched[..i + 1], t) && !Run(sched[..i]).pcs[t].DeqStore?
    ensures sched[i].0 == t && AtNull(Run(sched[..i]), t) && Run(sched[..i]).head == Run(sched[..i]).pcs[t].head
    ensures Confirms(sched[..i], t, j) && j < i && Replay(History(sched[..j])) == Reached([])
  {
    LastStep(sched, i);
    DequeueMovesItself(sched, i, t);
    DequeueMoves(Run(sched[..i]), t, sched[i].1);
    hide Step, Run, AtNull, Confirms, History, Replay;
    j := NullSeen(sched[..i], t);
    ConfirmsRead(sched[..i], t, j);
    assert sched[..i][..j] == sched[..j];
  }

  /** For every schedule, the step that ends a call of `lf_queue_dequeue` either returns the node from which the same
      call took the front of the queue at step j, or returns NULL, and then the call had read next at step j, at which
      the atomic queue was empty, and head has not moved since it was loaded. */
  lemma DequeueEnds(sched: Schedule, i: nat, t: nat) returns (j: nat, x: Addr, v: int)
    requires i < |sched| && Dequeuing(sched[..i], t) && !Dequeuing(sched[..i + 1], t)
    ensures sched[i].0 == t && j < i
    ensures var s := Run(sched[..i]);
      if s.pcs[t].DeqStore? then
        && s.pcs[t] == DeqStore(x, v) && Took(sched[..i], t, j, x, v) && Replay(History(sched[..j])).Reached?
        && Replay(History(sched[..j])).q != [] && Replay(History(sched[..j])).q[0] == v
        && forall m :: i < m <= |sched| ==> Value(Run(sched[..m]), x) == v
      else AtNull(s, t) && s.head == s.pcs[t].head && Confirms(sched[..i], t, j) && Replay(History(sched[..j])) == Reached([])
  {
    LastStep(sched, i);
    DequeueMovesItself(sched, i, t);
    hide Step, Run, AtNull, Took, Confirms, History, Replay, Value;
    if Run(sched[..i]).pcs[t].DeqStore? {
      j, x, v := ReturnsFront(sched, i);
      TookEarlier(sched[..i], t, j, x, v);
    } else {
      j := NullOnlyIfEmpty(sched, i, t);
      x, v := 0, 0;
    }
  }

  lemma TookEarlier(sched: Schedule, t: nat, j: nat, x: Addr, v: int)
    requires Took(sched, t, j, x, v)
    ensures j < |sched|
  {
  }

  lemma DequeueMovesItself(sched: Schedule, i: nat, t: nat)
    requires i < |sched| && Dequeuing(sched[..i], t) && !Dequeuing(sched[..i + 1], t)
    ensures sched[i].0 == t && sched[i].1.Go?
  {
    LastStep(sched, i);
    if sched[i].0 != t { OthersStand(Run(sched[..i]), sched[i].0, sched[i].1, t); }
    hide StepDequeue;
  }

  /** Since step j thread t has done nothing visible. */
  ghost predicate Silent(sched: Schedule, t: nat, j: nat) {
    forall m: nat :: j < m < |sched| && sched[m].0 == t ==> EventAt(sched, m) == Internal
  }

  /** Since step j thread t has done one visible thing: at step k it linked its node. */
  ghost predicate LinkedOnce(sched: Schedule, t: nat, j: nat, k: nat) {
    && j < k < |sched| && sched[k].0 == t && EventAt(sched, k).Enqueued?
    && forall m: nat :: j < m < |sched| && m != k && sched[m].0 == t ==> EventAt(sched, m) == Internal
  }

  lemma EventPrefix(sched: Schedule, m: nat)
    requires m + 1 < |sched|
    ensures sched[..|sched| - 1][m] == sched[m] && EventAt(sched[..|sched| - 1], m) == EventAt(sched, m)
  {
    hide Step;
    SamePrefix(sched, m);
  }

  /** The last step is not one of thread t's own, or it is invisible. */
  predicate QuietLast(sched: Schedule, t: nat) {
    sched != [] && (sched[|sched| - 1].0 == t ==> EventAt(sched, |sched| - 1) == Internal)
  }

  lemma SilentLonger(sched: Schedule, t: nat, j: nat)
    requires QuietLast(sched, t) && Silent(sched[..|sched| - 1], t, j)
    ensures Silent(sched, t, j)
  {
    hide EventAt;
    forall m: nat | j < m < |sched| && sched[m].0 == t ensures EventAt(sched, m) == Internal {
      if m + 1 < |sched| { EventPrefix(sched, m); }
    }
  }

  lemma LinkedLonger(sched: Schedule, t: nat, j: nat, k: nat)
    requires QuietLast(sched, t) && LinkedOnce(sched[..|sched| - 1], t, j, k)
    ensures LinkedOnce(sched, t, j, k)
  {
    hide EventAt;
    EventPrefix(sched, k);
    forall m: nat | j < m < |sched| && m != k && sched[m].0 == t ensures EventAt(sched, m) == Internal {
      if m + 1 < |sched| { EventPrefix(sched, m); }
    }
  }

  lemma LinkedNow(sched: Schedule, t: nat, j: nat)
    requires sched != [] && Silent(sched[..|sched| - 1], t, j) && j + 1 < |sched|
    requires sched[|sched| - 1].0 == t && EventAt(sched, |sched| - 1).Enqueued?
    ensures LinkedOnce(sched, t, j, |sched| - 1)
  {
    hide EventAt;
    forall m: nat | j < m < |sched| - 1 && sched[m].0 == t ensures EventAt(sched, m) == Internal { EventPrefix(sched, m); }
  }

  /** At every point of an enqueue: its node was linked once if it is about to swing the tail, and not yet otherwise. */
  lemma {:induction false} EnqueueFollows(sched: Schedule, t: nat, node: Addr) returns (j: nat, k: nat)
    requires Enqueuing(sched, t, node)
    ensures Called(sched, t, j, node)
    ensures if Run(sched).pcs[t].EnqSwing? then LinkedOnce(sched, t, j, k) else Silent(sched, t, j)
  {
    assert sched != [];
    var init := sched[..|sched| - 1];
    EnqueueOneStep(sched, t, node);
    hide Step, Run, Called, Silent, LinkedOnce, EventAt, Enqueuing, QuietLast;
    if Enqueuing(init, t, node) {
      j, k := EnqueueFollows(init, t, node);
      CalledLonger(sched, t, j, node);
      CalledEarlier(init, t, j, node);
      if QuietLast(sched, t) {
        if Run(sched).pcs[t].EnqSwing? { LinkedLonger(sched, t, j, k); } else { SilentLonger(sched, t, j); }
      } else {
        k := |init|;
        LinkedNow(sched, t, j);
      }
    } else {
      j, k := |init|, 0;
      CalledNow(sched, t, node);
      SilentNow(sched, t);
    }
  }

  lemma SilentNow(sched: Schedule, t: nat)
    requires sched != []
    ensures Silent(sched, t, |sched| - 1)
  {
  }

  lemma EnqueueOneStep(sched: Schedule, t: nat, node: Addr)
    requires sched != [] && Enqueuing(sched, t, node)
    ensures t < |Run(sched).pcs| && t < |Run(sched[..|sched| - 1]).pcs|
    ensures var init, pc, pc' := sched[..|sched| - 1], Run(sched[..|sched| - 1]).pcs[t], Run(sched).pcs[t];
      if !Enqueuing(init, t, node) then sched[|init|] == (t, CallEnqueue(node)) && pc.Idle? && !pc'.EnqSwing?
      else if QuietLast(sched, t) then pc'.EnqSwing? <==> pc.EnqSwing?
      else sched[|init|].0 == t && EventAt(sched, |init|).Enqueued? && !pc.EnqSwing? && pc'.EnqSwing?
  {
    var init, last := sched[..|sched| - 1], sched[|sched| - 1];
    EnqueueStays(Run(init), last.0, last.1, t);
    if Enqueuing(init, t, node) {
      if last.0 == t { EnqueueMoves(Run(init), t, last.1); } else { OthersStand(Run(init), last.0, last.1, t); }
      hide Step;
    } else {
      EnqueueStarts(Run(init), t, last.1);
      hide Step;
    }
  }

  lemma CalledEarlier(sched: Schedule, t: nat, j: nat, node: Addr)
    requires Called(sched, t, j, node)
    ensures j < |sched|
  {
  }

  lemma EnqueueStarts(s: State, t: nat, c: Choice)
    requires t < |s.pcs| && s.pcs[t].Idle?
    ensures !Step(s, t, c).0.pcs[t].EnqSwing?
  {
  }

  /** For every schedule, the step that ends a call of `lf_queue_enqueue` is its attempt to swing the tail, and in that
      call it has enqueued its value exactly once, at step k. */
  lemma EnqueueEnds(sched: Schedule, i: nat, t: nat, node: Addr) returns (j: nat, k: nat)
    requires i < |sched| && Enqueuing(sched[..i], t, node) && !Enqueuing(sched[..i + 1], t, node)
    ensures sched[i].0 == t && EventAt(sched, i) == Internal
    ensures Called(sched[..i], t, j, node) && LinkedOnce(sched[..i], t, j, k)
  {
    LastStep(sched, i);
    if sched[i].0 != t { OthersStand(Run(sched[..i]), sched[i].0, sched[i].1, t); }
    EnqueueMoves(Run(sched[..i]), t, sched[i].1);
    EnqueueKeepsNode(Run(sched[..i]), t, sched[i].1);
    j, k := EnqueueFollows(sched[..i], t, node);
  }

  lemma EnqueueKeepsNode(s: State, t: nat, c: Choice)
    requires t < |s.pcs| && InEnqueue(s.pcs[t])
    ensures InEnqueue(Step(s, t, c).0.pcs[t]) ==> Step(s, t, c).0.pcs[t].node == s.pcs[t].node
  {
    if c.Go? { EnqueueCall(s, t, c.spurious); }
    hide StepEnqueue;
  }

  /** For every schedule, a call of `lf_queue_is_empty` ends only with its answer. */
  lemma IsEmptyEnds(sched: Schedule, i: nat, t: nat)
    requires i < |sched| && t < |Run(sched[..i]).pcs| && InIsEmpty(Run(sched[..i]).pcs[t])
    requires !(t < |Run(sched[..i + 1]).pcs| && InIsEmpty(Run(sched[..i + 1]).pcs[t]))
    ensures sched[i].0 == t && EventAt(sched, i).Answered?
    ensures Replay(History(sched[..i])).Reached?
    ensures EventAt(sched, i).empty ==> Replay(History(sched[..i])).q == []
    ensures !EventAt(sched, i).empty ==>
              Replay(History(sched[..i])).q != [] || Run(sched[..i]).head != Run(sched[..i]).pcs[t].head
  {
    LastStep(sched, i);
    if sched[i].0 != t { OthersStand(Run(sched[..i]), sched[i].0, sched[i].1, t); }
    IsEmptyAnswers(sched[..i], t);
  }

  // ----- Calls that run alone

  /** The state after k steps of thread t alone, without spurious failures. */
  function Alone(s: State, t: nat, k: nat): State
    decreases k
  {
    if k == 0 then s else Alone(Step(s, t, Go(false)).0, t, k - 1)
  }

  /** The steps of an enqueue from its first load on; a lagging tail costs one more round. */
  function EnqueueRound(s: State): nat {
    if Next(s, s.tail) == 0 then 5 else 9
  }

  function EnqueueLeft(s: State, pc: Pc): nat
    decreases if pc.EnqCheck? then 1 else 0
  {
    match pc
    case EnqInit(_) => 1 + EnqueueRound(s)
    case EnqTail(_) => EnqueueRound(s)
    case EnqNext(_, tail) => if s.tail == tail then EnqueueRound(s) - 1 else 2 + EnqueueRound(s)
    case EnqCheck(node, tail, next) =>
      1 + if s.tail != tail then EnqueueRound(s)
          else EnqueueLeft(s, if next == 0 then EnqLink(node, tail) else EnqHelp(node, tail, next))
    case EnqLink(_, tail) => if Next(s, tail) == 0 then 2 else 1 + EnqueueRound(s)
    case EnqHelp(_, tail, next) => 1 + EnqueueRound(if s.tail == tail then s.(tail := next) else s)
    case EnqSwing(_, _) => 1
    case _ => 0
  }

  /** The steps of a dequeue from its first load on. */
  function DequeueRound(s: State): nat {
    if s.head != s.tail then 7 else if Next(s, s.head) == 0 then 4 else 12
  }

  function DequeueLeft(s: State, pc: Pc): nat {
    match pc
    case DeqHead => DequeueRound(s)
    case DeqTail(head) => if s.head == head then DequeueRound(s) - 1 else 3 + DequeueRound(s)
    case DeqNext(head, tail) => 1 + DequeueChecked(s, head, tail, Next(s, head))
    case DeqCheck(head, tail, next) => DequeueChecked(s, head, tail, next)
    case DeqHelp(tail, next) => 1 + DequeueRound(if s.tail == tail then s.(tail := next) else s)
    case DeqValue(head, _) => 1 + if s.head == head then 2 else 1 + DequeueRound(s)
    case DeqCas(head, _, _) => if s.head == head then 2 else 1 + DequeueRound(s)
    case DeqStore(_, _) => 1
    case _ => 0
  }

  function DequeueChecked(s: State, head: Addr, tail: Addr, next: Addr): nat {
    1 + if s.head != head then DequeueRound(s)
        else if head != tail then 3
        else if next == 0 then 0
        else 1 + DequeueRound(if s.tail == tail then s.(tail := next) else s)
  }

  /** How many more steps the call that a thread at pc is in takes if nobody interferes. */
  function Remaining(s: State, pc: Pc): nat {
    if InEnqueue(pc) then EnqueueLeft(s, pc)
    else if pc.EmptyHead? then 2
    else if pc.EmptyNext? then 1
    else DequeueLeft(s, pc)
  }

  /** A tail that lags is one node behind. */
  lemma LagOne(s: State, g: Ghost)
    requires Chain(s, g) && Next(s, s.tail) != 0
    ensures Next(s, Next(s, s.tail)) == 0 && Next(s, s.tail) != s.tail
  {
    assert Pos(g, s.tail, g.ti);
    assert Pos(g, g.all[g.ti + 1], g.ti + 1);
  }

  lemma HelpLags(s: State, g: Ghost, tail: Addr, next: Addr)
    requires Chain(s, g) && Adjacent(g, tail, next)
    ensures Next(s, tail) == next != 0
  {
    var i :| Pos(g, tail, i) && Pos(g, next, i + 1);
  }

  lemma EnqueueDrops(s: State, g: Ghost, t: nat)
    requires Inv(s, g) && t < |s.pcs| && InEnqueue(s.pcs[t])
    ensures var s' := Step(s, t, Go(false)).0;
      |s'.pcs| == |s.pcs| && (InEnqueue(s'.pcs[t]) || s'.pcs[t].Idle?) && EnqueueLeft(s', s'.pcs[t]) == EnqueueLeft(s, s.pcs[t]) - 1
    ensures EnqueueLeft(s, s.pcs[t]) <= 11
  {
    assert PcOk(s, g, t) && Chain(s, g);
    if Next(s, s.tail) != 0 { LagOne(s, g); }
    if s.pcs[t].EnqHelp? { HelpLags(s, g, s.pcs[t].tail, s.pcs[t].next); }
    if s.pcs[t].EnqCheck? && s.pcs[t].next != 0 { HelpLags(s, g, s.pcs[t].tail, s.pcs[t].next); }
    hide Inv, Chain, PcOk, StepDequeue, StepIdle;
  }

  /** The counts depend on memory only. */
  lemma SameMemory(s: State, s': State, pc: Pc)
    requires s'.head == s.head && s'.tail == s.tail && s'.nodes == s.nodes
    ensures DequeueRound(s') == DequeueRound(s) && DequeueLeft(s', pc) == DequeueLeft(s, pc)
  {
  }

  lemma DequeueLeftBound(s: State, t: nat)
    requires t < |s.pcs| && InDequeue(s.pcs[t])
    ensures DequeueLeft(s, s.pcs[t]) <= 16
  {
  }

  /** A dequeue that only reads. */
  lemma DequeueReadDrops(s: State, t: nat)
    requires t < |s.pcs| && InDequeue(s.pcs[t]) && !s.pcs[t].DeqHelp? && !s.pcs[t].DeqCas? && !s.pcs[t].DeqStore?
    requires Next(s, s.tail) != 0 ==> Next(s, Next(s, s.tail)) == 0 && Next(s, s.tail) != s.tail
    ensures var s' := StepDequeue(s, t, false).0;
      |s'.pcs| == |s.pcs| && (InDequeue(s'.pcs[t]) || s'.pcs[t].Idle?) && DequeueLeft(s', s'.pcs[t]) == DequeueLeft(s, s.pcs[t]) - 1
  {
    var s' := StepDequeue(s, t, false).0;
    assert s' == Goto(s, t, s'.pcs[t]);
    SameMemory(s, s', s'.pcs[t]);
    hide Next;
  }

  lemma DequeueWriteDrops(s: State, t: nat)
    requires t < |s.pcs| && (s.pcs[t].DeqHelp? || s.pcs[t].DeqCas? || s.pcs[t].DeqStore?)
    requires s.pcs[t].DeqStore? ==> s.pcs[t].head in s.nodes
    ensures var s' := StepDequeue(s, t, false).0;
      |s'.pcs| == |s.pcs| && (InDequeue(s'.pcs[t]) || s'.pcs[t].Idle?) && DequeueLeft(s', s'.pcs[t]) == DequeueLeft(s, s.pcs[t]) - 1
  {
    hide DequeueChecked;
  }

  lemma DequeueDrops(s: State, g: Ghost, t: nat)
    requires Inv(s, g) && t < |s.pcs| && InDequeue(s.pcs[t])
    ensures var s' := Step(s, t, Go(false)).0;
      |s'.pcs| == |s.pcs| && (InDequeue(s'.pcs[t]) || s'.pcs[t].Idle?) && DequeueLeft(s', s'.pcs[t]) == DequeueLeft(s, s.pcs[t]) - 1
    ensures DequeueLeft(s, s.pcs[t]) <= 16
  {
    assert PcOk(s, g, t) && Chain(s, g);
    if Next(s, s.tail) != 0 { LagOne(s, g); }
    if s.pcs[t].DeqStore? { StoreKnown(s, g, t); }
    hide Inv, Chain, PcOk, StepEnqueue, StepIdle, StepDequeue, DequeueLeft;
    DequeueLeftBound(s, t);
    if s.pcs[t].DeqHelp? || s.pcs[t].DeqCas? || s.pcs[t].DeqStore? { DequeueWriteDrops(s, t); } else { DequeueReadDrops(s, t); }
  }

  lemma StoreKnown(s: State, g: Ghost, t: nat)
    requires Chain(s, g) && t < |s.pcs| && PcOk(s, g, t) && s.pcs[t].DeqStore?
    ensures s.pcs[t].head in s.nodes
  {
  }

  function MostSteps(pc: Pc): nat {
    if InEnqueue(pc) then 11 else if InIsEmpty(pc) then 2 else 16
  }

  lemma RemainingDrops(s: State, g: Ghost, t: nat)
    requires Inv(s, g) && t < |s.pcs| && !s.pcs[t].Idle?
    ensures var s' := Step(s, t, Go(false)).0;
      && |s'.pcs| == |s.pcs| && Remaining(s', s'.pcs[t]) == Remaining(s, s.pcs[t]) - 1
      && (s'.pcs[t].Idle? ==> Remaining(s', s'.pcs[t]) == 0)
    ensures Remaining(s, s.pcs[t]) <= MostSteps(s.pcs[t])
  {
    if InEnqueue(s.pcs[t]) {
      EnqueueDrops(s, g, t);
      hide Inv, Step;
    } else if InDequeue(s.pcs[t]) {
      DequeueDrops(s, g, t);
      hide Inv, Step;
    } else {
      hide Inv;
    }
  }

  /** Wherever a call is, run alone it ends, an enqueue within 11 steps, a dequeue within 16 and an emptiness test within 2. */
  lemma {:induction false} CallAlone(s: State, g: Ghost, t: nat) returns (k: nat)
    requires Inv(s, g) && t < |s.pcs| && !s.pcs[t].Idle?
    ensures k <= MostSteps(s.pcs[t])
    ensures k == Remaining(s, s.pcs[t]) && t < |Alone(s, t, k).pcs| && Alone(s, t, k).pcs[t] == Idle
    decreases Remaining(s, s.pcs[t])
  {
    RemainingDrops(s, g, t);
    var g' := StepInv(s, g, t, Go(false));
    var s' := Step(s, t, Go(false)).0;
    hide Step, Inv, Remaining, MostSteps;
    k := 0;
    if !s'.pcs[t].Idle? { k := CallAlone(s', g', t); }
    k := k + 1;
    assert Alone(s, t, k) == Alone(s', t, k - 1);
  }
}
