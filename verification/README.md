# Verified models of the C textbook programs

A Dafny 4.11 project that models the programs of a collection of self-contained C files (lock-free structures,
graph algorithms, a small expression compiler, hash tables, an allocator, a balanced tree, lists and sorts) and
proves what those programs are for.  Check everything with `dafny verify dfyconfig.toml`.

Each `.dfy` file is one module and models one C file, or a part of one that stands alone (`stack.c` is `ArrayStack`,
`Brackets`, `Expressions`, `Arithmetic` and, as a step machine, `Conversion`); `Forests`, `Walks`,
`Digraphs`, `DistanceHeap` and `ArrayStack` hold what several of them share.

## How the programs are modelled

**Concurrent programs** (`HazardPointer`, `LockfreeQueue`, `UserspaceRcu`) are step machines.  One step is one load,
store or compare-and-swap on shared memory, followed by the thread-local work up to the next one.  A schedule is any
sequence of (thread, choice) pairs; a choice is a call, one more step, a spurious failure of a weak compare-and-swap
(section 7.17.7.4 of ISO/IEC 9899:2018), an allocation at any address that is not in use, or a registration.  The
theorems quantify over all schedules.  Freed addresses may come back at once in `HazardPointer` and `UserspaceRcu`, so
freedom from the ABA problem is derived from the protocol and not assumed.  Memory accesses are total functions: an
access to freed memory would yield a junk value, and `SafeInAllRuns` says that it never happens.

**Sequential programs** keep their form: arrays and structures are arrays and classes that methods update in place,
loops are loops, and every method is proved against a mathematical meaning (a map, a set of edges, a multiset, an
expression tree, a sequence) that does not mention the loop.

**Numbers** are mathematical integers, except in radix sort, where the conversion to `unsigned int` and the sign bit
are written out.  `INF` (0x3f3f3f3f) stays the "unreached" sentinel; the shortest-path theorems ask that the weights of
simple paths stay below it.

## What was found

- `rh_put` refuses at 24 entries even when the key is already there and would only be updated
  (`RobinHoodHash.RHHashMap.Put`); any 24 keys, under any hash function, lead to such a table
  (`RobinHoodHash.UpdateRefused`).
- `oa_put` stores a key a second time exactly when the key is in the table behind a tombstone; lookups still answer as
  a map would, but after a put and a remove the old value is back.  `oa_remove` makes the key absent exactly when it was
  stored at most once (`OpenAddressing.OAHashMap.Put`, `OpenAddressing.OAHashMap.Remove`,
  `OpenAddressing.PutRemoveRestores`); six calls on an empty table show it (`OpenAddressing.StaleValueReturns`).
- A quadratic path has twelve slots of the 64 (`OpenAddressing.QuadraticVisits`).  Below 42 entries `oa_put` fails
  exactly when all slots on the path of the key hold other keys (`OpenAddressing.OAHashMap.Put`), which needs twelve
  entries and happens with any thirteen keys of one home slot (`OpenAddressing.QuadraticFills`).
- `ck_put` succeeds exactly when all keys, the new one included, can have one of their two slots to themselves: the limit
  of 64 rounds never gives up too early (`CuckooHash.CuckooMap.Put`).
- Kahn's verdict "the count is V exactly if there is no cycle" holds for indices below V.  With larger indices the count
  is V minus the modules lost plus the extra indices listed (`MakeDeps.CountIs`), so it is V exactly if the two are
  equally many, and that decides whether the verdict is right (`MakeDeps.VerdictRightIff`).  It fails both ways: the
  graph that `main` builds uses index 9 with V = 8 and is reported to have a cycle although there is none
  (`MakeDeps.ExampleMisjudged`, `MakeDeps.MisjudgedRun`), and a graph with a cycle is reported to be fine
  (`MakeDeps.ExampleAccepted`, `MakeDeps.AcceptedRun`).
- `slab_cache_free` counts every pointer as freed.  The statistics stay right exactly for NULL and for pointers into a
  slot in use; they go wrong for a pointer into no slab and for one into a free slot, whose slab then also counts one
  free slot too many (`SlabAllocator.SlabCache.Free`); freeing an object twice does that
  (`SlabAllocator.SlabCache.DoubleFree`).  Such a slab never reaches free_count 0 and stays on the partial list, so
  `slab_cache_alloc` fails its own assertion once the zero bits in front of it and in it are used up
  (`SlabAllocator.SlabCache.Alloc`, `SlabAllocator.SlabCache.AllocUntilAssertion`).
- `infix_to_postfix` returns true exactly if the output, spaces included, is shorter than the buffer, or as long and
  ends with a number; it returns false exactly if the first token that does not fit is a number; and it never returns
  exactly if that token is an operator, because the operator loops pop only what they can write
  (`Conversion.ReturnsTrueIff`, `Conversion.ReturnsFalseIff`, `Conversion.NeverReturnsIff`).  "1+2" with six bytes never
  returns (`Conversion.ExampleSpins`); with more than two bytes per input character it always returns true
  (`Conversion.AmpleReturnsTrue`).  With fewer than two bytes the guards wrap around: no write falls outside the buffer
  exactly if it has two bytes or more, or one byte and the output is empty or begins with a number
  (`Conversion.WritesInsideIff`).
- `hps_pop` clears its hazard slot only when it returns a node.  A pop that has shown a node and then finds the stack
  empty answers NULL and leaves the node shown, so a scan keeps that node until the thread pops again
  (`HazardPointer.StillShown`); no other thread outside a pop shows anything (`HazardPointer.ShownOutside`).
- On a graph of several components `prim` prints a minimum spanning forest but adds INF to the total for every component
  beyond the first, so its total is that of `kruskal` exactly on connected graphs (`Prim.SameTotals`).
- `print_path` of `floyd_warshall.c` needs no positive weights: without a negative cycle it always arrives, with exactly
  the computed weight (`FloydWarshall.PrintPath`).
- `rcu_list_find` answers what the list held when it loaded the head, whatever is inserted and deleted meanwhile
  (`UserspaceRcu.FindAnswers`).  `rcu_list_delete` looks at the first entry only: it returns 0 whenever that has another
  key, or the head moves under it (`UserspaceRcu.DeleteAnswers`).
- With no edges at all, Dijkstra's heap still holds the source, one entry; the number of entries is otherwise bounded by
  the number of edges.

## Model

| member | source | states |
|---|---|---|
| HazardPointer.RefinesAtomicStack | hazard_pointer.c:90-124 | For every schedule, the pushes, pops and empty answers are, in order, a run of the atomic stack, whose contents are the chain of nodes from head; no node is pushed while it is on the stack. |
| HazardPointer.SafeInAllRuns | hazard_pointer.c:45-124 | In every reachable state the next step of any thread reads no freed node, a pop that is about to succeed installs the current successor of the head, the scan frees only a node retired by its own thread that nobody is about to read, and the write to the retired array is in range. |
| HazardPointer.PoppedAtMostOnce | hazard_pointer.c:101-124 | In every history each push of an address is matched by at most one pop: pushes equal pops plus one exactly if the address is on the stack. |
| HazardPointer.EventsAreAsked | hazard_pointer.c:90-124 | For every schedule each push is of the node that the running call of hps_push was given, and each pop or empty answer belongs to a running call of hps_pop. |
| HazardPointer.CallBegins | hazard_pointer.c:90-102 | An idle thread that is asked for a push of a node of its own, or for a pop, is in that call from then on. |
| HazardPointer.PopReturns | hazard_pointer.c:115-123 | The address that hps_pop returns is the one that its own compare-and-swap took from the abstract stack, earlier in the same call. |
| HazardPointer.PushEnds | hazard_pointer.c:90-99 | For every schedule, a call of hps_push ends only with the step that puts its node on the stack; every failed compare-and-swap leads to another attempt. |
| HazardPointer.PopEnds | hazard_pointer.c:101-124 | For every schedule, a call of hps_pop ends only by finding the stack empty at that very step, or by returning the address that its own step took. |
| HazardPointer.ShownOutside | hazard_pointer.c:33-43 | For every schedule, a thread outside hps_pop shows a node only if its last pop answered NULL; it has shown it since. |
| HazardPointer.StillShown | hazard_pointer.c:104-113 | That happens: a retry that finds the stack empty answers NULL without clearing the slot, and a node that another thread has popped stays shown although nobody is in a pop. |
| HazardPointer.PushSucceeds | hazard_pointer.c:96-98 | A successful push puts the node on top of the abstract stack and keeps the invariant, although the head may have been popped and pushed again since it was read. |
| HazardPointer.PopSucceeds | hazard_pointer.c:115-119 | A successful pop takes exactly the top of the abstract stack, although addresses are reused. |
| HazardPointer.KeepBound | hazard_pointer.c:66-76 | A kept entry is one of the addresses that were shown, or about to be shown, when the scan began, so at most 32 entries are kept. |
| HazardPointer.KeptBound | hazard_pointer.c:62-76 | During a scan never more than 32 entries are kept, so the retired array has room afterwards. |
| HazardPointer.ScanPassInv | hazard_pointer.c:45-54 | Passing a slot that does not hold the entry passes no thread that has validated a hazard pointer on it. |
| HazardPointer.ScanFreeInv | hazard_pointer.c:68-74 | Freeing an entry at the end of its scan keeps the invariant: no thread can have validated a hazard pointer on it. |
| HazardPointer.RetireInv | hazard_pointer.c:62-64 | Retiring a popped node keeps the invariant. |
| HazardPointer.RetireAlone | hazard_pointer.c:60-77 | Without interference hp_retire appends the address, and when that makes the list full, keeps exactly the entries that some hazard slot holds, in order, and frees all others. |
| HazardPointer.ScanAlone | hazard_pointer.c:45-77 | The same for the rest of a scan from any entry on, within a number of steps bounded by entries, threads and slots. |
| HazardPointer.CallAlone | hazard_pointer.c:90-124 | Wherever a push or a pop is, run alone without spurious failures it ends within eight steps. |
| HazardPointer.StepInv | hazard_pointer.c:25-124 | Every step of every thread is a legal event of the atomic stack and keeps the invariant. |
| LockfreeQueue.RefinesAtomicQueue | lockfree_queue.c:22-100 | For every schedule the enqueues, dequeues with their values, and NULL answers are a run of the atomic FIFO queue; head never passes tail, and tail is the last node or the one before it. |
| LockfreeQueue.RunResults | lockfree_queue.c:86-96 | For every schedule every node that head has left holds the value of the next one, or the thread that moved head past it is about to store that value there. |
| LockfreeQueue.ReturnsFront | lockfree_queue.c:69-97 | For every schedule the node that lf_queue_dequeue returns holds, from the return on and for good, the value that was the front of the atomic queue when the same call moved head. |
| LockfreeQueue.EnqueuesGiven | lockfree_queue.c:31-66 | For every schedule what is enqueued is the value that the client gave the node of the call of lf_queue_enqueue that is running. |
| LockfreeQueue.CallBegins | lockfree_queue.c:31-103 | An idle thread that is asked for a call is in it from then on; an allocated node holds the value it was given. |
| LockfreeQueue.SafeInAllRuns | lockfree_queue.c:31-106 | No step dereferences NULL or an unknown address, and head and tail are swung only to the current successor of the node they are on. |
| LockfreeQueue.LinkInv | lockfree_queue.c:43-51 | The successful link appends exactly the node's value to the abstract queue. |
| LockfreeQueue.TakeInv | lockfree_queue.c:86-96 | The successful head move removes the front of the abstract queue, and the value read before, which the thread goes on to store in the node it returns, is that front. |
| LockfreeQueue.SwingInv | lockfree_queue.c:52-65 | Helping the tail forward, from either side, keeps the chain and the contents. |
| LockfreeQueue.DeqNextInv | lockfree_queue.c:74-81 | Reading a NULL successor of the head means that the queue is empty at that very read. |
| LockfreeQueue.NullOnlyIfEmpty | lockfree_queue.c:69-81 | For every schedule, a step that ends a dequeue without returning a node is the check of an unmoved head, after the same call read next while the atomic queue was empty. |
| LockfreeQueue.DequeueEnds | lockfree_queue.c:69-100 | For every schedule, a call of lf_queue_dequeue ends only by returning the node from which it took the front of the atomic queue, which then holds that value for good, or by returning NULL as above. |
| LockfreeQueue.EnqueueEnds | lockfree_queue.c:31-66 | For every schedule, a call of lf_queue_enqueue ends only after it has enqueued the value of its node, exactly once. |
| LockfreeQueue.IsEmptyEnds | lockfree_queue.c:102-106 | For every schedule, a call of lf_queue_is_empty ends only with an answer, right as below. |
| LockfreeQueue.IsEmptyAnswers | lockfree_queue.c:102-106 | The answer "empty" is given only when the queue is empty; the answer "not empty" means that it holds something or that head has moved since it was loaded. |
| LockfreeQueue.CallAlone | lockfree_queue.c:31-106 | Wherever a call is, run alone without spurious failures it ends: an enqueue within 11 steps, a dequeue within 16, an emptiness test within 2. |
| UserspaceRcu.SafeInAllRuns | userspace_rcu.c:34-120 | With one deleter at a time, no step of any reader, inserter or deleter touches a freed node, for every schedule, however readers start, stop and register during a grace period. |
| UserspaceRcu.FreeInv | userspace_rcu.c:116-119 | When the scan of the counters has seen each of them at zero, once and at different moments, no reader can still hold the unlinked node. |
| UserspaceRcu.SyncScanInv | userspace_rcu.c:46-62 | Each look at one reader counter keeps the invariant of the grace period, also when it restarts. |
| UserspaceRcu.UnlinkInv | userspace_rcu.c:107-114 | The compare-and-swap of a delete unlinks exactly the first node, and the list is then the rest. |
| UserspaceRcu.InsertCasInv | userspace_rcu.c:93-101 | The compare-and-swap of an insertion puts exactly its node in front of the list. |
| UserspaceRcu.RefinesList | userspace_rcu.c:89-120 | For every schedule the successful insertions and deletions, with the keys and values that their calls were asked for, act in order on one list of entries, insertions in front and deletions on a first entry with their key, and the nodes from head hold exactly that list. |
| UserspaceRcu.ContentsAfter | userspace_rcu.c:89-120 | One step changes the entries of the list exactly as its event says, whose key and value are those the call was given, and every deletion finds the key it was asked for in front. |
| UserspaceRcu.CallBegins | userspace_rcu.c:74-107 | An idle thread that is asked for a call is in it from then on, with its arguments. |
| UserspaceRcu.EventsAreAsked | userspace_rcu.c:89-120 | For every schedule each insertion and deletion happens in a call that was asked for it, with that key and value, and is still running. |
| UserspaceRcu.CalledWith | userspace_rcu.c:74-120 | A thread inside a call was asked for exactly that call, with these arguments, at an earlier step, and has been in it since. |
| UserspaceRcu.InsertCall | userspace_rcu.c:90-102 | A call of rcu_list_insert ends with the very step that puts the pair it was asked for in front of the list, and does not end before. |
| UserspaceRcu.DeleteAnswers | userspace_rcu.c:105-120 | For every schedule rcu_list_delete returns 1 exactly if it has deleted a first entry with the key it was asked for, once; it returns 0, having deleted nothing, only if the list was empty or began with another key when the call loaded the head, or the head has moved since. |
| UserspaceRcu.FindAnswers | userspace_rcu.c:74-87 | For every schedule a search that is about to return has, at an earlier step of the same call, loaded the head when the first entry with the key it was asked for had the value it returns, or when no entry had that key and it returns -1. |
| UserspaceRcu.FindEnds | userspace_rcu.c:74-87 | For every schedule, a call of rcu_list_find ends only by returning what the list held for its key when the same call loaded the head. |
| UserspaceRcu.InsertEnds | userspace_rcu.c:90-102 | For every schedule, a call of rcu_list_insert ends only with the step that puts the pair it was asked for in front of the list. |
| UserspaceRcu.DeleteEnds | userspace_rcu.c:105-120 | For every schedule, a call of rcu_list_delete ends only by returning 1 or 0, each as above. |
| UserspaceRcu.CallAlone | userspace_rcu.c:46-120 | Wherever a call is, run alone without spurious failures it ends, within a bound that is given by the list for a search, by the number of threads for a deletion with nobody inside a search, and 5 for an insertion. |
| UserspaceRcu.MostBound | userspace_rcu.c:46-120 | That bound is at most twice the list plus 6, the number of threads plus 7, and 5. |
| UserspaceRcu.DeleteWaits | userspace_rcu.c:46-62 | A deletion waits for as long as a reader that it has yet to pass stays inside its search. |
| UserspaceRcu.RestStays | userspace_rcu.c:76-84 | No step of any thread changes the entries that a search still has before it, whether the node it is at has been unlinked or not. |
| UserspaceRcu.SearchFollows | userspace_rcu.c:74-87 | At every step of a search its answer is already fixed by the list as it was when the head was loaded. |
| UserspaceRcu.NextUsable | userspace_rcu.c:76-84 | From a node a reader may use, next leads to the end or into the list, also if that node has been unlinked. |
| UserspaceRcu.StepInv | userspace_rcu.c:28-120 | Every step keeps the invariant, for the list that the step leaves. |
| Forests.BottleneckIsMinimum | kruskal.c:48-63 | A spanning forest that, at every weight limit, connects what the graph connects by edges up to that limit weighs no more than any other spanning forest. |
| Forests.ForestCard | kruskal.c:52-54 | A forest has as many edges as vertices minus connected components. |
| Forests.ForestAdd | kruskal.c:26-34 | Adding an edge between different components keeps a forest a forest. |
| Forests.MinimumIsUnique | kruskal.c:48-63 | All minimum spanning forests of a graph weigh the same. |
| Kruskal.UnionFind.Find | kruskal.c:19-24 | Returns the root of the class; path compression changes no class and points x, and only already-rooted entries, at roots. |
| Kruskal.UnionFind.Union | kruskal.c:26-34 | Joins exactly the two classes and answers whether they were different. |
| Kruskal.UnionFind.constructor | kruskal.c:15-17 | Every element is its own class. |
| Kruskal.LinkRooted | kruskal.c:30-32 | Union by rank keeps: parents lead to the root, ranks grow towards it, and a root of rank r owns at least 2 to the r elements. |
| Kruskal.CompressRooted | kruskal.c:21-22 | Pointing an element at its root keeps all of this. |
| Kruskal.RankBelowSize | kruskal.c:26-34 | No rank exceeds that of its root, and ranks stay below the number of elements. |
| Kruskal.GreedyStep | kruskal.c:54-60 | Taking an edge exactly if it joins two components keeps the selection a forest that connects, at every weight limit, what the processed edges connect. |
| Kruskal.SkipRest | kruskal.c:54 | Once V - 1 edges are selected, the remaining edges change nothing. |
| Kruskal.Kruskal | kruskal.c:48-63 | For any sorted permutation of the edges the selected edges are a minimum spanning forest of the graph, and the returned total is their weight. |
| Prim.GrowStep | prim.c:24-39 | The cut property: adding a lightest crossing edge keeps the grown tree connecting, at every weight limit, what the graph connects. |
| Prim.LightestCrosses | prim.c:26-29 | A least key outside the tree that is below INF belongs to a crossing edge, and no crossing edge is lighter. |
| Prim.AddRestart | prim.c:26-31 | When the least key outside is INF no edge leaves the vertices taken so far, and the vertex taken starts another component. |
| Prim.Relax | prim.c:34-39 | After the inner loop every key outside the tree is the lightest edge weight to the tree, and parent is its other end. |
| Prim.Lightest | prim.c:26-29 | The scan finds a least key outside the tree, and vertex 0 to begin with. |
| Prim.Report | prim.c:42-47 | The printing loop prints a line for every vertex but 0, in order, with parent -1 exactly where the key is INF; the other lines are exactly the tree edges; it adds up the keys. |
| Prim.Prim | prim.c:13-49 | For any graph the printed lines with a parent are a minimum spanning forest, and the total is its weight plus INF for every component but the first. |
| Prim.ConnectedIff | prim.c:13-49 | A graph is connected exactly if it has no component beyond the first. |
| Prim.SameTotals | prim.c:13-49 | The total of Prim is that of Kruskal plus INF for every component but the first, so the two are equal exactly on connected graphs. |
| ArrayStacks.ArrayStack.Push | stack.c:25-36 | Appends to the contents; a full array is replaced by one of twice the length. |
| ArrayStacks.ArrayStack.Pop | stack.c:38-41 | Removes and returns the last element, and leaves an empty stack alone. |
| Expressions.ShuntExpr | stack.c:67-107 | The shunting loop turns the tokens of any well-formed expression into the postfix form of its left-associative tree, whatever follows and whatever is on the stack below. |
| Expressions.MachineExpr | stack.c:124-157 | The postfix machine leaves exactly the value of the tree on the stack, with the four operations as such, division by zero giving 0, and powers giving 0. |
| Expressions.CalcApplies | stack.c:142-148 | The evaluator computes the four operations as such, and 0 for a division by 0 and for powers. |
| Expressions.RoundTrip | stack.c:75-83 | Reading the emitted text back gives the emitted tokens, multi-digit numbers included. |
| Expressions.CompileCorrect | stack.c:67-158 | For every spelling, with any spaces, of a well-formed tree, in which sums bind less tightly than products and these less tightly than powers, the postfix text evaluates to the value of the tree. |
| Expressions.VerdictIff | stack.c:78-115 | The writes that a buffer allows go through exactly if all the output but its last token fits with its spaces, and the last one fits as far as it must: a number may drop its space, an operator may not. |
| Expressions.VerdictMisfit | stack.c:78-115 | Otherwise the first token that does not fit decides: false for a number, no return for an operator. |
| Expressions.AmpleBuffer | stack.c:67-121 | With more than two bytes of buffer per input character everything fits. |
| Expressions.InfixToPostfix | stack.c:67-121 | For any input and any buffer outside which nothing is written, with the size guards as they are: the outcome is the one that the first misfit decides, and on success the buffer holds the whole postfix text closed by NUL. |
| Expressions.PopToOpen | stack.c:85-93 | The ')' loop does what the shunting rule for ')' says, or stops changing anything at an operator that does not fit. |
| Expressions.PopTighter | stack.c:94-105 | The operator loop pops exactly the operators that bind at least as tightly, then pushes; or it stops changing anything at an operator that does not fit. |
| Expressions.PopAll | stack.c:110-115 | The final loop writes all remaining operators, or stops changing anything at one that does not fit. |
| Expressions.CopyNumber | stack.c:75-82 | The digit loop copies the whole run of digits and a space if there is room, and fails exactly if a digit does not fit. |
| Expressions.ReadNumber | stack.c:131-133 | The digit loop reads the whole number. |
| Expressions.Reduce | stack.c:138-150 | Pops b, then a, and pushes the result of the operation, a + b, a - b, a * b, a / b or, for b = 0 and for powers, 0: one step of the postfix machine. |
| Expressions.EvalPostfix | stack.c:124-158 | Runs the postfix machine on any text. |
| Expressions.Compute | stack.c:67-158 | Conversion followed by evaluation gives the value of the expression whenever the conversion succeeds. |
| Arithmetic.ReadsNumeral | stack.c:132-133 | The number read from a decimal numeral of n, with any number of leading zeros, is n. |
| Arithmetic.EveryDigitRun | stack.c:75-81 | Every run of digits is such a numeral. |
| Arithmetic.SumFits | stack.c:53-107 | A sum of products of powers of numbers and parenthesised sums, grouped to the left, is a well-formed tree with the same value, spelling and postfix form. |
| Arithmetic.LexSpelling | stack.c:72-107 | Every spelling, with any foreign characters before, between and after the pieces, is read as exactly those pieces. |
| Arithmetic.Correct | stack.c:53-158 | For every sum and every spelling of it, the text written is its postfix form, pieces separated by single spaces, and evaluating that text gives the value of the sum. |
| Arithmetic.Calculate | stack.c:67-195 | Conversion into a buffer and evaluation: exactly if the postfix form has room, the text is that form and the result is the value of the sum; more than two bytes per character are always enough. |
| Conversion.ReturnsTrueIff | stack.c:67-121 | As a step machine: it returns true exactly if the output is shorter than the buffer, or as long and ends with a number, and then the text is the whole postfix text. |
| Conversion.ReturnsFalseIff | stack.c:78-79 | It returns false exactly if the first token that does not fit is a number. |
| Conversion.NeverReturnsIff | stack.c:85-115 | It never returns exactly if the first token that does not fit is an operator, and then it reaches a state that its step leaves as it is. |
| Conversion.ExampleSpins | stack.c:110-115 | "1+2" with a buffer of six bytes never returns. |
| Conversion.AmpleReturnsTrue | stack.c:67-121 | With more than two bytes of buffer per input character it always returns true with the whole text. |
| Conversion.WritesInsideIff | stack.c:67-121 | For every size, with guards that wrap around below two bytes: all writes of all steps stay inside the buffer exactly if it has two bytes or more, or has one byte and the output is empty or begins with a number. |
| Brackets.ScanIffBalanced | stack.c:160-181 | The scan with a stack accepts exactly the texts in which ( ), [ ] and { } nest properly, other characters anywhere. |
| Brackets.CheckBrackets | stack.c:161-181 | Returns true exactly for balanced strings. |
| Walks.Shorten | bellman_ford.c:20-47 | Without a reachable negative cycle every walk can be replaced by a simple path that is no heavier. |
| Walks.CutCycle | bellman_ford.c:20-47 | A walk that repeats a vertex can be cut at the repetition without getting heavier, unless the cycle is negative. |
| Walks.RelaxSound | bellman_ford.c:31-34 | Relaxing an edge keeps every entry the weight of some walk. |
| BellmanFord.RelaxComplete | bellman_ford.c:27-35 | Within a round, relaxing in place and in any edge order keeps every entry at most the weight of all walks of the rounds completed. |
| BellmanFord.RelaxRooted | bellman_ford.c:31-34 | If no negative cycle is reachable, each relaxation keeps the parents a tree: they lead from every reached vertex back to src. |
| BellmanFord.AncestorMeansCycle | bellman_ford.c:31-34 | Relaxing an edge into a vertex from which its tail descends closes a negative cycle. |
| BellmanFord.RelaxableMeansCycle | bellman_ford.c:39-46 | An edge that can still be relaxed after V - 1 rounds betrays a negative cycle reachable from src. |
| BellmanFord.Finish | bellman_ford.c:38-47 | If no edge can be relaxed there is no reachable negative cycle, and every entry is the least weight over all walks. |
| BellmanFord.FinishTree | bellman_ford.c:20-47 | When nothing can be relaxed any more, the parents lead from each vertex back to src without visiting a vertex twice, along a walk of exactly the computed weight, also around cycles of weight zero. |
| BellmanFord.RelaxAll | bellman_ford.c:27-35 | One round, in place: one more edge per walk is covered. |
| BellmanFord.AnyRelaxable | bellman_ford.c:38-47 | The extra round finds an edge exactly as above. |
| BellmanFord.BellmanFord | bellman_ford.c:20-47 | Reports a negative cycle exactly when one is reachable from src; otherwise dist is the least weight over all walks, INF exactly for unreachable vertices, and the parents form a tree of shortest walks: followed back from any reachable vertex they lead to src in fewer than V steps. |
| DistanceHeap.Heap.Push | dijkstra.c:36-46 | Adds exactly the entry and restores the heap order. |
| DistanceHeap.Heap.Pop | dijkstra.c:48-62 | Removes and returns an entry of least distance. |
| Dijkstra.Graph.AddEdge | dijkstra.c:22-26 | Appends the edge to the graph that the linked lists represent. |
| Dijkstra.PopsFresh | dijkstra.c:76-83 | A popped entry that agrees with dist expands its vertex for the first and only time. |
| Dijkstra.RelaxCount | dijkstra.c:83-91 | Each edge pushes at most once, so a push finds fewer entries than edges. |
| Dijkstra.RelaxStep | dijkstra.c:83-91 | Relaxing the next edge of the expanded vertex keeps the whole invariant, and there is room for the push. |
| Dijkstra.Ends | dijkstra.c:68-93 | When the heap is empty every entry is the least weight over all walks, and INF exactly for unreachable vertices. |
| Dijkstra.EndsTree | dijkstra.c:68-93 | The parents are an acyclic tree of lightest paths over exactly the reachable vertices. |
| Dijkstra.ScanEdges | dijkstra.c:83-91 | The list of the expanded vertex is relaxed edge by edge. |
| Dijkstra.Round | dijkstra.c:76-92 | One round skips a stale entry or expands a new vertex. |
| Dijkstra.Dijkstra | dijkstra.c:68-93 | With non-negative weights dist is exact, the parents are a tree of lightest paths, and the MAX_E heap array never overflows. |
| Dijkstra.PrintPath | dijkstra.c:95-106 | Terminates within the local array and yields a path from src to target of weight dist[target], or nothing for an unreachable target. |
| FloydWarshall.CoversStep | floyd_warshall.c:21-31 | The in-place update of one entry, next to entries of this and the previous round, is at most the weight of every walk through vertices up to k. |
| FloydWarshall.SoundStep | floyd_warshall.c:25-27 | Every finite entry stays the weight of a walk through the vertices admitted so far. |
| FloydWarshall.ShrinkCycle | floyd_warshall.c:33-38 | A negative cycle contains one without repeated vertices. |
| FloydWarshall.DiagonalIff | floyd_warshall.c:33-38 | A diagonal entry is negative exactly when the graph has a negative cycle. |
| FloydWarshall.EntryIsDistance | floyd_warshall.c:20-31 | Without a negative cycle every entry between different vertices is the least weight over all walks, and INF exactly when there is none. |
| FloydWarshall.DiagonalIsLeast | floyd_warshall.c:20-31 | Without a negative cycle every diagonal entry is the least weight of a way back to the vertex. |
| FloydWarshall.RelaxRound | floyd_warshall.c:22-30 | The two inner loops admit vertex k as an intermediate vertex everywhere. |
| FloydWarshall.FloydWarshall | floyd_warshall.c:14-39 | For any weights up to INF, self-loops included: reports a negative cycle exactly when there is one; otherwise all pairs hold least weights and following nxt leads to the target. |
| FloydWarshall.TriangleStep | floyd_warshall.c:22-30 | After round k no finite way through k is shorter than an entry. |
| FloydWarshall.UnimprovedHop | floyd_warshall.c:24-28 | If an entry does not improve in a round, neither does the entry that its recorded hop leads to. |
| FloydWarshall.ImprovedHop | floyd_warshall.c:25-28 | If an entry improves, the entry that its new hop leads to is, after the round, exactly the way through k. |
| FloydWarshall.HopsStep | floyd_warshall.c:22-30 | Without a negative cycle, whatever the signs of the weights, each round keeps: following nxt reaches the target after finitely many edges, whose weights account for the entry. |
| FloydWarshall.PrintPath | floyd_warshall.c:41-48 | Without a negative cycle it terminates, between different vertices with a path of exactly the computed weight, or with none exactly if there is none. |
| RobinHoodHash.EarlyExit | robin_hood_hash.c:49-50 | A search that meets an empty slot or one with a smaller dib misses nothing. |
| RobinHoodHash.SearchPath | robin_hood_hash.c:46-52 | Between a stored key's home slot and the key every slot is occupied and at least as displaced as the search has come. |
| RobinHoodHash.DibSmall | robin_hood_hash.c:66-98 | While a slot is free, no entry is as far from home as it could be, so the insertion loop ends before its bound. |
| RobinHoodHash.PlaceContents | robin_hood_hash.c:86-92 | An exchange keeps the map made of the table and the carried pair. |
| RobinHoodHash.SeekDisplaces | robin_hood_hash.c:87-94 | Placing the new key over a nearer entry keeps all dib and order facts. |
| RobinHoodHash.CarryDisplaces | robin_hood_hash.c:87-94 | So does every later exchange of the displacement chain. |
| RobinHoodHash.CarryPlaces | robin_hood_hash.c:70-77 | When the carried pair finds an empty slot, the table stands for the map with the new pair. |
| RobinHoodHash.ShiftContents | robin_hood_hash.c:118-126 | One backward shift keeps the invariant around the moving hole, and the map. |
| RobinHoodHash.StopOk | robin_hood_hash.c:122 | Where the shift stops, the hole is an ordinary empty slot. |
| RobinHoodHash.RHHashMap.Find | robin_hood_hash.c:44-54 | The search finds a key exactly if it is in the map, with its value. |
| RobinHoodHash.RHHashMap.Put | robin_hood_hash.c:57-98 | Refuses exactly at the load guard, changing nothing; otherwise the table stands for the updated map. |
| RobinHoodHash.UpdateRefused | robin_hood_hash.c:58-59 | Putting any 24 different keys, whatever the hash function, ends in a table that refuses to update one of them. |
| RobinHoodHash.RHHashMap.Carry | robin_hood_hash.c:66-95 | The rest of the insertion loop places every displaced pair. |
| RobinHoodHash.RHHashMap.Remove | robin_hood_hash.c:101-128 | False exactly if the key is absent; afterwards the map lacks exactly that key. |
| RobinHoodHash.RHHashMap.ShiftBack | robin_hood_hash.c:118-126 | The wrap-around backward shift restores the invariant and keeps the map. |
| CuckooHash.TwoProbes | cuckoo_hash.c:44-54 | A key is in the map exactly if it sits at its h1 slot of table 1 or its h2 slot of table 2, never both, and the value there is its value. |
| CuckooHash.OccupiedIsMapSize | cuckoo_hash.c:33-37 | As many slots are occupied as the map has keys. |
| CuckooHash.StoreFirst | cuckoo_hash.c:68-84 | Storing the carried pair in table 1 over another keeps the map made of the tables and the carried pair, and the evicted key is in neither table. |
| CuckooHash.StoreSecond | cuckoo_hash.c:87-101 | The same for table 2. |
| CuckooHash.CuckooMap.Get | cuckoo_hash.c:44-54 | Lookup agrees with the map. |
| CuckooHash.OverfullRefutes | cuckoo_hash.c:66-108 | More keys than slots that could take them: then the keys cannot all have a slot of their own. |
| CuckooHash.TablesAssign | cuckoo_hash.c:33-37 | The two tables give every key they hold one of its two slots, each to one key. |
| CuckooHash.ThreeOnTwo | cuckoo_hash.c:66-108 | Three keys with the same two slots cannot all be stored. |
| CuckooHash.ChaseStep | cuckoo_hash.c:78-101 | The chain of evictions visits new slots, turns back where it meets its trail, undoes it, and leaves once more from the second slot of the new key; meeting visited slots again means that the keys stored there have nowhere else to go. |
| CuckooHash.ChaseEnds | cuckoo_hash.c:67 | Twice as many evictions as there are slots mean that no assignment exists. |
| CuckooHash.CuckooMap.Put | cuckoo_hash.c:59-64 | It succeeds exactly if all keys, the new one included, can have one of their two slots to themselves. A success gives exactly the updated map; a failure, only for a new key, the updated map without exactly one of its pairs; size always counts the occupied slots. |
| CuckooHash.CuckooMap.InsertEntry | cuckoo_hash.c:66-108 | The eviction chain, at most 64 rounds: it succeeds exactly if an assignment exists; nothing is lost on success, exactly the carried pair on failure. |
| CuckooHash.CuckooMap.Remove | cuckoo_hash.c:111-127 | Removes exactly the key, and answers whether it was there. |
| OpenAddressing.OddStepVisits | hash_open_addressing.c:37-50 | Stepping by any odd number modulo 64 reaches every slot. |
| OpenAddressing.OddStep | hash_open_addressing.c:40 | The step of double hashing is 31 minus the remainder by 31, with its low bit set. |
| OpenAddressing.ProbesVisitAll | hash_open_addressing.c:44-53 | Linear probing and double hashing visit every slot within 64 attempts. |
| OpenAddressing.QuadraticMisses | hash_open_addressing.c:49 | Quadratic probing never reaches the slot at offset 2, for any number of attempts. |
| OpenAddressing.QuadraticVisits | hash_open_addressing.c:49 | The offsets that quadratic probing reaches are exactly twelve, within the 64 attempts. |
| OpenAddressing.CrowdedIff | hash_open_addressing.c:84-93 | Quadratic probing finds no place for a key exactly if those twelve slots all hold other keys. |
| OpenAddressing.QuadraticRoom | hash_open_addressing.c:84-93 | With fewer than twelve entries there is always a place. |
| OpenAddressing.QuadraticFills | hash_open_addressing.c:77-96 | Of any thirteen keys with one home slot the thirteenth is refused, at twelve entries. |
| OpenAddressing.LookupFinds | hash_open_addressing.c:64-74 | A search finds a key exactly if it is stored anywhere, tombstones or not. |
| OpenAddressing.Stored | hash_open_addressing.c:84-93 | Storing at the stop of the insertion loop makes the search find the new value, leaves all other keys' searches alone, and keeps every entry reachable. |
| OpenAddressing.Buried | hash_open_addressing.c:106-111 | A tombstone keeps every other entry reachable, and the key is gone exactly if that was its only copy. |
| OpenAddressing.DuplicatesIff | hash_open_addressing.c:84-93 | The insertion loop stops at a tombstone exactly if one comes before every empty slot and every copy of the key. |
| OpenAddressing.PutRemoveRestores | hash_open_addressing.c:77-114 | Putting and then removing a key that is stored behind a tombstone leaves it in the table with its old value. |
| OpenAddressing.TombstoneAheadArises | hash_open_addressing.c:77-114 | Under every probing method two puts with one home slot and one remove produce such a table: the slots written are where the loops of the program stop. |
| OpenAddressing.StopsOnce | hash_open_addressing.c:84-111 | The insertion loop and the search loop each stop at one place of the path only. |
| OpenAddressing.UpdateAndRemove | hash_open_addressing.c:77-114 | In any table with few entries, a key stored behind a tombstone that is updated and then removed is found with the value it had before the update. |
| OpenAddressing.StaleValueReturns | hash_open_addressing.c:77-114 | From an empty table: a and b with one home are put, a is removed, b is updated and removed, and b is still found with its first value. |
| OpenAddressing.OAHashMap.Get | hash_open_addressing.c:64-74 | Answers as the search path says, NULL exactly if no copy of the key is stored. |
| OpenAddressing.OAHashMap.Put | hash_open_addressing.c:77-96 | Searches afterwards answer as for the updated map; it succeeds exactly below 42 entries with a place on the path, so always below twelve, and for linear probing and double hashing always below 42; the number of copies grows exactly for a new key or behind a tombstone. |
| OpenAddressing.OAHashMap.Remove | hash_open_addressing.c:99-114 | Removes one copy; the key is absent afterwards exactly if there was at most one; other keys are untouched. |
| AvlTree.RebalanceExact | avl_tree.c:65-90 | All four cases keep the in-order sequence and make every stored height exact. |
| AvlTree.RebalanceBalances | avl_tree.c:65-90 | A difference of two is repaired, and the height is that of the plain node or one less. |
| AvlTree.OrderedIff | avl_tree.c:106-111 | A tree is a search tree exactly if its in-order sequence is strictly increasing. |
| AvlTree.InsertKeeps | avl_tree.c:93-104 | Insertion keeps order, exact heights and balance, adds exactly the key, grows the height by at most one, and changes nothing for a key that is there. |
| AvlTree.MinimumSize | avl_tree.c:17-27 | A balanced tree of height h has at least Fib(h + 3) - 1 nodes. |
| AvlTree.BuiltIsAvl | avl_tree.c:93-104 | The tree built by any sequence of insertions is an AVL tree of exactly the inserted keys, one node per key, and obeys the size bound. |
| AvlTree.UpdateHeight | avl_tree.c:21-23 | Recomputes the stored height and changes nothing else. |
| AvlTree.RotateRightAt | avl_tree.c:39-49 | The relinked nodes form the right rotation of the old tree, over the same nodes. |
| AvlTree.RotateLeftAt | avl_tree.c:52-62 | The mirror image. |
| AvlTree.RebalanceAt | avl_tree.c:65-90 | The relinked nodes form the rebalanced tree, over the same nodes. |
| AvlTree.AvlInsert | avl_tree.c:93-104 | In place: the nodes below the returned root form the tree with the key inserted, an AVL tree with exactly the key added if the old one was an AVL tree, and only new nodes are added. |
| SlabAllocator.SlabCache.constructor | slab_allocator.c:58-82 | The object size is the least multiple of the alignment not below the request, but at least a pointer; between 1 and 64 objects per slab, as many as fit a page, and one empty slab. |
| SlabAllocator.FindFreeSlot | slab_allocator.c:85-90 | The first zero bit, or -1 exactly if there is none. |
| SlabAllocator.SlabCache.Alloc | slab_allocator.c:93-116 | Hands out an address that is not live and at least an object away from every live object; returns NULL only if a new slab is needed and malloc fails; whatever was freed before, the slot assertion fails exactly if the first partial slab has all its bits set, which never happens while every free_count is the number of zero bits. |
| SlabAllocator.SlabCache.AllocFirst | slab_allocator.c:100-115 | Uses a free slot of the first partial slab, or fails the assertion if it has none, and moves the slab to the full list when its free_count reaches 0. |
| SlabAllocator.SlabCache.Free | slab_allocator.c:119-161 | For every pointer, in every state that earlier calls with any pointers can leave: one into a slot in use frees exactly that slot's object; one into a free slot frees nothing and raises the surplus of that slab's free_count by one; one into no slab and NULL change neither objects nor slabs; no other slab's surplus changes; allocated minus freed stays the number of live objects exactly for NULL and for pointers into a slot in use. |
| SlabAllocator.SlabCache.DoubleFree | slab_allocator.c:119-161 | Freeing an object a second time spoils the statistics and makes the free_count of its slab, and of no other, one too high. |
| SlabAllocator.SlabCache.StaysPartial | slab_allocator.c:108-113 | A slab whose free_count is too high is never on the full list. |
| SlabAllocator.SlabCache.SupplyGone | slab_allocator.c:100-102 | The assertion fails exactly when no zero bit is left in the partial slabs up to the first one whose free_count is too high. |
| SlabAllocator.SlabCache.AllocUntilAssertion | slab_allocator.c:93-116 | Once some free_count is too high, exactly as many more allocations succeed as there are zero bits in the partial slabs up to the first such slab; the next one fails its assertion. |
| SlabAllocator.SlabCache.LiveSlot | slab_allocator.c:128-131 | A slot in use holds a live object, registered for that slot. |
| SlabAllocator.SlabCache.OnlyHolder | slab_allocator.c:125-142 | A pointer belongs to at most one slab. |
| SlabAllocator.SlabCache.Locate | slab_allocator.c:125-142 | The walk finds the first slab whose memory holds the pointer, with its predecessor. |
| SlabAllocator.SlabCache.MarkUsed | slab_allocator.c:104-106 | Sets the bit: the object becomes live and was not before, and free_count follows the number of zero bits. |
| SlabAllocator.SlabCache.ClearSlot | slab_allocator.c:131-133 | Clears the bit and counts one more free slot: of a slot in use, the object stops being live and no other does; of a free slot, nothing else changes. |
| SlabAllocator.SlabCache.MoveToFull | slab_allocator.c:109-113 | Relinks the slab; the lists stay disjoint, acyclic and complete. |
| SlabAllocator.SlabCache.MoveToPartial | slab_allocator.c:135-137 | Relinks the slab the other way. |
| SlabAllocator.SlabCache.OwnerFound | slab_allocator.c:128-131 | The slab found for a live object is its own, and the division gives its slot. |
| SlabAllocator.SlabCache.LiveObjectsDisjoint | slab_allocator.c:93-116 | No two live objects overlap. |
| RadixSort.Stable | non_comparison_sorts.c:24-27 | The arrangement by key keeps the order of elements with equal keys. |
| RadixSort.Permutes | non_comparison_sorts.c:10-32 | The arrangement loses and invents nothing. |
| RadixSort.PassSorts | non_comparison_sorts.c:35-53 | A stable pass turns an order by g into any order that compares the key first and then g. |
| RadixSort.CountingPass | non_comparison_sorts.c:36-52 | Counting, running totals and right-to-left placement produce exactly the stable arrangement. |
| RadixSort.CountingSort | non_comparison_sorts.c:11-32 | Sorts values between 0 and max_val into a sorted permutation; leaves short arrays and a negative bound alone. |
| RadixSort.PassRefines | non_comparison_sorts.c:61-64 | A pass by the next byte turns an order by the low bits into an order by eight more. |
| RadixSort.RadixSortUnsigned | non_comparison_sorts.c:56-66 | Four passes give a permutation ordered by unsigned value. |
| RadixSort.FlipMeans | non_comparison_sorts.c:72-73 | Flipping the sign bit shifts signed order to unsigned order and is its own inverse. |
| RadixSort.FlipBack | non_comparison_sorts.c:72-79 | Flipping, permuting and flipping back is a permutation. |
| RadixSort.RadixSort | non_comparison_sorts.c:70-80 | Every array of signed 32-bit integers ends as a sorted permutation of itself. |
| MakeDeps.Builder.AddDep | make_deps.c:24-30 | Adds the edge, and the indegrees stay the numbers of incoming edges. |
| MakeDeps.Builder.FindRoots | make_deps.c:36-39 | The queue starts with exactly the modules without dependencies. |
| MakeDeps.Builder.Release | make_deps.c:46-49 | Counting down one vertex's users queues exactly those whose dependencies are all done. |
| MakeDeps.Builder.KahnTopo | make_deps.c:32-53 | For edges below MAX_V the result lists exactly the vertices that neither lie behind a cycle nor behind an index of V or more without dependencies, dependencies first, and returns their number; for edges within 0..V-1 the count is V exactly if there is no cycle, and then it is a topological order. |
| MakeDeps.CompleteIffAcyclic | make_deps.c:32-53 | The verdict of the count, both ways. |
| MakeDeps.LeftOutIff | make_deps.c:32-53 | For any edges below MAX_V: a vertex is left out exactly if it can be reached from a cycle or from an index of V or more without dependencies. |
| MakeDeps.CountIs | make_deps.c:32-53 | The count is V minus the modules left out plus the indices of V or more that are listed. |
| MakeDeps.VerdictRightIff | make_deps.c:52 | The verdict of the count is right exactly if as many modules are left out as further indices are listed just when there is no cycle; for edges within 0..V-1 there are no further indices, and it is right. |
| MakeDeps.ExampleMisjudged | make_deps.c:55-77 | The program's own graph has no cycle, yet the count is not V. |
| MakeDeps.ExampleAccepted | make_deps.c:32-53 | A graph with a cycle whose count is V, so that the cycle is reported as fine. |
| MakeDeps.MisjudgedRun | make_deps.c:55-77 | The calls of main: the dependencies it declares give the example graph, which has no cycle, and the count is not V. |
| MakeDeps.AcceptedRun | make_deps.c:24-53 | Four declared dependencies give the cyclic graph, and the count is V = 3. |
| TopologicalSort.Sorter.AddDirectedEdge | topological_sort.c:24-27 | Adds the edge, and a search can start from there. |
| TopologicalSort.BackEdge | topological_sort.c:33-35 | A gray neighbour closes a cycle that can be reached from the driver's vertices, unless one was found before. |
| TopologicalSort.Leave | topological_sort.c:40-41 | A vertex that turns black follows all its successors on the stack, and the stack has room. |
| TopologicalSort.Sorter.Dfs | topological_sort.c:30-42 | Recursion keeps the three-colour invariant, also through the early return that leaves vertices gray. |
| TopologicalSort.Sorter.Sort | topological_sort.c:57-67 | has_cycle is set exactly if a cycle can be reached from 0..V-1 (for edges within the range: exactly if there is one); otherwise the popped order is a topological order. |
| TopologicalSort.VerdictsAgree | topological_sort.c:57-67 | Kahn's count and the colour search give the same verdict on the same graph. |
| Digraphs.EndlessBackward | make_deps.c:52 | A non-empty finite set in which every vertex has a predecessor contains a cycle. |
| Digraphs.OrderedIsAcyclic | make_deps.c:52 | A complete order with all edges going forward leaves no cycle. |
| BipartiteCheck.ConflictIsOdd | bipartite_check.c:43-44 | Two neighbours of one colour close a walk of odd length. |
| BipartiteCheck.ColouredHasNone | bipartite_check.c:30-49 | A finished proper colouring rules out every closed walk of odd length. |
| BipartiteCheck.WithinRange | bipartite_check.c:25-50 | For edges within 0..V-1 the answer is about every closed walk of the graph. |
| BipartiteCheck.OwnEdgesAhead | bipartite_check.c:25-50 | If the lists of the vertices below V are an undirected graph on those vertices, what the other lists hold does not matter. |
| BipartiteCheck.Graph.AddEdge | bipartite_check.c:18-23 | Adds the edge in both directions and nothing else, and keeps the graph undirected. |
| BipartiteCheck.Graph.Restart | bipartite_check.c:61-63 | A new V and empty lists below it leave an undirected graph on the vertices below V, whatever the other lists still hold. |
| BipartiteCheck.Graph.Search | bipartite_check.c:32-47 | One breadth-first search colours its component properly, or finds an odd closed walk. |
| BipartiteCheck.Graph.IsBipartite | bipartite_check.c:25-50 | True exactly if no closed walk from 0..V-1 has odd length, provided that every edge a search can meet is listed at both ends. |
| BipartiteCheck.SquareThenTriangle | bipartite_check.c:52-68 | Both calls of the program: the square is bipartite, and the triangle built after it in the same lists is not. |
| SinglyLinkedList.RunnersMeet | singly_linked_list.c:103-107 | If the walk is still going after as many links as there are nodes, the runners are at the same node within that many rounds. |
| SinglyLinkedList.ReturnNeverEnds | singly_linked_list.c:103-107 | A walk that comes back to a node never ends. |
| SinglyLinkedList.List.HasCycle | singly_linked_list.c:100-109 | Terminates on every finite node graph, and returns true exactly if following next never reaches NULL. |
| SinglyLinkedList.List.Reverse | singly_linked_list.c:87-97 | The same nodes in the opposite order. |
| SinglyLinkedList.List.Remove | singly_linked_list.c:70-84 | Unlinks exactly the first matching node, or changes nothing if none matches. |
| SinglyLinkedList.List.Prepend | singly_linked_list.c:34-39 | Puts one value in front, before the same nodes. |
| SinglyLinkedList.List.InsertAt | singly_linked_list.c:55-67 | Inserts at the position, or refuses a position past the end. |
| SinglyLinkedList.List.Append | singly_linked_list.c:42-52 | Appends one value. |
| QuickSort.Scan | merge_quick_sort.c:65-66 | The two scans without bound checks stop inside the range. |
| QuickSort.Partition | merge_quick_sort.c:55-73 | Rearranges the range so that everything left of the returned place is at most, and everything right of it at least, the element there; the place is strictly inside for three or more elements. |
| QuickSort.MedianOfThree | merge_quick_sort.c:42-52 | The pivot stands next to the end, between the first and the last element. |
| QuickSort.InsertionSortRange | merge_quick_sort.c:78-85 | Sorts a range and touches nothing outside it. |
| QuickSort.Sort | merge_quick_sort.c:97-100 | Every array ends as a sorted permutation of itself. |
| SimpleSorts.SwapRemovesOne | simple_sorts.c:33-36 | Exchanging neighbours that are out of order removes exactly one inversion. |
| SimpleSorts.SortedIff | simple_sorts.c:29-42 | A sequence is sorted exactly if it has no inversion. |
| SimpleSorts.PassEnds | simple_sorts.c:32-40 | A pass takes one off the most larger elements that any element has in front of it. |
| SimpleSorts.ComparisonBounds | simple_sorts.c:29-42 | Between n - 1 comparisons, for more than two elements exactly on sorted input, and n(n - 1)/2. |
| SimpleSorts.BubbleSort | simple_sorts.c:29-42 | Sorts, writes exactly twice per inversion of the input, and compares exactly as often as one pass more than the most larger elements in front of any element takes, but at most n - 1 passes. |
| SimpleSorts.InsertionSort | simple_sorts.c:59-69 | Sorts, writes exactly once per inversion and once per element after the first, and compares exactly as often, less the elements that are below all in front of them. |

## Left out

- Hardware memory ordering: all steps are sequentially consistent, although the code asks for less in places.
- Reclamation in `lockfree_queue.c`: node addresses are never reused there, because the queue has no reclamation protocol of its own.
- Concurrent deleters in `userspace_rcu.c`: one thread at a time is inside `rcu_list_delete`, which reads the head outside a read section.
- Misuse by callers: clients of the hazard-pointer stack push only nodes they allocated and retire only nodes they popped; at most 16 threads register, as the table allows.
- Allocation failure, except for the slab allocator's new slabs and the carried pair of the cuckoo table; `realloc` and `exit` paths.
- Integer overflow: sums and comparator differences are mathematical (32 bits hold at most two of the sentinels that `prim` adds up), and the simple-path sums of the graphs stay below INF.
- `double` rounding: expressions use exact numbers.  The operator `^` is converted as the code does it, and evaluates to 0 as it does there.
- `qsort` of `kruskal.c` is any sorted permutation of the edges (section 7.22.5.2 of ISO/IEC 9899:2018), given as a parameter.
- Hash functions are arbitrary functions of the key; only the odd step of double hashing is computed.
- Adjacency lists of `make_deps.c`, `topological_sort.c` and `bipartite_check.c` are sequences in list order, not linked nodes; `dijkstra.c` keeps its index-linked lists.
- The slab bitmap is a sequence of 64 bits, and rounding up to the alignment is written as division and multiplication, which is what the mask does for powers of two.
- The two copies of the counting pass in `non_comparison_sorts.c` are one method with the key as a parameter, and the two copies of a search in `robin_hood_hash.c` and `slab_allocator.c` one method each.
- Weights above INF in `floyd_warshall.c`, which the program would treat as edges; `print_path` after a negative cycle has been reported.
- What `infix_to_postfix` does once it has written outside the buffer, which only buffers below two bytes allow.
- The callback of `sll_remove` is a pure function of the two values.
- `bucket_sort`, merge sort and selection sort.
- `lockfree_stack.c`: a simpler relative of the hazard-pointer stack, without reuse of nodes.
- `task_scheduler.c`, `doubly_linked_list.c` and `ring_buffer.c`: a heap, a linked list and a circular buffer close to ones modelled here.
- The remaining files of the collection (vectors, arenas, tries, traversals, demos and benchmarks) and all `main` functions, printing and timing.
