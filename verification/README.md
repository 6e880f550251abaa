# Nanobdd in Dafny

Nanobdd is an engine for reduced ordered binary decision diagrams. Its promise is
mathematical: a handle names a Boolean function, operators compute on functions,
and comparing two pointers decides equivalence. The engine keeps it with mutable
state that interacts: a hash-consed unique table, memoised recursive operators, a
mark-and-sweep collector, a slab allocator with a free list, a lossy operation
cache, reference-counted handles, and locks and atomics around them. This project
models that state and proves the promise, over whole runs and, for the concurrent
parts, over every interleaving. Where the promise fails, it gives an input that shows
the failure and the exact condition under which it is kept.

## How the model is laid out

- `Collections.dfy`, `Node.dfy`, `Diagram.dfy`, `Operators.dfy`, `Demand.dfy`: the
  mathematics of a table as a value. A table is a map from addresses to keys; a node
  denotes a set of assignments. `Demand.dfy` counts what an operation has to create:
  the cofactor functions of its answer that no node denotes yet (`Missing`).
- `Hash.dfy`, `NodeAllocator.dfy`, `Bucket.dfy`, `LockFreeCache.dfy`, `NodeTable.dfy`:
  the engine as classes and methods that change fields in place, run by one thread.
  `TableFacts.dfy` holds the lemmas about table values that the methods use.
- `Session.dfy`: `init`, `gc` and the handles of `Bdd.cpp` as a class; `Runs.dfy`: runs
  of commands as a state machine, refined to a specification in which a handle is a
  Boolean function and there is no table at all. Every client method of `Session` but the
  compound assignment is proved to be one step of such a run, or two where an operator
  collects. `Failure.dfy` is a client program whose last operator returns a wrong node.
- `NumberTheory.dfy`, `Certificates.dfy`, `Prime.dfy`: the search for table sizes, with
  the 64-bit products of its primality test.
- `CacheProtocol.dfy`, `LockFreeBucket.dfy`, `FreeList.dfy`, `SharedInsertion.dfy`: four
  step systems, for the readers, the writer and the invalidation of a cache entry, for
  the lock-free list, for the two loops over the allocator's free list, and for node
  creation under the shared table lock. Any number of threads, one atomic access a step,
  sequentially consistent. `LoneCacheCalls.dfy`, `LoneListCalls.dfy` and `LoneCalls.dfy`
  follow calls in three of them to their end: what can hold a call up, after how many
  steps one that is left to itself returns, and what it has then done.

## Where the code departs from its intent

- **Implication.** `bddImp` recurses into `bddDiff` (src/NodeTable.cpp:229-230).
  `BddImp` is that code; `ImpAsWrittenIsRightIff` and `ImpAsWrittenIsDiff` say exactly
  what it returns. `BddImpIntended` recurses into itself and is proved to denote the
  implication. A table is used with one or the other (the ghost constant `intended`),
  because both store answers under operator code 5.
- **Collection inside an operator.** `getOrCreateNode` may collect while the recursion
  above it holds nodes that are not referenced (src/NodeTable.cpp:271-276).
  `LostConjunction` is a client program, from `init` on, in which `x & y` reclaims its
  own low part, reuses that slot for its high part, and returns the high part's answer.
  An operator is therefore followed up to its first collection, with no demand on the
  caller: `Ran` says that it reaches one if and only if the free slots do not cover the
  functions in `Missing`, and that otherwise it returns the right node and has created
  exactly what lies below it, whatever the cache held. A free slot for every pair of
  operand nodes is enough (`RoomIsEnough`). One slot short, the collection starts when
  the answer's own node is made, and `ThroughCollection` says exactly when it does no
  harm: if and only if references reach nodes for both parts of the answer. To the
  client it is then a collection before the operator (`BinaryThroughCollection`).
  `LowPartLost` is the failure with one slot left, for any operator.
- **Compound assignments.** `&=` and its four companions overwrite the root and leave
  both counts alone (src/Bdd.cpp:63-66, 72-75, 83-86, 92-95, 101-104).
  `CompoundConservesIff` says on which operands the counts are still right, and
  `CompoundRootSurvivesIff` when the next collection takes the new root. They are not
  commands of a run.
- **Invalidation.** `invalidateAll` clears an entry with four stores and without
  acquiring it (src/LockFreeCache.h:71-79), and a collection in another thread can run
  it while lookups are under way. `CacheProtocol.StepKeepsInvIff`: the entry's protocol
  survives if and only if nobody is inside when the last of them resets the count. `TornLookup` is an
  interleaving in which nobody is inside when the first of them runs, and a lookup still
  finds a node that was stored for other operands.
- **The free list.** `popFree` reads the head's link before its exchange
  (src/NodeAllocator.cpp:98-109). `FreeListSteps.StepKeepsInvIff`: a step keeps every slot
  in one place if and only if it is not an exchange with a stale link. `SlotIsStolen` is an
  interleaving after which two threads hold one slot.
- **Primes.** `u64_mulmod` multiplies in signed 64 bits (src/Prime.h:83-85).
  `MulModIsExactIff`: it is exact on all residues if and only if `src - 1` is at most
  3037000499. Above that the test rejects primes, and `RejectsAPrime` is one. From 2 up to
  the last prime below the bound, 3037000493, the search always ends well; from elsewhere
  it may wrap around to 1, where it divides by zero.

## Modelling choices

Addresses are positive numbers, slabs are consecutive ranges of them, and 0 is null.
The nodes' fields are records in one memory map that the allocator owns; a bucket,
which the table owns, is a sequence of addresses. Handles are names mapped to roots,
null once moved from. The load test compares integers, `count > 4 * size`, in place of
doubles. An operator returns null where the code would start a collection. The cache is
created before the table, where `init` does it after; no collection can happen in
between. A witness of the primality test is arbitrary. A signed 64-bit product that does
not fit, which C++ leaves undefined, wraps around as two's-complement machines do. Reads
of one cache field that a lookup repeats in a row are one read.

## Model

| member | source | states |
|---|---|---|
| `Diagrams.Canonicity` | src/Bdd.cpp:106 | in a table that is ordered, reduced and uniquely keyed, two nodes are the same node exactly when they agree on every assignment, so pointer equality decides Boolean equivalence |
| `Diagrams.Distinguish` | src/Bdd.cpp:106-108 | for any two different nodes of such a table there is an assignment on which they differ, found by following the smaller level |
| `Diagrams.EvalCofactor` | src/NodeTable.cpp:239-251 | Shannon expansion: choosing the low or high cofactor at a level by the assignment's value there leaves the value of the node unchanged, also when the node does not test that level |
| `Diagrams.EvalExtends` | src/NodeTable.cpp:260-290 | creating nodes never changes the value of a node that was there |
| `Diagrams.InsertKeepsWellFormed` | src/NodeTable.cpp:253-290 | a new node whose key is ordered, reduced and not in the table keeps the table canonical; no other condition is needed |
| `Diagrams.ReachAllIsLeastClosed` | include/nanobdd/Node.h:22-32 | the nodes reachable from the roots are the least set that contains the roots and is closed under children |
| `Diagrams.RestrictKeepsMeaning` | src/NodeTable.cpp:306-330 | dropping everything outside a child-closed set leaves a canonical table in which every remaining node has the meaning it had |
| `Operators.ResultDenotes` | src/NodeTable.cpp:60-209 | being the operation's answer pointwise, assignment by assignment, is the same as denoting the operation applied to the operands' functions |
| `Operators.ResultIsUnique` | src/NodeTable.cpp:60-237 | an operation on two nodes has at most one answer node in a table |
| `Operators.ResultCofactor` | src/NodeTable.cpp:83-86 | an operator commutes with cofactors: the cofactor of the answer is the answer on the operands' cofactors |
| `Operators.CombineKey` | src/NodeTable.cpp:86 | the key an operator combines is always ordered and reduced, because the answers on the cofactors lie below the operands' smaller level |
| `Operators.CombineIsResult` | src/NodeTable.cpp:253-258 | combining the answers on the two cofactor pairs gives the answer on the operands, whether the children coincide or a node with that key is used |
| `Demand.ReachOfAnswer` | src/NodeTable.cpp:60-124 | the nodes of the answer's diagram denote exactly the answer's cofactor functions, which are computed from the operands alone |
| `Demand.AnswerKey` | src/NodeTable.cpp:83-86 | the answer's node has the very key that is combined from the two parts |
| `Demand.ResultSize` | src/NodeTable.cpp:60-124 | the answer's diagram has one node for each cofactor function, and at most as many as there are pairs of operand nodes |
| `Demand.AnswersBound` | src/NodeTable.cpp:60-124 | so what an operation may have to create is at most the number of pairs of operand nodes, before any of it exists |
| `Demand.MissingShrinks` | src/NodeTable.cpp:83-86 | every node a recursive call adds is one that the enclosing operation needs, and leaves it one fewer to add |
| `Demand.OutcomeCount` | src/NodeTable.cpp:271-276 | an operation comes to an answer without a collection if and only if the slots that were free cover the missing functions, and then takes exactly one slot for each |
| `Demand.RootApart` | src/NodeTable.cpp:83-86 | when the two parts of an answer differ, the answer is none of the functions its parts are built from, so its own node is always the last one to be made |
| `Demand.PartMissesLess` | src/NodeTable.cpp:83-86 | so a part always lacks fewer nodes than the whole, and slots that fall one short of the whole cover each part |
| `Hashing.BucketIndex` | src/NodeTable.cpp:34-38 | the bucket index of every key is inside the table, with the 32-bit wrap-around of the pairing hash written out |
| `Hashing.UnorderedHashIsSymmetric` | src/Hash.h:1-5 | the unordered hash sends swapped operands of a commutative operator to the same cache slot |
| `Hashing.SmallHashes` | src/Hash.h:1-2 | up to a sum of 65535 nothing wraps around, and both hashes are the pairing polynomial |
| `Hashing.SmallTriple` | src/Hash.h:3-5 | the hashes of three numbers in closed form, likewise |
| `Hashing.SmallPairsDiffer` | src/Hash.h:1-2 | there the ordered hash never sends two pairs to one value, and the unordered one exactly pairs of equal sums |
| `Hashing.SmallKeysDiffer` | src/Hash.h:3 | nor does the hash of keys, while neither pairing wraps around |
| `Hashing.SmallQueriesDiffer` | src/Hash.h:5 | the hash of commutative queries has one value for two of them exactly when code and sum of the operands agree |
| `Hashing.LargerPairsCollide` | src/Hash.h:1 | the bound is exact: with the sum 65536 the product wraps around and (65535, 1) collides with (400, 42) |
| `Allocation.NodeAllocator.constructor` | src/NodeAllocator.cpp:9-16 | one slab, all unissued, with the capacity asked for but at least one slot; the growth factor is the one asked for but at least two |
| `Allocation.NodeAllocator.PopFree` | src/NodeAllocator.cpp:98-109 | takes the head of the free list exactly when the list is not empty and hands it to the caller alone; nothing else moves |
| `Allocation.NodeAllocator.AllocateFromSlab` | src/NodeAllocator.cpp:78-96 | issues the next slot of the current slab exactly when one is left; the slot belonged to nobody |
| `Allocation.NodeAllocator.Allocate` | src/NodeAllocator.cpp:18-31 | fails exactly when neither the free list nor the slab has a slot; otherwise hands out a slot nobody has, reset to the wanted key with no references |
| `Allocation.NodeAllocator.PushFree` | src/NodeAllocator.cpp:111-117 | puts a slot that was in use at the front of the free list and links the rest behind it |
| `Allocation.NodeAllocator.Free` | src/NodeAllocator.cpp:33-42 | a freed slot loses its children, mark and count and enters the free list once; null is ignored |
| `Allocation.NodeAllocator.FreeAll` | src/NodeAllocator.cpp:44-48 | a batch of different slots ends up on the free list, last one first, and no other slot changes |
| `Allocation.NodeAllocator.HasFreeSlot` | src/NodeAllocator.cpp:50-59 | answers exactly whether the next allocation would succeed |
| `Allocation.NodeAllocator.Capacity` | src/NodeAllocator.cpp:61-67 | the slabs' capacities sum to the number of slots there are |
| `Allocation.NodeAllocator.Grow` | src/NodeAllocator.cpp:69-76 | adds a slab exactly growth-factor times as large as the last one; exactly the slots the old slab had not issued are lost, so none when it was used up |
| `Allocation.SlotsAreGeometricSum` | src/NodeAllocator.cpp:9-75 | after k growths the last slab has first * factor^k slots, and all slots times (factor - 1) are first * (factor^(k + 1) - 1) |
| `Allocation.SlotsAreConserved` | src/NodeAllocator.cpp:18-117 | every slot is in exactly one place (in use, on the free list, unissued, lost to growth) and the four counts sum to the number of slots |
| `FreeListSteps.StepKeepsInvIff` | src/NodeAllocator.cpp:98-117 | with loads, exchanges and link writes as separate atomic steps of any number of threads, a step keeps every slot in one place if and only if it is not a pop that succeeds with a stale link |
| `FreeListSteps.PopIsRightIff` | src/NodeAllocator.cpp:98-109 | the exchange of a pop takes just the head off the list if and only if the link read before is still the head's |
| `FreeListSteps.SlotIsStolen` | src/NodeAllocator.cpp:98-117 | an interleaving of three threads, of which none ever holds two slots: one puts a slot to use, one gives back a candidate that was not needed, and a stale exchange lets two of them hold one slot |
| `FreeListSteps.ThreadGetsOn` | src/NodeAllocator.cpp:98-117 | no thread ever waits: each has a next step in every state, and a failed exchange, spurious or not, starts it again from the head as it is |
| `FreeListSteps.LonePop` | src/NodeAllocator.cpp:98-109 | wherever the other threads have stopped, a thread can pop the first free slot in four steps of its own; it then holds just that one more, with a cleared link |
| `FreeListSteps.LonePush` | src/NodeAllocator.cpp:111-117 | and push a slot it holds in four steps, so that it is the next to be popped and the rest of the list follows it |
| `Buckets.Find` | src/Bucket.h:47-55 | returns a node with exactly this key, or null when the bucket has none |
| `Buckets.InsertIfAbsent` | src/Bucket.h:57-67 | appends the candidate exactly when the key is absent, and otherwise returns the node that has it and leaves the bucket as it was |
| `Buckets.Select` | src/Bucket.h:82-96 | the part of a bucket to keep, or to reclaim, holds exactly the nodes that pass the sweep's test |
| `Buckets.Sweep` | src/Bucket.h:82-96 | erasing during the scan leaves exactly the kept nodes in their order, appends exactly the dead ones to the freed list, and counts them |
| `OperationCache.LockFreeCache.constructor` | src/LockFreeCache.h:19 | a new cache is empty and unused |
| `OperationCache.LockFreeCache.Lookup` | src/LockFreeCache.h:21-51 | returns the stored node exactly when the entry is not being written, its operator is the one asked for, and its operands are, in either order for and, or, not and xor (codes 0 to 3); leaves every entry as it was |
| `OperationCache.LockFreeCache.Insert` | src/LockFreeCache.h:53-65 | writes the whole answer into one entry exactly when that is idle and the weak exchange does not fail spuriously, and otherwise changes nothing at all |
| `OperationCache.LockFreeCache.InvalidateAll` | src/LockFreeCache.h:71-79 | afterwards every lookup misses |
| `TableFacts.PlacedInsert` | src/NodeTable.cpp:264-284 | appending a new node to the bucket of its key keeps every node in exactly its bucket |
| `TableFacts.PlacedSweep` | src/NodeTable.cpp:314-317 | sweeping every bucket leaves exactly the kept nodes, each still in the bucket of its key |
| `TableFacts.RehashStep` | src/NodeTable.cpp:360-363 | moving one more extracted node puts it into the bucket its key has in the new table and disturbs no other |
| `TableFacts.MarkStepCloses` | include/nanobdd/Node.h:22-32 | on marks that were closed under children, one top-level marking call adds exactly what its node reaches, shared parts included |
| `TableFacts.InsertAfterMaintenance` | src/NodeTable.cpp:271-284 | a node created after a collection leaves the table canonical if and only if the collection kept both its children |
| `TableFacts.HitIsResult` | src/NodeTable.cpp:75-81 | whatever a lookup finds in a coherent cache denotes the operation asked for, also when commutative operands come swapped |
| `TableFacts.SwappedQueriesAreSame` | src/LockFreeCache.h:82-85 | among the operators with two operands the cache takes swapped operands for the same query exactly under the codes of those that commute as Boolean operators |
| `TableFacts.EntryExtends` | src/NodeTable.cpp:88 | a right cached answer stays right while the table only grows |
| `TableFacts.TerminalsEval` | src/NodeTable.cpp:52-58 | the two terminals denote the constants, and every other node tests a variable |
| `TableFacts.ShortcutIsResult` | src/NodeTable.cpp:61-72 | each case an operator answers without recursion denotes that operator |
| `TableFacts.ImpAsWrittenIsRightIff` | src/NodeTable.cpp:211-237 | as written, implication is answered rightly if and only if one of its shortcuts applies |
| `TableFacts.ImpAsWrittenIsDiff` | src/NodeTable.cpp:229-232 | when no shortcut applies it returns the very node difference returns, the complement of the implication on every assignment |
| `UniqueTable.NodeTable.constructor` | src/NodeTable.cpp:20-32 | a new table holds exactly the two terminals, at levels 4294967295 and 4294967294, each referenced once, in as many buckets and slots as asked for, with an allocator that doubles, and satisfies every table invariant |
| `UniqueTable.NodeTable.Ref` | include/nanobdd/Node.h:18 | adds one reference to one node and changes nothing else |
| `UniqueTable.NodeTable.Deref` | include/nanobdd/Node.h:20 | takes one reference from a referenced node and changes nothing else |
| `UniqueTable.NodeTable.MarkRec` | include/nanobdd/Node.h:22-32 | marks the node, only nodes below it, and with every node it marks that node's children; it touches nothing but marks and terminates on shared diagrams |
| `UniqueTable.NodeTable.MarkNodes` | src/Bucket.h:74-80 | the marks stay closed under children, stay within what references reach, and include every referenced node of the bucket |
| `UniqueTable.NodeTable.MarkAll` | src/NodeTable.cpp:310-312 | the marked nodes are exactly those reachable from referenced nodes |
| `UniqueTable.NodeTable.UnmarkNodes` | src/Bucket.h:98-102 | clears exactly the marks of the bucket's nodes |
| `UniqueTable.NodeTable.SweepAll` | src/NodeTable.cpp:314-317 | the buckets keep exactly the live nodes and the freed list holds every other node once |
| `UniqueTable.NodeTable.GcLocked` | src/NodeTable.cpp:306-330 | afterwards the table is exactly what referenced nodes reach, unchanged and with clear marks; each other node entered the free list once; counts agree and the cache is empty |
| `UniqueTable.NodeTable.ExtractAll` | src/NodeTable.cpp:347-351 | every node of the table is listed exactly once |
| `UniqueTable.NodeTable.GrowBucketsLocked` | src/NodeTable.cpp:342-364 | the same nodes are in the larger table, each in the bucket of its key, and exactly the node count was moved; a smaller size changes nothing |
| `UniqueTable.NodeTable.MaybeGrowBuckets` | src/NodeTable.cpp:366-378 | with at most four nodes a bucket neither the size nor any bucket changes; with more, the new size is odd, at least one more than double the old one, and no larger than any odd prime from there to 3037000493; afterwards the load is at most four, and all nodes ever moved are fewer than twice the insertions; sizes above 1518500246 are not claimed to grow |
| `UniqueTable.NodeTable.NextSize` | src/NodeTable.cpp:376 | up to 1518500246 buckets the size to grow to is odd, at least one more than double, and no larger than any odd prime from there to 3037000493 |
| `UniqueTable.NodeTable.EnsureBuckets` | src/NodeTable.cpp:300-303 | maintenance changes the buckets under the same condition and to the same size, and only then |
| `UniqueTable.NodeTable.PerformMaintenance` | src/NodeTable.cpp:292-304 | exactly the nodes that references reach are left, unchanged, a slot is free, and a reclaimed slot is the next one to be handed out |
| `UniqueTable.NodeTable.EnsureSlot` | src/NodeTable.cpp:296-298 | after it a slot is free; a slab is added only when none was, and then its slots, growth-factor times those of the last slab, are the free ones; no node and no free slot is lost by it |
| `UniqueTable.NodeTable.FindKey` | src/NodeTable.cpp:264-269 | looking in the one bucket the key hashes to decides whether any node of the table has the key |
| `UniqueTable.NodeTable.TryInsert` | src/NodeTable.cpp:271-284 | fails exactly when no slot is free, and otherwise adds one unreferenced node with the key and changes no other node |
| `UniqueTable.NodeTable.FindOrInsert` | src/NodeTable.cpp:260-290 | one round of the loop: null exactly when the key is unknown and no slot is free, else the known node and no change, or one new node and one slot less |
| `UniqueTable.NodeTable.GetOrCreateNode` | src/NodeTable.cpp:260-290 | ends within two rounds with a node of the key: the known one, a new one, or after a collection a new one, the table then being canonical if and only if both children were kept; after a collection that freed anything the new node is at a reclaimed address |
| `UniqueTable.NodeTable.CofactorOf` | src/NodeTable.cpp:239-251 | gives the cofactor and never a terminal's null child |
| `UniqueTable.NodeTable.Recall` | src/NodeTable.cpp:75-81 | returns exactly the node of a matching entry; such an answer denotes the operation asked for, nothing had to be created for it, and the cache is as it was |
| `UniqueTable.NodeTable.Remember` | src/NodeTable.cpp:88 | the answer of a finished operation is written as one whole entry, or not at all where the weak exchange fails; either way the whole cache stays right, whichever entry was displaced |
| `UniqueTable.NodeTable.Combine` | src/NodeTable.cpp:253-258 | gives a node denoting the operation, or null exactly when the combined node is missing and no slot is free; what was added so far is needed by the operation |
| `UniqueTable.NodeTable.BddAnd` | src/NodeTable.cpp:60-91 | for any operands and any cache content: stops for want of a slot exactly when the free slots do not cover the missing cofactor functions of the conjunction; otherwise returns a node denoting it, has created exactly the nodes below it that were missing, and keeps every invariant and every existing node |
| `UniqueTable.NodeTable.BddOr` | src/NodeTable.cpp:93-124 | for any operands and any cache content: stops for want of a slot exactly when the free slots do not cover the missing cofactor functions of the disjunction; otherwise returns a node denoting it, has created exactly the nodes below it that were missing, and keeps every invariant and every existing node |
| `UniqueTable.NodeTable.BddXor` | src/NodeTable.cpp:153-181 | for any operands and any cache content: stops for want of a slot exactly when the free slots do not cover the missing cofactor functions of the exclusive or; otherwise returns a node denoting it, has created exactly the nodes below it that were missing, and keeps every invariant and every existing node |
| `UniqueTable.NodeTable.BddDiff` | src/NodeTable.cpp:183-209 | for any operands and any cache content: stops for want of a slot exactly when the free slots do not cover the missing cofactor functions of the difference; otherwise returns a node denoting it, has created exactly the nodes below it that were missing, and keeps every invariant and every existing node |
| `UniqueTable.NodeTable.BddNot` | src/NodeTable.cpp:126-151 | the same for the complement |
| `UniqueTable.NodeTable.BddImpIntended` | src/NodeTable.cpp:211-237 | with the recursion on implication itself, the answer denotes not x or y, under the same promises as the other operators |
| `UniqueTable.NodeTable.BddImp` | src/NodeTable.cpp:211-237 | as written: right in the shortcuts, without any change to the table; otherwise it does what the difference does, stops exactly where that would, and returns the difference |
| `UniqueTable.NodeTable.RoomIsEnough` | src/NodeTable.cpp:271-276 | a free slot for every pair of operand nodes always covers what is missing, so no collection starts inside the operator |
| `UniqueTable.CacheIsTransparent` | src/NodeTable.cpp:75-91 | one operation on two tables with the same nodes but different caches, memories and buckets: with as many slots both runs stop or neither does; the answers denote one function, both create as many nodes, and the answers are one node if either was there |
| `UniqueTable.NodeTable.ThroughCollection` | src/NodeTable.cpp:60-209 | any operator one slot short, followed through the collection that creating its own node starts: the table stays canonical if and only if nodes that references reach denote both parts of the answer, which can be told before the call; then the answer is right, and the table is what references reach and that node |
| `UniqueTable.NodeTable.LowPartLost` | src/NodeTable.cpp:60-209 | any operator with one slot free, two parts that each lack just their own node, and every node referenced: the second recursive call reclaims the first one's node and takes its address, and the answer is that of the second part, which is wrong |
| `Failures.LostConjunction` | src/Bdd.cpp:59-61 | a client program from `init` on, six operators with live handles and then `x & y`, whose last answer is the conjunction of the two high parts and not of x and y, although both operands are still in the table |
| `UniqueTable.NodeTable.CreateVar` | src/NodeTable.cpp:40-50 | the two nodes of the variable are in place and referenced once more; everything referenced before stays, with its count; with two free slots exactly two nodes are added, and the buckets stay as long as the load is at most four |
| `UniqueTable.NodeTable.Gc` | src/NodeTable.cpp:384-387 | a requested collection keeps exactly what references reach, and every reference count |
| `Runs.StepKeepsInv` | src/Bdd.cpp:8-61 | every command of a client keeps the run invariant: a canonical table whose reference counts equal live handles plus permanent pins |
| `Runs.EnabledInView` | src/Bdd.cpp:8-108 | which commands a client may give depends only on which handles exist and name a function, and for variables on how many were created |
| `Runs.StepRefines` | src/Bdd.cpp:8-61 | seen from the handles, every command does to Boolean functions exactly what the code computes for it, implication as written, and collection is invisible |
| `Runs.RunRefines` | src/Nanobdd.cpp:38-84 | so any run of commands computes what the same commands compute on Boolean functions, with no table, slots or collection |
| `Runs.HandleEquality` | src/Bdd.cpp:106-108 | at every moment of every run two handles have the same root exactly when they name the same function, also after slots were reused |
| `Runs.LiveHandleIsStable` | src/NodeTable.cpp:306-364 | a handle no command assigns keeps its node and its function through operators, copies, drops, collections and growth |
| `Runs.PinsAreReferenced` | src/NodeTable.cpp:26-49 | terminals and variables stay referenced in every run, so no collection takes them |
| `Runs.CollectWithoutHandles` | src/Nanobdd.cpp:84 | a collection with no handle alive leaves exactly the 2 + 2 * varNum pinned nodes |
| `Runs.CollectionIsInvisible` | src/NodeTable.cpp:271-276 | a collection and then a command do to the functions of the handles what the command alone does |
| `Runs.CompoundConservesIff` | src/Bdd.cpp:63-104 | as written, a compound assignment leaves counts equal to handles plus pins if and only if its operands are, operator by operator, such that the handle's function does not change: f below g for and, g below f for or, g constantly false for xor, f and g disjoint for difference, and for implication by the branch it takes |
| `Runs.CompoundRootSurvivesIff` | src/Bdd.cpp:63-104 | after the next collection the overwritten handle's root is in the table if and only if a node that was referenced before the assignment reaches it |
| `Runs.CompoundLosesReference` | src/Bdd.cpp:63-66 | `&=` of one variable's handle by another's is a case where it does not |
| `Sessions.Session.constructor` | src/Nanobdd.cpp:47-53 | once the sizes are chosen: a cache of just that size, the run invariant with exactly 2 + 2 * varNum nodes, and just as many slots and buckets as asked for when that is enough |
| `Sessions.Init` | src/Nanobdd.cpp:40-54 | initialisation for all sizes, taken modulo 2^32: fails only where the prime search is undefined, never between 2 and 3037000493; otherwise the run invariant; the cache, and with room for the variables the slots and the buckets, each have an odd number from the size asked for on and no more than the next odd prime up to there |
| `Sessions.Session.Constant` | src/Bdd.cpp:8-10 | a constant's handle is one step of a run |
| `Sessions.Session.GetVar` | src/Nanobdd.cpp:68-76 | so is a variable's handle, positive or negated |
| `Sessions.Session.CopyConstruct` | src/Bdd.cpp:12-16 | copying a handle, also a moved-from one, adds its reference |
| `Sessions.Session.MoveConstruct` | src/Bdd.cpp:18 | moving a handle transfers its reference and empties the source |
| `Sessions.Session.CopyAssign` | src/Bdd.cpp:26-39 | the new root is referenced before the old one is released; self-assignment changes nothing |
| `Sessions.Session.MoveAssignTo` | src/Bdd.cpp:41-51 | the old root is released and the source's reference taken over; self-assignment changes nothing |
| `Sessions.Session.Destruct` | src/Bdd.cpp:20-24 | a destroyed handle gives its reference back |
| `Sessions.Session.BinaryOperator` | src/Bdd.cpp:59-99 | the five binary operators are steps of a run, and the answer's node is referenced by its new handle, exactly unless the operator would collect inside; then no handle and no handle's function has changed |
| `Sessions.Session.NotOperator` | src/Bdd.cpp:77 | so is `!`, with the same exact exception |
| `Sessions.Session.BinaryThroughCollection` | src/Bdd.cpp:59-99 | an operator other than implication that collects when it makes its last node, with both parts reached by references, is a collection followed by the operator |
| `Sessions.Session.NotThroughCollection` | src/Bdd.cpp:77 | and so is `!` |
| `Sessions.Session.Gc` | src/Nanobdd.cpp:84 | `gc` is a step that changes no handle's function |
| `Sessions.Session.Equal` | src/Bdd.cpp:106 | comparing roots answers whether the two handles name the same Boolean function |
| `Sessions.Session.CompoundAssign` | src/Bdd.cpp:63-104 | the compound assignments as written, with the exact condition on the operands under which counts stay right |
| `NumberTheory.Fermat` | src/Prime.h:107-125 | Fermat's little theorem, on which the test of a prime's witnesses rests |
| `NumberTheory.SquareRootsOfOne` | src/Prime.h:117-118 | modulo a prime only 1 and -1 square to 1, so the early exit never happens for a prime |
| `NumberTheory.PrimeAbove` | src/Prime.h:160-168 | there is a prime above every number |
| `PrimeSearch.ExactSearchStops` | src/Prime.h:160-168 | with exact products the search would stop from every start: from each number on there is an odd one without small factors that passes for every witness |
| `PrimeSearch.NumberOfBits` | src/Prime.h:94-105 | the position of the highest set bit, and 0 for 0 |
| `PrimeSearch.PrimePasses` | src/Prime.h:107-125 | a prime passes the test for every witness |
| `PrimeSearch.IsWitness` | src/Prime.h:107-125 | for every 32-bit number it answers what the loop with its 64-bit products answers; up to the bound that is whether the power is not 1 or some squaring met a root of 1 other than 1 and -1, and never against a prime |
| `PrimeSearch.IsMillerRabinPrime` | src/Prime.h:127-138 | accepting means that the loop rejected none of just 20 witnesses and rejecting that it rejected the last of at most 20, for every 32-bit number; up to the bound that is the test, and every prime is accepted whatever witnesses are drawn |
| `PrimeSearch.EasyFactorsSparePrimes` | src/Prime.h:144-147 | the small-factor filter rejects no prime |
| `PrimeSearch.SmallFactorsAreFound` | src/Prime.h:144-147 | an odd number that passes it has no proper divisor up to 16, so below 289 only primes do |
| `PrimeSearch.BddPrimeGte` | src/Prime.h:160-168 | from every 32-bit start it ends: at an odd number not below it that was accepted, or with the wrap-around to 1, where drawing a witness divides by zero; from 2 up to the last prime below the bound always the former, and at no number above an odd prime in between. Whatever witnesses are drawn, what it finds has no proper divisor up to 16 and below 289 is prime, and each odd number it passed over has a factor 3, 5, 7, 11 or 13 or a witness against it |
| `PrimeSearch.MulModIsExactIff` | src/Prime.h:84-85 | the 64-bit product with its cast equals multiplication modulo `src` on all residues if and only if src - 1 is at most 3037000499 |
| `PrimeSearch.LargestResidueFails` | src/Prime.h:84-85 | for every larger 32-bit `src` the square of -1 comes out different from 1 |
| `PrimeSearch.RejectsAPrime` | src/Prime.h:107-125 | 3043889347 is prime, its predecessor is above the bound, and the loop rejects it with witness 2 |
| `PrimeCertificates.LastPrimeIsPrime` | src/Prime.h:160-168 | 3037000493, where every exact search stops at the latest, is prime |
| `PrimeCertificates.Pocklington` | src/Prime.h:107-125 | Pocklington's criterion, by which that is shown |
| `CacheProtocol.StepKeepsInv` | src/LockFreeCache.h:21-79 | every atomic step of any thread, the four stores of an invalidation included, keeps the reader/writer protocol of an entry, unless it resets the count while somebody is inside |
| `CacheProtocol.AlwaysInv` | src/LockFreeCache.h:21-79 | so it holds in every state of every interleaving of lookups, insertions and invalidations in which no count is reset while somebody is inside |
| `CacheProtocol.CountTellsWhoIsInside` | src/LockFreeCache.h:28-34 | `useCount` is -1 exactly while one writer and no reader is inside, and otherwise the number of readers |
| `CacheProtocol.StepKeepsInvIff` | src/LockFreeCache.h:21-79 | the exact condition, step by step: an atomic access keeps the protocol if and only if it is not the store of `invalidateAll` that resets the count while a reader or a writer is inside; its stores of node and operands never harm |
| `CacheProtocol.TornLookup` | src/LockFreeCache.h:21-79 | an interleaving in which nobody is inside when the invalidation begins, a reader enters before it ends, and that reader finds a node that was never stored under its operands |
| `CacheProtocol.LookupsAreWhole` | src/LockFreeCache.h:36-50 | a lookup that finds a node finds that of one complete insertion whose operator and operands match, never a mixture of two |
| `CacheProtocol.FoundAnswersAreTrue` | src/LockFreeCache.h:36-50 | so if only true answers are inserted, only true answers are found, swapped operands included |
| `LoneCacheCalls.CallGetsOn` | src/LockFreeCache.h:21-79 | no call on an entry ever waits: at every point, whatever the entry holds, it has a next step |
| `LoneCacheCalls.LoneCallReturns` | src/LockFreeCache.h:21-79 | every run of a call left to itself, wherever the others have stopped, ends within eight steps and has done what the cache as one thread sees it does: a lookup returns the node of a matching entry that no writer holds, in either order under codes 0 to 3, and leaves the entry alone; an insertion has overwritten an idle entry whole or done nothing; an invalidation has emptied it |
| `LoneCacheCalls.LoneCallCanReturn` | src/LockFreeCache.h:21-79 | and such a run exists from every state, for an insertion into an idle entry one that writes it |
| `LockFreeBuckets.StepKeepsInv` | src/LockFreeBucket.h:21-50 | every load, scan, exchange (failing spuriously or not) and rescan of any thread keeps the list and what each thread has ruled out |
| `LockFreeBuckets.RescanKeeps` | src/LockFreeBucket.h:38-47 | what lies before the old head is searched again, what lies from it on is known not to match, so the new node may be linked |
| `LockFreeBuckets.KeysStayUnique` | src/LockFreeBucket.h:21-50 | in every state of every interleaving no two linked nodes have one key |
| `LockFreeBuckets.CallsAgree` | src/LockFreeBucket.h:21-50 | all calls with one key, by any threads at any times, return the same node, which has the key and stays linked |
| `LockFreeBuckets.ListOnlyGrows` | src/LockFreeBucket.h:38-49 | linked nodes stay linked, unchanged and in place |
| `LoneListCalls.CallGetsOn` | src/LockFreeBucket.h:21-50 | no call ever waits: in every state of the list, whatever the other threads do, a thread inside a call has a next step |
| `LoneListCalls.LoneCallReturns` | src/LockFreeBucket.h:21-50 | every run of a call left to itself at any point, without spurious failures, ends within 2 n + 5 steps for n linked nodes; it returns a linked node with its key, and the list is as it was if the key was linked and has exactly that node more if not |
| `LoneListCalls.LoneCallCanReturn` | src/LockFreeBucket.h:21-50 | and such a run exists from every state and every point of a call |
| `LoneListCalls.FailureIsProgress` | src/LockFreeBucket.h:38-39 | an exchange that fails for a reason has lost to another call that linked a node since |
| `LockFreeBuckets.InUseExactly` | src/LockFreeBucket.h:91-120 | the list that should remain holds exactly the marked nodes, each once |
| `LockFreeBuckets.LockFreeBucket.FreeNodes` | src/LockFreeBucket.h:91-120 | one pass over the links leaves exactly the marked nodes linked in their order, deletes exactly the others, and changes no key or mark |
| `SharedInsertion.StepKeepsInv` | src/NodeTable.cpp:260-378 | every step of any thread, under the shared lock or the exclusive one, keeps the table, slot, count and lock invariants |
| `SharedInsertion.LinkKeepsTable` | src/NodeTable.cpp:278-282 | the second search under the bucket lock is enough: a key absent from its own bucket is absent from the table |
| `SharedInsertion.OwnerIsAlone` | src/NodeTable.cpp:262 | in every state of every interleaving a thread that owns the table lock is the only one inside it |
| `SharedInsertion.KeysStayUnique` | src/NodeTable.cpp:260-290 | in every interleaving keys are unique table-wide and each node is in the bucket of its key |
| `SharedInsertion.CountIsExactUnderTheLock` | src/NodeTable.cpp:332-340 | whenever a thread owns the lock, `nodeCount_` is the sum of the bucket sizes |
| `SharedInsertion.CountLags` | src/NodeTable.cpp:284 | otherwise it is behind by exactly the threads that have inserted and not yet counted |
| `SharedInsertion.SlotsAreConserved` | src/NodeTable.cpp:271-282 | no two threads hold one slot, and every slot is linked, free or in one thread's hand |
| `SharedInsertion.OnlyCollectionsRemove` | src/NodeTable.cpp:306-330 | a node leaves the table only in a collection, while no other thread shares the lock |
| `SharedInsertion.CallsAgree` | src/NodeTable.cpp:260-290 | two calls with one key return the same node unless a collection removed it in between |
| `SharedInsertion.RehashedPlaced` | src/NodeTable.cpp:347-363 | extracting and re-inserting places every node in the bucket of its key |
| `SharedInsertion.SlotsComeWhenNoneIsFree` | src/NodeTable.cpp:292-298 | new slots come only in maintenance after a collection that left none free, and are then the free ones |
| `LoneCalls.CallGetsOn` | src/NodeTable.cpp:260-378 | only the table lock can hold a call up: one that does not wait for it has a next step in every state, whatever the others do |
| `LoneCalls.StepGetsCloser` | src/NodeTable.cpp:260-378 | each step of a call brings it closer to its end |
| `LoneCalls.LoneCallReturns` | src/NodeTable.cpp:260-290 | every run of a call that has the lock to itself, whatever a collection keeps and whichever slots come, ends within eighteen steps and only by returning a node of its key: a known key leaves the table as it was; a new one turns one free slot into one node more and is counted; if no slot was free there are next to that node only old ones |
| `LoneCalls.LoneCallCanReturn` | src/NodeTable.cpp:260-290 | and such a run exists from every state in which nobody else is inside the lock |
| `LoneCalls.LoserRecycles` | src/NodeTable.cpp:278-282 | of two threads that hold a candidate for one key, the second to insert has no choice but to find the first one's node and recycle its own slot |
| `LoneCalls.CallsRace` | src/NodeTable.cpp:260-290 | for every key an interleaving from the start in which this happens: both calls return one node and the loser's slot is free again |
| `LoneCalls.LoadDecides` | src/NodeTable.cpp:332-378 | an owner of the lock can move the nodes to any larger number of buckets if there are more than four nodes a bucket, and otherwise changes nothing |
| `LoneCalls.GrowthRuns` | src/NodeTable.cpp:366-378 | after an insertion a thread that finds the lock free can grow an overfull table |
| `LoneCalls.GcRuns` | src/NodeTable.cpp:384-387 | a requested collection that finds the lock free can keep any part of the table; the rest becomes free slots |

## Left out

- UniqueTable.NodeTable.BddAnd: followed up to its first collection; `ThroughCollection` follows it through one at its last node and `LowPartLost` through one that breaks it, and beyond these `GetOrCreateNode` says what one creation leaves.
- UniqueTable.NodeTable.BddOr: up to its first collection, like `BddAnd`.
- UniqueTable.NodeTable.BddXor: up to its first collection, like `BddAnd`.
- UniqueTable.NodeTable.BddDiff: up to its first collection, like `BddAnd`.
- UniqueTable.NodeTable.BddNot: up to its first collection, like `BddAnd`.
- UniqueTable.NodeTable.BddImp: up to its first collection; it describes the code as written, not the implication.
- UniqueTable.NodeTable.BddImpIntended: up to its first collection; it is the recursion the code is meant to have.
- UniqueTable.NodeTable.ThroughCollection: one slot short and with parts that differ; with more slots missing the collection may start inside a recursive call.
- UniqueTable.NodeTable.GetOrCreateNode: one thread, so the candidate is never refused; many threads are in `SharedInsertion`.
- UniqueTable.NodeTable.NextSize: for a table of more than 1518500246 buckets the size may be smaller, or arbitrary where the search divides by zero; a size that is not larger changes nothing, and the load bound is then not claimed.
- UniqueTable.NodeTable.Ref: the 32-bit wrap-around of `refCount` is not modelled.
- UniqueTable.NodeTable.Deref: requires a positive count, which every run provides; the code would wrap around.
- UniqueTable.NodeTable.constructor: requires two slots, because with one the second terminal would need a collection while the first is not referenced; `init` always passes more.
- OperationCache.LockFreeCache.Insert: whether the weak exchange fails spuriously is a parameter.
- UniqueTable.NodeTable.Remember: and here an arbitrary choice, so an answer need not be stored.
- Allocation.NodeAllocator.PopFree: one thread; the load and the exchange apart are in `FreeListSteps`.
- Runs.StepKeepsInv: the compound assignments are no commands; `CompoundConservesIff` states what they do.
- Runs.StepRefines: likewise without the compound assignments.
- Sessions.Init: the early return of a second `init` and `clear`, which invalidates all handles, are not modelled; the number of variables is at most 4294967294, the smallest level of a terminal.
- Sessions.Session.BinaryOperator: operands that were not moved from, which the code would dereference as null; it fails where the operator would collect.
- Sessions.Session.NotOperator: the same demand on its operand and the same failure.
- Sessions.Session.BinaryThroughCollection: not for implication as written.
- Sessions.Session.CompoundAssign: the same demand on its operands and the same failure.
- PrimeSearch.NumberOfBits: the word is as wide as its argument needs, at least 32 bits.
- PrimeSearch.IsWitness: where products do not fit it is tied to the loop of the code, not to primality.
- PrimeSearch.BddPrimeGte: from 289 on nothing is claimed about composites without small factors that the test may accept, and no property of the table needs a prime size.
- SharedInsertion.StepKeepsInv: taking and giving back a slot are atomic steps, as the allocator intends; where the free list does not keep that is in `FreeListSteps`. Which nodes a collection keeps is arbitrary here, because threads outside the lock change counts; what it keeps exactly is in `GcLocked`.
- SharedInsertion.SlotsAreConserved: with the same atomic steps.
- LoneCalls.LoneCallReturns: nothing is claimed about fairness; a call may wait for the lock for ever while others take it in turn.
- LoneListCalls.LoneCallReturns: for runs in which the weak exchange does not fail spuriously; nothing bounds how often it may.
- CacheProtocol.AlwaysInv: for interleavings in which no count is reset while somebody is inside; the others are in `StepKeepsInvIff` and `TornLookup`. Any number of threads may invalidate at once, where the table lock admits one.
- LockFreeBuckets.CallsAgree: nothing is removed while calls run; `freeNodes` is modelled alone, and the list's counting, marking and unmarking loops, which repeat those of `Bucket.h`, are not.
- Weak memory: atomics are sequentially consistent; the inside of `std::shared_mutex` is its specification.
- `Cache.cpp` and `Cache.h`: compiled but not selected (src/Common.h:4).
- `bdd_prime_lte` and the 64-bit arithmetic for compilers without `long long`.
- Printing, the C interface, the JNI and Rust bindings, the examples and the build files.
