/**
  The unique table of src/NodeTable.cpp, run by one thread: hash-consed node
  creation, mark-and-sweep collection, rehashing, and the memoised operators.
 */
module UniqueTable {
  import opened Nodes
  import opened Diagrams
  import opened Operators
  import opened Demand
  import opened Hashing
  import opened Allocation
  import opened Collections
  import opened Buckets
  import opened OperationCache
  import opened TableFacts
  import opened PrimeCertificates
  import opened PrimeSearch

  function EmptyBuckets(n: nat): (bs: seq<seq<Ptr>>)
    ensures |bs| == n && forall k :: 0 <= k < n ==> bs[k] == []
  {
    seq(n, _ => [])
  }

  /** `maxLoadFactor_`. */
  const MAX_LOAD: nat := 4

  /**
    What `count` nodes do to a table of `before` buckets: up to four for each
    bucket nothing; more of them, if the search is sure to find a size, make it
    at least one more than double, odd, and no larger than any odd prime that is.
   */
  ghost predicate Resized(count: nat, before: nat, after: nat) {
    && before <= after && (count <= 4 * before ==> after == before)
    && (count > 4 * before && 2 * before + 1 <= LAST_PRIME ==> RightSize(2 * before + 1, after))
  }

  lemma ResizedTwice(count: nat, before: nat, middle: nat, after: nat)
    requires Resized(count, before, middle) && (2 * before + 1 <= LAST_PRIME ==> count <= 4 * before)
    ensures Resized(count, middle, after) ==> Resized(count, before, after)
    ensures Resized(count + 1, middle, after) ==> Resized(count + 1, before, after)
  {
    hide RightSize;
  }

  class NodeTable {
    const allocator: NodeAllocator
    const cache: LockFreeCache
    /** Whether `bddImp` recurses into itself; as written it recurses into `bddDiff`. */
    ghost const intended: bool

    var tableSize: nat
    var buckets: seq<seq<Ptr>>
    var nodeCount: nat
    var falseNode: Ptr
    var trueNode: Ptr
    var vars: seq<Ptr>
    var nvars: seq<Ptr>

    /** The nodes in the buckets and their keys. */
    ghost var graph: Graph
    /** How many nodes were ever inserted, and how many were moved by rehashing. */
    ghost var inserted: nat
    ghost var moved: nat

    /** Buckets, memory and allocator agree on which nodes exist. */
    ghost predicate Tabled()
      reads this`tableSize, this`buckets, this`nodeCount, this`graph, allocator
    {
      && allocator.Valid() && allocator.lost == {} && allocator.live == graph.Keys
      && Mirrors(graph, allocator.mem)
      && tableSize == |buckets| > 0 && Placed(graph, graph.Keys, buckets)
      && nodeCount == |graph| && UniqueKeys(graph) && NULL !in graph
    }

    ghost predicate Shape()
      reads this`tableSize, this`buckets, this`nodeCount, this`graph, allocator, cache, cache.entries
    {
      && Tabled()
      && Marked(graph, allocator.mem) == {}
      && cache.Valid() && cache.Quiet()
    }

    /** The next size is one the prime search is sure to find. */
    predicate Searchable()
      reads this`tableSize
    {
      tableSize * 2 + 1 <= LAST_PRIME
    }

    /** The load bound, and the cost of rehashing so far, while the table can grow. */
    ghost predicate InLoad()
      reads this`nodeCount, this`tableSize, this`inserted, this`moved
    {
      && nodeCount <= inserted
      && (Searchable() ==>
           nodeCount <= 4 * tableSize && moved <= 4 * tableSize && (moved == 0 || moved < 2 * inserted))
    }

    /** Every cached answer is right. */
    ghost predicate Coherent()
      requires WellFormed(graph)
      reads this`graph, cache, cache.entries
    {
      EntriesOk(graph, cache.entries[..], intended)
    }

    ghost predicate Sound()
      reads this`tableSize, this`buckets, this`nodeCount, this`graph, allocator, cache, cache.entries
    {
      Shape() && WellFormed(graph) && Coherent()
    }

    /** The nodes the next collection would keep. */
    ghost function Kept(): set<Ptr>
      requires Mirrors(graph, allocator.mem) && WellFormed(graph)
      reads this`graph, allocator
    {
      ReachAll(graph, Roots(graph, allocator.mem))
    }

    /**
      A table with the two terminals, each referenced once. With one slot the
      second terminal would already need a collection, and the first is not
      referenced yet.
     */
    constructor (tableSize: nat, cache: LockFreeCache, ghost intended: bool)
      requires tableSize >= 2 && cache.Valid() && cache.Quiet() && cache.Empty()
      modifies cache.entries
      ensures Valid() && fresh(allocator) && this.cache == cache && this.intended == intended
      ensures this.tableSize == tableSize && allocator.growthFactor == 2 && nodeCount == 2 && vars == [] && nvars == []
      ensures falseNode != trueNode
      ensures graph == map[falseNode := Cell(0xFFFF_FFFF, NULL, NULL), trueNode := Cell(0xFFFF_FFFE, NULL, NULL)]
      ensures forall p :: RefOf(graph, allocator.mem, p) == if p in graph then 1 else 0
      ensures allocator.Valid() && allocator.FreeSlots() == tableSize - 2
    {
      this.cache := cache;
      this.intended := intended;
      this.allocator := new NodeAllocator(tableSize, 2);
      this.tableSize := tableSize;
      buckets := EmptyBuckets(tableSize);
      nodeCount := 0;
      falseNode, trueNode := NULL, NULL;
      vars, nvars := [], [];
      graph, inserted, moved := map[], 0, 0;
      new;
      hide Pool, RefOf, EmptyBuckets, Valid, AllQuiet;
      MakeTerminals();
    }

    /** No nodes, empty buckets, an unused allocator and an empty cache. */
    ghost predicate Blank()
      reads this, allocator, cache, cache.entries
    {
      && allocator.Valid() && allocator.live == {} && allocator.lost == {} && allocator.FreeSlots() >= 2
      && |buckets| == tableSize > 0 && (forall k :: 0 <= k < |buckets| ==> buckets[k] == [])
      && nodeCount == 0 && graph == map[] && inserted == 0 && moved == 0
      && cache.Valid() && cache.Quiet() && cache.Empty()
    }

    lemma BlankIsSound()
      requires Blank()
      ensures Sound() && InLoad()
    {
      hide Pool, Mirrors, Marked, WellFormed, EntriesOk, Placed;
      EmptyTable(buckets, allocator.mem, cache.entries[..], intended);
    }

    /** The part of the constructor that creates and pins the terminals. */
    method MakeTerminals()
      requires Blank()
      modifies this, allocator, cache.entries
      ensures vars == old(vars) && nvars == old(nvars)
      ensures Valid() && tableSize == old(tableSize) && nodeCount == 2
      ensures graph == map[falseNode := FALSE_CELL, trueNode := TRUE_CELL] && falseNode != trueNode
      ensures forall p :: RefOf(graph, allocator.mem, p) == if p in graph then 1 else 0
      ensures allocator.FreeSlots() == old(allocator.FreeSlots()) - 2
    {
      hide Pool, Sound, InLoad, RefOf;
      CreateTerminals();
      PinTerminals();
    }

    method CreateTerminals()
      requires Blank()
      modifies this, allocator, cache.entries
      ensures vars == old(vars) && nvars == old(nvars)
      ensures Sound() && InLoad() && tableSize == old(tableSize) && nodeCount == 2
      ensures graph == map[falseNode := FALSE_CELL, trueNode := TRUE_CELL] && falseNode != trueNode
      ensures forall p :: RefOf(graph, allocator.mem, p) == 0
      ensures allocator.FreeSlots() == old(allocator.FreeSlots()) - 2
    {
      hide Pool, Placed, BucketIndex, UniqueKeys, Marked, Roots, ReachAll, EntriesOk, ProperNode, Coherent, InLoad,
        WellFormed, Restrict, Kept, Mirrors, Grown;
      BlankIsSound();
      var f := NewTerminal(UINT_MAX);
      falseNode := f;
      ghost var mem1 := allocator.mem;
      var t := NewTerminal(UINT_MAX - 1);
      trueNode := t;
      GrownKeepsRefs(map[], old(allocator.mem), map[f := FALSE_CELL], mem1);
      GrownKeepsRefs(map[f := FALSE_CELL], mem1, graph, allocator.mem);
    }

    /** Terminals always exist. */
    method PinTerminals()
      requires Sound() && Terminals() && falseNode != trueNode
      modifies allocator`mem
      ensures Sound() && allocator.FreeSlots() == old(allocator.FreeSlots())
      ensures forall p ::
        RefOf(graph, allocator.mem, p) == old(RefOf(graph, allocator.mem, p)) + One(p == falseNode || p == trueNode)
    {
      hide Tabled, Coherent, Marked, WellFormed;
      Ref(falseNode);
      Ref(trueNode);
    }

    method NewTerminal(level: nat) returns (p: Ptr)
      requires Sound() && InLoad() && allocator.FreeSlots() > 0
      requires IsTerminal(Cell(level, NULL, NULL)) && !Known(Cell(level, NULL, NULL))
      modifies this`buckets, this`tableSize, this`moved, this`nodeCount, this`graph, this`inserted, allocator,
        cache.entries
      ensures Sound() && InLoad() && Resized(nodeCount, old(tableSize), tableSize)
      ensures p !in old(graph) && graph == old(graph)[p := Cell(level, NULL, NULL)]
      ensures Grown(old(graph), old(allocator.mem), graph, allocator.mem)
      ensures allocator.FreeSlots() == old(allocator.FreeSlots()) - 1
    {
      hide Pool, Placed, BucketIndex, UniqueKeys, Marked, Roots, ReachAll, EntriesOk, ProperNode, Coherent, InLoad,
        WellFormed, Restrict, Kept;
      ghost var rounds;
      p, rounds := GetOrCreateNode(level, NULL, NULL);
    }

    /** `Node::ref`. */
    method Ref(p: Ptr)
      requires Sound() && p in graph
      modifies allocator`mem
      ensures Sound() && allocator.FreeSlots() == old(allocator.FreeSlots())
      ensures p in old(allocator.mem)
      ensures allocator.mem ==
        old(allocator.mem)[p := old(allocator.mem)[p].(refCount := old(allocator.mem)[p].refCount + 1)]
    {
      SetRefCount(p, allocator.mem[p].refCount + 1);
    }

    /** `Node::deref`, on a node that is referenced. */
    method Deref(p: Ptr)
      requires Sound() && p in graph && RefOf(graph, allocator.mem, p) > 0
      modifies allocator`mem
      ensures Sound() && allocator.FreeSlots() == old(allocator.FreeSlots())
      ensures p in old(allocator.mem)
      ensures allocator.mem ==
        old(allocator.mem)[p := old(allocator.mem)[p].(refCount := old(allocator.mem)[p].refCount - 1)]
    {
      SetRefCount(p, allocator.mem[p].refCount - 1);
    }

    method SetRefCount(p: Ptr, n: nat)
      requires Sound() && p in graph
      modifies allocator`mem
      ensures Sound() && allocator.FreeSlots() == old(allocator.FreeSlots())
      ensures p in old(allocator.mem)
      ensures allocator.mem == old(allocator.mem)[p := old(allocator.mem)[p].(refCount := n)]
    {
      hide Pool, Placed, UniqueKeys, EntriesOk;
      ghost var mem := allocator.mem;
      PoolWrite(mem, allocator.freeList, allocator.live, allocator.free, allocator.lost,
        allocator.Frontier(), allocator.End(), p, mem[p].(refCount := n));
      allocator.mem := allocator.mem[p := allocator.mem[p].(refCount := n)];
      assert forall q :: q in graph ==> q !in Marked(graph, mem);
    }

    // ---- Collection

    /** Writes one mark flag. */
    method SetMark(p: Ptr, value: bool)
      requires allocator.Valid() && Mirrors(graph, allocator.mem) && p in graph
      modifies allocator`mem
      ensures allocator.Valid() && allocator.FreeSlots() == old(allocator.FreeSlots())
      ensures allocator.mem == old(allocator.mem)[p := old(allocator.mem)[p].(inUse := value)]
      ensures SameButMarks(old(allocator.mem), allocator.mem) && Mirrors(graph, allocator.mem)
    {
      hide Pool;
      ghost var mem0 := allocator.mem;
      allocator.mem := allocator.mem[p := allocator.mem[p].(inUse := value)];
      PoolMarks(mem0, allocator.mem, allocator.freeList, allocator.live, allocator.free, allocator.lost,
        allocator.Frontier(), allocator.End());
    }

    /** `Node::markRec`. */
    method MarkRec(p: Ptr)
      requires allocator.Valid() && WellFormed(graph) && Mirrors(graph, allocator.mem) && p in graph
      modifies allocator`mem
      ensures allocator.Valid() && allocator.FreeSlots() == old(allocator.FreeSlots())
      ensures SameButMarks(old(allocator.mem), allocator.mem) && Mirrors(graph, allocator.mem)
      ensures MarkStep(graph, old(Marked(graph, allocator.mem)), Marked(graph, allocator.mem), p)
      decreases UINT_MAX - graph[p].level
    {
      hide Pool, Mirrors, Marked, MarkStep, SameButMarks, ProperNode, WellFormed;
      ghost var mem0 := allocator.mem;
      ChildrenBelow(graph, mem0, p);
      if !allocator.mem[p].inUse {
        SetMark(p, true);
        ghost var mem1 := allocator.mem;
        MarkedOne(graph, mem0, mem1, p);
        ChildrenBelow(graph, mem1, p);
        MarksAlike(graph, mem1, mem1);
        if allocator.mem[p].low != NULL {
          MarkRec(allocator.mem[p].low);
        }
        ghost var mem2 := allocator.mem;
        MarksAlike(graph, mem2, mem2);
        ChildrenBelow(graph, mem2, p);
        if allocator.mem[p].high != NULL {
          MarkRec(allocator.mem[p].high);
        }
        MarkedBoth(graph, mem0, mem1, mem2, allocator.mem, p);
      } else {
        MarkedAlready(graph, mem0, p);
      }
    }

    /** The loop body of `Bucket::markNodesUnsafe`. */
    method MarkNode(node: Ptr)
      requires allocator.Valid() && WellFormed(graph) && Mirrors(graph, allocator.mem) && node in graph
      requires Closed(graph, Marked(graph, allocator.mem)) && Marked(graph, allocator.mem) <= Kept()
      modifies allocator`mem
      ensures allocator.Valid() && allocator.FreeSlots() == old(allocator.FreeSlots())
      ensures SameButMarks(old(allocator.mem), allocator.mem) && Mirrors(graph, allocator.mem)
      ensures Closed(graph, Marked(graph, allocator.mem))
      ensures old(Marked(graph, allocator.mem)) <= Marked(graph, allocator.mem) <= old(Kept())
      ensures node in old(Roots(graph, allocator.mem)) ==> node in Marked(graph, allocator.mem)
    {
      hide Pool, Closed, ReachAll, MarkStep, Marked, WellFormed;
      if allocator.mem[node].refCount != 0 {
        ghost var m := Marked(graph, allocator.mem);
        MarkRec(node);
        MarkStepCloses(graph, m, Marked(graph, allocator.mem), node);
        ReachInReachAll(graph, old(Roots(graph, allocator.mem)), node);
      }
    }

    /** `Bucket::markNodesUnsafe`: marks what is below the referenced nodes of one bucket. */
    method MarkNodes(nodes: seq<Ptr>)
      requires allocator.Valid() && WellFormed(graph) && Mirrors(graph, allocator.mem)
      requires forall p :: p in nodes ==> p in graph
      requires Closed(graph, Marked(graph, allocator.mem)) && Marked(graph, allocator.mem) <= Kept()
      modifies allocator`mem
      ensures allocator.Valid() && allocator.FreeSlots() == old(allocator.FreeSlots())
      ensures SameButMarks(old(allocator.mem), allocator.mem) && Mirrors(graph, allocator.mem)
      ensures Closed(graph, Marked(graph, allocator.mem))
      ensures old(Marked(graph, allocator.mem)) <= Marked(graph, allocator.mem) <= old(Kept())
      ensures forall p :: p in nodes && p in old(Roots(graph, allocator.mem)) ==> p in Marked(graph, allocator.mem)
    {
      hide Pool, Closed, ReachAll, Marked, WellFormed, Roots, Mirrors, SameButMarks;
      ghost var mem0, roots := allocator.mem, Roots(graph, allocator.mem);
      MarksAlike(graph, mem0, mem0);
      for k := 0 to |nodes|
        invariant allocator.Valid() && allocator.FreeSlots() == old(allocator.FreeSlots())
        invariant SameButMarks(mem0, allocator.mem) && Mirrors(graph, allocator.mem)
        invariant Roots(graph, allocator.mem) == roots
        invariant Closed(graph, Marked(graph, allocator.mem))
        invariant old(Marked(graph, allocator.mem)) <= Marked(graph, allocator.mem) <= old(Kept())
        invariant forall i :: 0 <= i < k && nodes[i] in roots ==> nodes[i] in Marked(graph, allocator.mem)
      {
        ghost var mem1 := allocator.mem;
        MarkNode(nodes[k]);
        MarksAlike(graph, mem0, mem1);
        MarksAlike(graph, mem1, allocator.mem);
        MarksCompose(mem0, mem1, allocator.mem);
      }
    }

    /** The marking loop of `gcLocked`: afterwards exactly the kept nodes are marked. */
    method MarkAll()
      requires Shape() && WellFormed(graph)
      modifies allocator`mem
      ensures allocator.Valid() && allocator.FreeSlots() == old(allocator.FreeSlots())
      ensures SameButMarks(old(allocator.mem), allocator.mem) && Mirrors(graph, allocator.mem)
      ensures Marked(graph, allocator.mem) == old(Kept())
    {
      hide Pool, Closed, Placed, Marked, Roots, SameButMarks;
      ghost var mem0, roots := allocator.mem, Roots(graph, allocator.mem);
      MarksAlike(graph, mem0, mem0);
      RootsAreNodes(graph, mem0);
      ReachAllIsLeastClosed(graph, roots);
      InAllBuckets(graph, graph.Keys, buckets);
      NothingIsClosed(graph);
      assert Marked(graph, mem0) == {};
      hide ReachAll, WellFormed, Mirrors, UniqueKeys;
      for i := 0 to |buckets|
        invariant allocator.Valid() && allocator.FreeSlots() == old(allocator.FreeSlots())
        invariant SameButMarks(mem0, allocator.mem) && Mirrors(graph, allocator.mem)
        invariant Roots(graph, allocator.mem) == roots
        invariant Closed(graph, Marked(graph, allocator.mem))
        invariant Marked(graph, allocator.mem) <= old(Kept())
        invariant roots * InBuckets(buckets, i) <= Marked(graph, allocator.mem)
      {
        InBucketsStep(buckets, i);
        BucketMembers(graph, graph.Keys, buckets, i);
        ghost var mem1 := allocator.mem;
        MarkNodes(buckets[i]);
        MarksAlike(graph, mem1, allocator.mem);
        MarksCompose(mem0, mem1, allocator.mem);
      }
    }

    /** `Bucket::unmarkNodesUnsafe`. */
    method UnmarkNodes(nodes: seq<Ptr>)
      requires allocator.Valid() && Mirrors(graph, allocator.mem)
      requires forall p :: p in nodes ==> p in graph
      modifies allocator`mem
      ensures allocator.Valid() && allocator.FreeSlots() == old(allocator.FreeSlots())
      ensures SameButMarks(old(allocator.mem), allocator.mem) && Mirrors(graph, allocator.mem)
      ensures forall p :: p in allocator.mem ==> allocator.mem[p].inUse == (old(allocator.mem)[p].inUse && p !in nodes)
    {
      hide Pool;
      for k := 0 to |nodes|
        invariant allocator.Valid() && allocator.FreeSlots() == old(allocator.FreeSlots())
        invariant SameButMarks(old(allocator.mem), allocator.mem) && Mirrors(graph, allocator.mem)
        invariant forall p :: p in allocator.mem ==>
          allocator.mem[p].inUse == (old(allocator.mem)[p].inUse && p !in nodes[..k])
      {
        assert forall p :: p in nodes[..k + 1] <==> p in nodes[..k] || p == nodes[k];
        SetMark(nodes[k], false);
      }
      assert nodes[..|nodes|] == nodes;
    }

    /** The sweeping loop of `gcLocked`. `kept` are the nodes that are not dead. */
    method SweepAll(ghost kept: set<Ptr>) returns (freed: seq<Ptr>, removed: nat)
      requires Mirrors(graph, allocator.mem) && Placed(graph, graph.Keys, buckets) && kept <= graph.Keys
      requires forall p :: p in graph ==> (Dead(allocator.mem[p]) <==> p !in kept)
      modifies this`buckets
      ensures |buckets| == old(|buckets|)
      ensures Restrict(graph, kept).Keys == kept && Placed(Restrict(graph, kept), kept, buckets)
      ensures Distinct(freed) && Elements(freed) == graph.Keys - kept && removed == |freed|
    {
      hide Placed, Select, Dead, Distinct;
      freed, removed := [], 0;
      ghost var before := buckets;
      NothingSwept();
      for i := 0 to |buckets|
        invariant |buckets| == |before|
        invariant forall j :: 0 <= j < i ==>
          BucketIn(graph, before[j]) && buckets[j] == SelectIn(graph, allocator.mem, before[j], false)
        invariant forall j :: i <= j < |before| ==> buckets[j] == before[j]
        invariant Distinct(freed) && Elements(freed) == InBuckets(before, i) - kept && removed == |freed|
      {
        BucketMembers(graph, graph.Keys, before, i);
        SweptBucket(graph, before, allocator.mem, kept, i, freed);
        var nodes, count;
        nodes, freed, count := Sweep(allocator.mem, buckets[i], freed);
        removed := removed + count;
        buckets := buckets[i := nodes];
      }
      InAllBuckets(graph, graph.Keys, before);
      PlacedSweep(graph, before, buckets, allocator.mem, kept);
    }

    /** The unmarking loop of `gcLocked`. */
    method UnmarkAll(ghost g: Graph)
      requires allocator.Valid() && Mirrors(graph, allocator.mem)
      requires g.Keys <= graph.Keys && Placed(g, g.Keys, buckets)
      modifies allocator`mem
      ensures allocator.Valid() && allocator.FreeSlots() == old(allocator.FreeSlots())
      ensures SameButMarks(old(allocator.mem), allocator.mem) && Mirrors(graph, allocator.mem)
      ensures forall p :: p in g ==> !allocator.mem[p].inUse
    {
      hide Pool, Placed;
      InAllBuckets(g, g.Keys, buckets);
      for i := 0 to |buckets|
        invariant allocator.Valid() && allocator.FreeSlots() == old(allocator.FreeSlots())
        invariant SameButMarks(old(allocator.mem), allocator.mem) && Mirrors(graph, allocator.mem)
        invariant forall p :: p in InBuckets(buckets, i) && p in g ==> !allocator.mem[p].inUse
      {
        InBucketsStep(buckets, i);
        BucketMembers(g, g.Keys, buckets, i);
        UnmarkNodes(buckets[i]);
      }
    }

    /** The three loops of `gcLocked`: the table forgets every node that is not kept. */
    method MarkSweepUnmark() returns (freed: seq<Ptr>, removed: nat)
      requires Shape() && WellFormed(graph)
      modifies this`buckets, this`graph, allocator`mem
      ensures allocator.Valid() && allocator.FreeSlots() == old(allocator.FreeSlots())
      ensures SameNodes(old(Kept()), old(allocator.mem), allocator.mem)
      ensures graph == Restrict(old(graph), old(Kept())) && graph.Keys == old(Kept())
      ensures |buckets| == old(|buckets|) && Placed(graph, graph.Keys, buckets)
      ensures Distinct(freed) && Elements(freed) == old(graph).Keys - graph.Keys
      ensures removed == |freed|
    {
      hide Pool, Placed, ReachAll, Closed, UniqueKeys, Select, Dead, Distinct, BucketIndex;
      ghost var kept, g0, mem0 := Kept(), graph, allocator.mem;
      MarkAll();
      ghost var mem1 := allocator.mem;
      DeadAreUnkept(g0, mem0, mem1, kept);
      freed, removed := SweepAll(kept);
      UnmarkAll(Restrict(g0, kept));
      MarksRestored(g0, mem0, mem1, allocator.mem, kept);
      graph := Restrict(g0, kept);
    }

    /**
      `gcLocked`. The table keeps exactly the nodes reachable from referenced
      nodes, nothing about them changes, all marks are clear, every other node
      enters the free list once, and the cache is emptied.
     */
    method GcLocked() returns (removed: nat, ghost reclaimed: seq<Ptr>)
      requires Shape() && WellFormed(graph)
      modifies this`buckets, this`nodeCount, this`graph, allocator, cache.entries
      ensures Sound()
      ensures graph == Restrict(old(graph), old(Kept())) && graph.Keys == old(Kept())
      ensures SameNodes(graph.Keys, old(allocator.mem), allocator.mem)
      ensures Roots(graph, allocator.mem) == old(Roots(graph, allocator.mem))
      ensures Distinct(reclaimed) && Elements(reclaimed) == old(graph).Keys - graph.Keys
      ensures allocator.free == Reversed(reclaimed) + old(allocator.free)
      ensures allocator.FreeSlots() == old(allocator.FreeSlots()) + removed
      ensures removed == |reclaimed| && nodeCount == old(nodeCount) - removed
    {
      hide Pool, Placed, ReachAll, Closed, UniqueKeys, Restrict, Marked, Roots, Mirrors, Distinct, ProperNode,
        EntriesOk, Reversed, WellFormed, SameNodes, SameButMarks;
      ghost var kept, g0, mem0 := Kept(), graph, allocator.mem;
      ReachAllIsLeastClosed(g0, Roots(g0, mem0));
      RestrictKeepsMeaning(g0, kept);
      var freed;
      freed, removed := MarkSweepUnmark();
      reclaimed := freed;
      KeptSize(g0.Keys, kept, freed);
      ghost var mem1 := allocator.mem;
      allocator.FreeAll(freed);
      SameAfterFree(g0.Keys, kept, freed, mem0, mem1, allocator.mem);
      SurvivorsUnchanged(g0, mem0, allocator.mem, kept);
      assert allocator.live == graph.Keys;
      nodeCount := nodeCount - removed;
      cache.InvalidateAll();
      EntriesEmpty(graph, cache.entries[..], intended);
    }

    // ---- Rehashing

    /** `shouldGrowBucketsLocked`, with the load compared in integers. */
    predicate ShouldGrow()
      reads this`tableSize, this`nodeCount
    {
      tableSize != 0 && nodeCount > MAX_LOAD * tableSize
    }

    /** `growBucketsLocked`: every node moves to the bucket its key has in the larger table. */
    method GrowBucketsLocked(newSize: nat)
      requires Tabled()
      modifies this`buckets, this`tableSize, this`moved
      ensures Tabled()
      ensures tableSize == if newSize <= old(tableSize) then old(tableSize) else newSize
      ensures newSize <= old(tableSize) ==> buckets == old(buckets)
      ensures moved == old(moved) + if newSize <= old(tableSize) then 0 else nodeCount
    {
      hide Pool, Placed, BucketIndex, UniqueKeys, Distinct;
      if newSize <= tableSize {
        return;
      }
      var nodes := ExtractAll();
      buckets := [];
      for i := 0 to newSize
        invariant |buckets| == i && forall k :: 0 <= k < i ==> buckets[k] == []
        invariant tableSize == old(tableSize) && moved == old(moved)
      {
        buckets := buckets + [[]];
      }
      tableSize := newSize;
      PlacedNothing(graph, buckets);
      for k := 0 to |nodes|
        invariant |buckets| == tableSize == newSize && moved == old(moved)
        invariant Elements(nodes[..k]) <= graph.Keys && Placed(graph, Elements(nodes[..k]), buckets)
      {
        var node := nodes[k];
        RehashStep(graph, nodes, k, buckets);
        var idx := BucketIndex(CellOf(allocator.mem[node]), tableSize);
        buckets := buckets[idx := buckets[idx] + [node]];
      }
      assert nodes[..|nodes|] == nodes;
      DistinctSize(nodes);
      moved := moved + |nodes|;
    }

    /** The extraction loop of `growBucketsLocked`. */
    method ExtractAll() returns (nodes: seq<Ptr>)
      requires Placed(graph, graph.Keys, buckets)
      modifies this`buckets
      ensures Distinct(nodes) && Elements(nodes) == graph.Keys
    {
      hide Placed, Distinct;
      nodes := [];
      ghost var before := buckets;
      NothingSwept();
      for i := 0 to |buckets|
        invariant |buckets| == |before|
        invariant forall j :: i <= j < |before| ==> buckets[j] == before[j]
        invariant Distinct(nodes) && Elements(nodes) == InBuckets(before, i)
      {
        ExtractStep(graph, before, i, nodes);
        nodes := nodes + buckets[i];
        buckets := buckets[i := []];
      }
      InAllBuckets(graph, graph.Keys, before);
    }

    /** The size to grow to. Where the search divides by zero it may be any number. */
    method NextSize() returns (n: nat)
      requires tableSize > 0
      ensures Searchable() ==> RightSize(2 * tableSize + 1, n)
    {
      hide Accepted;
      assert Searchable() ==> (tableSize * 2 + 1) % UINT_RANGE == tableSize * 2 + 1;
      var defined;
      ghost var tried;
      n, defined, tried := BddPrimeGte((tableSize * 2 + 1) % UINT_RANGE);
      if !defined {
        n :| 0 <= n < UINT_RANGE;
      }
    }

    /**
      Grows when an insertion has pushed the load over its bound, and only then.
      Afterwards there are at most four nodes a bucket while the table can grow.
     */
    method MaybeGrowBuckets()
      requires Tabled()
      requires nodeCount <= inserted
      requires Searchable() ==>
        nodeCount <= 4 * tableSize + 1 && moved <= 4 * tableSize && (moved == 0 || moved < 2 * inserted)
      modifies this`buckets, this`tableSize, this`moved
      ensures Tabled() && InLoad() && Resized(nodeCount, old(tableSize), tableSize)
      ensures Searchable() ==> nodeCount <= 4 * tableSize
      ensures nodeCount <= 4 * old(tableSize) ==> buckets == old(buckets)
    {
      hide Pool, Placed, UniqueKeys, Mirrors;
      if !ShouldGrow() {
        return;
      }
      var newSize := NextSize();
      GrowBucketsLocked(newSize);
    }

    // ---- Maintenance and node creation

    /**
      The slab growth of `performMaintenance`: a slot is free afterwards, and
      nothing else has changed. The slots of a new slab are all that is free.
     */
    method EnsureSlot()
      requires Sound()
      modifies allocator
      ensures Sound() && allocator.FreeSlots() > 0 && SameNodes(graph.Keys, old(allocator.mem), allocator.mem)
      ensures old(allocator.free) != [] ==> allocator.free == old(allocator.free)
      ensures allocator.FreeSlots() ==
        if old(allocator.FreeSlots()) > 0 then old(allocator.FreeSlots())
        else allocator.growthFactor * old(allocator.slabs[allocator.current].capacity)
    {
      hide Pool, Placed, UniqueKeys, Mirrors, Marked, ProperNode, EntriesOk, Distinct, BucketIndex;
      ghost var mem := allocator.mem;
      SameNodesHere(graph, mem);
      var free := allocator.HasFreeSlot();
      if !free {
        NothingLost(allocator.Frontier(), allocator.End());
        allocator.Grow();
        MemoryExtended(graph, mem, allocator.mem);
        SameNodesExtended(graph.Keys, mem, mem, allocator.mem);
      }
    }

    /** The bucket growth of `performMaintenance`. */
    method EnsureBuckets()
      requires Sound()
      modifies this`buckets, this`tableSize, this`moved
      ensures Sound() && (old(InLoad()) ==> InLoad()) && Resized(nodeCount, old(tableSize), tableSize)
      ensures nodeCount <= 4 * old(tableSize) ==> buckets == old(buckets)
    {
      hide Pool, Placed, UniqueKeys, Mirrors, Marked, ProperNode, EntriesOk, BucketIndex, WellFormed;
      if ShouldGrow() {
        var newSize := NextSize();
        GrowBucketsLocked(newSize);
      }
    }

    /**
      `performMaintenance`: a collection, a new slab if that freed nothing, and
      more buckets if there are too few. A reclaimed slot is the next to be used.
     */
    method PerformMaintenance()
      requires Sound()
      modifies this`buckets, this`tableSize, this`moved, this`nodeCount, this`graph, allocator, cache.entries
      ensures Sound()
      ensures (old(InLoad()) ==> InLoad()) && Resized(nodeCount, old(tableSize), tableSize)
      ensures nodeCount <= old(nodeCount)
      ensures graph == Restrict(old(graph), old(Kept())) && graph.Keys == old(Kept())
      ensures SameNodes(graph.Keys, old(allocator.mem), allocator.mem)
      ensures allocator.FreeSlots() > 0
      ensures graph.Keys != old(graph).Keys ==> allocator.free != [] && allocator.free[0] in old(graph)
    {
      hide Pool, Placed, UniqueKeys, Mirrors, Marked, Roots, Restrict, ReachAll, ProperNode, EntriesOk, Distinct,
        BucketIndex, WellFormed, Tabled, Coherent, Reversed;
      ghost var g := graph;
      var removed;
      ghost var reclaimed;
      removed, reclaimed := GcLocked();
      ReversedHead(reclaimed, old(allocator.free));
      NothingLeftOut(graph.Keys, g.Keys);
      EnsureSlot();
      EnsureBuckets();
    }

    /** Some node of the table has this key. */
    ghost predicate Known(c: Cell)
      reads this`graph
    {
      exists p :: p in graph && graph[p] == c
    }

    /** Looks a key up in the bucket it hashes to. */
    method FindKey(level: nat, low: Ptr, high: Ptr) returns (r: Ptr)
      requires Tabled()
      ensures r == NULL <==> !Known(Cell(level, low, high))
      ensures r != NULL ==> r in graph && graph[r] == Cell(level, low, high)
    {
      hide Pool, BucketIndex, UniqueKeys;
      var idx := BucketIndex(Cell(level, low, high), tableSize);
      r := Find(allocator.mem, buckets[idx], level, low, high);
    }

    /** Puts an allocated candidate into the bucket of its key. */
    method InsertCandidate(level: nat, low: Ptr, high: Ptr, candidate: Ptr)
      requires allocator.Valid() && allocator.lost == {} && allocator.live == graph.Keys + {candidate}
      requires candidate !in graph && candidate != NULL
      requires Mirrors(graph, allocator.mem) && tableSize == |buckets| > 0 && Placed(graph, graph.Keys, buckets)
      requires nodeCount == |graph| && UniqueKeys(graph) && NULL !in graph
      requires candidate in allocator.mem && CellOf(allocator.mem[candidate]) == Cell(level, low, high)
      requires !Known(Cell(level, low, high))
      modifies this`buckets, this`nodeCount, this`graph, this`inserted
      ensures Tabled()
      ensures graph == old(graph)[candidate := Cell(level, low, high)]
      ensures nodeCount == old(nodeCount) + 1 && inserted == old(inserted) + 1
    {
      hide Pool, Placed, BucketIndex, Mirrors, UniqueKeys;
      var idx := BucketIndex(Cell(level, low, high), tableSize);
      KeyAbsentFromBucket(graph, allocator.mem, buckets, idx, Cell(level, low, high));
      var node, isNew, nodes := InsertIfAbsent(allocator.mem, buckets[idx], level, low, high, candidate);
      if !isNew {
        // Only another thread could have inserted the key since the first scan.
        assert false;
      }
      PlacedInsert(graph, graph.Keys, buckets, candidate, Cell(level, low, high));
      KeyInserted(graph, allocator.mem, candidate, Cell(level, low, high));
      buckets := buckets[idx := nodes];
      graph := graph[candidate := Cell(level, low, high)];
      nodeCount := nodeCount + 1;
      inserted := inserted + 1;
    }

    /** Allocates a node for an unknown key and inserts it; null when no slot is free. */
    method TryInsert(level: nat, low: Ptr, high: Ptr) returns (r: Ptr)
      requires Sound() && InLoad() && !Known(Cell(level, low, high))
      modifies this`buckets, this`tableSize, this`moved, this`nodeCount, this`graph, this`inserted, allocator
      ensures (r == NULL) == (old(allocator.FreeSlots()) == 0)
      ensures Shape() && InLoad() && (WellFormed(graph) ==> Sound())
      ensures r == NULL ==>
        && graph == old(graph) && allocator.mem == old(allocator.mem)
        && allocator.FreeSlots() == old(allocator.FreeSlots())
        && tableSize == old(tableSize) && buckets == old(buckets)
      ensures r != NULL ==> Resized(nodeCount, old(tableSize), tableSize)
      ensures r != NULL ==>
        && r !in old(graph) && graph == old(graph)[r := Cell(level, low, high)]
        && SameNodes(old(graph).Keys, old(allocator.mem), allocator.mem)
        && r in allocator.mem && allocator.mem[r].refCount == 0
        && allocator.FreeSlots() == old(allocator.FreeSlots()) - 1
        && (old(allocator.free) != [] ==> r == old(allocator.free)[0])
    {
      hide Pool, Placed, BucketIndex, UniqueKeys, Mirrors, Marked, Roots, ReachAll, EntriesOk, Distinct;
      ghost var g, mem := graph, allocator.mem;
      r := allocator.Allocate(level, low, high);
      if r == NULL {
        return;
      }
      CandidateOutside(g, mem, allocator.mem, r);
      InsertCandidate(level, low, high, r);
      MaybeGrowBuckets();
      if WellFormed(graph) {
        EntriesExtend(g, graph, cache.entries[..], intended);
      }
    }

    /**
      One round of `getOrCreateNode`: the node with this key, found or made, or
      null when a node has to be made and no slot is free.
     */
    method FindOrInsert(level: nat, low: Ptr, high: Ptr) returns (r: Ptr)
      requires Sound() && InLoad()
      modifies this`buckets, this`tableSize, this`moved, this`nodeCount, this`graph, this`inserted, allocator
      ensures Shape() && InLoad() && (WellFormed(graph) ==> Sound())
      ensures r == NULL <==> !old(Known(Cell(level, low, high))) && old(allocator.FreeSlots()) == 0
      ensures r == NULL || old(Known(Cell(level, low, high))) ==>
        && graph == old(graph) && allocator.mem == old(allocator.mem)
        && allocator.FreeSlots() == old(allocator.FreeSlots())
        && tableSize == old(tableSize) && buckets == old(buckets)
      ensures r != NULL && !old(Known(Cell(level, low, high))) ==> Resized(nodeCount, old(tableSize), tableSize)
      ensures r != NULL ==> r in graph && graph[r] == Cell(level, low, high) && r in allocator.mem
      ensures r != NULL && !old(Known(Cell(level, low, high))) ==>
        && r !in old(graph) && graph == old(graph)[r := Cell(level, low, high)]
        && SameNodes(old(graph).Keys, old(allocator.mem), allocator.mem) && allocator.mem[r].refCount == 0
        && allocator.FreeSlots() == old(allocator.FreeSlots()) - 1
        && (old(allocator.free) != [] ==> r == old(allocator.free)[0])
    {
      hide Pool, Placed, BucketIndex, UniqueKeys, Mirrors, Marked, Roots, ReachAll, ProperNode, EntriesOk, Distinct;
      r := FindKey(level, low, high);
      if r == NULL {
        r := TryInsert(level, low, high);
      }
      if r != NULL {
        MirrorsAt(graph, allocator.mem, r);
      }
    }

    /**
      `getOrCreateNode`. A known key is returned without any change. An unknown
      key takes a free slot when there is one. Otherwise maintenance runs
      first: the table then holds the nodes it kept and the new one, and is
      well formed exactly when the operands were kept.
     */
    method GetOrCreateNode(level: nat, low: Ptr, high: Ptr) returns (r: Ptr, ghost rounds: nat)
      requires Sound() && InLoad() && ProperKey(graph, Cell(level, low, high))
      modifies this`buckets, this`tableSize, this`moved, this`nodeCount, this`graph, this`inserted, allocator,
        cache.entries
      ensures Shape() && InLoad() && r in graph && graph[r] == Cell(level, low, high) && r in allocator.mem
      ensures Resized(nodeCount, old(tableSize), tableSize)
      ensures old(Known(Cell(level, low, high))) ==>
        && Sound() && graph == old(graph) && allocator.mem == old(allocator.mem)
        && allocator.FreeSlots() == old(allocator.FreeSlots()) && rounds == 1
        && tableSize == old(tableSize) && buckets == old(buckets)
      ensures !old(Known(Cell(level, low, high))) && old(allocator.FreeSlots()) > 0 ==>
        && Sound() && r !in old(graph) && graph == old(graph)[r := Cell(level, low, high)]
        && SameNodes(old(graph).Keys, old(allocator.mem), allocator.mem) && allocator.mem[r].refCount == 0
        && allocator.FreeSlots() == old(allocator.FreeSlots()) - 1 && rounds == 1
      ensures !old(Known(Cell(level, low, high))) && old(allocator.FreeSlots()) == 0 ==>
        && r !in old(Kept()) && graph == Restrict(old(graph), old(Kept()))[r := Cell(level, low, high)]
        && SameNodes(old(Kept()), old(allocator.mem), allocator.mem) && allocator.mem[r].refCount == 0
        && (WellFormed(graph) <==> level >= TERMINAL_LEVEL || (low in old(Kept()) && high in old(Kept())))
        && (WellFormed(graph) ==> Sound()) && rounds == 2
        && (old(graph).Keys != old(Kept()) ==> r in old(graph))
    {
      hide Pool, Placed, BucketIndex, UniqueKeys, Mirrors, Marked, Roots, ReachAll, ProperNode, EntriesOk, Distinct;
      rounds := 1;
      while true
        invariant Sound() && InLoad() && Resized(nodeCount, old(tableSize), tableSize)
        invariant nodeCount <= old(nodeCount)
        invariant rounds == 1 ==>
          && graph == old(graph) && allocator.mem == old(allocator.mem)
          && allocator.FreeSlots() == old(allocator.FreeSlots())
          && tableSize == old(tableSize) && buckets == old(buckets)
        invariant rounds == 2 ==>
          && !old(Known(Cell(level, low, high))) && old(allocator.FreeSlots()) == 0
          && graph == Restrict(old(graph), old(Kept())) && graph.Keys == old(Kept())
          && SameNodes(graph.Keys, old(allocator.mem), allocator.mem)
          && allocator.FreeSlots() > 0
          && (old(graph).Keys != old(Kept()) ==> allocator.free != [] && allocator.free[0] in old(graph))
        invariant 1 <= rounds <= 2
        decreases 2 - rounds
      {
        ghost var g, count, size := graph, nodeCount, tableSize;
        r := FindOrInsert(level, low, high);
        ResizedTwice(count, old(tableSize), size, tableSize);
        if r == NULL {
          PerformMaintenance();
          rounds := rounds + 1;
          continue;
        }
        if rounds == 2 {
          InsertAfterMaintenance(old(graph), old(Roots(graph, allocator.mem)), r, Cell(level, low, high));
        } else if r !in g {
          InsertKeepsWellFormed(g, r, Cell(level, low, high));
        }
        return r, rounds;
      }
    }

    // ---- Operators

    ghost predicate Terminals()
      reads this
    {
      AreTerminals(graph, falseNode, trueNode)
    }

    ghost predicate Valid()
      reads this, allocator, cache, cache.entries
    {
      Sound() && InLoad() && Terminals()
    }

    /** All slots there are: the ones that hold nodes and the free ones. */
    ghost function Slots(): nat
      requires allocator.Valid()
      reads this`graph, allocator
    {
      |graph| + allocator.FreeSlots()
    }

    /** The free slots do not cover the nodes the operation would have to make. */
    ghost predicate Short(op: Op, x: Ptr, y: Ptr)
      requires allocator.Valid() && WellFormed(graph) && x in graph && y in graph
      reads this`graph, allocator
    {
      allocator.FreeSlots() < |Missing(graph, op, x, y)|
    }

    /**
      What an operator promises about the table `g`, `mem` with `slots` slots
      that it started from, run up to a first collection. Nothing that was
      there changes. It returns a node that denotes the operation, having made
      exactly the nodes below it that were missing; or it returns null where
      the code would start a collection, which happens exactly when the free
      slots did not cover the missing nodes.
     */
    ghost predicate Ran(g: Graph, mem: Memory, slots: nat, op: Op, x: Ptr, y: Ptr, r: Ptr)
      requires WellFormed(g) && x in g && y in g
      reads this, allocator, cache, cache.entries
    {
      && Valid() && Grown(g, mem, graph, allocator.mem) && Slots() == slots
      && Outcome(g, graph, allocator.FreeSlots(), op, x, y, r)
      && (r == NULL <==> slots < |g| + |Missing(g, op, x, y)|)
    }

    lemma RanSoFar(g: Graph, mem: Memory, slots: nat, op: Op, x: Ptr, y: Ptr, r: Ptr)
      requires WellFormed(g) && x in g && y in g
      requires Valid() && Grown(g, mem, graph, allocator.mem) && Slots() == slots >= |g|
      requires Outcome(g, graph, allocator.FreeSlots(), op, x, y, r)
      ensures Ran(g, mem, slots, op, x, y, r)
    {
      hide Outcome, Missing, Grown, Pool, Placed, Marked, Mirrors;
      OutcomeCount(g, graph, slots - |g|, allocator.FreeSlots(), op, x, y, r);
    }

    /** An answer that needs no recursion. */
    lemma RanAtOnce(op: Op, x: Ptr, y: Ptr, r: Ptr)
      requires Valid() && WellFormed(graph) && x in graph && y in graph && IsResult(graph, op, x, y, r)
      ensures Ran(graph, allocator.mem, Slots(), op, x, y, r)
    {
      hide Outcome, Missing, Grown, Pool, Placed, Marked, IsResult, Ran;
      OutcomeKnown(graph, allocator.FreeSlots(), op, x, y, r);
      GrownHere(graph, allocator.mem);
      RanSoFar(graph, allocator.mem, Slots(), op, x, y, r);
    }

    /** A shortcut. */
    lemma RanShortcut(op: Op, x: Ptr, y: Ptr, r: Ptr)
      requires Valid() && x in graph && y in graph && Shortcut(op, falseNode, trueNode, x, y, r)
      ensures WellFormed(graph) && Ran(graph, allocator.mem, Slots(), op, x, y, r)
    {
      hide Pool, Placed, UniqueKeys, Mirrors, Marked, EntriesOk, InLoad, IsResult, Ran, Shortcut, WellFormed;
      ShortcutIsResult(graph, falseNode, trueNode, op, x, y, r);
      RanAtOnce(op, x, y, r);
    }

    /** The levels of two operands that no shortcut answers. */
    lemma LevelsOf(x: Ptr, y: Ptr)
      requires Valid() && x in graph && y in graph
      ensures x in allocator.mem && allocator.mem[x].level == graph[x].level
      ensures y in allocator.mem && allocator.mem[y].level == graph[y].level
      ensures x != falseNode && x != trueNode ==> graph[x].level < TERMINAL_LEVEL
      ensures y != falseNode && y != trueNode ==> graph[y].level < TERMINAL_LEVEL
      ensures graph[falseNode].level >= TERMINAL_LEVEL && graph[trueNode].level >= TERMINAL_LEVEL
    {
      Consistent();
      hide Tabled, Coherent, InLoad, Marked, EntriesOk;
      MirrorsAt(graph, allocator.mem, x);
      MirrorsAt(graph, allocator.mem, y);
      TerminalsEval(graph, falseNode, trueNode, x);
      TerminalsEval(graph, falseNode, trueNode, y);
    }

    /** What the caller of an operator may use of its promise. */
    lemma RanHas(g: Graph, mem: Memory, slots: nat, op: Op, x: Ptr, y: Ptr, r: Ptr)
      requires WellFormed(g) && x in g && y in g && Ran(g, mem, slots, op, x, y, r)
      ensures Valid() && WellFormed(graph) && Tabled() && allocator.Valid()
      ensures Grown(g, mem, graph, allocator.mem) && Slots() == slots && Extends(g, graph)
      ensures Outcome(g, graph, allocator.FreeSlots(), op, x, y, r)
      ensures r != NULL ==> x in graph && y in graph && IsResult(graph, op, x, y, r) && r in graph
      ensures slots >= |graph|
    {
      hide Missing, IsResult, Reach, OnlyAnswers, Pool, Placed, Mirrors, Marked, EntriesOk;
      if r != NULL {
        IsResultMember(graph, op, x, y, r);
      }
    }

    lemma RanLow(g0: Graph, mem0: Memory, slots: nat, op: Op, x: Ptr, y: Ptr, m: nat)
      requires WellFormed(g0) && x in g0 && y in g0 && m == Min(g0[x].level, g0[y].level) < TERMINAL_LEVEL
      requires var cx, cy := Cofactor(g0, x, m, false), Cofactor(g0, y, m, false);
        cx in g0 && cy in g0 && Ran(g0, mem0, slots, op, cx, cy, NULL)
      ensures Ran(g0, mem0, slots, op, x, y, NULL)
    {
      hide Ran, Outcome, Missing, Grown, IsResult, Valid;
      RanHas(g0, mem0, slots, op, Cofactor(g0, x, m, false), Cofactor(g0, y, m, false), NULL);
      StopsLow(g0, graph, allocator.FreeSlots(), op, x, y, m);
      SlotsCover(g0, slots);
      RanSoFar(g0, mem0, slots, op, x, y, NULL);
    }

    lemma SlotsCover(g: Graph, slots: nat)
      requires Extends(g, graph) && slots >= |graph|
      ensures slots >= |g|
    {
      assert g.Keys <= graph.Keys;
      SubsetSize(g.Keys, graph.Keys);
      assert |g| == |g.Keys| && |graph| == |graph.Keys|;
    }

    /** Between the recursive calls: the first one, started on `g0`, had the answer `low` and left `g1`. */
    static ghost predicate HalfWay(g0: Graph, mem0: Memory, g1: Graph, mem1: Memory, free1: nat,
                                   op: Op, x: Ptr, y: Ptr, m: nat, low: Ptr)
    {
      && WellFormed(g0) && WellFormed(g1) && x in g0 && y in g0 && low != NULL
      && m == Min(g0[x].level, g0[y].level) < TERMINAL_LEVEL && Grown(g0, mem0, g1, mem1)
      && var cx, cy := Cofactor(g0, x, m, false), Cofactor(g0, y, m, false);
      cx in g0 && cy in g0 && Outcome(g0, g1, free1, op, cx, cy, low)
    }

    /** The operands of a recursive call are nodes below the level that is split. */
    static predicate Descends(g: Graph, x: Ptr, y: Ptr, m: nat, value: bool) {
      && x in g && y in g && m <= g[x].level && m <= g[y].level && m < TERMINAL_LEVEL
      && Cofactor(g, x, m, value) in g && Cofactor(g, y, m, value) in g
      && m < Min(g[Cofactor(g, x, m, value)].level, g[Cofactor(g, y, m, value)].level) <= UINT_MAX
    }

    static lemma Splits(g: Graph, x: Ptr, y: Ptr, m: nat)
      requires WellFormed(g) && x in g && y in g && m == Min(g[x].level, g[y].level) < TERMINAL_LEVEL
      ensures Descends(g, x, y, m, false) && Descends(g, x, y, m, true)
    {
      hide WellFormed, Cofactor;
      CofactorsBelow(g, x, y, m, false);
      CofactorsBelow(g, x, y, m, true);
    }

    /** The first recursive call had an answer; the second one has the same operands as before. */
    lemma LowDone(g0: Graph, mem0: Memory, slots: nat, op: Op, x: Ptr, y: Ptr, m: nat, low: Ptr)
      requires WellFormed(g0) && x in g0 && y in g0 && low != NULL
      requires m == Min(g0[x].level, g0[y].level) < TERMINAL_LEVEL
      requires Cofactor(g0, x, m, false) in g0 && Cofactor(g0, y, m, false) in g0
      requires Ran(g0, mem0, slots, op, Cofactor(g0, x, m, false), Cofactor(g0, y, m, false), low)
      ensures Valid() && WellFormed(graph) && Tabled() && allocator.Valid() && Slots() == slots
      ensures HalfWay(g0, mem0, graph, allocator.mem, allocator.FreeSlots(), op, x, y, m, low)
      ensures Descends(graph, x, y, m, true)
      ensures Cofactor(graph, x, m, true) == Cofactor(g0, x, m, true)
      ensures Cofactor(graph, y, m, true) == Cofactor(g0, y, m, true)
    {
      hide Ran, Outcome, Missing, Grown, IsResult, Valid, Tabled, WellFormed, Descends;
      RanHas(g0, mem0, slots, op, Cofactor(g0, x, m, false), Cofactor(g0, y, m, false), low);
      assert graph[x] == g0[x] && graph[y] == g0[y];
      Splits(graph, x, y, m);
    }

    /** The first recursive call had an answer; the second one, started on `g1`, stopped. */
    lemma RanHigh(g0: Graph, mem0: Memory, g1: Graph, mem1: Memory, free1: nat, slots: nat,
                  op: Op, x: Ptr, y: Ptr, m: nat, low: Ptr)
      requires WellFormed(g0) && WellFormed(g1) && x in g0 && y in g0
      requires HalfWay(g0, mem0, g1, mem1, free1, op, x, y, m, low)
      requires Cofactor(g0, x, m, true) in g1 && Cofactor(g0, y, m, true) in g1
      requires Ran(g1, mem1, slots, op, Cofactor(g0, x, m, true), Cofactor(g0, y, m, true), NULL)
      ensures Ran(g0, mem0, slots, op, x, y, NULL)
    {
      hide Ran, Outcome, Missing, Grown, IsResult, Valid;
      RanHas(g1, mem1, slots, op, Cofactor(g0, x, m, true), Cofactor(g0, y, m, true), NULL);
      StopsHigh(g0, g1, graph, free1, allocator.FreeSlots(), op, x, y, m, low);
      GrownTwice(g0, mem0, g1, mem1, graph, allocator.mem);
      GrownAt(g0, mem0, graph, allocator.mem);
      SlotsCover(g0, slots);
      RanSoFar(g0, mem0, slots, op, x, y, NULL);
    }

    /** Both recursive calls had answers. */
    lemma RanBoth(g0: Graph, mem0: Memory, g1: Graph, mem1: Memory, free1: nat, slots: nat,
                  op: Op, x: Ptr, y: Ptr, m: nat, low: Ptr, high: Ptr)
      requires WellFormed(g0) && WellFormed(g1) && x in g0 && y in g0 && high != NULL
      requires HalfWay(g0, mem0, g1, mem1, free1, op, x, y, m, low)
      requires Cofactor(g0, x, m, true) in g1 && Cofactor(g0, y, m, true) in g1
      requires Ran(g1, mem1, slots, op, Cofactor(g0, x, m, true), Cofactor(g0, y, m, true), high)
      ensures Valid() && WellFormed(graph) && allocator.Valid() && Slots() == slots >= |g0|
      ensures Grown(g0, mem0, graph, allocator.mem) && Parts(g0, graph, op, x, y, m, low, high)
    {
      hide Ran, Outcome, Missing, Grown, IsResult, Valid, Parts;
      RanHas(g1, mem1, slots, op, Cofactor(g0, x, m, true), Cofactor(g0, y, m, true), high);
      BothParts(g0, g1, graph, free1, allocator.FreeSlots(), op, x, y, m, low, high);
      GrownTwice(g0, mem0, g1, mem1, graph, allocator.mem);
      GrownAt(g0, mem0, graph, allocator.mem);
      SlotsCover(g0, slots);
    }

    /** What the operators use of the table's consistency. */
    lemma Consistent()
      requires Valid()
      ensures Tabled() && allocator.Valid() && Mirrors(graph, allocator.mem)
      ensures WellFormed(graph) && AreTerminals(graph, falseNode, trueNode)
      ensures cache.Valid()
    {
    }

    /** `negCof` and `posCof`. Between the shortcuts and here no terminal's null child is followed. */
    method CofactorOf(x: Ptr, id: nat, value: bool) returns (r: Ptr)
      requires Tabled() && WellFormed(graph) && x in graph && id <= graph[x].level && id < TERMINAL_LEVEL
      ensures r == Cofactor(graph, x, id, value) && r in graph && r != NULL
    {
      hide Pool, Placed, UniqueKeys;
      assert ProperNode(graph, x);
      if id < allocator.mem[x].level {
        return x;
      }
      r := if value then allocator.mem[x].high else allocator.mem[x].low;
    }

    /**
      Looks an answer up. A hit is the answer to `op` on `x` and `z`, where `z`
      is `y` unless the operator has one operand.
     */
    method Recall(hash: nat, x: Ptr, y: Ptr, code: nat, ghost op: Op, ghost z: Ptr) returns (r: Ptr)
      requires Valid() && hash < cache.size && x in graph && z in graph
      requires code <= 5 && Meaning(code, intended) == op && if code == 2 then y == NULL else y == z
      modifies cache.entries
      ensures Valid() && cache.Valid() && (r != NULL ==> Ran(graph, allocator.mem, Slots(), op, x, z, r))
      ensures cache.entries[..] == old(cache.entries[..])
      ensures var e := cache.entries[hash];
        r == if e.op == code && ((e.left == x && e.right == y) || (code <= 3 && e.left == y && e.right == x))
             then e.node else NULL
    {
      hide Pool, Placed, UniqueKeys, Mirrors, Marked, Meaning, EntryOk, Ran;
      r := cache.Lookup(hash, x, y, code);
      assert cache.entries[hash] == cache.entries[..][hash];
      if r != NULL {
        HitIsResult(graph, cache.entries[hash], intended, x, y, code);
        OneOperand(graph, op, x, z, code, intended, r);
        RanAtOnce(op, x, z, r);
      }
    }

    /** Stores the answer of a finished operation, or drops it. */
    method Remember(hash: nat, r: Ptr, x: Ptr, y: Ptr, code: nat,
                    ghost g: Graph, ghost mem: Memory, ghost slots: nat, ghost op: Op, ghost z: Ptr)
      requires WellFormed(g) && x in g && z in g && Ran(g, mem, slots, op, x, z, r) && r != NULL
      requires hash < cache.size && code <= 5 && Meaning(code, intended) == op &&
        if code == 2 then y == NULL else y == z
      modifies cache.entries
      ensures Ran(g, mem, slots, op, x, z, r)
      ensures cache.entries[..] == old(cache.entries[..]) ||
        cache.entries[..] == old(cache.entries[..])[hash := Entry(r, x, y, code, 0)]
    {
      hide Pool, Placed, UniqueKeys, Mirrors, Marked, IsResult, EntriesOk, Ran, Outcome, Missing, Grown, Meaning;
      var spurious: bool := *;
      RanHas(g, mem, slots, op, x, z, r);
      OneOperand(graph, op, x, z, code, intended, r);
      EntriesWritten(graph, cache.entries[..], intended, hash, Entry(r, x, y, code, 0));
      cache.Insert(hash, r, x, y, code, spurious);
      SlotsCover(g, slots);
      RanSoFar(g, mem, slots, op, x, z, r);
    }

    /** `combine`: the answer on the operands from the answers on their cofactors, or null for want of a slot. */
    method Combine(level: nat, low: Ptr, high: Ptr,
                   ghost g: Graph, ghost mem: Memory, ghost slots: nat, ghost op: Op, ghost x: Ptr, ghost y: Ptr)
      returns (r: Ptr)
      requires Valid() && WellFormed(g) && WellFormed(graph) && x in g && y in g
      requires Grown(g, mem, graph, allocator.mem) && allocator.Valid() && Slots() == slots >= |g|
      requires Parts(g, graph, op, x, y, level, low, high)
      modifies this`buckets, this`tableSize, this`moved, this`nodeCount, this`graph, this`inserted,
        allocator
      ensures Ran(g, mem, slots, op, x, y, r)
    {
      hide Pool, Placed, BucketIndex, UniqueKeys, Mirrors, Marked, EntriesOk, Distinct, Expanded, ProperNode,
        IsResult, Outcome, OnlyAnswers, Reach, Grown, Ran, Missing;
      ghost var h, mem1 := graph, allocator.mem;
      LevelOfParts(h, op, x, y, level, low, high);
      if low == high {
        CombinesSame(g, h, allocator.FreeSlots(), op, x, y, level, low);
        RanSoFar(g, mem, slots, op, x, y, low);
        return low;
      }
      r := Place(level, low, high);
      GrownTwice(g, mem, h, mem1, graph, allocator.mem);
      if r == NULL {
        CombinesStop(g, h, op, x, y, level, low, high);
      } else if r in h {
        CombinesFound(g, h, allocator.FreeSlots(), op, x, y, level, low, high, r);
      } else {
        CombinesNew(g, h, allocator.FreeSlots(), op, x, y, level, low, high, r);
      }
      RanSoFar(g, mem, slots, op, x, y, r);
    }

    /** One round of `getOrCreateNode` on a key that fits the table. */
    method Place(level: nat, low: Ptr, high: Ptr) returns (r: Ptr)
      requires Valid() && WellFormed(graph) && allocator.Valid() && ProperKey(graph, Cell(level, low, high))
      modifies this`buckets, this`tableSize, this`moved, this`nodeCount, this`graph, this`inserted,
        allocator
      ensures Valid() && allocator.Valid() && Slots() == old(Slots())
      ensures Grown(old(graph), old(allocator.mem), graph, allocator.mem)
      ensures r == NULL <==> !old(Known(Cell(level, low, high))) && old(allocator.FreeSlots()) == 0
      ensures r == NULL ==> allocator.FreeSlots() == 0 && graph == old(graph)
      ensures r != NULL && r in old(graph) ==> graph == old(graph) && graph[r] == Cell(level, low, high)
      ensures r != NULL && r !in old(graph) ==>
        graph == old(graph)[r := Cell(level, low, high)] && !old(Known(Cell(level, low, high)))
    {
      hide Pool, Placed, BucketIndex, UniqueKeys, Mirrors, Marked, EntriesOk, Distinct, ProperNode, Coherent, InLoad;
      ghost var h := graph;
      GrownHere(h, allocator.mem);
      r := FindOrInsert(level, low, high);
      if r != NULL && r !in h {
        InsertKeepsWellFormed(h, r, Cell(level, low, high));
        assert |graph| == |h| + 1;
      }
    }

    /** The end of every operator: both recursive calls are done, and the second one may have stopped. */
    method Finish(m: nat, low: Ptr, high: Ptr, hash: nat, x: Ptr, y: Ptr, code: nat,
                  ghost g0: Graph, ghost mem0: Memory, ghost g1: Graph, ghost mem1: Memory, ghost free1: nat,
                  ghost slots: nat, ghost op: Op, ghost z: Ptr)
      returns (r: Ptr)
      requires WellFormed(g0) && WellFormed(g1) && x in g0 && z in g0
      requires HalfWay(g0, mem0, g1, mem1, free1, op, x, z, m, low)
      requires Cofactor(g0, x, m, true) in g1 && Cofactor(g0, z, m, true) in g1
      requires Ran(g1, mem1, slots, op, Cofactor(g0, x, m, true), Cofactor(g0, z, m, true), high)
      requires cache.Valid() && hash < cache.size && code <= 5 && Meaning(code, intended) == op
      requires if code == 2 then y == NULL else y == z
      modifies this`buckets, this`tableSize, this`moved, this`nodeCount, this`graph, this`inserted,
        allocator, cache.entries
      ensures Ran(g0, mem0, slots, op, x, z, r)
    {
      hide Ran, Outcome, Missing, Grown, IsResult, Valid, Parts, Meaning, WellFormed, HalfWay, Cofactor;
      if high == NULL {
        RanHigh(g0, mem0, g1, mem1, free1, slots, op, x, z, m, low);
        return NULL;
      }
      RanBoth(g0, mem0, g1, mem1, free1, slots, op, x, z, m, low, high);
      r := Combine(m, low, high, g0, mem0, slots, op, x, z);
      if r != NULL {
        Remember(hash, r, x, y, code, g0, mem0, slots, op, z);
      }
    }

    /** `bddAnd`. */
    method BddAnd(x: Ptr, y: Ptr) returns (r: Ptr)
      requires Valid() && x in graph && y in graph
      modifies this`buckets, this`tableSize, this`moved, this`nodeCount, this`graph, this`inserted,
        allocator, cache.entries
      ensures Ran(old(graph), old(allocator.mem), old(Slots()), And, x, y, r)
      decreases UINT_MAX - Min(graph[x].level, graph[y].level)
    {
      hide Pool, Placed, BucketIndex, UniqueKeys, Mirrors, Marked, Roots, ReachAll, EntriesOk, Distinct, Expanded,
        Closed, ProperNode, IsResult, HashO3, HashUOO3, Grown, Tabled, Coherent, InLoad, Outcome, Missing, Ran, Reach,
        Parts, Meaning, Valid, WellFormed, Slots, AreTerminals, Cofactor, HalfWay;
      Consistent();
      ghost var g0, mem0, slots := graph, allocator.mem, Slots();
      if x == y {
        RanShortcut(And, x, y, x);
        return x;
      }
      if x == falseNode || y == falseNode {
        RanShortcut(And, x, y, falseNode);
        return falseNode;
      }
      if x == trueNode {
        RanShortcut(And, x, y, y);
        return y;
      }
      if y == trueNode {
        RanShortcut(And, x, y, x);
        return x;
      }
      LevelsOf(x, y);
      var m := Min(allocator.mem[x].level, allocator.mem[y].level);
      var hashVal := HashUOO3(x, y, Code(And)) % cache.size;
      CodeStandsFor(And, intended);
      var cached := Recall(hashVal, x, y, Code(And), And, y);
      if cached != NULL {
        return cached;
      }
      Splits(g0, x, y, m);
      var xLow := CofactorOf(x, m, false);
      var yLow := CofactorOf(y, m, false);
      var fLow := BddAnd(xLow, yLow);
      if fLow == NULL {
        RanLow(g0, mem0, slots, And, x, y, m);
        return NULL;
      }
      LowDone(g0, mem0, slots, And, x, y, m, fLow);
      ghost var g1, mem1, free1 := graph, allocator.mem, allocator.FreeSlots();
      var xHigh := CofactorOf(x, m, true);
      var yHigh := CofactorOf(y, m, true);
      var fHigh := BddAnd(xHigh, yHigh);
      r := Finish(m, fLow, fHigh, hashVal, x, y, Code(And), g0, mem0, g1, mem1, free1, slots, And, y);
    }

    /** `bddOr`. */
    method BddOr(x: Ptr, y: Ptr) returns (r: Ptr)
      requires Valid() && x in graph && y in graph
      modifies this`buckets, this`tableSize, this`moved, this`nodeCount, this`graph, this`inserted,
        allocator, cache.entries
      ensures Ran(old(graph), old(allocator.mem), old(Slots()), Or, x, y, r)
      decreases UINT_MAX - Min(graph[x].level, graph[y].level)
    {
      hide Pool, Placed, BucketIndex, UniqueKeys, Mirrors, Marked, Roots, ReachAll, EntriesOk, Distinct, Expanded,
        Closed, ProperNode, IsResult, HashO3, HashUOO3, Grown, Tabled, Coherent, InLoad, Outcome, Missing, Ran, Reach,
        Parts, Meaning, Valid, WellFormed, Slots, AreTerminals, Cofactor, HalfWay;
      Consistent();
      ghost var g0, mem0, slots := graph, allocator.mem, Slots();
      if x == y {
        RanShortcut(Or, x, y, x);
        return x;
      }
      if x == trueNode || y == trueNode {
        RanShortcut(Or, x, y, trueNode);
        return trueNode;
      }
      if x == falseNode {
        RanShortcut(Or, x, y, y);
        return y;
      }
      if y == falseNode {
        RanShortcut(Or, x, y, x);
        return x;
      }
      LevelsOf(x, y);
      var m := Min(allocator.mem[x].level, allocator.mem[y].level);
      var hashVal := HashUOO3(x, y, Code(Or)) % cache.size;
      CodeStandsFor(Or, intended);
      var cached := Recall(hashVal, x, y, Code(Or), Or, y);
      if cached != NULL {
        return cached;
      }
      Splits(g0, x, y, m);
      var xLow := CofactorOf(x, m, false);
      var yLow := CofactorOf(y, m, false);
      var fLow := BddOr(xLow, yLow);
      if fLow == NULL {
        RanLow(g0, mem0, slots, Or, x, y, m);
        return NULL;
      }
      LowDone(g0, mem0, slots, Or, x, y, m, fLow);
      ghost var g1, mem1, free1 := graph, allocator.mem, allocator.FreeSlots();
      var xHigh := CofactorOf(x, m, true);
      var yHigh := CofactorOf(y, m, true);
      var fHigh := BddOr(xHigh, yHigh);
      r := Finish(m, fLow, fHigh, hashVal, x, y, Code(Or), g0, mem0, g1, mem1, free1, slots, Or, y);
    }

    /** `bddNot`. The second operand is the false node; it is there for the proof only. */
    method BddNot(x: Ptr, ghost y: Ptr) returns (r: Ptr)
      requires Valid() && x in graph && y in graph && y == falseNode
      modifies this`buckets, this`tableSize, this`moved, this`nodeCount, this`graph, this`inserted,
        allocator, cache.entries
      ensures Ran(old(graph), old(allocator.mem), old(Slots()), Not, x, y, r)
      decreases UINT_MAX - Min(graph[x].level, graph[y].level)
    {
      hide Pool, Placed, BucketIndex, UniqueKeys, Mirrors, Marked, Roots, ReachAll, EntriesOk, Distinct, Expanded,
        Closed, ProperNode, IsResult, HashO3, HashUOO3, Grown, Tabled, Coherent, InLoad, Outcome, Missing, Ran, Reach,
        Parts, Meaning, Valid, WellFormed, Slots, AreTerminals, HalfWay;
      Consistent();
      ghost var g0, mem0, slots := graph, allocator.mem, Slots();
      if x == trueNode {
        RanShortcut(Not, x, y, falseNode);
        return falseNode;
      }
      if x == falseNode {
        RanShortcut(Not, x, y, trueNode);
        return trueNode;
      }
      LevelsOf(x, y);
      var m := allocator.mem[x].level;
      var hashVal := HashUOO3(x, NULL, Code(Not)) % cache.size;
      CodeStandsFor(Not, intended);
      var cached := Recall(hashVal, x, NULL, Code(Not), Not, y);
      if cached != NULL {
        return cached;
      }
      Splits(g0, x, y, m);
      var xLow := CofactorOf(x, m, false);
      var fLow := BddNot(xLow, y);
      if fLow == NULL {
        RanLow(g0, mem0, slots, Not, x, y, m);
        return NULL;
      }
      LowDone(g0, mem0, slots, Not, x, y, m, fLow);
      ghost var g1, mem1, free1 := graph, allocator.mem, allocator.FreeSlots();
      var xHigh := CofactorOf(x, m, true);
      var fHigh := BddNot(xHigh, y);
      r := Finish(m, fLow, fHigh, hashVal, x, NULL, Code(Not), g0, mem0, g1, mem1, free1, slots, Not, y);
    }

    /** `bddXor`. */
    method BddXor(x: Ptr, y: Ptr) returns (r: Ptr)
      requires Valid() && x in graph && y in graph
      modifies this`buckets, this`tableSize, this`moved, this`nodeCount, this`graph, this`inserted,
        allocator, cache.entries
      ensures Ran(old(graph), old(allocator.mem), old(Slots()), Xor, x, y, r)
      decreases UINT_MAX - Min(graph[x].level, graph[y].level)
    {
      hide Pool, Placed, BucketIndex, UniqueKeys, Mirrors, Marked, Roots, ReachAll, EntriesOk, Distinct, Expanded,
        Closed, ProperNode, IsResult, HashO3, HashUOO3, Grown, Tabled, Coherent, InLoad, Outcome, Missing, Ran, Reach,
        Parts, Meaning, Valid, WellFormed, Slots, AreTerminals, Cofactor, HalfWay;
      Consistent();
      ghost var g0, mem0, slots := graph, allocator.mem, Slots();
      if x == y {
        RanShortcut(Xor, x, y, falseNode);
        return falseNode;
      }
      if x == falseNode {
        RanShortcut(Xor, x, y, y);
        return y;
      }
      if y == falseNode {
        RanShortcut(Xor, x, y, x);
        return x;
      }
      LevelsOf(x, y);
      var m := Min(allocator.mem[x].level, allocator.mem[y].level);
      var hashVal := HashUOO3(x, y, Code(Xor)) % cache.size;
      CodeStandsFor(Xor, intended);
      var cached := Recall(hashVal, x, y, Code(Xor), Xor, y);
      if cached != NULL {
        return cached;
      }
      Splits(g0, x, y, m);
      var xLow := CofactorOf(x, m, false);
      var yLow := CofactorOf(y, m, false);
      var fLow := BddXor(xLow, yLow);
      if fLow == NULL {
        RanLow(g0, mem0, slots, Xor, x, y, m);
        return NULL;
      }
      LowDone(g0, mem0, slots, Xor, x, y, m, fLow);
      ghost var g1, mem1, free1 := graph, allocator.mem, allocator.FreeSlots();
      var xHigh := CofactorOf(x, m, true);
      var yHigh := CofactorOf(y, m, true);
      var fHigh := BddXor(xHigh, yHigh);
      r := Finish(m, fLow, fHigh, hashVal, x, y, Code(Xor), g0, mem0, g1, mem1, free1, slots, Xor, y);
    }

    /** `bddDiff`. */
    method BddDiff(x: Ptr, y: Ptr) returns (r: Ptr)
      requires Valid() && x in graph && y in graph
      modifies this`buckets, this`tableSize, this`moved, this`nodeCount, this`graph, this`inserted,
        allocator, cache.entries
      ensures Ran(old(graph), old(allocator.mem), old(Slots()), Diff, x, y, r)
      decreases UINT_MAX - Min(graph[x].level, graph[y].level)
    {
      hide Pool, Placed, BucketIndex, UniqueKeys, Mirrors, Marked, Roots, ReachAll, EntriesOk, Distinct, Expanded,
        Closed, ProperNode, IsResult, HashO3, HashUOO3, Grown, Tabled, Coherent, InLoad, Outcome, Missing, Ran, Reach,
        Parts, Meaning, Valid, WellFormed, Slots, AreTerminals, Cofactor, HalfWay;
      Consistent();
      ghost var g0, mem0, slots := graph, allocator.mem, Slots();
      if x == y || x == falseNode || y == trueNode {
        RanShortcut(Diff, x, y, falseNode);
        return falseNode;
      }
      if y == falseNode {
        RanShortcut(Diff, x, y, x);
        return x;
      }
      LevelsOf(x, y);
      var m := Min(allocator.mem[x].level, allocator.mem[y].level);
      var hashVal := HashO3(x, y, Code(Diff)) % cache.size;
      CodeStandsFor(Diff, intended);
      var cached := Recall(hashVal, x, y, Code(Diff), Diff, y);
      if cached != NULL {
        return cached;
      }
      Splits(g0, x, y, m);
      var xLow := CofactorOf(x, m, false);
      var yLow := CofactorOf(y, m, false);
      var fLow := BddDiff(xLow, yLow);
      if fLow == NULL {
        RanLow(g0, mem0, slots, Diff, x, y, m);
        return NULL;
      }
      LowDone(g0, mem0, slots, Diff, x, y, m, fLow);
      ghost var g1, mem1, free1 := graph, allocator.mem, allocator.FreeSlots();
      var xHigh := CofactorOf(x, m, true);
      var yHigh := CofactorOf(y, m, true);
      var fHigh := BddDiff(xHigh, yHigh);
      r := Finish(m, fLow, fHigh, hashVal, x, y, Code(Diff), g0, mem0, g1, mem1, free1, slots, Diff, y);
    }

    /** `bddImp` with the recursion on implication it is meant to have. */
    method BddImpIntended(x: Ptr, y: Ptr) returns (r: Ptr)
      requires Valid() && x in graph && y in graph && intended
      modifies this`buckets, this`tableSize, this`moved, this`nodeCount, this`graph, this`inserted,
        allocator, cache.entries
      ensures Ran(old(graph), old(allocator.mem), old(Slots()), Imp, x, y, r)
      decreases UINT_MAX - Min(graph[x].level, graph[y].level)
    {
      hide Pool, Placed, BucketIndex, UniqueKeys, Mirrors, Marked, Roots, ReachAll, EntriesOk, Distinct, Expanded,
        Closed, ProperNode, IsResult, HashO3, HashUOO3, Grown, Tabled, Coherent, InLoad, Outcome, Missing, Ran, Reach,
        Parts, Meaning, Valid, WellFormed, Slots, AreTerminals, Cofactor, HalfWay;
      Consistent();
      ghost var g0, mem0, slots := graph, allocator.mem, Slots();
      if x == falseNode || y == trueNode {
        RanShortcut(Imp, x, y, trueNode);
        return trueNode;
      }
      if x == trueNode {
        RanShortcut(Imp, x, y, y);
        return y;
      }
      LevelsOf(x, y);
      var m := Min(allocator.mem[x].level, allocator.mem[y].level);
      var hashVal := HashO3(x, y, Code(Imp)) % cache.size;
      CodeStandsFor(Imp, intended);
      var cached := Recall(hashVal, x, y, Code(Imp), Imp, y);
      if cached != NULL {
        return cached;
      }
      Splits(g0, x, y, m);
      var xLow := CofactorOf(x, m, false);
      var yLow := CofactorOf(y, m, false);
      var fLow := BddImpIntended(xLow, yLow);
      if fLow == NULL {
        RanLow(g0, mem0, slots, Imp, x, y, m);
        return NULL;
      }
      LowDone(g0, mem0, slots, Imp, x, y, m, fLow);
      ghost var g1, mem1, free1 := graph, allocator.mem, allocator.FreeSlots();
      var xHigh := CofactorOf(x, m, true);
      var yHigh := CofactorOf(y, m, true);
      var fHigh := BddImpIntended(xHigh, yHigh);
      r := Finish(m, fLow, fHigh, hashVal, x, y, Code(Imp), g0, mem0, g1, mem1, free1, slots, Imp, y);
    }

    /**
      `bddImp` as it is written: outside the shortcuts its two recursive calls
      are to `bddDiff`, and so is what it stores under its own code. So it does
      what the difference does, and stops where that would.
     */
    method BddImp(x: Ptr, y: Ptr) returns (r: Ptr)
      requires Valid() && x in graph && y in graph && !intended
      modifies this`buckets, this`tableSize, this`moved, this`nodeCount, this`graph, this`inserted,
        allocator, cache.entries
      ensures x == falseNode || y == trueNode || x == trueNode ==>
        && Valid() && graph == old(graph) && allocator.mem == old(allocator.mem) && Slots() == old(Slots())
        && r == if x == falseNode || y == trueNode then trueNode else y
      ensures !(x == falseNode || y == trueNode || x == trueNode) ==>
        Ran(old(graph), old(allocator.mem), old(Slots()), Diff, x, y, r)
    {
      hide Pool, Placed, BucketIndex, UniqueKeys, Mirrors, Marked, Roots, ReachAll, EntriesOk, Distinct, Expanded,
        Closed, ProperNode, IsResult, HashO3, HashUOO3, Grown, Tabled, Coherent, InLoad, Outcome, Missing, Ran, Reach,
        Parts, Meaning, Valid, WellFormed, Slots, AreTerminals, Cofactor, HalfWay;
      Consistent();
      ghost var g0, mem0, slots := graph, allocator.mem, Slots();
      if x == falseNode || y == trueNode {
        return trueNode;
      }
      if x == trueNode {
        return y;
      }
      LevelsOf(x, y);
      var m := Min(allocator.mem[x].level, allocator.mem[y].level);
      var hashVal := HashO3(x, y, Code(Imp)) % cache.size;
      ImpStandsForDiff();
      var cached := Recall(hashVal, x, y, Code(Imp), Diff, y);
      if cached != NULL {
        return cached;
      }
      Splits(g0, x, y, m);
      var xLow := CofactorOf(x, m, false);
      var yLow := CofactorOf(y, m, false);
      var fLow := BddDiff(xLow, yLow);
      if fLow == NULL {
        RanLow(g0, mem0, slots, Diff, x, y, m);
        return NULL;
      }
      LowDone(g0, mem0, slots, Diff, x, y, m, fLow);
      ghost var g1, mem1, free1 := graph, allocator.mem, allocator.FreeSlots();
      var xHigh := CofactorOf(x, m, true);
      var yHigh := CofactorOf(y, m, true);
      var fHigh := BddDiff(xHigh, yHigh);
      r := Finish(m, fLow, fHigh, hashVal, x, y, Code(Imp), g0, mem0, g1, mem1, free1, slots, Diff, y);
    }

    /**
      Where an operator as written stops: `bddImp` needs slots only where it has
      no shortcut, and as the difference does.
     */
    ghost predicate Starved(op: Op, x: Ptr, y: Ptr)
      requires allocator.Valid() && WellFormed(graph) && x in graph && y in graph
      reads this, allocator
    {
      if op == Imp then !(x == falseNode || y == trueNode || x == trueNode) && Short(Diff, x, y)
      else Short(op, x, y)
    }

    /** A free slot for every pair of operand nodes is always enough. */
    lemma RoomIsEnough(op: Op, x: Ptr, y: Ptr)
      requires Valid() && WellFormed(graph) && x in graph && y in graph
      requires |Reach(graph, x)| * |Reach(graph, y)| <= allocator.FreeSlots()
      ensures !Short(op, x, y)
    {
      hide Missing, Answers, Reach, Pool;
      AnswersBound(graph, op, x, y);
    }

    // ---- An operator through a collection

    /** The operators by name. */
    method Operate(op: Op, x: Ptr, y: Ptr) returns (r: Ptr)
      requires Valid() && x in graph && y in graph && (op == Not ==> y == falseNode) && (op == Imp ==> intended)
      modifies this`buckets, this`tableSize, this`moved, this`nodeCount, this`graph, this`inserted,
        allocator, cache.entries
      ensures Ran(old(graph), old(allocator.mem), old(Slots()), op, x, y, r)
    {
      hide Valid, Ran, WellFormed, Slots;
      match op {
        case And => r := BddAnd(x, y);
        case Or => r := BddOr(x, y);
        case Not => r := BddNot(x, y);
        case Xor => r := BddXor(x, y);
        case Diff => r := BddDiff(x, y);
        case Imp => r := BddImpIntended(x, y);
      }
    }

    /**
      The slots cover all that is missing but one node. The parts of the answer
      differ, so what is left is the answer's own node, which is made last.
     */
    ghost predicate OneShort(op: Op, x: Ptr, y: Ptr)
      requires allocator.Valid() && WellFormed(graph) && x in graph && y in graph
      reads this`graph, allocator
    {
      && Parting(graph, op, x, y, Min(graph[x].level, graph[y].level))
      && allocator.FreeSlots() + 1 == |Missing(graph, op, x, y)|
    }

    /** Nodes that references reach denote both parts. */
    ghost predicate PartsKept(op: Op, x: Ptr, y: Ptr)
      requires WellFormed(graph) && Mirrors(graph, allocator.mem) && x in graph && y in graph
      reads this`graph, allocator
    {
      ReachAllIsLeastClosed(graph, Roots(graph, allocator.mem));
      PartsIn(graph, op, x, y, Kept())
    }

    /** A recursive call has slots enough, and leaves the operation one short. */
    lemma PartIsCovered(g0: Graph, mem0: Memory, slots: nat, op: Op, x: Ptr, y: Ptr, m: nat, value: bool, r: Ptr)
      requires WellFormed(g0) && x in g0 && y in g0 && Parting(g0, op, x, y, m)
      requires slots + 1 == |g0| + |Missing(g0, op, x, y)| && slots >= |g0|
      requires Cofactor(g0, x, m, value) in g0 && Cofactor(g0, y, m, value) in g0
      requires Ran(g0, mem0, slots, op, Cofactor(g0, x, m, value), Cofactor(g0, y, m, value), r)
      ensures r != NULL && WellFormed(graph) && x in graph && y in graph && Parting(graph, op, x, y, m)
      ensures slots + 1 == |graph| + |Missing(graph, op, x, y)|
    {
      RanHas(g0, mem0, slots, op, Cofactor(g0, x, m, value), Cofactor(g0, y, m, value), r);
      hide Valid, Grown, Missing, IsResult, Reach, WellFormed, Parting, OnlyAnswers;
      PartMissesLess(g0, op, x, y, m, value);
      PartMade(g0, graph, op, x, y, m, value);
    }

    /**
      Both recursive calls are done, on a table that started as `g` and `mem`
      and has no slot left: only the answer's own node is to be made.
     */
    ghost predicate Poised(g: Graph, mem: Memory, op: Op, x: Ptr, y: Ptr, m: nat, low: Ptr, high: Ptr)
      reads this, allocator, cache, cache.entries
    {
      && WellFormed(g) && Mirrors(g, mem) && x in g && y in g && Parting(g, op, x, y, m)
      && WellFormed(graph) && allocator.Valid() && Mirrors(graph, allocator.mem) && allocator.FreeSlots() == 0
      && x in graph && y in graph && low in graph && high in graph && low != high
      && Expanded(graph, op, x, y, m, low, high) && ProperKey(graph, Cell(m, low, high)) && !Known(Cell(m, low, high))
      && Den(graph, low) == PartAnswer(g, op, x, y, false) && Den(graph, high) == PartAnswer(g, op, x, y, true)
      && Grown(g, mem, graph, allocator.mem) && Valid()
    }

    lemma BothCovered(g0: Graph, mem0: Memory, g1: Graph, mem1: Memory, free1: nat, slots: nat,
                      op: Op, x: Ptr, y: Ptr, m: nat, low: Ptr, high: Ptr)
      requires WellFormed(g0) && WellFormed(g1) && Mirrors(g0, mem0) && x in g0 && y in g0 && x in g1 && y in g1
      requires Parting(g0, op, x, y, m) && Parting(g1, op, x, y, m) && slots >= |g1|
      requires slots + 1 == |g1| + |Missing(g1, op, x, y)|
      requires HalfWay(g0, mem0, g1, mem1, free1, op, x, y, m, low)
      requires Cofactor(g0, x, m, true) in g1 && Cofactor(g0, y, m, true) in g1
      requires Cofactor(g0, x, m, true) == Cofactor(g1, x, m, true)
      requires Cofactor(g0, y, m, true) == Cofactor(g1, y, m, true)
      requires Ran(g1, mem1, slots, op, Cofactor(g0, x, m, true), Cofactor(g0, y, m, true), high)
      ensures Poised(g0, mem0, op, x, y, m, low, high) && Slots() == slots
    {
      hide Pool, Placed, BucketIndex, UniqueKeys, Mirrors, Marked, IsResult, Grown, Tabled, Missing, Ran, Parting,
        Cofactor, Parts, HalfWay, Valid, WellFormed, Den, PartAnswer, Expanded, ProperKey;
      PartIsCovered(g1, mem1, slots, op, x, y, m, true, high);
      RanBoth(g0, mem0, g1, mem1, free1, slots, op, x, y, m, low, high);
      OnlyRootLeft(g0, graph, op, x, y, m, low, high);
      Consistent();
    }

    /** Both recursive calls of an operator that is one slot short. */
    method PartsOneShort(op: Op, x: Ptr, y: Ptr) returns (m: nat, low: Ptr, high: Ptr)
      requires WellFormed(graph) && allocator.Valid() && x in graph && y in graph && OneShort(op, x, y) && Valid()
      requires (op == Not ==> y == falseNode) && (op == Imp ==> intended)
      modifies this`buckets, this`tableSize, this`moved, this`nodeCount, this`graph, this`inserted,
        allocator, cache.entries
      ensures Poised(old(graph), old(allocator.mem), op, x, y, m, low, high) && Slots() == old(Slots())
    {
      hide Pool, Placed, BucketIndex, UniqueKeys, Mirrors, Marked, Roots, ReachAll, EntriesOk, Distinct, Expanded,
        Closed, ProperNode, IsResult, Grown, Tabled, Coherent, InLoad, Outcome, Missing, Ran, Reach, Parts, Parting,
        Valid, WellFormed, AreTerminals, HalfWay, Cofactor, Poised, Slots;
      Consistent();
      ghost var g0, mem0, slots := graph, allocator.mem, Slots();
      SlotsNow();
      PartingAt(g0, op, x, y, Min(g0[x].level, g0[y].level));
      LevelsOf(x, y);
      m := Min(allocator.mem[x].level, allocator.mem[y].level);
      Splits(g0, x, y, m);
      if m < graph[y].level { StaysWhole(g0, y, m); }
      var xLow := CofactorOf(x, m, false);
      var yLow := CofactorOf(y, m, false);
      low := Operate(op, xLow, yLow);
      PartIsCovered(g0, mem0, slots, op, x, y, m, false, low);
      LowDone(g0, mem0, slots, op, x, y, m, low);
      ghost var g1, mem1, free1 := graph, allocator.mem, allocator.FreeSlots();
      SlotsNow();
      var xHigh := CofactorOf(x, m, true);
      var yHigh := CofactorOf(y, m, true);
      high := Operate(op, xHigh, yHigh);
      BothCovered(g0, mem0, g1, mem1, free1, slots, op, x, y, m, low, high);
    }

    lemma SlotsNow()
      requires allocator.Valid()
      ensures Slots() == |graph| + allocator.FreeSlots()
    {
    }

    /** Of the table `g` exactly the nodes `kept` are left, untouched, and the unreferenced node `r` has been added. */
    ghost predicate Collected(g: Graph, mem: Memory, kept: set<Ptr>, r: Ptr)
      reads this`graph, allocator
    {
      && r in graph && r !in kept && graph == Restrict(g, kept)[r := graph[r]]
      && r in allocator.mem && allocator.mem[r].refCount == 0 && SameNodes(kept, mem, allocator.mem)
    }

    /** The answer's own node, made after a collection that keeps `kept`. */
    method MakeRoot(ghost g: Graph, ghost mem: Memory, ghost kept: set<Ptr>, ghost op: Op, ghost x: Ptr, ghost y: Ptr,
                    m: nat, low: Ptr, high: Ptr)
      returns (r: Ptr)
      requires WellFormed(g) && Mirrors(g, mem) && {x, y, falseNode, trueNode} <= kept
      requires kept <= g.Keys && kept == ReachAll(g, Roots(g, mem))
      requires Poised(g, mem, op, x, y, m, low, high)
      modifies this`buckets, this`tableSize, this`moved, this`nodeCount, this`graph, this`inserted,
        allocator, cache.entries
      ensures Collected(g, mem, kept, r) && Shape() && InLoad()
      ensures WellFormed(graph) <==> PartsIn(g, op, x, y, kept)
      ensures WellFormed(graph) ==> x in graph && y in graph && IsResult(graph, op, x, y, r) && Sound() && Terminals()
      ensures old(graph).Keys != kept ==> r in old(graph)
    {
      hide Pool, Placed, BucketIndex, UniqueKeys, Mirrors, Marked, Roots, ReachAll, EntriesOk, Expanded, Closed,
        ProperNode, ProperKey, IsResult, Grown, Tabled, Parting, PartsIn, Restrict, Den, PartAnswer, Coherent,
        AreTerminals;
      ghost var h, mem1 := graph, allocator.mem;
      PartingAt(g, op, x, y, m);
      KeptGrown(g, mem, h, mem1);
      GrownAt(g, mem, h, mem1);
      PartsOfKept(g, h, Roots(g, mem), op, x, y, m, low, high);
      ghost var rounds;
      r, rounds := GetOrCreateNode(m, low, high);
      KeptHere(g, h, kept, graph, r, x, y, falseNode, trueNode);
      SameThrough(g, mem, h, mem1, kept, allocator.mem);
      if WellFormed(graph) {
        RootInPlace(g, h, kept, op, x, y, m, low, high, r);
      }
    }

    /** Without a slot from the start, the recursive calls made nothing. */
    lemma NothingMade(g: Graph, mem: Memory, op: Op, x: Ptr, y: Ptr, m: nat, low: Ptr, high: Ptr)
      requires Poised(g, mem, op, x, y, m, low, high)
      ensures allocator.Valid() && (Slots() == |g| ==> graph == g)
    {
      hide Valid, Grown, Mirrors, WellFormed, Expanded, ProperKey, Parting, Den, PartAnswer, Extends;
      GrownAt(g, mem, graph, allocator.mem);
      if Slots() == |g| { NothingAdded(g, graph); }
    }

    /** Stores the answer of an operation that went through a collection. */
    method StoreAnswer(hash: nat, r: Ptr, x: Ptr, y: Ptr, code: nat, ghost op: Op, ghost z: Ptr)
      requires Shape() && InLoad() && hash < cache.size
      requires code <= 5 && Meaning(code, intended) == op && if code == 2 then y == NULL else y == z
      requires WellFormed(graph) ==> Sound() && Terminals() && x in graph && z in graph && IsResult(graph, op, x, z, r)
      modifies cache.entries
      ensures WellFormed(graph) ==> Valid()
    {
      hide Pool, Placed, UniqueKeys, Mirrors, Marked, IsResult, EntriesOk, Meaning, Tabled, WellFormed;
      var spurious: bool := *;
      if WellFormed(graph) {
        IsResultMember(graph, op, x, z, r);
        OneOperand(graph, op, x, z, code, intended, r);
        EntriesWritten(graph, cache.entries[..], intended, hash, Entry(r, x, y, code, 0));
      }
      cache.Insert(hash, r, x, y, code, spurious);
    }

    /** The lookup of an operator whose answer is not in the table: no entry has it. */
    method LookInVain(op: Op, x: Ptr, y: Ptr) returns (hashVal: nat, z: Ptr)
      requires Valid() && WellFormed(graph) && x in graph && y in graph && Missing(graph, op, x, y) != {}
      requires op == Imp ==> intended
      modifies cache.entries
      ensures Valid() && cache.Valid() && hashVal < cache.size && z == if op == Not then NULL else y
    {
      hide Pool, Placed, UniqueKeys, Mirrors, Marked, Tabled, EntriesOk, IsResult, HashO3, HashUOO3, Missing, Ran,
        Meaning, Valid, WellFormed, Slots;
      Consistent();
      z := if op == Not then NULL else y;
      hashVal := (if Code(op) <= 3 then HashUOO3(x, z, Code(op)) else HashO3(x, z, Code(op))) % cache.size;
      CodeStandsFor(op, intended);
      var cached := Recall(hashVal, x, z, Code(op), op, y);
      if cached != NULL {
        RanHas(graph, allocator.mem, Slots(), op, x, y, cached);
        NothingMissing(graph, op, x, y, cached);
        assert false;
      }
    }

    /**
      An operator one slot short, followed through the collection that creating
      its own node starts. The table is in order afterwards, and the answer is
      right, if and only if references reach nodes for both parts, which can be
      told before the call.
     */
    method ThroughCollection(op: Op, x: Ptr, y: Ptr) returns (r: Ptr)
      requires Valid() && WellFormed(graph) && allocator.Valid() && Mirrors(graph, allocator.mem)
      requires x in graph && y in graph && OneShort(op, x, y)
      requires (op == Not ==> y == falseNode) && (op == Imp ==> intended)
      requires {x, y, falseNode, trueNode} <= Kept()
      modifies this`buckets, this`tableSize, this`moved, this`nodeCount, this`graph, this`inserted,
        allocator, cache.entries
      ensures Collected(old(graph), old(allocator.mem), old(Kept()), r)
      ensures WellFormed(graph) <==> old(PartsKept(op, x, y))
      ensures WellFormed(graph) ==> x in graph && y in graph && IsResult(graph, op, x, y, r) && Valid()
      ensures old(allocator.FreeSlots()) == 0 && old(graph).Keys != old(Kept()) ==> r in old(graph)
    {
      hide Pool, Placed, BucketIndex, UniqueKeys, Mirrors, Marked, Roots, ReachAll, EntriesOk, Distinct, Expanded,
        Closed, ProperNode, IsResult, HashO3, HashUOO3, Grown, Tabled, Outcome, Missing, Ran, Reach,
        Parts, Meaning, Restrict, Parting, PartAnswer, Dens, PartsIn, Poised, Valid, WellFormed, AreTerminals, InLoad;
      Consistent();
      ghost var g, mem, kept := graph, allocator.mem, Kept();
      ReachAllIsLeastClosed(g, Roots(g, mem));
      var hashVal, z := LookInVain(op, x, y);
      var m, fLow, fHigh := PartsOneShort(op, x, y);
      NothingMade(g, mem, op, x, y, m, fLow, fHigh);
      r := MakeRoot(g, mem, kept, op, x, y, m, fLow, fHigh);
      CodeStandsFor(op, intended);
      StoreAnswer(hashVal, r, x, z, Code(op), op, y);
    }

    /** One slot is free, each part of the answer needs one, and every node is referenced. */
    ghost predicate LastSlot(op: Op, x: Ptr, y: Ptr)
      reads this, allocator, cache, cache.entries
    {
      && WellFormed(graph) && allocator.Valid() && Mirrors(graph, allocator.mem)
      && x in graph && y in graph && (op == Not ==> y == falseNode) && (op == Imp ==> intended)
      && PartsApart(graph, op, x, y) && Kept() == graph.Keys && allocator.FreeSlots() == 1 && Valid()
    }

    /** With a slot for it, an operation that lacks one node has an answer and adds just one. */
    lemma TakesOne(g: Graph, mem: Memory, op: Op, x: Ptr, y: Ptr, r: Ptr)
      requires WellFormed(g) && x in g && y in g && |Missing(g, op, x, y)| == 1 && Ran(g, mem, |g| + 1, op, x, y, r)
      ensures r != NULL && Valid() && WellFormed(graph) && Tabled() && allocator.Valid() && allocator.FreeSlots() == 0
      ensures Grown(g, mem, graph, allocator.mem) && Extends(g, graph) && |graph| == |g| + 1
      ensures x in graph && y in graph && r in graph && IsResult(graph, op, x, y, r)
    {
      hide Valid, Grown, Missing, IsResult, Outcome, WellFormed, Tabled;
      RanHas(g, mem, |g| + 1, op, x, y, r);
      OutcomeCount(g, graph, 1, allocator.FreeSlots(), op, x, y, r);
    }

    /** The first recursive call on the table `g` took the last slot; the second one will have none. */
    ghost predicate TookLastSlot(g: Graph, op: Op, x: Ptr, y: Ptr, low: Ptr, cx: Ptr, cy: Ptr)
      reads this, allocator, cache, cache.entries
    {
      && WellFormed(graph) && allocator.Valid() && Mirrors(graph, allocator.mem)
      && cx in graph && cy in graph && (op == Not ==> cy == falseNode) && (op == Imp ==> intended)
      && LacksItself(graph, op, cx, cy) && {cx, cy, falseNode, trueNode} <= Kept() && PartsKept(op, cx, cy)
      && allocator.FreeSlots() == 0 && Kept() == g.Keys && FirstPartOnly(g, graph, x, y, low, cx, cy)
      && Valid()
    }

    lemma LastSlotTaken(g: Graph, mem: Memory, op: Op, x: Ptr, y: Ptr, m: nat, low: Ptr)
      requires WellFormed(g) && Mirrors(g, mem) && x in g && y in g && PartsApart(g, op, x, y)
      requires ReachAll(g, Roots(g, mem)) == g.Keys && AreTerminals(g, falseNode, trueNode)
      requires m == Min(g[x].level, g[y].level) && (op == Imp ==> intended)
      requires Cofactor(g, x, m, false) in g && Cofactor(g, y, m, false) in g
      requires Cofactor(g, x, m, true) in g && Cofactor(g, y, m, true) in g
      requires op == Not ==> Cofactor(g, y, m, true) == falseNode
      requires Ran(g, mem, |g| + 1, op, Cofactor(g, x, m, false), Cofactor(g, y, m, false), low)
      ensures TookLastSlot(g, op, x, y, low, Cofactor(g, x, m, true), Cofactor(g, y, m, true))
    {
      hide Pool, Placed, BucketIndex, UniqueKeys, Mirrors, Marked, Roots, ReachAll, IsResult, Grown, Tabled, Missing,
        Ran, Parting, PartsIn, Cofactor, PartsApart, LacksItself, Valid, WellFormed, Extends;
      SplitsApart(g, op, x, y);
      TakesOne(g, mem, op, Cofactor(g, x, m, false), Cofactor(g, y, m, false), low);
      FirstPartTaken(g, graph, op, x, y, m, low);
      Consistent();
      KeptGrown(g, mem, graph, allocator.mem);
    }

    method TakeLastSlot(op: Op, x: Ptr, y: Ptr) returns (low: Ptr, cx: Ptr, cy: Ptr)
      requires LastSlot(op, x, y)
      modifies this`buckets, this`tableSize, this`moved, this`nodeCount, this`graph, this`inserted, allocator,
        cache.entries
      ensures TookLastSlot(old(graph), op, x, y, low, cx, cy)
    {
      hide Pool, Placed, BucketIndex, UniqueKeys, Mirrors, Marked, Roots, ReachAll, Tabled, Missing, Ran, Parting,
        Cofactor, PartsApart, LacksItself, Valid, WellFormed, TookLastSlot;
      Consistent();
      ghost var g, mem := graph, allocator.mem;
      SplitsApart(g, op, x, y);
      LevelsOf(x, y);
      var m := Min(allocator.mem[x].level, allocator.mem[y].level);
      Splits(g, x, y, m);
      if m < graph[y].level { StaysWhole(graph, y, m); }
      var xLow := CofactorOf(x, m, false);
      var yLow := CofactorOf(y, m, false);
      cx := CofactorOf(x, m, true);
      cy := CofactorOf(y, m, true);
      low := Operate(op, xLow, yLow);
      LastSlotTaken(g, mem, op, x, y, m, low);
    }

    /** Both recursive calls: they return one address, the second part's node at the first one's place. */
    method BothAtOnePlace(op: Op, x: Ptr, y: Ptr) returns (low: Ptr, high: Ptr)
      requires LastSlot(op, x, y)
      modifies this`buckets, this`tableSize, this`moved, this`nodeCount, this`graph, this`inserted, allocator,
        cache.entries
      ensures low == high && high in graph && AnswersSecondPart(old(graph), graph, op, x, y, high)
      ensures cache.Valid()
    {
      hide Pool, Placed, BucketIndex, UniqueKeys, Mirrors, Marked, Roots, ReachAll, EntriesOk, Distinct, Expanded,
        Closed, ProperNode, IsResult, Grown, Tabled, Outcome, Missing, Ran, Reach, Parts, Restrict, Parting,
        PartAnswer, Dens, Cofactor, PartsApart, Valid, WellFormed, AreTerminals, AnswersSecondPart, Extends;
      ghost var g := graph;
      SplitsApart(g, op, x, y);
      var cx, cy;
      low, cx, cy := TakeLastSlot(op, x, y);
      ghost var h := graph;
      Consistent();
      high := ThroughCollection(op, cx, cy);
      SlotReused(g, h, graph, low, high);
      SecondPartIsNotAll(g, graph, op, x, y, Min(g[x].level, g[y].level), high);
      assert cache.Valid();
    }

    /**
      An operator followed through a collection that breaks it. The first
      recursive call takes the last slot. The second one collects, which
      reclaims that unreferenced node, and puts its own into the same slot; so
      both parts are one address, and that is returned, and cached, as the
      answer. It denotes only the second part.
     */
    method LowPartLost(op: Op, x: Ptr, y: Ptr) returns (r: Ptr)
      requires LastSlot(op, x, y)
      modifies this`buckets, this`tableSize, this`moved, this`nodeCount, this`graph, this`inserted, allocator,
        cache.entries
      ensures r in graph && AnswersSecondPart(old(graph), graph, op, x, y, r)
    {
      hide Pool, Placed, BucketIndex, UniqueKeys, Mirrors, Marked, Roots, ReachAll, EntriesOk, Distinct, HashO3,
        HashUOO3, IsResult, Tabled, Missing, Ran, Meaning, PartsApart, Valid, WellFormed, AreTerminals,
        AnswersSecondPart;
      WholeMisses(graph, op, x, y);
      var hashVal, z := LookInVain(op, x, y);
      var fLow, fHigh := BothAtOnePlace(op, x, y);
      r := fLow; // combine
      var spurious: bool := *;
      cache.Insert(hashVal, r, x, z, Code(op), spurious);
    }

    // ---- Variables and collection on request

    /** Node creation when the children, if any, would survive a collection. */
    method GetOrCreateKept(level: nat, low: Ptr, high: Ptr) returns (r: Ptr)
      requires Sound() && InLoad() && ProperKey(graph, Cell(level, low, high))
      requires low in Kept() && high in Kept()
      modifies this`buckets, this`tableSize, this`moved, this`nodeCount, this`graph, this`inserted, allocator,
        cache.entries
      ensures Sound() && InLoad() && r in graph && graph[r] == Cell(level, low, high)
      ensures Survived(old(graph), old(allocator.mem), old(Kept()), graph, allocator.mem, r)
      ensures old(allocator.FreeSlots()) > 0 && !old(Known(Cell(level, low, high))) ==>
        r !in old(graph) && graph == old(graph)[r := Cell(level, low, high)]
        && allocator.FreeSlots() == old(allocator.FreeSlots()) - 1
      ensures Resized(nodeCount, old(tableSize), tableSize)
    {
      hide Pool, Placed, BucketIndex, UniqueKeys, Mirrors, Marked, Roots, ReachAll, EntriesOk, ProperNode, Coherent,
        InLoad, Survived, RefOf, Resized;
      ghost var g, mem, kept := graph, allocator.mem, Kept();
      ghost var rounds;
      GrownHere(g, mem);
      ReachAllIsLeastClosed(g, Roots(g, mem));
      r, rounds := GetOrCreateNode(level, low, high);
      if r in graph && rounds == 1 {
        GrownSurvives(g, mem, kept, graph, allocator.mem, r);
      } else {
        CollectedSurvives(g, mem, kept, graph, allocator.mem, r, Cell(level, low, high));
      }
    }

    /** Makes a node and pins it. The terminals, the children asked for, are pinned already. */
    method PinnedNode(id: nat, low: Ptr, high: Ptr) returns (r: Ptr)
      requires Sound() && InLoad() && ProperKey(graph, Cell(id, low, high))
      requires RefOf(graph, allocator.mem, low) > 0 && RefOf(graph, allocator.mem, high) > 0
      modifies this`buckets, this`tableSize, this`moved, this`nodeCount, this`graph, this`inserted, allocator,
        cache.entries
      ensures Sound() && InLoad() && r in graph && graph[r] == Cell(id, low, high)
      ensures forall p :: p in old(Kept()) ==> p in graph && graph[p] == old(graph)[p]
      ensures forall p :: p in graph ==> p in old(graph) || p == r
      ensures forall p :: RefOf(graph, allocator.mem, p) == old(RefOf(graph, allocator.mem, p)) + One(p == r)
      ensures old(allocator.FreeSlots()) > 0 && !old(Known(Cell(id, low, high))) ==>
        r !in old(graph) && graph == old(graph)[r := Cell(id, low, high)]
        && allocator.FreeSlots() == old(allocator.FreeSlots()) - 1 && nodeCount == old(nodeCount) + 1
      ensures Resized(nodeCount, old(tableSize), tableSize)
    {
      hide Pool, Placed, BucketIndex, UniqueKeys, Mirrors, Marked, Roots, ReachAll, EntriesOk, ProperNode, Coherent,
        InLoad, WellFormed, Resized;
      TerminalsKept(graph, allocator.mem, low, high);
      r := GetOrCreateKept(id, low, high);
      Ref(r);
    }

    /** No node tests this variable. */
    ghost predicate NoneAt(id: nat)
      reads this`graph
    {
      forall p :: p in graph ==> graph[p].level != id
    }

    /** `createVar`: the nodes of a variable and of its negation, both pinned. */
    method CreateVar(id: nat) returns (r: Ptr, ghost n: Ptr)
      requires Valid() && id < TERMINAL_LEVEL && id <= |vars| && |vars| == |nvars|
      requires RefOf(graph, allocator.mem, falseNode) > 0 && RefOf(graph, allocator.mem, trueNode) > 0
      modifies this, allocator, cache.entries
      ensures Valid() && falseNode == old(falseNode) && trueNode == old(trueNode)
      ensures vars == old(vars)[..id] + [r] + old(vars)[id..] && nvars == old(nvars)[..id] + [n] + old(nvars)[id..]
      ensures r in graph && graph[r] == Cell(id, falseNode, trueNode)
      ensures n in graph && graph[n] == Cell(id, trueNode, falseNode)
      ensures forall p :: p in old(Roots(graph, allocator.mem)) ==> p in graph && graph[p] == old(graph)[p]
      ensures forall p :: p in graph ==> p in old(graph) || p == r || p == n
      ensures forall p ::
        RefOf(graph, allocator.mem, p) == old(RefOf(graph, allocator.mem, p)) + One(p == r) + One(p == n)
      ensures old(allocator.FreeSlots()) >= 2 && old(NoneAt(id)) ==>
        && allocator.FreeSlots() == old(allocator.FreeSlots()) - 2 && nodeCount == old(nodeCount) + 2
        && (nodeCount <= 4 * old(tableSize) ==> tableSize == old(tableSize))
    {
      hide Pool, Placed, BucketIndex, UniqueKeys, Mirrors, Marked, Roots, ReachAll, EntriesOk, ProperNode, Coherent,
        InLoad, RefOf, Restrict, Tabled, WellFormed, RightSize;
      RootsKept();
      TerminalsEval(graph, falseNode, trueNode, falseNode);
      ReferencedIsRoot(graph, allocator.mem, falseNode);
      ReferencedIsRoot(graph, allocator.mem, trueNode);
      VarKeysProper(graph, falseNode, trueNode, id);
      var node := PinnedNode(id, falseNode, trueNode);
      vars := vars[..id] + [node] + vars[id..];
      VarKeysProper(graph, falseNode, trueNode, id);
      RootsKept();
      RootsRise(old(graph), old(allocator.mem), graph, allocator.mem, node);
      ReferencedIsRoot(graph, allocator.mem, node);
      var nvar := PinnedNode(id, trueNode, falseNode);
      nvars := nvars[..id] + [nvar] + nvars[id..];
      r, n := vars[id], nvar;
    }

    lemma RootsKept()
      requires Sound()
      ensures Mirrors(graph, allocator.mem) && Roots(graph, allocator.mem) <= Kept() <= graph.Keys
      ensures allocator.Valid()
    {
    }

    /** `gc`. */
    method Gc()
      requires Valid() && RefOf(graph, allocator.mem, falseNode) > 0 && RefOf(graph, allocator.mem, trueNode) > 0
      modifies this`buckets, this`nodeCount, this`graph, allocator, cache.entries
      ensures Valid()
      ensures graph == Restrict(old(graph), old(Kept())) && graph.Keys == old(Kept())
      ensures forall p :: RefOf(graph, allocator.mem, p) == old(RefOf(graph, allocator.mem, p))
    {
      hide Pool, Placed, BucketIndex, UniqueKeys, EntriesOk, ProperNode, Coherent, Distinct, Elements, Reversed,
        ReachAll, Roots, Mirrors, Marked, Restrict, RefOf;
      ghost var g, mem, kept := graph, allocator.mem, Kept();
      TerminalsKept(g, mem, falseNode, trueNode);
      var removed;
      ghost var reclaimed;
      removed, reclaimed := GcLocked();
      CollectedKeepsRefs(g, mem, kept, graph, allocator.mem);
      RestrictAt(g, kept, falseNode);
      RestrictAt(g, kept, trueNode);
    }
  }

  /**
    Cache transparency: one operation on the same nodes in two tables, whose
    caches, memories and buckets may differ in every other way. With as many
    slots, one run stops exactly when the other does. Otherwise both answers
    denote the same function, both tables made as many nodes, and the answers
    are one node if either was there before.
   */
  lemma CacheIsTransparent(s: NodeTable, t: NodeTable, g: Graph, memS: Memory, memT: Memory, slotsS: nat, slotsT: nat,
                           op: Op, x: Ptr, y: Ptr, p: Ptr, q: Ptr)
    requires WellFormed(g) && x in g && y in g
    requires s.Ran(g, memS, slotsS, op, x, y, p) && t.Ran(g, memT, slotsT, op, x, y, q)
    ensures slotsS == slotsT ==> (p == NULL <==> q == NULL)
    ensures p != NULL && q != NULL ==>
      && WellFormed(s.graph) && WellFormed(t.graph) && p in s.graph && q in t.graph
      && Den(s.graph, p) == Den(t.graph, q) && |s.graph| == |t.graph|
      && (p in g || q in g ==> p == q)
  {
    hide NodeTable.Ran, NodeTable.Valid, Outcome, Missing, Grown, IsResult, WellFormed, Den;
    s.RanHas(g, memS, slotsS, op, x, y, p);
    t.RanHas(g, memT, slotsT, op, x, y, q);
    RanCounts(s, g, memS, slotsS, op, x, y, p);
    RanCounts(t, g, memT, slotsT, op, x, y, q);
    if p != NULL && q != NULL {
      AnswersAgree(g, s.graph, t.graph, op, x, y, p, q);
    }
  }

  lemma RanCounts(t: NodeTable, g: Graph, mem: Memory, slots: nat, op: Op, x: Ptr, y: Ptr, r: Ptr)
    requires WellFormed(g) && x in g && y in g && t.Ran(g, mem, slots, op, x, y, r)
    ensures r == NULL <==> slots < |g| + |Missing(g, op, x, y)|
    ensures WellFormed(t.graph) && (r != NULL ==> |t.graph| == |g| + |Missing(g, op, x, y)|)
  {
    hide NodeTable.Valid, Outcome, Missing, Grown;
    t.RanHas(g, mem, slots, op, x, y, r);
    if r != NULL {
      t.SlotsCover(g, slots);
      OutcomeCount(g, t.graph, slots - |g|, t.allocator.FreeSlots(), op, x, y, r);
    }
  }

  lemma AnswersAgree(g: Graph, g1: Graph, g2: Graph, op: Op, x: Ptr, y: Ptr, r1: Ptr, r2: Ptr)
    requires WellFormed(g) && WellFormed(g1) && WellFormed(g2) && Extends(g, g1) && Extends(g, g2)
    requires x in g && y in g && x in g1 && y in g1 && x in g2 && y in g2
    requires IsResult(g1, op, x, y, r1) && IsResult(g2, op, x, y, r2)
    ensures r1 in g1 && r2 in g2 && Den(g1, r1) == Den(g2, r2)
    ensures r1 in g || r2 in g ==> r1 == r2
  {
    LevelOfAnswer(g1, op, x, y, r1);
    LevelOfAnswer(g2, op, x, y, r2);
    AnswerExtends(g, g1, op, x, y);
    AnswerExtends(g, g2, op, x, y);
    if r1 in g {
      DenExtends(g, g1, r1);
      DenExtends(g, g2, r1);
      Canonicity(g2, r1, r2);
    } else if r2 in g {
      DenExtends(g, g1, r2);
      DenExtends(g, g2, r2);
      Canonicity(g1, r1, r2);
    }
  }
}
