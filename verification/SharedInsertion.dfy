/**
  `NodeTable::getOrCreateNode` interleaved: any number of threads search,
  allocate and insert under the shared table lock, and collect, extend and
  rehash under the exclusive one. One step of a thread is one atomic access:
  taking or leaving the table lock, a bucket search or insertion under the
  bucket's own lock, one allocator operation, or one update of `nodeCount_`.
  What a thread does while it holds the table exclusively is one step per phase.
 */
module SharedInsertion {
  import opened Nodes
  import opened Diagrams
  import opened Hashing
  import opened Allocation
  import opened Collections
  import opened Buckets
  import opened TableFacts

  /** Where a thread is, with its local variables. */
  datatype Thread =
    | Idle
    | Enter(key: Cell)                                   // waits for the shared lock
    | Hash(key: Cell)
    | Find(key: Cell, idx: nat)
    | Allocate(key: Cell, idx: nat)
    | Insert(key: Cell, idx: nat, candidate: Ptr)
    | Recycle(key: Cell, candidate: Ptr, node: Ptr)      // another thread was first
    | Leave(key: Cell, node: Ptr)
    | Count(key: Cell, node: Ptr)                        // inserted, not counted yet
    | Unlock(key: Cell, node: Ptr)
    | TryGrow(key: Cell, node: Ptr)
    | Grow(key: Cell, node: Ptr)                         // owns the lock
    | Done(key: Cell, node: Ptr)
    | Full(key: Cell)                                    // no slot, still shares the lock
    | Wait(key: Cell)
    | Collect(key: Cell)                                 // owns the lock
    | Extend(key: Cell)
    | Rehash(key: Cell)
    | GcWait
    | GcCollect

  predicate Shares(th: Thread) {
    th.Hash? || th.Find? || th.Allocate? || th.Insert? || th.Recycle? || th.Leave? || th.Count? || th.Unlock? ||
      th.Full?
  }

  predicate Owns(th: Thread) {
    th.Grow? || th.Collect? || th.Extend? || th.Rehash? || th.GcCollect?
  }

  /** The slot a thread has taken from the allocator and not linked. */
  function Candidate(th: Thread): Ptr {
    if th.Insert? || th.Recycle? then th.candidate else NULL
  }

  /** The thread knows which node its call returns, and still shares the lock. */
  predicate Decided(th: Thread, key: Cell, p: Ptr) {
    (th.Recycle? || th.Leave? || th.Count? || th.Unlock?) && th.key == key && th.node == p
  }

  /** The linked nodes and where they are, every slot there is, the free ones, and `nodeCount_`. */
  datatype Table = Table(graph: Graph, buckets: seq<seq<Ptr>>, slots: set<Ptr>, free: set<Ptr>, nodeCount: int)

  datatype State = State(table: Table, threads: map<nat, Thread>)

  // ---- Steps

  /** `std::shared_mutex` lets a thread share when nobody owns, and own when nobody holds. */
  ghost predicate CanShare(s: State) {
    forall t :: t in s.threads ==> !Owns(s.threads[t])
  }

  ghost predicate CanOwn(s: State) {
    forall t :: t in s.threads ==> !Owns(s.threads[t]) && !Shares(s.threads[t])
  }

  predicate HasKey(tb: Table, idx: nat, key: Cell, p: Ptr) {
    idx < |tb.buckets| && p in tb.buckets[idx] && p in tb.graph && tb.graph[p] == key
  }

  ghost predicate Absent(tb: Table, idx: nat, key: Cell) {
    idx < |tb.buckets| && forall p :: !HasKey(tb, idx, key, p)
  }

  /** Moves that change nothing shared but the lock. */
  ghost predicate Goes(s: State, from: Thread, to: Thread) {
    match from
    case Idle => to.Enter? || to.GcWait?
    case Enter(key) => CanShare(s) && to == Hash(key)
    case Hash(key) => |s.table.buckets| > 0 && to == Find(key, BucketIndex(key, |s.table.buckets|))
    case Find(key, idx) =>
      || (to.Leave? && to.key == key && HasKey(s.table, idx, key, to.node))
      || (Absent(s.table, idx, key) && to == Allocate(key, idx))
    case Allocate(key, _) => s.table.free == {} && to == Full(key)
    case Insert(key, idx, c) =>
      to.Recycle? && to.key == key && to.candidate == c && HasKey(s.table, idx, key, to.node)
    case Leave(key, p) => to == Done(key, p)
    case Unlock(key, p) => to == TryGrow(key, p)
    case TryGrow(key, p) => to == Done(key, p) || (CanOwn(s) && to == Grow(key, p))
    case Done(_, _) => to == Idle
    case Full(key) => to == Wait(key)
    case Wait(key) => CanOwn(s) && to == Collect(key)
    case GcWait => CanOwn(s) && to == GcCollect
    case _ => false
  }

  predicate Takes(tb: Table, tb': Table, from: Thread, to: Thread) {
    && from.Allocate? && to.Insert? && to.key == from.key && to.idx == from.idx
    && to.candidate in tb.free && tb' == tb.(free := tb.free - {to.candidate})
  }

  ghost predicate Links(tb: Table, tb': Table, from: Thread, to: Thread) {
    && from.Insert? && Absent(tb, from.idx, from.key) && to == Count(from.key, from.candidate)
    && tb' == tb.(graph := tb.graph[from.candidate := from.key],
                  buckets := tb.buckets[from.idx := tb.buckets[from.idx] + [from.candidate]])
  }

  predicate GivesBack(tb: Table, tb': Table, from: Thread, to: Thread) {
    from.Recycle? && to == Leave(from.key, from.node) && tb' == tb.(free := tb.free + {from.candidate})
  }

  predicate Counts(tb: Table, tb': Table, from: Thread, to: Thread) {
    from.Count? && to == Unlock(from.key, from.node) && tb' == tb.(nodeCount := tb.nodeCount + 1)
  }

  /**
    `gcLocked` as other threads see it: some nodes stay, where they are, and
    the others become free slots. Which nodes stay depends on counts that
    threads outside the table change at any time, so any choice is allowed.
   */
  ghost predicate Collects(tb: Table, tb': Table, from: Thread, to: Thread) {
    && ((from.Collect? && to == Extend(from.key)) || (from.GcCollect? && to == Idle))
    && exists kept :: CollectsTo(tb, tb', kept)
  }

  ghost predicate CollectsTo(tb: Table, tb': Table, kept: set<Ptr>) {
    && kept <= tb.graph.Keys
    && tb' == tb.(graph := Restrict(tb.graph, kept), buckets := FilterAll(tb.buckets, kept),
                  free := tb.free + (tb.graph.Keys - kept), nodeCount := tb.nodeCount - |tb.graph.Keys - kept|)
  }

  /** The allocator grows by new slots when the collection freed none. */
  predicate ExtendsBy(tb: Table, tb': Table, from: Thread, to: Thread) {
    && from.Extend? && to == Rehash(from.key)
    && tb'.graph == tb.graph && tb'.buckets == tb.buckets && tb'.nodeCount == tb.nodeCount
    && tb.slots <= tb'.slots && NULL !in tb'.slots
    && tb'.free == tb.free + (tb'.slots - tb.slots)
    && (tb.free != {} ==> tb' == tb) && tb'.free != {}
  }

  /** With too high a load all nodes move to the size the search returned, if that is larger. */
  predicate Grows(tb: Table, tb': Table, from: Thread, to: Thread) {
    && ((from.Grow? && to == Done(from.key, from.node)) || (from.Rehash? && to == Enter(from.key)))
    && |tb.buckets| > 0
    && if tb.nodeCount > 4 * |tb.buckets| && tb' != tb
       then |tb'.buckets| > |tb.buckets| && HaveCells(tb.graph, Flatten(tb.buckets))
            && tb' == tb.(buckets := Rehashed(tb.graph, Flatten(tb.buckets), |Flatten(tb.buckets)|, |tb'.buckets|))
       else tb' == tb
  }

  ghost predicate Changes(s: State, s': State, from: Thread, to: Thread) {
    || (Goes(s, from, to) && s'.table == s.table)
    || Takes(s.table, s'.table, from, to)
    || Links(s.table, s'.table, from, to)
    || GivesBack(s.table, s'.table, from, to)
    || Counts(s.table, s'.table, from, to)
    || Collects(s.table, s'.table, from, to)
    || ExtendsBy(s.table, s'.table, from, to)
    || Grows(s.table, s'.table, from, to)
  }

  ghost predicate Advances(s: State, s': State, t: nat) {
    && t in s.threads && t in s'.threads && s'.threads == s.threads[t := s'.threads[t]]
    && Changes(s, s', s.threads[t], s'.threads[t])
  }

  ghost predicate Next(s: State, s': State) {
    exists t :: Advances(s, s', t)
  }

  /** An empty table of at least one bucket, every slot free. */
  ghost predicate Init(s: State) {
    && s.table.graph == map[] && |s.table.buckets| > 0
    && (forall i :: 0 <= i < |s.table.buckets| ==> s.table.buckets[i] == [])
    && s.table.free == s.table.slots && NULL !in s.table.slots && s.table.nodeCount == 0
    && forall t :: t in s.threads ==> s.threads[t] == Idle
  }

  // ---- What collection and growth do to the buckets

  function Filter(nodes: seq<Ptr>, kept: set<Ptr>): (r: seq<Ptr>)
    ensures forall p :: p in r <==> p in nodes && p in kept
  {
    if nodes == [] then []
    else
      var rest := Filter(nodes[..|nodes| - 1], kept);
      if nodes[|nodes| - 1] in kept then rest + [nodes[|nodes| - 1]] else rest
  }

  lemma {:induction false} FilterDistinct(nodes: seq<Ptr>, kept: set<Ptr>)
    requires Distinct(nodes)
    ensures Distinct(Filter(nodes, kept))
  {
    if nodes != [] {
      FilterDistinct(nodes[..|nodes| - 1], kept);
    }
  }

  function FilterAll(buckets: seq<seq<Ptr>>, kept: set<Ptr>): (r: seq<seq<Ptr>>)
    ensures |r| == |buckets|
  {
    seq(|buckets|, i requires 0 <= i < |buckets| => Filter(buckets[i], kept))
  }

  /** The nodes of all buckets, in the order they are extracted. */
  function Flatten(buckets: seq<seq<Ptr>>): seq<Ptr> {
    if buckets == [] then [] else Flatten(buckets[..|buckets| - 1]) + buckets[|buckets| - 1]
  }

  /** The sum of the bucket sizes. */
  function Total(buckets: seq<seq<Ptr>>): (n: nat)
    ensures n == |Flatten(buckets)|
  {
    if buckets == [] then 0 else Total(buckets[..|buckets| - 1]) + |buckets[|buckets| - 1]|
  }

  predicate HaveCells(g: Graph, nodes: seq<Ptr>) {
    forall p :: p in nodes ==> p in g
  }

  /** The first `k` of the nodes, put one by one into `size` empty buckets. */
  function Rehashed(g: Graph, nodes: seq<Ptr>, k: nat, size: nat): (r: seq<seq<Ptr>>)
    requires HaveCells(g, nodes) && k <= |nodes| && size > 0
    ensures |r| == size
  {
    if k == 0 then seq(size, _ => [])
    else
      var before := Rehashed(g, nodes, k - 1, size);
      var i := BucketIndex(g[nodes[k - 1]], size);
      before[i := before[i] + [nodes[k - 1]]]
  }

  lemma FilterPlaced(g: Graph, buckets: seq<seq<Ptr>>, kept: set<Ptr>)
    requires Placed(g, g.Keys, buckets) && kept <= g.Keys
    ensures Placed(Restrict(g, kept), Restrict(g, kept).Keys, FilterAll(buckets, kept))
  {
    hide BucketIndex;
    var h, r := Restrict(g, kept), FilterAll(buckets, kept);
    assert h.Keys == kept;
    forall i | 0 <= i < |r| ensures Distinct(r[i]) {
      FilterDistinct(buckets[i], kept);
    }
    forall i, p | 0 <= i < |r| && p in r[i] ensures p in h && BucketIndex(h[p], |r|) == i {
      assert p in buckets[i];
    }
    forall p | p in h ensures p in r[BucketIndex(h[p], |r|)] {
      assert p in buckets[BucketIndex(g[p], |buckets|)];
    }
  }

  lemma {:induction false} FlattenPrefix(g: Graph, buckets: seq<seq<Ptr>>, n: nat)
    requires Placed(g, g.Keys, buckets) && n <= |buckets|
    ensures Distinct(Flatten(buckets[..n])) && Elements(Flatten(buckets[..n])) == InBuckets(buckets, n)
  {
    hide Placed, BucketIndex;
    if n > 0 {
      FlattenPrefix(g, buckets, n - 1);
      ExtractStep(g, buckets, n - 1, Flatten(buckets[..n - 1]));
      assert buckets[..n][..n - 1] == buckets[..n - 1];
    }
  }

  /** Extraction lists every node of the table exactly once, so the bucket sizes sum to their number. */
  lemma FlattenIsTable(g: Graph, buckets: seq<seq<Ptr>>)
    requires Placed(g, g.Keys, buckets)
    ensures Distinct(Flatten(buckets)) && Elements(Flatten(buckets)) == g.Keys && HaveCells(g, Flatten(buckets))
    ensures Total(buckets) == |g|
  {
    FlattenPrefix(g, buckets, |buckets|);
    InAllBuckets(g, g.Keys, buckets);
    assert buckets[..|buckets|] == buckets;
    DistinctSize(Flatten(buckets));
    assert forall p :: p in Flatten(buckets) ==> p in Elements(Flatten(buckets));
  }

  lemma {:induction false} RehashedPlaced(g: Graph, nodes: seq<Ptr>, k: nat, size: nat)
    requires Distinct(nodes) && Elements(nodes) == g.Keys && HaveCells(g, nodes) && k <= |nodes| && size > 0
    ensures Elements(nodes[..k]) <= g.Keys && Placed(g, Elements(nodes[..k]), Rehashed(g, nodes, k, size))
  {
    hide Placed, BucketIndex;
    if k == 0 {
      PlacedNothing(g, Rehashed(g, nodes, 0, size));
    } else {
      RehashedPlaced(g, nodes, k - 1, size);
      RehashStep(g, nodes, k - 1, Rehashed(g, nodes, k - 1, size));
    }
  }

  // ---- The invariant

  ghost predicate TableOk(tb: Table) {
    UniqueKeys(tb.graph) && Placed(tb.graph, tb.graph.Keys, tb.buckets)
  }

  /** The slots threads have in hand. */
  ghost function InHand(threads: map<nat, Thread>): set<Ptr> {
    set t | t in threads && Candidate(threads[t]) != NULL :: Candidate(threads[t])
  }

  /** Every slot is linked, free or in one thread's hand. */
  ghost predicate SlotsOk(slots: set<Ptr>, linked: set<Ptr>, free: set<Ptr>, hand: set<Ptr>) {
    NULL !in slots && slots == linked + free + hand && linked !! free && hand !! linked && hand !! free
  }

  ghost predicate HandsDiffer(threads: map<nat, Thread>) {
    forall t, u :: t in threads && u in threads && t != u && Candidate(threads[t]) != NULL ==>
      Candidate(threads[t]) != Candidate(threads[u])
  }

  /** The threads between inserting a node and counting it. */
  ghost function Counting(threads: map<nat, Thread>): set<nat> {
    set t | t in threads && threads[t].Count?
  }

  ghost predicate CountOk(tb: Table, late: nat) {
    tb.nodeCount + late == |tb.graph|
  }

  /** The owner is alone. */
  ghost predicate LockOk(threads: map<nat, Thread>) {
    forall t, u :: t in threads && u in threads && t != u && Owns(threads[t]) ==>
      !Owns(threads[u]) && !Shares(threads[u])
  }

  /** While a thread shares the lock its bucket index and its answer stay right. */
  ghost predicate LocalOk(tb: Table, th: Thread) {
    && |tb.buckets| > 0
    && (th.Find? || th.Allocate? || th.Insert? ==> th.idx == BucketIndex(th.key, |tb.buckets|))
    && (th.Insert? || th.Recycle? ==> th.candidate != NULL)
    && (th.Recycle? || th.Leave? || th.Count? || th.Unlock? ==> th.node in tb.graph && tb.graph[th.node] == th.key)
  }

  ghost predicate Inv(s: State) {
    && TableOk(s.table) && LockOk(s.threads)
    && SlotsOk(s.table.slots, s.table.graph.Keys, s.table.free, InHand(s.threads)) && HandsDiffer(s.threads)
    && CountOk(s.table, |Counting(s.threads)|)
    && forall t :: t in s.threads ==> LocalOk(s.table, s.threads[t])
  }

  // ---- One lemma per kind of step

  ghost function Hand(c: Ptr): set<Ptr> {
    if c == NULL then {} else {c}
  }

  /** What a step may rely on; `hand` and `late` are all slots in hand and the threads yet to count. */
  ghost predicate Before(tb: Table, from: Thread, hand: set<Ptr>, late: nat) {
    && TableOk(tb) && SlotsOk(tb.slots, tb.graph.Keys, tb.free, hand) && CountOk(tb, late) && LocalOk(tb, from)
    && Hand(Candidate(from)) <= hand && (from.Count? ==> late > 0)
  }

  /** No bucket moves and no node leaves. */
  ghost predicate Steady(tb: Table, tb': Table) {
    |tb'.buckets| == |tb.buckets| && forall p :: p in tb.graph ==> p in tb'.graph && tb'.graph[p] == tb.graph[p]
  }

  /** What a step leaves; only an owner of the lock moves buckets or removes nodes. */
  ghost predicate After(tb: Table, tb': Table, from: Thread, to: Thread, hand: set<Ptr>, late: nat) {
    && TableOk(tb') && LocalOk(tb', to)
    && SlotsOk(tb'.slots, tb'.graph.Keys, tb'.free, hand - Hand(Candidate(from)) + Hand(Candidate(to)))
    && (Candidate(to) == NULL || Candidate(to) == Candidate(from) ||
      (Candidate(from) == NULL && Candidate(to) in tb.free))
    && tb'.nodeCount + late - (if from.Count? then 1 else 0) + (if to.Count? then 1 else 0) == |tb'.graph|
    && (Steady(tb, tb') || Owns(from))
  }

  lemma TableOkFrame(tb: Table, tb': Table)
    requires tb'.graph == tb.graph && tb'.buckets == tb.buckets
    ensures TableOk(tb) ==> TableOk(tb')
    ensures Steady(tb, tb')
  {
  }

  lemma HandUnchanged(hand: set<Ptr>, c: Ptr)
    requires Hand(c) <= hand
    ensures hand - Hand(c) + Hand(c) == hand
  {
  }

  lemma GoesKeeps(s: State, from: Thread, to: Thread, hand: set<Ptr>, late: nat)
    requires Before(s.table, from, hand, late) && Goes(s, from, to)
    ensures After(s.table, s.table, from, to, hand, late)
  {
    TableOkFrame(s.table, s.table);
    HandUnchanged(hand, Candidate(from));
    GoesOk(s, from, to);
    hide TableOk, SlotsOk, Goes, Steady, Hand, LocalOk, Owns;
  }

  lemma GoesOk(s: State, from: Thread, to: Thread)
    requires Goes(s, from, to) && LocalOk(s.table, from)
    ensures LocalOk(s.table, to)
    ensures Candidate(to) == Candidate(from) && !from.Count? && !to.Count?
  {
    hide BucketIndex, CanOwn, CanShare, Absent;
    match from
    case Idle =>
    case Enter(_) =>
    case Hash(_) =>
    case Find(_, _) =>
    case Allocate(_, _) =>
    case Insert(_, _, _) =>
    case _ =>
  }

  lemma TakesKeeps(tb: Table, tb': Table, from: Thread, to: Thread, hand: set<Ptr>, late: nat)
    requires Before(tb, from, hand, late) && Takes(tb, tb', from, to)
    ensures After(tb, tb', from, to, hand, late)
  {
    hide TableOk, BucketIndex, SlotsOk, Steady, Owns;
    TableOkFrame(tb, tb');
    TakeSlot(tb.slots, tb.graph.Keys, tb.free, hand, to.candidate);
    assert LocalOk(tb', to);
    hide LocalOk;
  }

  lemma TakeSlot(slots: set<Ptr>, linked: set<Ptr>, free: set<Ptr>, hand: set<Ptr>, c: Ptr)
    requires SlotsOk(slots, linked, free, hand) && c in free
    ensures c != NULL && SlotsOk(slots, linked, free - {c}, hand - {} + {c})
  {
  }

  lemma LinkSlot(slots: set<Ptr>, linked: set<Ptr>, free: set<Ptr>, hand: set<Ptr>, c: Ptr)
    requires SlotsOk(slots, linked, free, hand) && c in hand
    ensures c !in linked && SlotsOk(slots, linked + {c}, free, hand - {c} + {})
  {
  }

  lemma ReturnSlot(slots: set<Ptr>, linked: set<Ptr>, free: set<Ptr>, hand: set<Ptr>, c: Ptr)
    requires SlotsOk(slots, linked, free, hand) && c in hand
    ensures SlotsOk(slots, linked, free + {c}, hand - {c} + {})
  {
  }

  lemma ReclaimSlots(slots: set<Ptr>, linked: set<Ptr>, free: set<Ptr>, hand: set<Ptr>, kept: set<Ptr>)
    requires SlotsOk(slots, linked, free, hand) && kept <= linked
    ensures SlotsOk(slots, kept, free + (linked - kept), hand)
  {
  }

  lemma NewSlots(slots: set<Ptr>, slots': set<Ptr>, linked: set<Ptr>, free: set<Ptr>, hand: set<Ptr>)
    requires SlotsOk(slots, linked, free, hand) && slots <= slots' && NULL !in slots'
    ensures SlotsOk(slots', linked, free + (slots' - slots), hand)
  {
  }

  /** A node enters the table only when its key is absent from its own bucket, hence from the table. */
  lemma LinkKeepsTable(tb: Table, tb': Table, from: Thread, to: Thread)
    requires TableOk(tb) && LocalOk(tb, from) && Links(tb, tb', from, to) && from.candidate !in tb.graph
    ensures TableOk(tb') && tb'.graph.Keys == tb.graph.Keys + {from.candidate} && Steady(tb, tb')
  {
    KeyIsNew(tb, from.idx, from.key);
    hide BucketIndex, Absent, Placed;
    PlacedInsert(tb.graph, tb.graph.Keys, tb.buckets, from.candidate, from.key);
    assert tb'.graph.Keys == tb.graph.Keys + {from.candidate};
  }

  lemma KeyIsNew(tb: Table, idx: nat, key: Cell)
    requires TableOk(tb) && Absent(tb, idx, key) && idx == BucketIndex(key, |tb.buckets|)
    ensures forall p :: p in tb.graph ==> tb.graph[p] != key
  {
    hide BucketIndex;
    forall p | p in tb.graph ensures tb.graph[p] != key {
      assert !HasKey(tb, idx, key, p);
    }
  }

  lemma LinksKeeps(tb: Table, tb': Table, from: Thread, to: Thread, hand: set<Ptr>, late: nat)
    requires Before(tb, from, hand, late) && Links(tb, tb', from, to)
    ensures After(tb, tb', from, to, hand, late)
  {
    hide TableOk, Absent, BucketIndex, SlotsOk, Steady, Owns;
    LinkSlot(tb.slots, tb.graph.Keys, tb.free, hand, from.candidate);
    LinkKeepsTable(tb, tb', from, to);
    assert |tb'.graph| == |tb.graph| + 1;
    assert LocalOk(tb', to);
    hide LocalOk;
  }

  lemma GivesBackKeeps(tb: Table, tb': Table, from: Thread, to: Thread, hand: set<Ptr>, late: nat)
    requires Before(tb, from, hand, late) && GivesBack(tb, tb', from, to)
    ensures After(tb, tb', from, to, hand, late)
  {
    hide TableOk, BucketIndex, SlotsOk, Steady, Owns;
    TableOkFrame(tb, tb');
    ReturnSlot(tb.slots, tb.graph.Keys, tb.free, hand, from.candidate);
    assert LocalOk(tb', to);
    hide LocalOk;
  }

  lemma CountsKeeps(tb: Table, tb': Table, from: Thread, to: Thread, hand: set<Ptr>, late: nat)
    requires Before(tb, from, hand, late) && Counts(tb, tb', from, to)
    ensures After(tb, tb', from, to, hand, late)
  {
    hide TableOk, BucketIndex, SlotsOk, Steady, Owns, Hand;
    TableOkFrame(tb, tb');
    HandUnchanged(hand, NULL);
    assert LocalOk(tb', to);
    hide LocalOk;
  }

  lemma CollectsKeeps(tb: Table, tb': Table, from: Thread, to: Thread, hand: set<Ptr>, late: nat)
    requires Before(tb, from, hand, late) && Collects(tb, tb', from, to)
    ensures After(tb, tb', from, to, hand, late)
  {
    hide TableOk, BucketIndex, FilterAll, SlotsOk, Steady, Hand, Restrict, CollectsTo;
    var kept :| CollectsTo(tb, tb', kept);
    CollectedFields(tb, tb', kept);
    CollectKeepsTable(tb, tb', kept);
    KeptCount(tb.graph, kept);
    ReclaimSlots(tb.slots, tb.graph.Keys, tb.free, hand, kept);
    HandUnchanged(hand, NULL);
    LocalAfterCollect(tb', to);
    hide LocalOk;
  }

  lemma LocalAfterCollect(tb: Table, to: Thread)
    requires (to.Extend? || to.Idle?) && |tb.buckets| > 0
    ensures LocalOk(tb, to) && Candidate(to) == NULL && !to.Count?
  {
  }

  lemma CollectedFields(tb: Table, tb': Table, kept: set<Ptr>)
    requires CollectsTo(tb, tb', kept)
    ensures kept <= tb.graph.Keys && tb'.slots == tb.slots && tb'.free == tb.free + (tb.graph.Keys - kept)
    ensures tb'.graph == Restrict(tb.graph, kept) && tb'.nodeCount == tb.nodeCount - |tb.graph.Keys - kept|
  {
  }

  lemma CollectKeepsTable(tb: Table, tb': Table, kept: set<Ptr>)
    requires TableOk(tb) && CollectsTo(tb, tb', kept)
    ensures TableOk(tb') && tb'.graph.Keys == kept && |tb'.buckets| > 0
  {
    hide Placed, FilterAll, BucketIndex;
    FilterPlaced(tb.graph, tb.buckets, kept);
    BucketsExist(tb');
  }

  lemma BucketsExist(tb: Table)
    requires TableOk(tb)
    ensures |tb.buckets| > 0
  {
  }

  lemma KeptCount(g: Graph, kept: set<Ptr>)
    requires kept <= g.Keys
    ensures |Restrict(g, kept)| == |g| - |g.Keys - kept|
  {
    assert Restrict(g, kept).Keys == kept;
    assert g.Keys == kept + (g.Keys - kept);
    assert |g| == |g.Keys| && |Restrict(g, kept)| == |Restrict(g, kept).Keys|;
  }

  lemma ExtendsKeeps(tb: Table, tb': Table, from: Thread, to: Thread, hand: set<Ptr>, late: nat)
    requires Before(tb, from, hand, late) && ExtendsBy(tb, tb', from, to)
    ensures After(tb, tb', from, to, hand, late)
  {
    hide TableOk, BucketIndex, SlotsOk, Steady, Owns, Hand;
    TableOkFrame(tb, tb');
    NewSlots(tb.slots, tb'.slots, tb.graph.Keys, tb.free, hand);
    HandUnchanged(hand, NULL);
    assert LocalOk(tb', to);
    hide LocalOk;
  }

  lemma GrowsKeeps(tb: Table, tb': Table, from: Thread, to: Thread, hand: set<Ptr>, late: nat)
    requires Before(tb, from, hand, late) && Grows(tb, tb', from, to)
    ensures After(tb, tb', from, to, hand, late)
  {
    hide TableOk, BucketIndex, SlotsOk, Steady, Hand, Rehashed, Flatten;
    GrowKeepsTable(tb, tb', from, to);
    HandUnchanged(hand, NULL);
    assert LocalOk(tb', to);
    hide LocalOk;
  }

  lemma GrowKeepsTable(tb: Table, tb': Table, from: Thread, to: Thread)
    requires TableOk(tb) && Grows(tb, tb', from, to)
    ensures TableOk(tb')
  {
    hide BucketIndex, Placed, Rehashed, Flatten;
    var nodes := Flatten(tb.buckets);
    if tb.nodeCount > 4 * |tb.buckets| {
      FlattenIsTable(tb.graph, tb.buckets);
      RehashedPlaced(tb.graph, nodes, |nodes|, |tb'.buckets|);
      assert nodes[..|nodes|] == nodes;
    }
  }

  lemma ChangesKeep(s: State, s': State, from: Thread, to: Thread, hand: set<Ptr>, late: nat)
    requires Before(s.table, from, hand, late) && Changes(s, s', from, to)
    ensures After(s.table, s'.table, from, to, hand, late)
  {
    hide Before, After, Goes, Takes, Links, GivesBack, Counts, Collects, ExtendsBy, Grows;
    var tb, tb' := s.table, s'.table;
    if Takes(tb, tb', from, to) {
      TakesKeeps(tb, tb', from, to, hand, late);
    } else if Links(tb, tb', from, to) {
      LinksKeeps(tb, tb', from, to, hand, late);
    } else if GivesBack(tb, tb', from, to) {
      GivesBackKeeps(tb, tb', from, to, hand, late);
    } else if Counts(tb, tb', from, to) {
      CountsKeeps(tb, tb', from, to, hand, late);
    } else if Collects(tb, tb', from, to) {
      CollectsKeeps(tb, tb', from, to, hand, late);
    } else if ExtendsBy(tb, tb', from, to) {
      ExtendsKeeps(tb, tb', from, to, hand, late);
    } else if Grows(tb, tb', from, to) {
      GrowsKeeps(tb, tb', from, to, hand, late);
    } else {
      GoesKeeps(s, from, to, hand, late);
    }
  }

  /** A thread gets the lock in a mode only when the others leave it. */
  lemma LockMoves(s: State, s': State, from: Thread, to: Thread)
    requires Changes(s, s', from, to)
    ensures Owns(to) ==> Owns(from) || CanOwn(s)
    ensures Shares(to) ==> Shares(from) || CanShare(s)
  {
    if Goes(s, from, to) {
      GoesLock(s, from, to);
    } else {
      hide Goes;
      OwnStepsKeepLock(s.table, s'.table, from, to);
    }
  }

  /** From which position to which such a step leads. */
  lemma OwnStepKinds(tb: Table, tb': Table, from: Thread, to: Thread)
    ensures Takes(tb, tb', from, to) ==> from.Allocate? && to.Insert?
    ensures Links(tb, tb', from, to) ==> from.Insert? && to.Count?
    ensures GivesBack(tb, tb', from, to) ==> from.Recycle? && to.Leave?
    ensures Counts(tb, tb', from, to) ==> from.Count? && to.Unlock?
    ensures Collects(tb, tb', from, to) ==> (from.Collect? && to.Extend?) || (from.GcCollect? && to.Idle?)
    ensures ExtendsBy(tb, tb', from, to) ==> from.Extend? && to.Rehash?
    ensures Grows(tb, tb', from, to) ==> (from.Grow? && to.Done?) || (from.Rehash? && to.Enter?)
  {
    hide Absent, CollectsTo, Rehashed, Flatten, HaveCells;
  }

  lemma OwnStepsKeepLock(tb: Table, tb': Table, from: Thread, to: Thread)
    requires Takes(tb, tb', from, to) || Links(tb, tb', from, to) || GivesBack(tb, tb', from, to) ||
      Counts(tb, tb', from, to) || Collects(tb, tb', from, to) || ExtendsBy(tb, tb', from, to) ||
      Grows(tb, tb', from, to)
    ensures (Owns(to) ==> Owns(from)) && (Shares(to) ==> Shares(from))
  {
    hide Absent, CollectsTo, Rehashed, Flatten, HaveCells;
    OwnStepKinds(tb, tb', from, to);
    hide Takes, Links, GivesBack, Counts, Collects, ExtendsBy, Grows;
  }

  lemma GoesLock(s: State, from: Thread, to: Thread)
    requires Goes(s, from, to)
    ensures Owns(to) ==> Owns(from) || CanOwn(s)
    ensures Shares(to) ==> Shares(from) || CanShare(s)
  {
    hide CanOwn, CanShare, HasKey, Absent, BucketIndex;
  }

  // ---- What one step does to the other threads

  lemma HandAfter(threads: map<nat, Thread>, t: nat, to: Thread)
    requires t in threads && HandsDiffer(threads)
    ensures Hand(Candidate(threads[t])) <= InHand(threads)
    ensures InHand(threads[t := to]) == InHand(threads) - Hand(Candidate(threads[t])) + Hand(Candidate(to))
  {
    var after := threads[t := to];
    forall p | p in InHand(threads) && p != Candidate(threads[t]) ensures p in InHand(after) {
      var u :| u in threads && Candidate(threads[u]) == p;
      assert after[u] == threads[u];
    }
    if Candidate(to) != NULL { assert Candidate(after[t]) in InHand(after); }
  }

  lemma HandsStayDifferent(threads: map<nat, Thread>, t: nat, to: Thread, free: set<Ptr>)
    requires t in threads && HandsDiffer(threads) && InHand(threads) !! free
    requires Candidate(to) == NULL || Candidate(to) == Candidate(threads[t]) || Candidate(to) in free
    ensures HandsDiffer(threads[t := to])
  {
    forall u | u in threads && Candidate(threads[u]) != NULL ensures Candidate(threads[u]) in InHand(threads) {
    }
  }

  lemma CountingAfter(threads: map<nat, Thread>, t: nat, to: Thread)
    requires t in threads
    ensures threads[t].Count? ==> |Counting(threads)| > 0
    ensures |Counting(threads[t := to])| ==
      |Counting(threads)| - (if threads[t].Count? then 1 else 0) + if to.Count? then 1 else 0
  {
    var before, after := Counting(threads), Counting(threads[t := to]);
    assert (t in before <==> threads[t].Count?) && (t in after <==> to.Count?);
    assert before - {t} == after - {t};
    hide Counting;
    OneLess(before, t);
    OneLess(after, t);
  }

  lemma OneLess(s: set<nat>, t: nat)
    ensures |s - {t}| == |s| - if t in s then 1 else 0
  {
    if t in s {
      assert s == (s - {t}) + {t};
    } else {
      assert s - {t} == s;
    }
  }

  lemma LockStays(threads: map<nat, Thread>, t: nat, to: Thread)
    requires t in threads && LockOk(threads)
    requires Owns(to) ==> Owns(threads[t]) || forall u :: u in threads ==> !Owns(threads[u]) && !Shares(threads[u])
    requires Shares(to) ==> Shares(threads[t]) || forall u :: u in threads ==> !Owns(threads[u])
    ensures LockOk(threads[t := to])
  {
    hide Owns, Shares;
  }

  lemma OtherStaysOk(tb: Table, tb': Table, th: Thread)
    requires LocalOk(tb, th) && |tb'.buckets| > 0 && (Steady(tb, tb') || !Shares(th))
    ensures LocalOk(tb', th)
  {
    hide BucketIndex;
  }

  lemma OthersStayOk(s: State, s': State, t: nat, late: nat)
    requires Inv(s) && t in s.threads && t in s'.threads && s'.threads == s.threads[t := s'.threads[t]]
    requires After(s.table, s'.table, s.threads[t], s'.threads[t], InHand(s.threads), late)
    ensures forall u :: u in s'.threads ==> LocalOk(s'.table, s'.threads[u])
  {
    hide Steady, TableOk, SlotsOk, Owns, Shares;
    forall u | u in s'.threads ensures LocalOk(s'.table, s'.threads[u]) {
      if u != t {
        assert LocalOk(s.table, s.threads[u]) && |s'.table.buckets| > 0;
        hide LocalOk;
        OtherStaysOk(s.table, s'.table, s.threads[u]);
      }
    }
  }

  lemma StepIsAfter(s: State, s': State, t: nat)
    requires Inv(s) && Advances(s, s', t)
    ensures After(s.table, s'.table, s.threads[t], s'.threads[t], InHand(s.threads), |Counting(s.threads)|)
  {
    hide Changes, TableOk, LockOk, SlotsOk, HandsDiffer, CountOk, LocalOk, Candidate, Hand, After;
    HandAfter(s.threads, t, s'.threads[t]);
    CountingAfter(s.threads, t, s'.threads[t]);
    assert LocalOk(s.table, s.threads[t]);
    ChangesKeep(s, s', s.threads[t], s'.threads[t], InHand(s.threads), |Counting(s.threads)|);
  }

  /** Every step of every thread keeps the invariant. */
  lemma StepKeepsInv(s: State, s': State, t: nat)
    requires Inv(s) && Advances(s, s', t)
    ensures Inv(s')
  {
    hide Changes, TableOk, LockOk, SlotsOk, HandsDiffer, CountOk, LocalOk, Steady, Owns, Shares, Candidate, Hand;
    var from, to := s.threads[t], s'.threads[t];
    StepIsAfter(s, s', t);
    HandAfter(s.threads, t, to);
    CountingAfter(s.threads, t, to);
    LockMoves(s, s', from, to);
    LockStays(s.threads, t, to);
    OthersStayOk(s, s', t, |Counting(s.threads)|);
    HandsFree(s);
    HandsStayDifferent(s.threads, t, to, s.table.free);
    CountIs(s'.table, |Counting(s'.threads)|);
  }

  lemma HandsFree(s: State)
    requires Inv(s)
    ensures InHand(s.threads) !! s.table.free && InHand(s.threads) !! s.table.graph.Keys
  {
  }

  lemma CountIs(tb: Table, late: nat)
    requires tb.nodeCount + late == |tb.graph|
    ensures CountOk(tb, late)
  {
  }

  // ---- Every interleaving

  ghost predicate IsBehaviour(trace: seq<State>) {
    |trace| > 0 && Init(trace[0]) && forall i :: 0 <= i < |trace| - 1 ==> Follows(trace, i)
  }

  ghost predicate Follows(trace: seq<State>, i: nat)
    requires i + 1 < |trace|
  {
    Next(trace[i], trace[i + 1])
  }

  lemma InitHasInv(s: State)
    requires Init(s)
    ensures Inv(s)
  {
    PlacedNothing(s.table.graph, s.table.buckets);
    assert InHand(s.threads) == {} && Counting(s.threads) == {};
    assert s.table.graph.Keys == {};
  }

  lemma NextKeepsInv(s: State, s': State)
    requires Inv(s) && Next(s, s')
    ensures Inv(s')
  {
    hide Inv, Advances;
    var t :| Advances(s, s', t);
    StepKeepsInv(s, s', t);
  }

  lemma {:induction false} AlwaysInv(trace: seq<State>, i: nat)
    requires IsBehaviour(trace) && i < |trace|
    ensures Inv(trace[i])
  {
    hide Inv, Init, Next;
    if i == 0 {
      InitHasInv(trace[0]);
    } else {
      AlwaysInv(trace, i - 1);
      assert Follows(trace, i - 1);
      NextKeepsInv(trace[i - 1], trace[i]);
    }
  }

  /** In every state no two nodes of the table have one key, and each is in the bucket of its key. */
  lemma KeysStayUnique(trace: seq<State>, i: nat, p: Ptr, q: Ptr)
    requires IsBehaviour(trace) && i < |trace|
    requires p in trace[i].table.graph && q in trace[i].table.graph
    ensures trace[i].table.graph[p] == trace[i].table.graph[q] ==> p == q
    ensures var tb := trace[i].table;
      |tb.buckets| > 0 && p in tb.buckets[BucketIndex(tb.graph[p], |tb.buckets|)]
  {
    AlwaysInv(trace, i);
  }

  /** `nodeCount_` lags behind the sum of the bucket sizes by the threads that have inserted and not counted. */
  lemma CountLags(trace: seq<State>, i: nat)
    requires IsBehaviour(trace) && i < |trace|
    ensures trace[i].table.nodeCount + |Counting(trace[i].threads)| == Total(trace[i].table.buckets)
  {
    AlwaysInv(trace, i);
    hide LockOk, LocalOk, SlotsOk, HandsDiffer, Placed, Flatten, UniqueKeys;
    FlattenIsTable(trace[i].table.graph, trace[i].table.buckets);
  }

  /** In every state a thread that owns the lock is the only one inside it. */
  lemma OwnerIsAlone(trace: seq<State>, i: nat, t: nat, u: nat)
    requires IsBehaviour(trace) && i < |trace| && t in trace[i].threads && u in trace[i].threads && t != u
    ensures Owns(trace[i].threads[t]) ==> !Owns(trace[i].threads[u]) && !Shares(trace[i].threads[u])
  {
    hide LocalOk, SlotsOk, HandsDiffer, TableOk, CountOk, Owns, Shares;
    AlwaysInv(trace, i);
  }

  /** Whenever a thread owns the lock, `nodeCount_` is the sum of the bucket sizes. */
  lemma CountIsExactUnderTheLock(trace: seq<State>, i: nat, t: nat)
    requires IsBehaviour(trace) && i < |trace| && t in trace[i].threads && Owns(trace[i].threads[t])
    ensures trace[i].table.nodeCount == Total(trace[i].table.buckets)
  {
    hide LocalOk, SlotsOk, HandsDiffer, TableOk, CountOk;
    AlwaysInv(trace, i);
    CountLags(trace, i);
    OwnerCountsLast(trace[i].threads, t);
  }

  lemma OwnerCountsLast(threads: map<nat, Thread>, t: nat)
    requires LockOk(threads) && t in threads && Owns(threads[t])
    ensures |Counting(threads)| == 0
  {
    assert Counting(threads) == {};
  }

  /** Every slot is in exactly one place, and no two threads hold one slot. */
  lemma SlotsAreConserved(trace: seq<State>, i: nat)
    requires IsBehaviour(trace) && i < |trace|
    ensures var tb := trace[i].table;
      && |tb.slots| == |tb.graph| + |tb.free| + |InHand(trace[i].threads)|
      && HandsDiffer(trace[i].threads)
  {
    AlwaysInv(trace, i);
    var tb, hand := trace[i].table, InHand(trace[i].threads);
    assert tb.slots == tb.graph.Keys + tb.free + hand;
    assert |tb.graph| == |tb.graph.Keys|;
  }

  /** Nodes leave the table only in a collection, by a thread that owns the lock. */
  lemma OnlyCollectionsRemove(trace: seq<State>, i: nat, t: nat, p: Ptr)
    requires IsBehaviour(trace) && i + 1 < |trace| && Advances(trace[i], trace[i + 1], t)
    requires p in trace[i].table.graph
    requires p in trace[i + 1].table.graph ==> trace[i + 1].table.graph[p] != trace[i].table.graph[p]
    ensures trace[i].threads[t].Collect? || trace[i].threads[t].GcCollect?
    ensures forall u :: u in trace[i].threads && u != t ==> !Shares(trace[i].threads[u])
  {
    AlwaysInv(trace, i);
    StepRemoves(trace[i], trace[i + 1], t, p);
  }

  /** New slots come only in maintenance, when a collection has freed none, and there is some free one afterwards. */
  lemma SlotsComeWhenNoneIsFree(s: State, s': State, t: nat)
    requires Advances(s, s', t) && s'.table.slots != s.table.slots
    ensures s.threads[t].Extend? && s.table.free == {} && s.table.slots <= s'.table.slots
    ensures s'.table.free == s'.table.slots - s.table.slots != {}
  {
    hide Absent, CollectsTo, Rehashed, Flatten, HaveCells, Goes;
    if Collects(s.table, s'.table, s.threads[t], s'.threads[t]) {
      CollectionKeepsSlots(s.table, s'.table, s.threads[t], s'.threads[t]);
    }
  }

  lemma CollectionKeepsSlots(tb: Table, tb': Table, from: Thread, to: Thread)
    requires Collects(tb, tb', from, to)
    ensures tb'.slots == tb.slots
  {
    hide Restrict, FilterAll;
  }

  lemma StepRemoves(s: State, s': State, t: nat, p: Ptr)
    requires Inv(s) && Advances(s, s', t) && p in s.table.graph
    requires p in s'.table.graph ==> s'.table.graph[p] != s.table.graph[p]
    ensures s.threads[t].Collect? || s.threads[t].GcCollect?
    ensures Owns(s.threads[t])
  {
    hide Inv, Changes, TableOk, SlotsOk, LocalOk, Owns, Candidate;
    StepIsAfter(s, s', t);
    assert !Steady(s.table, s'.table);
    OwnerRemoves(s, s', s.threads[t], s'.threads[t]);
  }

  lemma OwnerRemoves(s: State, s': State, from: Thread, to: Thread)
    requires Changes(s, s', from, to) && Owns(from) && s'.table.graph != s.table.graph
    ensures from.Collect? || from.GcCollect?
  {
    hide Goes, CollectsTo, Absent, Rehashed, Flatten, HaveCells;
  }

  lemma NextKeepsKey(s: State, s': State, p: Ptr)
    requires Inv(s) && Next(s, s') && p in s.table.graph && p in s'.table.graph
    ensures s'.table.graph[p] == s.table.graph[p]
  {
    hide Inv, Advances;
    var t :| Advances(s, s', t);
    StepKeepsKey(s, s', t, p);
  }

  lemma {:induction false} NodeKeepsKey(trace: seq<State>, i: nat, j: nat, p: Ptr)
    requires IsBehaviour(trace) && i <= j < |trace|
    requires forall k :: i <= k <= j ==> p in trace[k].table.graph
    ensures trace[j].table.graph[p] == trace[i].table.graph[p]
    decreases j
  {
    hide Init, Next, Inv;
    if i < j {
      NodeKeepsKey(trace, i, j - 1, p);
      AlwaysInv(trace, j - 1);
      assert Follows(trace, j - 1);
      NextKeepsKey(trace[j - 1], trace[j], p);
    }
  }

  /** What a collection leaves in the table it leaves with its key. */
  lemma CollectKeepsKeys(s: State, s': State, from: Thread, to: Thread, p: Ptr)
    requires Changes(s, s', from, to) && (from.Collect? || from.GcCollect?)
    requires p in s.table.graph && p in s'.table.graph
    ensures s'.table.graph[p] == s.table.graph[p]
  {
    hide Absent, Rehashed, FilterAll;
  }

  lemma StepKeepsKey(s: State, s': State, t: nat, p: Ptr)
    requires Inv(s) && Advances(s, s', t) && p in s.table.graph && p in s'.table.graph
    ensures s'.table.graph[p] == s.table.graph[p]
  {
    if s'.table.graph[p] != s.table.graph[p] {
      StepRemoves(s, s', t, p);
      CollectKeepsKeys(s, s', s.threads[t], s'.threads[t], p);
    }
  }

  /**
    Two calls with one key return the same node, unless a collection removed
    the first one's node before the second one had its answer.
   */
  lemma CallsAgree(trace: seq<State>, i: nat, t: nat, j: nat, u: nat, key: Cell, p: Ptr, q: Ptr)
    requires IsBehaviour(trace) && i <= j < |trace|
    requires t in trace[i].threads && Decided(trace[i].threads[t], key, p)
    requires u in trace[j].threads && Decided(trace[j].threads[u], key, q)
    ensures p == q || exists k :: i <= k <= j && p !in trace[k].table.graph
  {
    AlwaysInv(trace, i);
    AlwaysInv(trace, j);
    assert LocalOk(trace[i].table, trace[i].threads[t]) && LocalOk(trace[j].table, trace[j].threads[u]);
    if forall k :: i <= k <= j ==> p in trace[k].table.graph {
      NodeKeepsKey(trace, i, j, p);
    }
  }
}
