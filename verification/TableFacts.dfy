/**
  Facts about table values: how insertion, sweeping and rehashing move nodes
  between buckets, when a cached answer is right, and when an operator is sure
  to find a free slot.
 */
module TableFacts {
  import opened Nodes
  import opened Diagrams
  import opened Operators
  import opened Demand
  import opened Hashing
  import opened Allocation
  import opened Collections
  import opened Buckets
  import opened OperationCache

  // ---- Buckets

  /** Appending a new node to the bucket of its key. */
  lemma PlacedInsert(g: Graph, s: set<Ptr>, buckets: seq<seq<Ptr>>, r: Ptr, c: Cell)
    requires s <= g.Keys && Placed(g, s, buckets) && r !in s
    requires r in g ==> g[r] == c
    ensures s + {r} <= g[r := c].Keys
    ensures var i := BucketIndex(c, |buckets|);
      Placed(g[r := c], s + {r}, buckets[i := buckets[i] + [r]])
  {
    hide BucketIndex;
    var i := BucketIndex(c, |buckets|);
    var h, after := g[r := c], buckets[i := buckets[i] + [r]];
    forall k, p | 0 <= k < |after| && p in after[k] ensures p in s + {r} && BucketIndex(h[p], |after|) == k {
      if p != r { assert p in buckets[k]; }
    }
    forall p | p in s + {r} ensures p in after[BucketIndex(h[p], |after|)] {
      if p != r { assert p in buckets[BucketIndex(g[p], |buckets|)]; }
    }
    assert r !in buckets[i];
  }

  lemma PlacedNothing(g: Graph, buckets: seq<seq<Ptr>>)
    requires |buckets| > 0 && forall k :: 0 <= k < |buckets| ==> buckets[k] == []
    ensures forall s: seq<Ptr> :: s[..0] == []
    ensures Elements([]) == {} && Placed(g, {}, buckets)
  {
  }

  /** Rehashing one more node. */
  lemma RehashStep(g: Graph, nodes: seq<Ptr>, k: nat, buckets: seq<seq<Ptr>>)
    requires k < |nodes| && Distinct(nodes) && Elements(nodes) == g.Keys
    requires Elements(nodes[..k]) <= g.Keys && Placed(g, Elements(nodes[..k]), buckets)
    ensures nodes[k] in g && Elements(nodes[..k + 1]) <= g.Keys
    ensures var i := BucketIndex(g[nodes[k]], |buckets|);
      Placed(g, Elements(nodes[..k + 1]), buckets[i := buckets[i] + [nodes[k]]])
  {
    hide BucketIndex, Placed;
    var r := nodes[k];
    assert r in Elements(nodes);
    assert forall p :: p in nodes[..k + 1] <==> p in nodes[..k] || p == r;
    assert Elements(nodes[..k + 1]) == Elements(nodes[..k]) + {r};
    forall p | p in nodes[..k + 1] ensures p in g { assert p in Elements(nodes); }
    assert g[r := g[r]] == g;
    PlacedInsert(g, Elements(nodes[..k]), buckets, r, g[r]);
  }

  /** Extracting one more bucket. */
  lemma ExtractStep(g: Graph, buckets: seq<seq<Ptr>>, i: nat, nodes: seq<Ptr>)
    requires Placed(g, g.Keys, buckets) && i < |buckets|
    requires Distinct(nodes) && Elements(nodes) == InBuckets(buckets, i)
    ensures Distinct(nodes + buckets[i]) && Elements(nodes + buckets[i]) == InBuckets(buckets, i + 1)
  {
    BucketMembers(g, g.Keys, buckets, i);
    InBucketsStep(buckets, i);
    forall p | p in buckets[i] ensures p !in nodes {
      BucketsDisjoint(g, g.Keys, buckets, i, p);
      assert p in nodes ==> p in Elements(nodes);
    }
    DistinctConcat(nodes, buckets[i]);
    assert Elements(nodes + buckets[i]) == Elements(nodes) + Elements(buckets[i]);
  }

  lemma NothingLost(frontier: nat, end: nat)
    requires frontier == end
    ensures Range(frontier, end) == {}
  {
  }

  /** What sweeping a bucket leaves, when the dead nodes are those outside `kept`. */
  lemma PlacedSweep(g: Graph, buckets: seq<seq<Ptr>>, swept: seq<seq<Ptr>>, mem: Memory, kept: set<Ptr>)
    requires Placed(g, g.Keys, buckets) && Mirrors(g, mem) && kept <= g.Keys
    requires forall p :: p in g ==> (Dead(mem[p]) <==> p !in kept)
    requires |swept| == |buckets|
    requires forall i, p :: 0 <= i < |buckets| && p in buckets[i] ==> p in mem
    requires forall i :: 0 <= i < |buckets| ==> swept[i] == Select(mem, buckets[i], false)
    ensures Placed(Restrict(g, kept), kept, swept)
  {
    hide BucketIndex, Select, Dead, Mirrors;
    var h := Restrict(g, kept);
    assert h.Keys == kept;
    forall i | 0 <= i < |swept|
      ensures Distinct(swept[i]) && forall p :: p in swept[i] <==> p in buckets[i] && p in kept
    {
      SelectDistinct(mem, buckets[i], false);
      SelectedAreKept(g, buckets[i], mem, kept);
    }
    forall p | p in kept ensures p in swept[BucketIndex(h[p], |swept|)] {
      assert p in buckets[BucketIndex(g[p], |buckets|)];
    }
  }

  lemma SelectedAreKept(g: Graph, bucket: seq<Ptr>, mem: Memory, kept: set<Ptr>)
    requires forall p :: p in bucket ==> p in mem && p in g
    requires forall p :: p in g ==> p in mem && (Dead(mem[p]) <==> p !in kept)
    ensures forall p :: p in Select(mem, bucket, false) <==> p in bucket && p in kept
  {
  }

  /** The nodes in the first `n` buckets. */
  ghost function InBuckets(buckets: seq<seq<Ptr>>, n: nat): set<Ptr>
    requires n <= |buckets|
  {
    set i, p | 0 <= i < n && p in buckets[i] :: p
  }

  lemma InBucketsStep(buckets: seq<seq<Ptr>>, n: nat)
    requires n < |buckets|
    ensures InBuckets(buckets, n + 1) == InBuckets(buckets, n) + Elements(buckets[n])
  {
  }

  lemma InAllBuckets(g: Graph, s: set<Ptr>, buckets: seq<seq<Ptr>>)
    requires s <= g.Keys && Placed(g, s, buckets)
    ensures InBuckets(buckets, |buckets|) == s
  {
    hide BucketIndex;
    forall p | p in s ensures p in InBuckets(buckets, |buckets|) {
      assert p in buckets[BucketIndex(g[p], |buckets|)];
    }
  }

  /** A node of a later bucket is in no earlier one. */
  lemma BucketsDisjoint(g: Graph, s: set<Ptr>, buckets: seq<seq<Ptr>>, n: nat, p: Ptr)
    requires s <= g.Keys && Placed(g, s, buckets) && n < |buckets| && p in buckets[n]
    ensures p !in InBuckets(buckets, n)
  {
    hide BucketIndex;
    assert BucketIndex(g[p], |buckets|) == n;
    forall i | 0 <= i < n ensures p !in buckets[i] {
    }
  }

  predicate BucketIn(g: Graph, nodes: seq<Ptr>) {
    forall p :: p in nodes ==> p in g
  }

  /** `Select` on a bucket of the table. */
  ghost function SelectIn(g: Graph, mem: Memory, nodes: seq<Ptr>, dead: bool): seq<Ptr>
    requires Mirrors(g, mem) && BucketIn(g, nodes)
  {
    Select(mem, nodes, dead)
  }

  lemma NothingSwept()
    ensures Distinct([]) && forall buckets: seq<seq<Ptr>> :: InBuckets(buckets, 0) == {}
    ensures Elements([]) == {}
  {
  }

  /** Sweeping one more bucket appends exactly its dead nodes. */
  lemma SweptBucket(g: Graph, buckets: seq<seq<Ptr>>, mem: Memory, kept: set<Ptr>, i: nat, freed: seq<Ptr>)
    requires Mirrors(g, mem) && Placed(g, g.Keys, buckets) && i < |buckets|
    requires forall p :: p in g ==> (Dead(mem[p]) <==> p !in kept)
    requires Distinct(freed) && Elements(freed) == InBuckets(buckets, i) - kept
    requires forall p :: p in buckets[i] ==> p in mem
    ensures var more := freed + Select(mem, buckets[i], true);
      Distinct(more) && Elements(more) == InBuckets(buckets, i + 1) - kept
  {
    BucketMembers(g, g.Keys, buckets, i);
    SelectDistinct(mem, buckets[i], true);
    var dead := Select(mem, buckets[i], true);
    InBucketsStep(buckets, i);
    forall p | p in dead ensures p !in freed {
      BucketsDisjoint(g, g.Keys, buckets, i, p);
      assert p in freed ==> p in Elements(freed);
    }
    DistinctConcat(freed, dead);
    forall p ensures p in Elements(freed + dead) <==> p in InBuckets(buckets, i + 1) - kept {
      assert p in Elements(freed + dead) <==> p in Elements(freed) || p in dead;
      assert p in InBuckets(buckets, i + 1) <==> p in InBuckets(buckets, i) || p in buckets[i];
    }
  }

  lemma DistinctConcat(a: seq<Ptr>, b: seq<Ptr>)
    requires Distinct(a) && Distinct(b) && forall p :: p in b ==> p !in a
    ensures Distinct(a + b)
  {
    forall i, j | 0 <= i < j < |a + b| ensures (a + b)[i] != (a + b)[j] {
      assert (a + b)[i] == if i < |a| then a[i] else b[i - |a|];
      assert (a + b)[j] == if j < |a| then a[j] else b[j - |a|];
      if i < |a| <= j { assert b[j - |a|] in b; }
    }
  }

  lemma BucketMembers(g: Graph, s: set<Ptr>, buckets: seq<seq<Ptr>>, i: nat)
    requires s <= g.Keys && Placed(g, s, buckets) && i < |buckets|
    ensures forall p :: p in buckets[i] ==> p in s
    ensures Distinct(buckets[i])
  {
  }

  // ---- Roots and marks

  ghost function Roots(g: Graph, mem: Memory): set<Ptr>
    requires Mirrors(g, mem)
  {
    set p | p in g && mem[p].refCount != 0
  }

  ghost function Marked(g: Graph, mem: Memory): set<Ptr>
    requires Mirrors(g, mem)
  {
    set p | p in g && mem[p].inUse
  }

  /**
    What one call of `markRec` on `p` adds to the marks `m`: `p` itself, only
    nodes below `p`, and with every node it marks also that node's children.
    Nodes marked before may still wait for their children, further up the
    recursion.
   */
  ghost predicate MarkStep(g: Graph, m: set<Ptr>, m': set<Ptr>, p: Ptr)
    requires WellFormed(g) && p in g
  {
    && m <= m' <= g.Keys && p in m'
    && (forall q :: q in m' && q !in m ==>
      q in Reach(g, p) && (IsTerminal(g[q]) || (g[q].low in m' && g[q].high in m')))
  }

  lemma MarkCompose(g: Graph, m0: set<Ptr>, m1: set<Ptr>, m2: set<Ptr>, p: Ptr)
    requires WellFormed(g) && p in g && m0 <= g.Keys && !IsTerminal(g[p])
    requires g[p].low in g && g[p].high in g
    requires MarkStep(g, m0 + {p}, m1, g[p].low) && MarkStep(g, m1, m2, g[p].high)
    ensures MarkStep(g, m0, m2, p)
  {
    forall q | q in m2 && q !in m0
      ensures q in Reach(g, p) && (IsTerminal(g[q]) || (g[q].low in m2 && g[q].high in m2)) {
    }
  }

  /** What a call of `markRec` reads of its node. */
  lemma ChildrenBelow(g: Graph, mem: Memory, p: Ptr)
    requires WellFormed(g) && Mirrors(g, mem) && p in g
    ensures p in mem && mem[p].low == g[p].low && mem[p].high == g[p].high
    ensures mem[p].inUse <==> p in Marked(g, mem)
    ensures IsTerminal(g[p]) <==> g[p].low == NULL
    ensures IsTerminal(g[p]) <==> g[p].high == NULL
    ensures !IsTerminal(g[p]) ==> g[p].low in g && g[p].level < g[g[p].low].level <= UINT_MAX
    ensures !IsTerminal(g[p]) ==> g[p].high in g && g[p].level < g[g[p].high].level <= UINT_MAX
  {
    assert ProperNode(g, p);
    if !IsTerminal(g[p]) {
      assert ProperNode(g, g[p].low) && ProperNode(g, g[p].high);
    }
  }

  lemma MarkedAlready(g: Graph, mem: Memory, p: Ptr)
    requires WellFormed(g) && Mirrors(g, mem) && p in Marked(g, mem)
    ensures SameButMarks(mem, mem) && MarkStep(g, Marked(g, mem), Marked(g, mem), p)
  {
  }

  lemma MarkedOne(g: Graph, mem: Memory, mem': Memory, p: Ptr)
    requires Mirrors(g, mem) && Mirrors(g, mem') && p in g && p in mem && mem' == mem[p := mem[p].(inUse := true)]
    ensures Marked(g, mem') == Marked(g, mem) + {p}
  {
  }

  /** The node was marked, then its children, if it has any. */
  lemma MarkedBoth(g: Graph, mem0: Memory, mem1: Memory, mem2: Memory, mem3: Memory, p: Ptr)
    requires WellFormed(g) && p in g && Mirrors(g, mem0) && Mirrors(g, mem1) && Mirrors(g, mem2) && Mirrors(g, mem3)
    requires SameButMarks(mem0, mem1) && SameButMarks(mem1, mem2) && SameButMarks(mem2, mem3)
    requires Marked(g, mem1) == Marked(g, mem0) + {p}
    requires IsTerminal(g[p]) ==> mem3 == mem2 == mem1
    requires !IsTerminal(g[p]) ==> g[p].low in g && g[p].high in g
    requires !IsTerminal(g[p]) ==> MarkStep(g, Marked(g, mem1), Marked(g, mem2), g[p].low)
    requires !IsTerminal(g[p]) ==> MarkStep(g, Marked(g, mem2), Marked(g, mem3), g[p].high)
    ensures SameButMarks(mem0, mem3) && MarkStep(g, Marked(g, mem0), Marked(g, mem3), p)
  {
    MarksCompose(mem0, mem1, mem2);
    MarksCompose(mem0, mem2, mem3);
    var m0, m1, m2, m3 := Marked(g, mem0), Marked(g, mem1), Marked(g, mem2), Marked(g, mem3);
    assert m0 <= g.Keys && m3 <= g.Keys;
    hide SameButMarks, Mirrors, Marked, WellFormed;
    if !IsTerminal(g[p]) {
      MarkCompose(g, m0, m2, m3, p);
    }
  }

  /** Marks that were closed are closed again when a top-level call returns. */
  lemma MarkStepCloses(g: Graph, m: set<Ptr>, m': set<Ptr>, p: Ptr)
    requires WellFormed(g) && p in g && Closed(g, m) && MarkStep(g, m, m', p)
    ensures Closed(g, m') && m' == m + Reach(g, p)
  {
    assert Closed(g, m');
    ReachIsLeast(g, p, m');
  }

  /** After marking, the sweep's test tells the kept nodes from the others. */
  lemma DeadAreUnkept(g: Graph, mem: Memory, mem': Memory, kept: set<Ptr>)
    requires Mirrors(g, mem) && Mirrors(g, mem') && SameButMarks(mem, mem')
    requires Marked(g, mem') == kept && Roots(g, mem) <= kept <= g.Keys
    ensures forall p :: p in g ==> (Dead(mem'[p]) <==> p !in kept)
  {
  }

  /** Once the marks are cleared the kept nodes are as before. */
  lemma MarksRestored(g: Graph, mem0: Memory, mem1: Memory, mem2: Memory, kept: set<Ptr>)
    requires Mirrors(g, mem0) && Marked(g, mem0) == {} && kept <= g.Keys
    requires SameButMarks(mem0, mem1) && SameButMarks(mem1, mem2)
    requires forall p :: p in kept ==> p in mem2 && !mem2[p].inUse
    ensures SameNodes(kept, mem0, mem2)
  {
    forall p | p in kept ensures p in mem2 && mem2[p] == mem0[p] {
      assert p !in Marked(g, mem0);
    }
  }

  lemma KeptSize(all: set<Ptr>, kept: set<Ptr>, freed: seq<Ptr>)
    requires kept <= all && NULL !in all && Distinct(freed) && Elements(freed) == all - kept
    ensures |kept| + |freed| == |all|
    ensures NULL !in freed && forall p :: p in freed <==> p in all && p !in kept
  {
    DistinctSize(freed);
    SubsetSize(kept, all);
    assert forall p :: p in freed <==> p in Elements(freed);
  }

  /** The restricted graph mirrors the memory after the sweep, with the same roots and no marks. */
  lemma SameAfterFree(all: set<Ptr>, kept: set<Ptr>, freed: seq<Ptr>, mem0: Memory, mem1: Memory, mem2: Memory)
    requires SameNodes(kept, mem0, mem1) && kept <= all && forall p :: p in freed <==> p in all && p !in kept
    requires forall p :: p in mem1 && p !in freed ==> p in mem2 && mem2[p] == mem1[p]
    ensures SameNodes(kept, mem0, mem2)
  {
  }

  lemma SurvivorsUnchanged(g: Graph, mem: Memory, mem': Memory, kept: set<Ptr>)
    requires Mirrors(g, mem) && Marked(g, mem) == {} && UniqueKeys(g)
    requires Roots(g, mem) <= kept <= g.Keys && SameNodes(kept, mem, mem')
    ensures var h := Restrict(g, kept);
      && h.Keys == kept && UniqueKeys(h)
      && Mirrors(h, mem') && Marked(h, mem') == {} && Roots(h, mem') == Roots(g, mem)
  {
    var h := Restrict(g, kept);
    assert forall p :: p in kept ==> p !in Marked(g, mem);
  }

  lemma MemoryExtended(g: Graph, mem: Memory, mem': Memory)
    requires Mirrors(g, mem) && forall p :: p in mem ==> p in mem' && mem'[p] == mem[p]
    ensures Mirrors(g, mem') && Marked(g, mem') == Marked(g, mem) && Roots(g, mem') == Roots(g, mem)
  {
  }

  /** Allocating a slot outside the table changes no node of it. */
  lemma CandidateOutside(g: Graph, mem: Memory, mem': Memory, r: Ptr)
    requires Mirrors(g, mem) && Marked(g, mem) == {} && r !in g
    requires r in mem' && !mem'[r].inUse && mem' == mem[r := mem'[r]]
    ensures Mirrors(g, mem') && Marked(g, mem') == {}
    ensures SameNodes(g.Keys, mem, mem')
    ensures Mirrors(g[r := CellOf(mem'[r])], mem') && Marked(g[r := CellOf(mem'[r])], mem') == {}
  {
    assert forall p :: p in g ==> p !in Marked(g, mem);
  }

  /**
    Inserting a key after a collection gives a well-formed table exactly when
    the collection kept the key's children.
   */
  lemma InsertAfterMaintenance(g: Graph, roots: set<Ptr>, r: Ptr, c: Cell)
    requires WellFormed(g) && roots <= g.Keys && ProperKey(g, c)
    requires r != NULL && r !in ReachAll(g, roots) && forall p :: p in g ==> g[p] != c
    ensures var kept := ReachAll(g, roots);
      WellFormed(Restrict(g, kept)[r := c]) <==> c.level >= TERMINAL_LEVEL || (c.low in kept && c.high in kept)
  {
    ReachAllIsLeastClosed(g, roots);
    InsertIntoClosed(g, ReachAll(g, roots), r, c);
  }

  lemma InsertIntoClosed(g: Graph, kept: set<Ptr>, r: Ptr, c: Cell)
    requires WellFormed(g) && Closed(g, kept) && ProperKey(g, c)
    requires r != NULL && r !in kept && forall p :: p in g ==> g[p] != c
    ensures WellFormed(Restrict(g, kept)[r := c]) <==> c.level >= TERMINAL_LEVEL || (c.low in kept && c.high in kept)
  {
    hide UniqueKeys, Closed;
    var small := Restrict(g, kept);
    var h := small[r := c];
    RestrictKeepsMeaning(g, kept);
    if IsTerminal(c) || (c.low in kept && c.high in kept) {
      InsertKeepsWellFormed(small, r, c);
    } else {
      assert WellFormed(h) ==> ProperNode(h, r);
    }
  }

  lemma MirrorsAt(g: Graph, mem: Memory, p: Ptr)
    requires Mirrors(g, mem) && p in g
    ensures p in mem && CellOf(mem[p]) == g[p]
  {
  }

  lemma NothingLeftOut(part: set<Ptr>, all: set<Ptr>)
    requires part <= all
    ensures all - part == {} ==> part == all
  {
    if part != all {
      var p :| p in all && p !in part;
      assert p in all - part;
    }
  }

  lemma SameNodesHere(g: Graph, mem: Memory)
    requires Mirrors(g, mem)
    ensures SameNodes(g.Keys, mem, mem)
  {
  }

  /** The table may have gained unreferenced nodes; those it had are the same, reference counts included. */
  ghost predicate Grown(g: Graph, mem: Memory, g': Graph, mem': Memory) {
    && Extends(g, g') && SameNodes(g.Keys, mem, mem')
    && (forall p :: p in g' && p !in g ==> p in mem' && mem'[p].refCount == 0)
  }

  /** The reference count of an address, 0 where the table has no node. */
  ghost function RefOf(g: Graph, mem: Memory, p: Ptr): nat {
    if p in g && p in mem then mem[p].refCount else 0
  }

  function One(b: bool): nat {
    if b then 1 else 0
  }

  lemma GrownKeepsRefs(g: Graph, mem: Memory, g': Graph, mem': Memory)
    requires Grown(g, mem, g', mem')
    ensures forall p :: RefOf(g', mem', p) == RefOf(g, mem, p)
  {
  }

  lemma GrownHere(g: Graph, mem: Memory)
    requires Mirrors(g, mem)
    ensures Grown(g, mem, g, mem)
  {
  }

  lemma GrownAt(g: Graph, mem: Memory, g': Graph, mem': Memory)
    requires Grown(g, mem, g', mem')
    ensures Extends(g, g')
  {
  }

  lemma GrownTwice(g0: Graph, m0: Memory, g1: Graph, m1: Memory, g2: Graph, m2: Memory)
    requires Grown(g0, m0, g1, m1) && Grown(g1, m1, g2, m2)
    ensures Grown(g0, m0, g2, m2)
  {
  }

  /** A key no node has is in no bucket. */
  lemma KeyAbsentFromBucket(g: Graph, mem: Memory, buckets: seq<seq<Ptr>>, i: nat, c: Cell)
    requires Mirrors(g, mem) && Placed(g, g.Keys, buckets) && i < |buckets| && NULL !in g
    requires forall p :: p in g ==> g[p] != c
    ensures NULL !in buckets[i]
    ensures forall p :: p in buckets[i] ==> p in mem && CellOf(mem[p]) != c
  {
    BucketMembers(g, g.Keys, buckets, i);
  }

  lemma KeyInserted(g: Graph, mem: Memory, r: Ptr, c: Cell)
    requires Mirrors(g, mem) && UniqueKeys(g) && r !in g && r in mem && CellOf(mem[r]) == c
    requires forall p :: p in g ==> g[p] != c
    ensures Mirrors(g[r := c], mem) && UniqueKeys(g[r := c])
    ensures g[r := c].Keys == g.Keys + {r} && |g[r := c]| == |g| + 1
  {
    assert |g[r := c].Keys| == |g.Keys| + 1;
  }

  lemma EmptyTable(buckets: seq<seq<Ptr>>, mem: Memory, es: seq<Entry>, intended: bool)
    requires |buckets| > 0 && forall k :: 0 <= k < |buckets| ==> buckets[k] == []
    requires forall e :: e in es ==> e.node == NULL
    ensures WellFormed(map[]) && Placed(map[], {}, buckets) && Mirrors(map[], mem) && Marked(map[], mem) == {}
    ensures EntriesOk(map[], es, intended)
  {
  }

  lemma SameNodesExtended(s: set<Ptr>, mem: Memory, mem': Memory, mem'': Memory)
    requires SameNodes(s, mem, mem') && forall p :: p in mem' ==> p in mem'' && mem''[p] == mem'[p]
    ensures SameNodes(s, mem, mem'')
  {
  }

  /**
    Creating the node `r` may have collected garbage, but the nodes of `kept`
    are as before, nothing else appeared, and no reference was lost.
   */
  ghost predicate Survived(g: Graph, mem: Memory, kept: set<Ptr>, g': Graph, mem': Memory, r: Ptr) {
    && (forall p :: p in kept && p in g ==> p in g' && g'[p] == g[p])
    && (forall p :: p in g' ==> p in g || p == r)
    && (forall p :: RefOf(g', mem', p) == RefOf(g, mem, p))
  }

  lemma GrownSurvives(g: Graph, mem: Memory, kept: set<Ptr>, g': Graph, mem': Memory, r: Ptr)
    requires Grown(g, mem, g', mem') && forall p :: p in g' ==> p in g || p == r
    ensures Survived(g, mem, kept, g', mem', r)
  {
    GrownKeepsRefs(g, mem, g', mem');
  }

  lemma CollectedSurvives(g: Graph, mem: Memory, kept: set<Ptr>, g': Graph, mem': Memory, r: Ptr, c: Cell)
    requires Mirrors(g, mem) && Roots(g, mem) <= kept <= g.Keys && r !in kept
    requires g' == Restrict(g, kept)[r := c] && SameNodes(kept, mem, mem')
    requires r in mem' && mem'[r].refCount == 0
    ensures Survived(g, mem, kept, g', mem', r)
  {
    forall p ensures RefOf(g', mem', p) == RefOf(g, mem, p) {
      if p !in kept && p in g {
        assert p !in Roots(g, mem);
      }
    }
  }

  lemma TerminalsKept(g: Graph, mem: Memory, f: Ptr, t: Ptr)
    requires WellFormed(g) && Mirrors(g, mem) && RefOf(g, mem, f) > 0 && RefOf(g, mem, t) > 0
    ensures f in ReachAll(g, Roots(g, mem)) && t in ReachAll(g, Roots(g, mem))
    ensures Roots(g, mem) <= ReachAll(g, Roots(g, mem)) <= g.Keys
  {
  }

  lemma RestrictAt(g: Graph, kept: set<Ptr>, p: Ptr)
    requires p in g && p in kept
    ensures p in Restrict(g, kept) && Restrict(g, kept)[p] == g[p]
  {
  }

  lemma CollectedKeepsRefs(g: Graph, mem: Memory, kept: set<Ptr>, g': Graph, mem': Memory)
    requires Mirrors(g, mem) && Roots(g, mem) <= kept <= g.Keys && g' == Restrict(g, kept) && SameNodes(kept, mem, mem')
    ensures forall p :: RefOf(g', mem', p) == RefOf(g, mem, p)
  {
    forall p ensures RefOf(g', mem', p) == RefOf(g, mem, p) {
      if p !in kept && p in g {
        assert p !in Roots(g, mem);
      }
    }
  }

  lemma ReferencedIsRoot(g: Graph, mem: Memory, p: Ptr)
    requires Mirrors(g, mem)
    ensures p in Roots(g, mem) <==> RefOf(g, mem, p) > 0
  {
  }

  /** Referenced nodes stay referenced when counts only rise. */
  lemma RootsRise(g: Graph, mem: Memory, g': Graph, mem': Memory, r: Ptr)
    requires Mirrors(g, mem) && Mirrors(g', mem')
    requires forall p :: RefOf(g', mem', p) == RefOf(g, mem, p) + One(p == r)
    ensures Roots(g, mem) <= Roots(g', mem')
  {
    forall p | p in Roots(g, mem) ensures p in Roots(g', mem') {
      assert RefOf(g', mem', p) == RefOf(g, mem, p) + One(p == r);
    }
  }

  lemma VarKeysProper(g: Graph, f: Ptr, t: Ptr, id: nat)
    requires AreTerminals(g, f, t) && f != t && id < TERMINAL_LEVEL
    ensures ProperKey(g, Cell(id, f, t)) && ProperKey(g, Cell(id, t, f))
  {
  }

  lemma NothingIsClosed(g: Graph)
    ensures Closed(g, {})
  {
  }

  /** Only mark flags may differ. */
  ghost predicate SameButMarks(mem: Memory, mem': Memory) {
    && (forall p :: p in mem <==> p in mem')
    && (forall p :: p in mem ==> mem'[p] == mem[p].(inUse := mem'[p].inUse))
  }

  lemma MarksAlike(g: Graph, mem: Memory, mem': Memory)
    requires Mirrors(g, mem) && Mirrors(g, mem')
    ensures SameButMarks(mem, mem)
    ensures SameButMarks(mem, mem') ==> Roots(g, mem') == Roots(g, mem)
  {
  }

  lemma MarksCompose(mem0: Memory, mem1: Memory, mem2: Memory)
    requires SameButMarks(mem0, mem1) && SameButMarks(mem1, mem2)
    ensures SameButMarks(mem0, mem2)
  {
  }

  lemma RootsAreNodes(g: Graph, mem: Memory)
    requires Mirrors(g, mem)
    ensures Roots(g, mem) <= g.Keys
  {
  }

  /** Both memories have the same node at every address of `s`. */
  ghost predicate SameNodes(s: set<Ptr>, mem: Memory, mem': Memory) {
    forall p :: p in s ==> p in mem && p in mem' && mem'[p] == mem[p]
  }

  /** Marking does not disturb the allocator. */
  lemma PoolMarks(mem: Memory, mem': Memory, freeList: Ptr, live: set<Ptr>, free: seq<Ptr>, lost: set<Ptr>,
      frontier: nat, end: nat)
    requires Pool(mem, freeList, live, free, lost, frontier, end) && SameButMarks(mem, mem')
    ensures Pool(mem', freeList, live, free, lost, frontier, end)
  {
    FreeListFrame(mem, mem', freeList, free);
  }

  // ---- Cached answers

  /**
    What an operator code stands for in the cache. With the recursion as
    written, code 5 is filled with differences; with the intended recursion,
    with implications.
   */
  function Meaning(code: nat, intended: bool): Op
    requires code <= 5
  {
    if code == 0 then And else if code == 1 then Or else if code == 2 then Not
    else if code == 3 then Xor else if code == 4 || !intended then Diff else Imp
  }

  /** An entry is empty, or names a node denoting its operator on its operands. */
  ghost predicate EntryOk(g: Graph, e: Entry, intended: bool)
    requires WellFormed(g)
  {
    e.node == NULL ||
    (&& e.op <= 5 && e.node in g && e.left in g
     && if e.op == 2 then e.right == NULL && IsResult(g, Not, e.left, e.left, e.node)
        else e.right in g && IsResult(g, Meaning(e.op, intended), e.left, e.right, e.node))
  }

  /**
    The cache takes swapped operands for the same query exactly under the codes
    of operators that commute. `Not` has one operand, with null for the other.
   */
  lemma SwappedQueriesAreSame(op: Op)
    requires op != Not
    ensures IsCommutative(Code(op)) <==> forall a, b :: Apply(op, a, b) == Apply(op, b, a)
  {
    assert Apply(Diff, true, false) != Apply(Diff, false, true);
    assert Apply(Imp, true, false) != Apply(Imp, false, true);
  }

  /** Lookups that hit return the right node, also when the operands come swapped. */
  lemma HitIsResult(g: Graph, e: Entry, intended: bool, x: Ptr, y: Ptr, code: nat)
    requires WellFormed(g) && EntryOk(g, e, intended) && e.node != NULL
    requires x in g && code <= 5 && Matches(e, x, y, code)
    requires if code == 2 then y == NULL else y in g
    ensures IsResult(g, Meaning(code, intended), x, if code == 2 then x else y, e.node)
  {
    if code == 2 {
      assert e.left == x;
    }
  }

  /** A cached answer stays right as long as the nodes it names stay. */
  lemma EntryExtends(g: Graph, h: Graph, e: Entry, intended: bool)
    requires WellFormed(g) && WellFormed(h) && Extends(g, h) && EntryOk(g, e, intended)
    ensures EntryOk(h, e, intended)
  {
    if e.node != NULL {
      ResultStable(g, h, if e.op == 2 then Not else Meaning(e.op, intended), e.left,
        if e.op == 2 then e.left else e.right, e.node);
    }
  }

  ghost predicate EntriesOk(g: Graph, es: seq<Entry>, intended: bool)
    requires WellFormed(g)
  {
    forall i :: 0 <= i < |es| ==> EntryOk(g, es[i], intended)
  }

  lemma EntriesExtend(g: Graph, h: Graph, es: seq<Entry>, intended: bool)
    requires WellFormed(g) && WellFormed(h) && Extends(g, h) && EntriesOk(g, es, intended)
    ensures EntriesOk(h, es, intended)
  {
    forall i | 0 <= i < |es| ensures EntryOk(h, es[i], intended) {
      EntryExtends(g, h, es[i], intended);
    }
  }

  lemma EntriesWritten(g: Graph, es: seq<Entry>, intended: bool, i: nat, e: Entry)
    requires WellFormed(g) && EntriesOk(g, es, intended) && i < |es| && EntryOk(g, e, intended)
    ensures EntriesOk(g, es[i := e], intended)
  {
  }

  lemma EntriesEmpty(g: Graph, es: seq<Entry>, intended: bool)
    requires WellFormed(g) && forall i :: 0 <= i < |es| ==> es[i].node == NULL
    ensures EntriesOk(g, es, intended)
  {
  }

  // ---- Terminals

  ghost predicate AreTerminals(g: Graph, f: Ptr, t: Ptr) {
    f in g && g[f] == FALSE_CELL && t in g && g[t] == TRUE_CELL
  }

  /** What the two constants denote, and that every other node tests a variable. */
  lemma TerminalsEval(g: Graph, f: Ptr, t: Ptr, x: Ptr)
    requires WellFormed(g) && AreTerminals(g, f, t) && x in g
    ensures f != t
    ensures forall env: Env :: !Eval(g, f, env) && Eval(g, t, env)
    ensures if x == f || x == t then g[x].level >= TERMINAL_LEVEL else g[x].level < TERMINAL_LEVEL
  {
    assert ProperNode(g, x);
  }

  /** The cases an operator answers without recursion. */
  predicate Shortcut(op: Op, f: Ptr, t: Ptr, x: Ptr, y: Ptr, r: Ptr) {
    match op
    case And => (x == y && r == x) || ((x == f || y == f) && r == f) || (x == t && r == y) || (y == t && r == x)
    case Or => (x == y && r == x) || ((x == t || y == t) && r == t) || (x == f && r == y) || (y == f && r == x)
    case Not => (x == t && r == f) || (x == f && r == t)
    case Xor => (x == y && r == f) || (x == f && r == y) || (y == f && r == x)
    case Diff => ((x == y || x == f || y == t) && r == f) || (y == f && r == x)
    case Imp => ((x == f || y == t) && r == t) || (x == t && r == y)
  }

  /** Every shortcut denotes its operator. */
  lemma ShortcutIsResult(g: Graph, f: Ptr, t: Ptr, op: Op, x: Ptr, y: Ptr, r: Ptr)
    requires WellFormed(g) && AreTerminals(g, f, t) && x in g && y in g
    requires Shortcut(op, f, t, x, y, r)
    ensures IsResult(g, op, x, y, r)
  {
    TerminalsEval(g, f, t, x);
  }

  /** What `bddImp` returns as it is written: its recursion is on differences. */
  ghost predicate ImpAsWritten(g: Graph, f: Ptr, t: Ptr, x: Ptr, y: Ptr, r: Ptr)
    requires WellFormed(g) && x in g && y in g
  {
    if x == f || y == t then r == t
    else if x == t then r == y
    else IsResult(g, Diff, x, y, r)
  }

  /** As written, `bddImp` gives the implication exactly when a shortcut applies. */
  lemma ImpAsWrittenIsRightIff(g: Graph, f: Ptr, t: Ptr, x: Ptr, y: Ptr, r: Ptr)
    requires WellFormed(g) && AreTerminals(g, f, t) && x in g && y in g
    requires ImpAsWritten(g, f, t, x, y, r)
    ensures IsResult(g, Imp, x, y, r) <==> x == f || y == t || x == t
  {
    TerminalsEval(g, f, t, x);
    if x == f || y == t || x == t {
      ShortcutIsResult(g, f, t, Imp, x, y, r);
    } else {
      var env: Env := iset{};
      assert Eval(g, r, env) == Apply(Diff, Eval(g, x, env), Eval(g, y, env));
      assert Apply(Imp, Eval(g, x, env), Eval(g, y, env)) != Eval(g, r, env);
    }
  }

  /** Without a shortcut it gives the very node `bddDiff` gives, the complement of the implication. */
  lemma ImpAsWrittenIsDiff(g: Graph, f: Ptr, t: Ptr, x: Ptr, y: Ptr, r: Ptr, d: Ptr)
    requires WellFormed(g) && AreTerminals(g, f, t) && x in g && y in g
    requires ImpAsWritten(g, f, t, x, y, r) && IsResult(g, Diff, x, y, d)
    requires x != f && y != t && x != t
    ensures r == d
    ensures forall env: Env :: Eval(g, r, env) == !Apply(Imp, Eval(g, x, env), Eval(g, y, env))
  {
    ResultIsUnique(g, Diff, x, y, r, d);
  }

  lemma StaysWhole(g: Graph, p: Ptr, m: nat)
    requires p in g && m < g[p].level
    ensures Cofactor(g, p, m, false) == p && Cofactor(g, p, m, true) == p
  {
  }

  /** Unreferenced nodes more: the roots are the same, and so is what a collection would keep. */
  lemma KeptGrown(g: Graph, mem: Memory, h: Graph, mem': Memory)
    requires WellFormed(g) && WellFormed(h) && Mirrors(g, mem) && Mirrors(h, mem') && Grown(g, mem, h, mem')
    ensures Roots(h, mem') == Roots(g, mem) && ReachAll(h, Roots(h, mem')) == ReachAll(g, Roots(g, mem))
    ensures Restrict(h, ReachAll(g, Roots(g, mem))) == Restrict(g, ReachAll(g, Roots(g, mem)))
  {
    hide *;
    RootsGrown(g, mem, h, mem');
    RootsAreNodes(g, mem);
    GrownAt(g, mem, h, mem');
    ReachAllExtends(g, h, Roots(g, mem));
    ReachAllIsLeastClosed(g, Roots(g, mem));
    RestrictGrown(g, h, ReachAll(g, Roots(g, mem)));
  }

  lemma RootsGrown(g: Graph, mem: Memory, h: Graph, mem': Memory)
    requires Mirrors(g, mem) && Mirrors(h, mem') && Grown(g, mem, h, mem')
    ensures Roots(h, mem') == Roots(g, mem)
  {
  }

  lemma RestrictGrown(g: Graph, h: Graph, kept: set<Ptr>)
    requires Extends(g, h) && kept <= g.Keys
    ensures Restrict(h, kept) == Restrict(g, kept)
  {
  }

  /** A root made after a collection that kept the operands and both parts denotes the operation. */
  lemma RootInPlace(g: Graph, h: Graph, kept: set<Ptr>, op: Op, x: Ptr, y: Ptr, m: nat, low: Ptr, high: Ptr, r: Ptr)
    requires WellFormed(g) && WellFormed(h) && Extends(g, h) && Closed(g, kept)
    requires {x, y, low, high} <= kept && r !in kept && x in h && y in h && Expanded(h, op, x, y, m, low, high)
    requires WellFormed(Restrict(g, kept)[r := Cell(m, low, high)])
    ensures IsResult(Restrict(g, kept)[r := Cell(m, low, high)], op, x, y, r)
  {
    var w := Restrict(g, kept);
    var k := w[r := Cell(m, low, high)];
    RestrictBetween(g, h, kept, r, Cell(m, low, high));
    hide Extends, Closed, Restrict, IsResult;
    RestrictKeepsMeaning(g, kept);
    hide WellFormed;
    CofactorsCommon(w, h, x, m);
    CofactorsCommon(w, h, y, m);
    CofactorsCommon(w, k, x, m);
    CofactorsCommon(w, k, y, m);
    ResultThrough(w, h, k, op, Cofactor(h, x, m, false), Cofactor(h, y, m, false), low);
    ResultThrough(w, h, k, op, Cofactor(h, x, m, true), Cofactor(h, y, m, true), high);
    hide Cofactor;
    CombineIsResult(k, op, x, y, m, low, high, r);
  }

  /** Both parts' nodes are kept exactly when kept nodes denote both parts. */
  lemma PartsOfKept(g: Graph, h: Graph, roots: set<Ptr>, op: Op, x: Ptr, y: Ptr, m: nat, low: Ptr, high: Ptr)
    requires WellFormed(g) && WellFormed(h) && Extends(g, h) && roots <= g.Keys && x in g && y in g
    requires Parting(g, op, x, y, m) && low in h && high in h
    requires Den(h, low) == PartAnswer(g, op, x, y, false) && Den(h, high) == PartAnswer(g, op, x, y, true)
    ensures Closed(g, ReachAll(g, roots)) && ReachAll(g, roots) <= g.Keys
    ensures low in ReachAll(g, roots) && high in ReachAll(g, roots) <==> PartsIn(g, op, x, y, ReachAll(g, roots))
  {
    ReachAllIsLeastClosed(g, roots);
    hide ReachAll, WellFormed, Extends, PartAnswer, Dens, Den;
    PartKept(g, h, ReachAll(g, roots), PartAnswer(g, op, x, y, false), low);
    PartKept(g, h, ReachAll(g, roots), PartAnswer(g, op, x, y, true), high);
  }

  lemma NothingAdded(g: Graph, h: Graph)
    requires Extends(g, h) && |h| == |g|
    ensures h == g
  {
    KeysExtend(g, h);
    assert |g.Keys| == |g| && |h.Keys| == |h|;
    SameSizeSubset(g.Keys, h.Keys);
  }

  lemma SameThrough(g: Graph, mem: Memory, h: Graph, mem1: Memory, kept: set<Ptr>, mem2: Memory)
    requires Grown(g, mem, h, mem1) && kept <= g.Keys && SameNodes(kept, mem1, mem2)
    ensures SameNodes(kept, mem, mem2)
  {
  }

  /** One unreferenced node on top of what a collection kept. */
  lemma GrownOnKept(g: Graph, kept: set<Ptr>, mem: Memory, k: Graph, mem2: Memory, r: Ptr)
    requires kept <= g.Keys && SameNodes(kept, mem, mem2) && r !in kept && r in k && k == Restrict(g, kept)[r := k[r]]
    requires r in mem2 && mem2[r].refCount == 0
    ensures Grown(Restrict(g, kept), mem2, k, mem2)
  {
  }

  lemma KeptHere(g: Graph, h: Graph, kept: set<Ptr>, k: Graph, r: Ptr, x: Ptr, y: Ptr, f: Ptr, t: Ptr)
    requires {x, y, f, t} <= kept && kept <= g.Keys && r !in kept && r in k && k == Restrict(g, kept)[r := k[r]]
    requires Extends(g, h) && AreTerminals(h, f, t)
    ensures x in k && y in k && AreTerminals(k, f, t)
  {
    assert h[f] == g[f] && h[t] == g[t];
  }

  lemma RestrictBetween(g: Graph, h: Graph, kept: set<Ptr>, r: Ptr, c: Cell)
    requires Extends(g, h) && kept <= g.Keys && r !in kept
    ensures var w := Restrict(g, kept); w.Keys == kept && Extends(w, h) && Extends(w, w[r := c])
  {
  }

  lemma CofactorsCommon(w: Graph, h: Graph, p: Ptr, m: nat)
    requires WellFormed(w) && Extends(w, h) && p in w && m < TERMINAL_LEVEL && p in h && m <= h[p].level
    ensures h[p] == w[p]
    ensures Cofactor(h, p, m, false) in w && Cofactor(h, p, m, false) == Cofactor(w, p, m, false)
    ensures Cofactor(h, p, m, true) in w && Cofactor(h, p, m, true) == Cofactor(w, p, m, true)
    ensures Cofactor(h, p, m, false) in h && Cofactor(h, p, m, true) in h
  {
    assert h[p] == w[p];
    CofactorBelow(w, p, m, false);
    CofactorBelow(w, p, m, true);
  }

  lemma ResultThrough(w: Graph, h: Graph, k: Graph, op: Op, x: Ptr, y: Ptr, r: Ptr)
    requires WellFormed(w) && WellFormed(h) && WellFormed(k) && Extends(w, h) && Extends(w, k)
    requires x in w && y in w && r in w && IsResult(h, op, x, y, r)
    ensures IsResult(k, op, x, y, r)
  {
    ResultStable(w, h, op, x, y, r);
    ResultStable(w, k, op, x, y, r);
  }

  /** The only node a collection reclaimed, and the one made after it, have one address. */
  lemma SlotReused(g: Graph, h: Graph, k: Graph, s: Ptr, r: Ptr)
    requires s !in g && s in h && h == g[s := h[s]]
    requires r !in g && r in h && r in k && k == Restrict(h, g.Keys)[r := k[r]]
    ensures r == s && Extends(g, k)
  {
  }

  lemma CodeStandsFor(op: Op, intended: bool)
    requires op != Imp || intended
    ensures Code(op) <= 5 && Meaning(Code(op), intended) == op && (Code(op) == 2 <==> op == Not)
  {
  }

  /** As written, code 5 holds differences. */
  lemma ImpStandsForDiff()
    ensures Code(Imp) == 5 && Meaning(Code(Imp), false) == Diff
  {
  }

  /** The second operand of `Not` does not matter. */
  lemma OneOperand(g: Graph, op: Op, x: Ptr, z: Ptr, code: nat, intended: bool, r: Ptr)
    requires WellFormed(g) && x in g && z in g && code <= 5 && Meaning(code, intended) == op
    ensures IsResult(g, op, x, if code == 2 then x else z, r) == IsResult(g, op, x, z, r)
    ensures code == 2 ==> op == Not
  {
    if code == 2 { NotLooksAtFirst(g, x, z, r); }
  }

  lemma NotLooksAtFirst(g: Graph, x: Ptr, y: Ptr, r: Ptr)
    requires WellFormed(g) && x in g && y in g
    ensures IsResult(g, Not, x, x, r) == IsResult(g, Not, x, y, r)
  {
  }

  lemma IsResultMember(g: Graph, op: Op, x: Ptr, y: Ptr, r: Ptr)
    requires WellFormed(g) && x in g && y in g && IsResult(g, op, x, y, r)
    ensures r in g
  {
  }
}
