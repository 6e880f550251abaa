/**
  The slab allocator of src/NodeAllocator.cpp: slabs are issued slot by slot,
  reclaimed slots go through a free list that is linked inside the nodes.
  Slabs occupy consecutive addresses from 1 on.
 */
module Allocation {
  import opened Collections
  import opened Nodes
  import NumberTheory

  datatype Slab = Slab(base: Ptr, capacity: nat, next: nat)

  function Max(a: nat, b: nat): nat {
    if a >= b then a else b
  }

  /** A free list only depends on the links of its own slots. */
  lemma FreeListFrame(mem: Memory, mem': Memory, head: Ptr, a: seq<Ptr>)
    requires Chain(Links(mem), head, a)
    requires forall p :: p in a && p in mem ==> p in mem' && mem'[p].nextFree == mem[p].nextFree
    ensures Chain(Links(mem'), head, a)
  {
    ChainFrame(Links(mem), Links(mem'), head, a);
  }

  /** The capacities of the slabs added up. */
  function TotalCapacity(slabs: seq<Slab>): nat {
    if slabs == [] then 0
    else TotalCapacity(slabs[..|slabs| - 1]) + slabs[|slabs| - 1].capacity
  }

  /** Each slab is `factor` times as large as the one before, and so will the next one be. */
  ghost predicate Geometric(slabs: seq<Slab>, factor: nat, next: nat) {
    && slabs != [] && slabs[0].capacity >= 1
    && (forall i :: 0 < i < |slabs| ==> slabs[i].capacity == factor * slabs[i - 1].capacity)
    && next == factor * slabs[|slabs| - 1].capacity
  }

  /** A slab is never empty. */
  lemma {:induction false} SlabsHaveSlots(slabs: seq<Slab>, factor: nat, next: nat)
    requires Geometric(slabs, factor, next) && factor >= 2
    ensures forall i :: 0 <= i < |slabs| ==> slabs[i].capacity >= 1
    ensures next == factor * slabs[|slabs| - 1].capacity >= 1
  {
    if |slabs| > 1 {
      SlabsHaveSlots(slabs[..|slabs| - 1], factor, slabs[|slabs| - 1].capacity);
    }
    AtLeast(factor, slabs[|slabs| - 1].capacity);
  }

  lemma AtLeast(factor: nat, capacity: nat)
    requires factor >= 1 && capacity >= 1
    ensures factor * capacity >= 1
  {
  }

  lemma GeometricStep(slabs: seq<Slab>, factor: nat, next: nat, base: Ptr)
    requires Geometric(slabs, factor, next)
    ensures Geometric(slabs + [Slab(base, next, 0)], factor, factor * next)
  {
  }

  lemma NextSlab(slabs: seq<Slab>, factor: nat, next: nat, base: Ptr)
    requires Geometric(slabs, factor, next) && factor >= 2
    ensures slabs != [] && next == factor * slabs[|slabs| - 1].capacity >= 1
    ensures Geometric(slabs + [Slab(base, next, 0)], factor, Max(next * factor, 1))
    ensures TotalCapacity(slabs + [Slab(base, next, 0)]) == TotalCapacity(slabs) + next
  {
    hide TotalCapacity;
    SlabsHaveSlots(slabs, factor, next);
    AtLeast(factor, next);
    assert Max(next * factor, 1) == factor * next;
    GeometricStep(slabs, factor, next, base);
    TotalAfterGrow(slabs, Slab(base, next, 0));
  }

  /** All slots of `n` slabs together, as a geometric sum. */
  lemma {:induction false} GeometricTotal(slabs: seq<Slab>, factor: nat, next: nat)
    requires Geometric(slabs, factor, next) && factor >= 1
    ensures slabs[|slabs| - 1].capacity == slabs[0].capacity * NumberTheory.Pow(factor, |slabs| - 1)
    ensures (factor - 1) * TotalCapacity(slabs) == slabs[0].capacity * (NumberTheory.Pow(factor, |slabs|) - 1)
  {
    var n, first := |slabs|, slabs[0].capacity;
    assert NumberTheory.Pow(factor, 0) == 1 && NumberTheory.Pow(factor, 1) == factor;
    if n == 1 {
      assert TotalCapacity(slabs[..0]) == 0;
    } else {
      var before := slabs[..n - 1];
      GeometricTotal(before, factor, slabs[n - 1].capacity);
      GeometricSum(first, factor, NumberTheory.Pow(factor, n - 2), NumberTheory.Pow(factor, n - 1),
        NumberTheory.Pow(factor, n), TotalCapacity(before), slabs[n - 1].capacity);
    }
  }

  /** One term more of a geometric sum. */
  lemma GeometricSum(first: nat, f: nat, p: nat, q: nat, r: nat, sum: nat, last: nat)
    requires q == f * p && r == f * q && last == f * (first * p) && f >= 1
    requires (f - 1) * sum == first * (q - 1)
    ensures last == first * q
    ensures (f - 1) * (sum + last) == first * (r - 1)
  {
    assert f * (first * p) == first * (f * p);
    assert (f - 1) * (sum + last) == (f - 1) * sum + (f * last - last);
    assert f * (first * q) == first * (f * q);
    assert first * (q - 1) + (first * r - first * q) == first * (r - 1);
  }

  /** Every slot below `frontier` is handed out, on the free list, or lost; never two of these. */
  ghost predicate Partition(live: set<Ptr>, free: seq<Ptr>, lost: set<Ptr>, frontier: nat) {
    && Distinct(free)
    && (forall p :: p in free ==> p !in live && p !in lost)
    && (forall p :: p in live ==> p !in lost)
    && (forall p :: 1 <= p < frontier ==> p in live || p in free || p in lost)
    && (forall p :: p in live || p in free || p in lost ==> 1 <= p < frontier)
  }

  /** The memory has the slots below `end`, and those below `frontier` are accounted for. */
  ghost predicate Pool(mem: Memory, freeList: Ptr, live: set<Ptr>, free: seq<Ptr>, lost: set<Ptr>, frontier: nat,
      end: nat)
  {
    && 1 <= frontier <= end
    && (forall p :: p in mem <==> 1 <= p < end)
    && Chain(Links(mem), freeList, free)
    && Partition(live, free, lost, frontier)
  }

  lemma PoolPop(mem: Memory, freeList: Ptr, live: set<Ptr>, free: seq<Ptr>, lost: set<Ptr>, frontier: nat, end: nat)
    requires Pool(mem, freeList, live, free, lost, frontier, end) && freeList != NULL
    ensures free != [] && freeList == free[0] && freeList in mem && freeList !in live && freeList !in lost
    ensures Pool(mem[freeList := mem[freeList].(nextFree := NULL)], mem[freeList].nextFree,
              live + {freeList}, free[1..], lost, frontier, end)
  {
    assert forall p :: p in free <==> p == free[0] || p in free[1..];
    FreeListFrame(mem, mem[freeList := mem[freeList].(nextFree := NULL)], mem[freeList].nextFree, free[1..]);
  }

  lemma PoolPush(mem: Memory, freeList: Ptr, live: set<Ptr>, free: seq<Ptr>, lost: set<Ptr>, frontier: nat, end: nat,
      p: Ptr)
    requires Pool(mem, freeList, live, free, lost, frontier, end) && p in live
    ensures p in mem && p != NULL
    ensures Pool(mem[p := mem[p].(nextFree := freeList)], p, live - {p}, [p] + free, lost, frontier, end)
  {
    FreeListFrame(mem, mem[p := mem[p].(nextFree := freeList)], freeList, free);
  }

  lemma PoolIssue(mem: Memory, freeList: Ptr, live: set<Ptr>, free: seq<Ptr>, lost: set<Ptr>, frontier: nat, end: nat)
    requires Pool(mem, freeList, live, free, lost, frontier, end) && frontier < end
    ensures frontier in mem && frontier !in live && frontier !in lost
    ensures Pool(mem, freeList, live + {frontier}, free, lost, frontier + 1, end)
  {
  }

  /** Rewriting a slot that is handed out disturbs nothing. */
  lemma PoolWrite(mem: Memory, freeList: Ptr, live: set<Ptr>, free: seq<Ptr>, lost: set<Ptr>, frontier: nat, end: nat,
      p: Ptr, n: Node)
    requires Pool(mem, freeList, live, free, lost, frontier, end) && p in live
    ensures p in mem && p != NULL
    ensures Pool(mem[p := n], freeList, live, free, lost, frontier, end)
  {
    FreeListFrame(mem, mem[p := n], freeList, free);
  }

  /** Abandoning the unissued tail of a slab makes it lost. */
  lemma PoolGrow(mem: Memory, freeList: Ptr, live: set<Ptr>, free: seq<Ptr>, lost: set<Ptr>, frontier: nat, end: nat,
      count: nat)
    requires Pool(mem, freeList, live, free, lost, frontier, end)
    ensures forall p :: p in mem ==> p < end
    ensures Pool(WithFreshSlots(mem, end, count), freeList, live, free, lost + Range(frontier, end), end, end + count)
  {
    FreeListFrame(mem, WithFreshSlots(mem, end, count), freeList, free);
  }

  /** The memory with `count` default nodes from address `base` on. */
  function WithFreshSlots(mem: Memory, base: Ptr, count: nat): (m: Memory)
    requires forall p :: p in mem ==> p < base
    ensures forall p :: p in m <==> p in mem || base <= p < base + count
    ensures forall p :: p in mem ==> m[p] == mem[p]
    ensures forall p :: base <= p < base + count ==> m[p] == FRESH_NODE
  {
    mem + map p {:trigger p in Range(base, base + count)} | p in Range(base, base + count) :: FRESH_NODE
  }

  class NodeAllocator {
    var mem: Memory
    var slabs: seq<Slab>
    var current: nat
    var freeList: Ptr
    var nextSlabCapacity: nat
    const growthFactor: nat

    /** The free list, first slot first. */
    ghost var free: seq<Ptr>
    /** The slots handed out and not given back. */
    ghost var live: set<Ptr>
    /** Unissued slots of a slab that stopped being current before it was used up. */
    ghost var lost: set<Ptr>

    /** The first address that was never issued. */
    ghost function Frontier(): nat
      reads this
      requires current < |slabs|
    {
      slabs[current].base + slabs[current].next
    }

    /** One past the last address. */
    ghost function End(): nat
      reads this
      requires current < |slabs|
    {
      slabs[current].base + slabs[current].capacity
    }

    ghost predicate Valid()
      reads this
    {
      && slabs != [] && current == |slabs| - 1
      && End() == 1 + TotalCapacity(slabs)
      && growthFactor >= 2 && Geometric(slabs, growthFactor, nextSlabCapacity)
      && Pool(mem, freeList, live, free, lost, Frontier(), End())
    }

    /** How many allocations can succeed without growing. */
    ghost function FreeSlots(): nat
      reads this
      requires Valid()
    {
      |free| + (End() - Frontier())
    }

    constructor (initialCapacity: nat, growthFactor: nat)
      ensures Valid() && live == {} && lost == {} && free == []
      ensures |slabs| == 1 && FreeSlots() == slabs[0].capacity == if initialCapacity < 1 then 1 else initialCapacity
      ensures this.growthFactor == if growthFactor < 2 then 2 else growthFactor
    {
      var first := Max(1, initialCapacity);
      mem := WithFreshSlots(map[], 1, first);
      slabs := [Slab(1, first, 0)];
      current := 0;
      freeList := NULL;
      nextSlabCapacity := Max(first * Max(2, growthFactor), 1);
      this.growthFactor := Max(2, growthFactor);
      free := [];
      live := {};
      lost := {};
    }

    /** Takes the first slot of the free list, or returns null. */
    method PopFree() returns (r: Ptr)
      requires Valid()
      modifies this
      ensures Valid()
      ensures (r == NULL) == (old(free) == [])
      ensures r == NULL ==> unchanged(this)
      ensures r != NULL ==>
        && r == old(free)[0] && free == old(free)[1..]
        && r in old(mem) && r !in old(live) && r !in old(lost)
        && mem == old(mem)[r := old(mem)[r].(nextFree := NULL)]
        && live == old(live) + {r} && FreeSlots() == old(FreeSlots()) - 1
      ensures lost == old(lost) && slabs == old(slabs) && current == old(current)
    {
      r := freeList;
      if r != NULL {
        PoolPop(mem, freeList, live, free, lost, Frontier(), End());
        freeList := mem[r].nextFree;
        mem := mem[r := mem[r].(nextFree := NULL)];
        free := free[1..];
        live := live + {r};
      }
    }

    method ResetNode(p: Ptr, level: nat, low: Ptr, high: Ptr)
      requires Valid() && p in live
      modifies this`mem
      ensures Valid() && FreeSlots() == old(FreeSlots())
      ensures mem == old(mem)[p := Node(0, level, low, high, false, NULL)]
    {
      PoolWrite(mem, freeList, live, free, lost, Frontier(), End(), p, Node(0, level, low, high, false, NULL));
      var n := mem[p];
      n := n.(level := level);
      n := n.(low := low);
      n := n.(high := high);
      n := n.(inUse := false);
      n := n.(nextFree := NULL);
      n := n.(refCount := 0);
      mem := mem[p := n];
    }

    /** Issues the next slot of the current slab, or returns null when it is used up. */
    method AllocateFromSlab(level: nat, low: Ptr, high: Ptr) returns (r: Ptr)
      requires Valid()
      modifies this
      ensures Valid()
      ensures (r == NULL) == (old(Frontier()) == old(End()))
      ensures r == NULL ==> unchanged(this)
      ensures r != NULL ==>
        && r == old(Frontier()) && r !in old(live) && r !in old(lost)
        && mem == old(mem)[r := Node(0, level, low, high, false, NULL)]
        && live == old(live) + {r} && FreeSlots() == old(FreeSlots()) - 1
        && slabs == old(slabs[current := slabs[current].(next := slabs[current].next + 1)])
      ensures free == old(free) && lost == old(lost) && current == old(current)
    {
      var slab := slabs[current];
      if slab.next < slab.capacity {
        PoolIssue(mem, freeList, live, free, lost, Frontier(), End());
        r := slab.base + slab.next;
        TotalAfterIssue(slabs, slab.(next := slab.next + 1));
        slabs := slabs[current := slab.(next := slab.next + 1)];
        live := live + {r};
        ResetNode(r, level, low, high);
      } else {
        r := NULL;
      }
    }

    /** A reset slot that nobody holds, or null exactly when none is left. */
    method Allocate(level: nat, low: Ptr, high: Ptr) returns (r: Ptr)
      requires Valid()
      modifies this
      ensures Valid()
      ensures (r == NULL) == (old(FreeSlots()) == 0)
      ensures r == NULL ==> unchanged(this)
      ensures r != NULL ==>
        && r !in old(live) && r !in old(lost)
        && mem == old(mem)[r := Node(0, level, low, high, false, NULL)]
        && live == old(live) + {r} && FreeSlots() == old(FreeSlots()) - 1
        && r == (if old(free) != [] then old(free)[0] else old(Frontier()))
        && slabs ==
          if old(free) != [] then old(slabs)
          else old(slabs[current := slabs[current].(next := slabs[current].next + 1)])
      ensures lost == old(lost) && current == old(current)
    {
      r := PopFree();
      if r != NULL {
        ResetNode(r, level, low, high);
      } else {
        r := AllocateFromSlab(level, low, high);
      }
    }

    method PushFree(p: Ptr)
      requires Valid() && p in live
      modifies this
      ensures Valid()
      ensures p in old(mem) && mem == old(mem)[p := old(mem)[p].(nextFree := old(freeList))]
      ensures free == [p] + old(free) && live == old(live) - {p} && lost == old(lost)
      ensures slabs == old(slabs) && current == old(current)
      ensures FreeSlots() == old(FreeSlots()) + 1
    {
      PoolPush(mem, freeList, live, free, lost, Frontier(), End(), p);
      mem := mem[p := mem[p].(nextFree := freeList)];
      freeList := p;
      free := [p] + free;
      live := live - {p};
    }

    /** Gives one slot back: its children are cleared and it heads the free list. */
    method Free(p: Ptr)
      requires Valid() && (p == NULL || p in live)
      modifies this
      ensures Valid()
      ensures p == NULL ==> unchanged(this)
      ensures p != NULL ==>
        && p in old(mem) && mem == old(mem)[p := Node(0, old(mem)[p].level, NULL, NULL, false, old(freeList))]
        && free == [p] + old(free) && live == old(live) - {p}
        && FreeSlots() == old(FreeSlots()) + 1
      ensures lost == old(lost) && slabs == old(slabs) && current == old(current)
    {
      if p == NULL {
        return;
      }
      assert p in mem;
      PoolWrite(mem, freeList, live, free, lost, Frontier(), End(), p,
        Node(0, mem[p].level, NULL, NULL, false, mem[p].nextFree));
      var n := mem[p];
      n := n.(low := NULL);
      n := n.(high := NULL);
      n := n.(inUse := false);
      n := n.(refCount := 0);
      mem := mem[p := n];
      PushFree(p);
    }

    /** Gives a batch of slots back; each of them enters the free list once. */
    method FreeAll(ps: seq<Ptr>)
      requires Valid() && NULL !in ps && Distinct(ps) && (forall p :: p in ps ==> p in live)
      modifies this
      ensures Valid()
      ensures free == Reversed(ps) + old(free)
      ensures forall p :: p in live <==> p in old(live) && p !in ps
      ensures lost == old(lost) && slabs == old(slabs) && current == old(current)
      ensures forall p :: p in old(mem) && p !in ps ==> p in mem && mem[p] == old(mem)[p]
      ensures FreeSlots() == old(FreeSlots()) + |ps|
    {
      hide Pool;
      for i := 0 to |ps|
        invariant Valid()
        invariant free == Reversed(ps[..i]) + old(free)
        invariant forall p :: p in live <==> p in old(live) && p !in ps[..i]
        invariant lost == old(lost) && slabs == old(slabs) && current == old(current)
        invariant forall p :: p in old(mem) && p !in ps[..i] ==> p in mem && mem[p] == old(mem)[p]
        invariant FreeSlots() == old(FreeSlots()) + i
      {
        PrefixStep(ps, i);
        Free(ps[i]);
      }
      assert ps[..|ps|] == ps;
    }

    method HasFreeSlot() returns (b: bool)
      requires Valid()
      ensures b <==> FreeSlots() > 0
      ensures !b ==> free == [] && Frontier() == End()
    {
      if freeList != NULL {
        return true;
      }
      return slabs[current].next < slabs[current].capacity;
    }

    /** The number of slots of all slabs together. */
    method Capacity() returns (sum: nat)
      requires Valid()
      ensures sum == End() - 1
    {
      sum := 0;
      for i := 0 to |slabs|
        invariant sum == TotalCapacity(slabs[..i])
      {
        assert slabs[..i + 1][..i] == slabs[..i];
        sum := sum + slabs[i].capacity;
      }
      assert slabs[..|slabs|] == slabs;
    }

    /** Adds a slab, `growthFactor` times as large as the last one. What that one had not issued is lost. */
    method Grow()
      requires Valid()
      modifies this
      ensures Valid()
      ensures free == old(free) && live == old(live)
      ensures lost == old(lost) + old(Range(Frontier(), End()))
      ensures slabs == old(slabs) + [Slab(old(End()), growthFactor * old(slabs[current].capacity), 0)]
      ensures FreeSlots() == |free| + growthFactor * old(slabs[current].capacity) > |free|
      ensures forall p :: p in old(mem) ==> p in mem && mem[p] == old(mem)[p]
    {
      hide Pool, TotalCapacity, WithFreshSlots, Range, Geometric, Max;
      NextSlab(slabs, growthFactor, nextSlabCapacity, End());
      var base := slabs[current].base + slabs[current].capacity;
      PoolGrow(mem, freeList, live, free, lost, Frontier(), End(), nextSlabCapacity);
      mem := WithFreshSlots(mem, base, nextSlabCapacity);
      lost := lost + Range(Frontier(), End());
      slabs := slabs + [Slab(base, nextSlabCapacity, 0)];
      current := |slabs| - 1;
      nextSlabCapacity := Max(nextSlabCapacity * growthFactor, 1);
    }
  }

  /** After `k` growths the slots of all slabs add up to the sum of a geometric series. */
  lemma SlotsAreGeometricSum(a: NodeAllocator, k: nat)
    requires a.Valid() && |a.slabs| == k + 1
    ensures (a.growthFactor - 1) * (a.End() - 1) ==
      a.slabs[0].capacity * (NumberTheory.Pow(a.growthFactor, k + 1) - 1)
    ensures a.slabs[k].capacity == a.slabs[0].capacity * NumberTheory.Pow(a.growthFactor, k)
  {
    hide Pool, Geometric, TotalCapacity;
    GeometricTotal(a.slabs, a.growthFactor, a.nextSlabCapacity);
  }

  lemma TotalAfterIssue(slabs: seq<Slab>, slab: Slab)
    requires slabs != [] && slab.capacity == slabs[|slabs| - 1].capacity
    ensures TotalCapacity(slabs[|slabs| - 1 := slab]) == TotalCapacity(slabs)
  {
    assert slabs[|slabs| - 1 := slab][..|slabs| - 1] == slabs[..|slabs| - 1];
  }

  lemma TotalAfterGrow(slabs: seq<Slab>, slab: Slab)
    ensures TotalCapacity(slabs + [slab]) == TotalCapacity(slabs) + slab.capacity
  {
    assert (slabs + [slab])[..|slabs|] == slabs;
  }

  lemma PrefixStep(ps: seq<Ptr>, i: nat)
    requires i < |ps| && Distinct(ps)
    ensures ps[i] in ps && ps[i] !in ps[..i]
    ensures forall p :: p in ps[..i + 1] <==> p in ps[..i] || p == ps[i]
    ensures Reversed(ps[..i + 1]) == [ps[i]] + Reversed(ps[..i])
  {
    assert ps[..i + 1] == ps[..i] + [ps[i]];
    ReversedSnoc(ps[..i], ps[i]);
  }

  function Reversed(s: seq<Ptr>): seq<Ptr> {
    if s == [] then [] else Reversed(s[1..]) + [s[0]]
  }

  lemma {:induction false} ReversedSnoc(s: seq<Ptr>, x: Ptr)
    ensures Reversed(s + [x]) == [x] + Reversed(s)
  {
    if s == [] {
      assert Reversed([x]) == Reversed([x][1..]) + [x];
    } else {
      assert (s + [x])[1..] == s[1..] + [x];
      ReversedSnoc(s[1..], x);
    }
  }

  /** The slot given back last heads the free list. */
  lemma {:induction false} ReversedHead(s: seq<Ptr>, rest: seq<Ptr>)
    ensures s != [] ==> Reversed(s) + rest != [] && (Reversed(s) + rest)[0] == s[|s| - 1] && s[|s| - 1] in Elements(s)
    ensures s == [] ==> Elements(s) == {}
  {
    if s != [] {
      ReversedFirst(s);
      assert s[|s| - 1] in s;
      hide Reversed;
    }
  }

  lemma {:induction false} ReversedFirst(s: seq<Ptr>)
    requires s != []
    ensures Reversed(s) != [] && Reversed(s)[0] == s[|s| - 1]
  {
    if |s| > 1 {
      ReversedFirst(s[1..]);
    }
  }

  /**
    Slot conservation: every slot is handed out, on the free list, unissued in
    the current slab, or lost, and the four counts add up to the capacity.
   */
  lemma SlotsAreConserved(a: NodeAllocator)
    requires a.Valid()
    ensures a.live + Elements(a.free) + a.lost + Range(a.Frontier(), a.End()) == a.mem.Keys
    ensures |a.live| + |a.free| + |a.lost| + (a.End() - a.Frontier()) == a.End() - 1
    ensures |a.mem| == a.End() - 1
  {
    DistinctSize(a.free);
    assert a.live + Elements(a.free) + a.lost == Range(1, a.Frontier());
    assert |a.live + Elements(a.free) + a.lost| == |a.live| + |a.free| + |a.lost|;
    assert a.mem.Keys == Range(1, a.End());
  }
}
