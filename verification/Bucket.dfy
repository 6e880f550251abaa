/**
  Buckets of the unique table (src/Bucket.h). A bucket is owned by the table,
  so it is the list of its node addresses; the nodes themselves are in memory.
 */
module Buckets {
  import opened Nodes
  import opened Hashing
  import opened Allocation
  import opened Collections

  /** Memory holds the key of every node of `g`. */
  ghost predicate Mirrors(g: Graph, mem: Memory) {
    forall p :: p in g ==> p in mem && CellOf(mem[p]) == g[p]
  }

  /** The buckets hold exactly the nodes `s`, each once, in the bucket of its key. */
  ghost predicate Placed(g: Graph, s: set<Ptr>, buckets: seq<seq<Ptr>>)
    requires s <= g.Keys
  {
    && |buckets| > 0
    && (forall i, p :: 0 <= i < |buckets| && p in buckets[i] ==> p in s && BucketIndex(g[p], |buckets|) == i)
    && (forall p :: p in s ==> p in buckets[BucketIndex(g[p], |buckets|)])
    && (forall i :: 0 <= i < |buckets| ==> Distinct(buckets[i]))
  }

  /** Scans one bucket for a key. */
  method Find(mem: Memory, nodes: seq<Ptr>, level: nat, low: Ptr, high: Ptr) returns (r: Ptr)
    requires NULL !in nodes && forall p :: p in nodes ==> p in mem
    ensures r == NULL ==> forall p :: p in nodes ==> CellOf(mem[p]) != Cell(level, low, high)
    ensures r != NULL ==> r in nodes && CellOf(mem[r]) == Cell(level, low, high)
  {
    for i := 0 to |nodes|
      invariant forall k :: 0 <= k < i ==> CellOf(mem[nodes[k]]) != Cell(level, low, high)
    {
      if mem[nodes[i]].low == low && mem[nodes[i]].high == high && mem[nodes[i]].level == level {
        return nodes[i];
      }
    }
    return NULL;
  }

  /** Scans once more and appends the candidate only when the key is still absent. */
  method InsertIfAbsent(mem: Memory, nodes: seq<Ptr>, level: nat, low: Ptr, high: Ptr, candidate: Ptr)
    returns (node: Ptr, inserted: bool, nodes': seq<Ptr>)
    requires NULL !in nodes && forall p :: p in nodes ==> p in mem
    ensures inserted <==> forall p :: p in nodes ==> CellOf(mem[p]) != Cell(level, low, high)
    ensures inserted ==> node == candidate && nodes' == nodes + [candidate]
    ensures !inserted ==> node in nodes && CellOf(mem[node]) == Cell(level, low, high) && nodes' == nodes
  {
    for i := 0 to |nodes|
      invariant forall k :: 0 <= k < i ==> CellOf(mem[nodes[k]]) != Cell(level, low, high)
    {
      if mem[nodes[i]].low == low && mem[nodes[i]].high == high && mem[nodes[i]].level == level {
        return nodes[i], false, nodes;
      }
    }
    return candidate, true, nodes + [candidate];
  }

  // ---- Sweeping

  /** A node the sweep reclaims. */
  predicate Dead(n: Node) {
    !n.inUse && n.refCount == 0
  }

  /** The part of a bucket whose nodes are dead (or not). */
  function Select(mem: Memory, nodes: seq<Ptr>, dead: bool): (s: seq<Ptr>)
    requires forall p :: p in nodes ==> p in mem
    ensures forall p :: p in s <==> p in nodes && Dead(mem[p]) == dead
  {
    if nodes == [] then []
    else
      var last := nodes[|nodes| - 1];
      var rest := Select(mem, nodes[..|nodes| - 1], dead);
      if Dead(mem[last]) == dead then rest + [last] else rest
  }

  lemma {:induction false} SelectDistinct(mem: Memory, nodes: seq<Ptr>, dead: bool)
    requires Distinct(nodes) && forall p :: p in nodes ==> p in mem
    ensures Distinct(Select(mem, nodes, dead))
  {
    if nodes != [] {
      SelectDistinct(mem, nodes[..|nodes| - 1], dead);
    }
  }

  lemma SelectStep(mem: Memory, nodes: seq<Ptr>, k: nat, dead: bool)
    requires k < |nodes| && forall p :: p in nodes ==> p in mem
    ensures Select(mem, nodes[..k + 1], dead) ==
            Select(mem, nodes[..k], dead) + if Dead(mem[nodes[k]]) == dead then [nodes[k]] else []
  {
    assert nodes[..k + 1][..k] == nodes[..k];
  }

  /** `erase` at the border of the part already scanned, and stepping over it. */
  lemma EraseAt(kept: seq<Ptr>, nodes: seq<Ptr>, seen: nat)
    requires seen < |nodes|
    ensures var all := kept + nodes[seen..];
      && all[|kept|] == nodes[seen]
      && all[..|kept|] + all[|kept| + 1..] == kept + nodes[seen + 1..]
      && all == kept + [nodes[seen]] + nodes[seen + 1..]
  {
  }

  /** After scanning `seen` nodes: the kept ones lead what is left of the bucket, the dead ones follow `freed`. */
  ghost predicate SweptTo(mem: Memory, nodes: seq<Ptr>, freed: seq<Ptr>, seen: nat,
                          nodes': seq<Ptr>, it: nat, freed': seq<Ptr>, removed: nat)
  {
    && seen <= |nodes| && (forall p :: p in nodes ==> p in mem)
    && nodes' == Select(mem, nodes[..seen], false) + nodes[seen..] && it == |Select(mem, nodes[..seen], false)|
    && freed' == freed + Select(mem, nodes[..seen], true) && removed == |Select(mem, nodes[..seen], true)|
  }

  /** The scan at one node: it is erased when it is dead and passed over when it is not. */
  lemma SweepOne(mem: Memory, nodes: seq<Ptr>, freed: seq<Ptr>, seen: nat,
                 nodes': seq<Ptr>, it: nat, freed': seq<Ptr>, removed: nat)
    requires SweptTo(mem, nodes, freed, seen, nodes', it, freed', removed) && it < |nodes'|
    ensures seen < |nodes| && nodes'[it] == nodes[seen] && nodes[seen] in mem
    ensures Dead(mem[nodes[seen]]) ==>
      SweptTo(mem, nodes, freed, seen + 1, nodes'[..it] + nodes'[it + 1..], it, freed' + [nodes[seen]], removed + 1)
    ensures !Dead(mem[nodes[seen]]) ==> SweptTo(mem, nodes, freed, seen + 1, nodes', it + 1, freed', removed)
  {
    SelectStep(mem, nodes, seen, true);
    SelectStep(mem, nodes, seen, false);
    hide Select;
    var kept, dropped := Select(mem, nodes[..seen], false), Select(mem, nodes[..seen], true);
    EraseAt(kept, nodes, seen);
    assert freed + dropped + [nodes[seen]] == freed + (dropped + [nodes[seen]]);
  }

  lemma SweepStarts(mem: Memory, nodes: seq<Ptr>, freed: seq<Ptr>)
    requires forall p :: p in nodes ==> p in mem
    ensures SweptTo(mem, nodes, freed, 0, nodes, 0, freed, 0)
  {
    assert nodes[..0] == [] && nodes[0..] == nodes;
  }

  lemma SweepEnds(mem: Memory, nodes: seq<Ptr>, freed: seq<Ptr>, seen: nat,
                  nodes': seq<Ptr>, it: nat, freed': seq<Ptr>, removed: nat)
    requires SweptTo(mem, nodes, freed, seen, nodes', it, freed', removed) && it >= |nodes'|
    ensures nodes' == Select(mem, nodes, false) && freed' == freed + Select(mem, nodes, true)
    ensures removed == |Select(mem, nodes, true)|
  {
    hide Select;
    assert nodes[seen..] == [];
    assert nodes[..seen] == nodes;
  }

  /** Erases the dead nodes of a bucket in place and appends them to `freed`. */
  method Sweep(mem: Memory, nodes: seq<Ptr>, freed: seq<Ptr>) returns (nodes': seq<Ptr>, freed': seq<Ptr>, removed: nat)
    requires forall p :: p in nodes ==> p in mem
    ensures nodes' == Select(mem, nodes, false)
    ensures freed' == freed + Select(mem, nodes, true)
    ensures removed == |Select(mem, nodes, true)|
  {
    hide Select, SweptTo;
    nodes', freed', removed := nodes, freed, 0;
    var it := 0;
    ghost var seen := 0;
    SweepStarts(mem, nodes, freed);
    while it < |nodes'|
      invariant seen <= |nodes| && SweptTo(mem, nodes, freed, seen, nodes', it, freed', removed)
      decreases |nodes| - seen
    {
      SweepOne(mem, nodes, freed, seen, nodes', it, freed', removed);
      var node := nodes'[it];
      if !mem[node].inUse && mem[node].refCount == 0 {
        freed' := freed' + [node];
        nodes' := nodes'[..it] + nodes'[it + 1..];
        removed := removed + 1;
      } else {
        it := it + 1;
      }
      seen := seen + 1;
    }
    SweepEnds(mem, nodes, freed, seen, nodes', it, freed', removed);
  }
}
