/** Node records and the addresses that stand for `Node *`. */
module Nodes {

  /** An address of a node slot. Address 0 is the null pointer. */
  type Ptr = nat

  const NULL: Ptr := 0

  const UINT_MAX: nat := 0xFFFF_FFFF

  /** The fields of `struct Node`. */
  datatype Node = Node(refCount: nat, level: nat, low: Ptr, high: Ptr, inUse: bool, nextFree: Ptr)

  /** A slot of a slab that was never issued. */
  const FRESH_NODE := Node(0, 0, NULL, NULL, false, NULL)

  /** The part of a node that identifies it in the unique table. */
  datatype Cell = Cell(level: nat, low: Ptr, high: Ptr)

  function CellOf(n: Node): Cell {
    Cell(n.level, n.low, n.high)
  }

  type Memory = map<Ptr, Node>

  /** What the table stores: the key of every node it holds, by address. */
  type Graph = map<Ptr, Cell>

  // ---- Slots threaded by links

  /** The slots threaded from `head` are exactly `a`, in order. */
  ghost predicate Chain(next: map<Ptr, Ptr>, head: Ptr, a: seq<Ptr>)
    decreases |a|
  {
    if a == [] then head == NULL
    else head == a[0] && head != NULL && head in next && Chain(next, next[head], a[1..])
  }

  /** A chain only depends on the links of its own slots. */
  lemma {:induction false} ChainFrame(next: map<Ptr, Ptr>, next': map<Ptr, Ptr>, head: Ptr, a: seq<Ptr>)
    requires Chain(next, head, a)
    requires forall p :: p in a && p in next ==> p in next' && next'[p] == next[p]
    ensures Chain(next', head, a)
    decreases |a|
  {
    if a != [] {
      assert a[0] in a && forall p :: p in a[1..] ==> p in a;
      ChainFrame(next, next', next[head], a[1..]);
    }
  }

  /** The links that the memory's slots hold. */
  ghost function Links(mem: Memory): map<Ptr, Ptr> {
    map p | p in mem :: mem[p].nextFree
  }
}
