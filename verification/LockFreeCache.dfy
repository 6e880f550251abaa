/**
  The operation cache of src/LockFreeCache.h as one thread sees it. The
  interleaved protocol on one entry is in CacheProtocol.dfy.
 */
module OperationCache {
  import opened Nodes

  datatype Entry = Entry(node: Ptr, left: Ptr, right: Ptr, op: nat, useCount: int)

  const EMPTY_ENTRY := Entry(NULL, NULL, NULL, 0, 0)

  /** By code: AND, OR, NOT and XOR. */
  predicate IsCommutative(op: nat) {
    op <= 3
  }

  /** The entry holds the answer for this operator and these operands. */
  predicate Matches(e: Entry, left: Ptr, right: Ptr, op: nat) {
    && e.op == op
    && (|| (e.left == left && e.right == right)
        || (IsCommutative(op) && e.left == right && e.right == left))
  }

  predicate AllQuiet(es: seq<Entry>) {
    forall i :: 0 <= i < |es| ==> es[i].useCount == 0
  }

  class LockFreeCache {
    const size: nat
    const entries: array<Entry>

    ghost predicate Valid()
      reads this
    {
      entries.Length == size > 0
    }

    /** Nobody is inside an entry. */
    ghost predicate Quiet()
      reads this, entries
    {
      AllQuiet(entries[..])
    }

    /** No entry holds an answer. */
    ghost predicate Empty()
      reads this, entries
    {
      forall e :: e in entries[..] ==> e.node == NULL
    }

    constructor (size: nat)
      requires size > 0
      ensures Valid() && Quiet() && Empty() && fresh(entries) && this.size == size
    {
      this.size := size;
      entries := new Entry[size](_ => EMPTY_ENTRY);
    }

    /**
      The cached node of an entry that no writer holds, stored under this code
      and these operands or, for AND (0), OR (1), NOT (2) and XOR (3), under the
      operands swapped; else null.
     */
    method Lookup(hash: nat, left: Ptr, right: Ptr, op: nat) returns (out: Ptr)
      requires Valid() && hash < size && entries[hash].useCount >= -1
      modifies entries
      ensures entries[..] == old(entries[..])
      ensures out ==
        if entries[hash].useCount != -1 && entries[hash].op == op &&
             ((entries[hash].left == left && entries[hash].right == right) ||
              (op <= 3 && entries[hash].left == right && entries[hash].right == left))
        then entries[hash].node else NULL
    {
      out := NULL;
      if entries[hash].node == NULL {
        return;
      }
      var uc := 0;
      while uc != entries[hash].useCount
        invariant entries[..] == old(entries[..]) && out == NULL
        invariant uc >= 0 && (uc == 0 || uc == entries[hash].useCount)
        decreases if uc == entries[hash].useCount then 0 else 1
      {
        uc := entries[hash].useCount;
        if uc == -1 {
          return;
        }
      }
      entries[hash] := entries[hash].(useCount := uc + 1);
      if entries[hash].op == op {
        if || (IsCommutative(op) &&
               ((entries[hash].left == left && entries[hash].right == right) ||
                (entries[hash].left == right && entries[hash].right == left)))
           || (!IsCommutative(op) && entries[hash].left == left && entries[hash].right == right)
        {
          out := entries[hash].node;
        }
      }
      entries[hash] := entries[hash].(useCount := entries[hash].useCount - 1);
      assert entries[..] == old(entries[..]);
    }

    /**
      Overwrites an idle entry as a whole. A busy one is left alone, and so is
      any entry when the weak exchange is `spurious`: it may fail for no reason.
     */
    method Insert(hash: nat, node: Ptr, left: Ptr, right: Ptr, op: nat, spurious: bool)
      requires Valid() && hash < size
      modifies entries
      ensures entries[..] ==
        if old(entries[hash].useCount) == 0 && !spurious
        then old(entries[..])[hash := Entry(node, left, right, op, 0)] else old(entries[..])
    {
      if entries[hash].useCount == 0 && !spurious {
        entries[hash] := entries[hash].(useCount := -1);
        entries[hash] := entries[hash].(node := node);
        entries[hash] := entries[hash].(left := left);
        entries[hash] := entries[hash].(right := right);
        entries[hash] := entries[hash].(op := op);
        entries[hash] := entries[hash].(useCount := 0);
        assert entries[..] == old(entries[..])[hash := Entry(node, left, right, op, 0)];
      }
    }

    /** Empties every entry. The operator code stays behind. */
    method InvalidateAll()
      requires Valid()
      modifies entries
      ensures Quiet() && Empty()
      ensures forall i :: 0 <= i < entries.Length ==> entries[i] == Entry(NULL, NULL, NULL, old(entries[i].op), 0)
    {
      for i := 0 to entries.Length
        invariant forall k :: 0 <= k < i ==> entries[k] == Entry(NULL, NULL, NULL, old(entries[k].op), 0)
        invariant forall k :: i <= k < entries.Length ==> entries[k] == old(entries[k])
      {
        entries[i] := entries[i].(node := NULL);
        entries[i] := entries[i].(left := NULL);
        entries[i] := entries[i].(right := NULL);
        entries[i] := entries[i].(useCount := 0);
      }
    }
  }
}
