/**
  The client interface: `init`, `gc` (src/Nanobdd.cpp) and reference-counted
  handles (src/Bdd.cpp). A handle object is a name; `handles` holds its root,
  null once it was moved from. Every method is one command of a run.
 */
module Sessions {
  import opened Nodes
  import opened Diagrams
  import opened Operators
  import opened Demand
  import opened Allocation
  import opened Collections
  import opened Buckets
  import opened OperationCache
  import opened TableFacts
  import opened UniqueTable
  import opened NumberTheory
  import opened PrimeCertificates
  import opened PrimeSearch
  import opened Runs

  /** The reference counts of the nodes of `g`. */
  ghost function RefsOf(g: Graph, mem: Memory): map<Ptr, nat> {
    map p | p in g :: RefOf(g, mem, p)
  }

  /** During `init`: only terminals and `k` variables exist, and each is referenced once. */
  ghost predicate OnlyVariables(g: Graph, mem: Memory, f: Ptr, t: Ptr, vars: seq<Ptr>, nvars: seq<Ptr>, k: nat) {
    && |vars| == |nvars| == k
    && AreTerminals(g, f, t)
    && (forall i :: 0 <= i < k ==> vars[i] in g && g[vars[i]] == Cell(i, f, t))
    && (forall i :: 0 <= i < k ==> nvars[i] in g && g[nvars[i]] == Cell(i, t, f))
    && (forall p :: p in g ==> p == f || p == t || p in vars || p in nvars)
    && (forall p :: RefOf(g, mem, p) == One(p in g))
  }

  /** One more variable: its two nodes are new, everything else was referenced and stays. */
  lemma VariableCount(g: Graph, mem: Memory, f: Ptr, t: Ptr, vars: seq<Ptr>, nvars: seq<Ptr>, k: nat)
    requires OnlyVariables(g, mem, f, t, vars, nvars, k)
    ensures |vars| == k && |nvars| == k
  {
  }

  lemma OneMoreVariable(g: Graph, mem: Memory, f: Ptr, t: Ptr, vars: seq<Ptr>, nvars: seq<Ptr>, k: nat,
                        g': Graph, mem': Memory, r: Ptr, n: Ptr)
    requires OnlyVariables(g, mem, f, t, vars, nvars, k) && f != t && k < TERMINAL_LEVEL
    requires r in g' && g'[r] == Cell(k, f, t) && n in g' && g'[n] == Cell(k, t, f)
    requires forall p :: p in g ==> p in g' && g'[p] == g[p]
    requires forall p :: p in g' ==> p in g || p == r || p == n
    requires forall p :: RefOf(g', mem', p) == RefOf(g, mem, p) + One(p == r) + One(p == n)
    ensures OnlyVariables(g', mem', f, t, vars + [r], nvars + [n], k + 1)
  {
    LevelsBelow(g, mem, f, t, vars, nvars, k);
    assert r !in g && n !in g && r != n;
    forall p ensures RefOf(g', mem', p) == One(p in g') {
      assert RefOf(g, mem, p) == One(p in g);
    }
  }

  lemma LevelsBelow(g: Graph, mem: Memory, f: Ptr, t: Ptr, vars: seq<Ptr>, nvars: seq<Ptr>, k: nat)
    requires OnlyVariables(g, mem, f, t, vars, nvars, k)
    ensures forall p :: p in g ==> g[p].level < k || g[p].level >= TERMINAL_LEVEL
  {
  }

  lemma {:induction false} DistinctMultiset(a: seq<Ptr>, p: Ptr)
    requires Distinct(a)
    ensures multiset(a)[p] == One(p in a)
  {
    if a != [] {
      assert a == [a[0]] + a[1..];
      DistinctMultiset(a[1..], p);
    }
  }

  /** The state after `init` satisfies the run invariant, with 2 + 2 * k nodes. */
  lemma InitialInv(s: State, g: Graph, mem: Memory, k: nat)
    requires WellFormed(g) && s == State(g, RefsOf(g, mem), s.falseNode, s.trueNode, s.vars, s.nvars, map[])
    requires OnlyVariables(g, mem, s.falseNode, s.trueNode, s.vars, s.nvars, k) && k <= TERMINAL_LEVEL
    ensures Inv(s) && g.Keys == PinnedNodes(s) && |g| == 2 + 2 * k
  {
    InitialCounts(s, g, mem, k);
    InitialPlaces(s, g, mem, k);
    hide OnlyVariables, WellFormed, Conserved, RefOf, VarsInPlace, PinnedNodes, AreTerminals;
    PinnedCount(s);
    assert |g| == |g.Keys|;
  }

  lemma InitialPlaces(s: State, g: Graph, mem: Memory, k: nat)
    requires s == State(g, RefsOf(g, mem), s.falseNode, s.trueNode, s.vars, s.nvars, map[])
    requires OnlyVariables(g, mem, s.falseNode, s.trueNode, s.vars, s.nvars, k)
    ensures VarsInPlace(s) && s.refs.Keys == g.Keys && g.Keys == PinnedNodes(s) && |s.vars| == k
    ensures AreTerminals(g, s.falseNode, s.trueNode)
  {
  }

  lemma InitialCounts(s: State, g: Graph, mem: Memory, k: nat)
    requires WellFormed(g) && s == State(g, RefsOf(g, mem), s.falseNode, s.trueNode, s.vars, s.nvars, map[])
    requires OnlyVariables(g, mem, s.falseNode, s.trueNode, s.vars, s.nvars, k) && k <= TERMINAL_LEVEL
    ensures Conserved(s)
  {
    forall p | p != NULL ensures RefCount(s, p) == Holders(s.handles, p) + Pins(s, p) {
      DistinctMultiset(s.vars, p);
      DistinctMultiset(s.nvars, p);
      assert HolderSet(s.handles, p) == {};
      assert RefCount(s, p) == One(p in g);
      TerminalsEval(g, s.falseNode, s.trueNode, s.falseNode);
      if p in s.vars { var i :| 0 <= i < |s.vars| && s.vars[i] == p; }
      if p in s.nvars { var i :| 0 <= i < |s.nvars| && s.nvars[i] == p; }
    }
  }

  class Session {
    const table: NodeTable
    var handles: map<nat, Ptr>

    /** The state of the run. */
    ghost function Now(): State
      reads this, table, table.allocator
    {
      State(table.graph, RefsOf(table.graph, table.allocator.mem), table.falseNode, table.trueNode,
        table.vars, table.nvars, handles)
    }

    ghost predicate Valid()
      reads this, table, table.allocator, table.cache, table.cache.entries
    {
      table.Valid() && Inv(Now()) && !table.intended
    }

    /** `init` once it has its sizes: the table, then the variables in order. */
    constructor (size: nat, slots: nat, varNum: nat)
      requires size >= 2 && slots >= 1 && varNum <= TERMINAL_LEVEL
      ensures Valid() && fresh(table) && fresh(table.allocator) && fresh(table.cache) && fresh(table.cache.entries)
      ensures handles == map[] && |table.vars| == varNum && table.nodeCount == 2 + 2 * varNum
      ensures table.cache.size == slots
      ensures 2 + 2 * varNum <= size ==>
        table.allocator.Valid() && table.Slots() == size && table.tableSize == size
    {
      hide Valid, NodeTable.Valid, OnlyVariables, RefOf, Inv;
      var cache := new LockFreeCache(slots);
      var t := new NodeTable(size, cache, false);
      table := t;
      handles := map[];
      new;
      StartsEmpty(table);
      CreateVars(varNum);
      Started(varNum);
    }

    lemma Started(varNum: nat)
      requires table.Valid() && !table.intended && handles == map[] && varNum <= TERMINAL_LEVEL
      requires OnlyVariables(table.graph, table.allocator.mem, table.falseNode, table.trueNode, table.vars,
        table.nvars, varNum)
      ensures Valid() && |table.vars| == varNum && table.nodeCount == 2 + 2 * varNum
      ensures table.allocator.Valid() && table.Slots() == 2 + 2 * varNum + table.allocator.FreeSlots()
    {
      hide Inv, PinnedNodes, RefOf, RefsOf, NodeTable.Valid, Pool, Placed, UniqueKeys, Mirrors;
      table.Consistent();
      InitialInv(Now(), table.graph, table.allocator.mem, varNum);
    }

    /** The loop of `init`. */
    method CreateVars(varNum: nat)
      requires table.Valid() && varNum <= TERMINAL_LEVEL
      requires OnlyVariables(table.graph, table.allocator.mem, table.falseNode, table.trueNode, table.vars,
        table.nvars, 0)
      modifies table, table.allocator, table.cache.entries
      ensures table.Valid()
      ensures OnlyVariables(table.graph, table.allocator.mem, table.falseNode, table.trueNode, table.vars, table.nvars,
        varNum)
      ensures table.allocator.Valid()
      ensures old(table.allocator.FreeSlots()) >= 2 * varNum ==>
        && table.allocator.FreeSlots() == old(table.allocator.FreeSlots()) - 2 * varNum
        && (old(table.nodeCount) + 2 * varNum <= 4 * old(table.tableSize) ==> table.tableSize == old(table.tableSize))
    {
      hide *;
      table.Consistent();
      for id := 0 to varNum
        invariant table.Valid()
        invariant OnlyVariables(table.graph, table.allocator.mem, table.falseNode, table.trueNode, table.vars,
          table.nvars, id)
        invariant table.allocator.Valid()
        invariant old(table.allocator.FreeSlots()) >= 2 * varNum ==>
          && table.allocator.FreeSlots() == old(table.allocator.FreeSlots()) - 2 * id
          && table.nodeCount == old(table.nodeCount) + 2 * id
          && (table.nodeCount <= 4 * old(table.tableSize) ==> table.tableSize == old(table.tableSize))
      {
        CreateNext(id);
      }
    }

    method CreateNext(id: nat)
      requires table.Valid() && id < TERMINAL_LEVEL
      requires OnlyVariables(table.graph, table.allocator.mem, table.falseNode, table.trueNode, table.vars,
        table.nvars, id)
      modifies table, table.allocator, table.cache.entries
      ensures table.Valid()
      ensures OnlyVariables(table.graph, table.allocator.mem, table.falseNode, table.trueNode, table.vars, table.nvars,
        id + 1)
      ensures table.allocator.Valid()
      ensures old(table.allocator.FreeSlots()) >= 2 ==>
        && table.allocator.FreeSlots() == old(table.allocator.FreeSlots()) - 2
        && table.nodeCount == old(table.nodeCount) + 2
        && (table.nodeCount <= 4 * old(table.tableSize) ==> table.tableSize == old(table.tableSize))
    {
      hide NodeTable.Tabled, NodeTable.Coherent, NodeTable.InLoad, NodeTable.Valid, RefOf, WellFormed, Roots, Mirrors,
        OnlyVariables;
      ghost var g, mem, f, t, vars, nvars :=
        table.graph, table.allocator.mem, table.falseNode, table.trueNode, table.vars, table.nvars;
      table.Consistent();
      assert |vars| == id && |nvars| == id by { VariableCount(g, mem, f, t, vars, nvars, id); }
      EverythingReferenced(g, mem, f, t, vars, nvars, id);
      LevelsBelow(g, mem, f, t, vars, nvars, id);
      var r;
      ghost var n;
      r, n := table.CreateVar(id);
      assert table.vars == vars + [r] && table.nvars == nvars + [n];
      OneMoreVariable(g, mem, f, t, vars, nvars, id, table.graph, table.allocator.mem, r, n);
      table.Consistent();
    }

    /** `ref` unless the pointer is null. */
    method RefRoot(p: Ptr)
      requires table.Valid() && (p == NULL || p in table.graph)
      modifies table.allocator`mem
      ensures table.Valid() && table.allocator.Valid() && table.Slots() == old(table.Slots())
      ensures forall q :: q != NULL ==>
        RefOf(table.graph, table.allocator.mem, q) == old(RefOf(table.graph, table.allocator.mem, q)) + One(q == p)
    {
      hide NodeTable.Tabled, NodeTable.Coherent, NodeTable.InLoad, Marked, WellFormed;
      table.Consistent();
      if p != NULL {
        table.Ref(p);
      }
      table.Consistent();
    }

    /** `deref` unless the pointer is null. */
    method DerefRoot(p: Ptr)
      requires table.Valid() && (p == NULL || (p in table.graph && RefOf(table.graph, table.allocator.mem, p) > 0))
      modifies table.allocator`mem
      ensures table.Valid() && table.allocator.Valid() && table.Slots() == old(table.Slots())
      ensures forall q :: q != NULL ==>
        RefOf(table.graph, table.allocator.mem, q) == old(RefOf(table.graph, table.allocator.mem, q)) - One(q == p)
    {
      hide NodeTable.Tabled, NodeTable.Coherent, NodeTable.InLoad, Marked, WellFormed;
      table.Consistent();
      if p != NULL {
        table.Deref(p);
      }
      table.Consistent();
    }

    /** What a step may rely on: pinned nodes and live roots are in the table and referenced. */
    lemma RootsAreSafe()
      requires Valid()
      ensures forall h :: h in handles && handles[h] != NULL ==>
        handles[h] in table.graph && RefOf(table.graph, table.allocator.mem, handles[h]) > 0
      ensures table.falseNode in table.graph && table.trueNode in table.graph
      ensures RefOf(table.graph, table.allocator.mem, table.falseNode) > 0
      ensures RefOf(table.graph, table.allocator.mem, table.trueNode) > 0
      ensures |table.vars| == |table.nvars|
      ensures forall i :: 0 <= i < |table.vars| ==> table.vars[i] in table.graph && table.nvars[i] in table.graph
    {
      hide NodeTable.Sound, NodeTable.InLoad, Conserved, WellFormed;
      CountsAgree(Now(), table.graph, table.allocator.mem);
      PinsAreReferenced(Now());
      forall h | h in handles && handles[h] != NULL
        ensures handles[h] in table.graph && RefOf(table.graph, table.allocator.mem, handles[h]) > 0
      {
        RootInTable(Now(), h);
      }
    }

    /** `bddFalse`, `bddTrue` and the default constructor. */
    method Constant(h: nat, value: bool)
      requires Valid() && Enabled(Now(), Command.Constant(h, value))
      modifies this, table, table.allocator, table.cache.entries
      ensures Valid() && Step(old(Now()), Command.Constant(h, value), Now())
    {
      hide Inv, NodeTable.Sound, NodeTable.InLoad, RefOf, RefsOf, AreTerminals;
      RootsAreSafe();
      ghost var s, mem := Now(), table.allocator.mem;
      var p := if value then table.trueNode else table.falseNode;
      RefRoot(p);
      handles := handles[h := p];
      ShiftHolds(s, Now(), mem, table.allocator.mem, p, NULL);
      StepKeepsInv(s, Command.Constant(h, value), Now());
    }

    /** `getVar` and `getNvar`. */
    method GetVar(h: nat, id: nat, positive: bool)
      requires Valid() && Enabled(Now(), Variable(h, id, positive))
      modifies this, table, table.allocator, table.cache.entries
      ensures Valid() && Step(old(Now()), Variable(h, id, positive), Now())
      ensures table.allocator.Valid() && table.Slots() == old(table.Slots())
    {
      hide Inv, NodeTable.Sound, NodeTable.InLoad, RefOf, RefsOf, AreTerminals;
      RootsAreSafe();
      ghost var s, mem := Now(), table.allocator.mem;
      var p := if positive then table.vars[id] else table.nvars[id];
      RefRoot(p);
      handles := handles[h := p];
      ShiftHolds(s, Now(), mem, table.allocator.mem, p, NULL);
      StepKeepsInv(s, Variable(h, id, positive), Now());
    }

    /** The copy constructor. */
    method CopyConstruct(h: nat, src: nat)
      requires Valid() && Enabled(Now(), Copy(h, src))
      modifies this, table, table.allocator, table.cache.entries
      ensures Valid() && Step(old(Now()), Copy(h, src), Now())
    {
      hide Inv, NodeTable.Sound, NodeTable.InLoad, RefOf, RefsOf, AreTerminals;
      RootsAreSafe();
      ghost var s, mem := Now(), table.allocator.mem;
      RefRoot(handles[src]);
      handles := handles[h := handles[src]];
      ShiftHolds(s, Now(), mem, table.allocator.mem, s.handles[src], NULL);
      StepKeepsInv(s, Copy(h, src), Now());
    }

    /** The move constructor: the root changes hands, no count moves. */
    method MoveConstruct(h: nat, src: nat)
      requires Valid() && Enabled(Now(), Move(h, src))
      modifies this, table, table.allocator, table.cache.entries
      ensures Valid() && Step(old(Now()), Move(h, src), Now())
    {
      hide Inv, NodeTable.Sound, NodeTable.InLoad, RefOf, RefsOf, AreTerminals;
      RootsAreSafe();
      ghost var s, mem := Now(), table.allocator.mem;
      handles := handles[h := handles[src]][src := NULL];
      ShiftHolds(s, Now(), mem, table.allocator.mem, NULL, NULL);
      StepKeepsInv(s, Move(h, src), Now());
    }

    /** Copy assignment: the new root is referenced before the old one is dropped. */
    method CopyAssign(h: nat, src: nat)
      requires Valid() && Enabled(Now(), Assign(h, src))
      modifies this, table, table.allocator, table.cache.entries
      ensures Valid() && Step(old(Now()), Assign(h, src), Now())
    {
      hide Inv, NodeTable.Sound, NodeTable.InLoad, RefOf, RefsOf, AreTerminals;
      RootsAreSafe();
      ghost var s, mem := Now(), table.allocator.mem;
      if h != src {
        var newRoot := handles[src];
        RefRoot(newRoot);
        DerefRoot(handles[h]);
        handles := handles[h := newRoot];
      }
      ShiftHolds(s, Now(), mem, table.allocator.mem, s.handles[src], s.handles[h]);
      StepKeepsInv(s, Assign(h, src), Now());
    }

    /** Move assignment. */
    method MoveAssignTo(h: nat, src: nat)
      requires Valid() && Enabled(Now(), MoveAssign(h, src))
      modifies this, table, table.allocator, table.cache.entries
      ensures Valid() && Step(old(Now()), MoveAssign(h, src), Now())
    {
      hide Inv, NodeTable.Sound, NodeTable.InLoad, RefOf, RefsOf, AreTerminals;
      RootsAreSafe();
      ghost var s, mem := Now(), table.allocator.mem;
      if h != src {
        DerefRoot(handles[h]);
        handles := handles[h := handles[src]][src := NULL];
      }
      ShiftHolds(s, Now(), mem, table.allocator.mem, NULL, if h == src then NULL else s.handles[h]);
      StepKeepsInv(s, MoveAssign(h, src), Now());
    }

    /** The destructor. */
    method Destruct(h: nat)
      requires Valid() && Enabled(Now(), Destroy(h))
      modifies this, table, table.allocator, table.cache.entries
      ensures Valid() && Step(old(Now()), Destroy(h), Now())
    {
      hide Inv, NodeTable.Sound, NodeTable.InLoad, RefOf, RefsOf, AreTerminals;
      RootsAreSafe();
      ghost var s, mem := Now(), table.allocator.mem;
      DerefRoot(handles[h]);
      handles := handles - {h};
      ShiftHolds(s, Now(), mem, table.allocator.mem, NULL, s.handles[h]);
      StepKeepsInv(s, Destroy(h), Now());
    }

    /** The table operator that a handle operator calls. `Not` ignores `y`, the false node. */
    method Compute(op: Op, x: Ptr, y: Ptr) returns (r: Ptr)
      requires table.Valid() && !table.intended && (op == Not ==> y == table.falseNode)
      requires WellFormed(table.graph) && table.allocator.Valid() && x in table.graph && y in table.graph
      modifies table`buckets, table`tableSize, table`moved, table`nodeCount, table`graph, table`inserted,
        table.allocator, table.cache.entries
      ensures table.Valid() && table.allocator.Valid() && WellFormed(table.graph) && table.Slots() == old(table.Slots())
      ensures Grown(old(table.graph), old(table.allocator.mem), table.graph, table.allocator.mem)
      ensures r == NULL <==> old(table.Starved(op, x, y))
      ensures x in table.graph && y in table.graph
      ensures r != NULL ==> r in table.graph && table.graph.Keys == old(table.graph.Keys) + Reach(table.graph, r)
      ensures r != NULL ==> Returned(table.graph, table.falseNode, table.trueNode, op, x, y, r)
    {
      hide Grown, IsResult, WellFormed, AreTerminals, NodeTable.Valid, NodeTable.Ran, Reach, Missing;
      table.Consistent();
      ghost var g, mem, slots := table.graph, table.allocator.mem, table.Slots();
      if op == Imp {
        r := ComputeImp(x, y);
        return;
      }
      r := table.Operate(op, x, y);
      RanGives(g, mem, slots, op, x, y, r);
    }

    method ComputeImp(x: Ptr, y: Ptr) returns (r: Ptr)
      requires table.Valid() && !table.intended
      requires WellFormed(table.graph) && table.allocator.Valid() && x in table.graph && y in table.graph
      modifies table`buckets, table`tableSize, table`moved, table`nodeCount, table`graph, table`inserted,
        table.allocator, table.cache.entries
      ensures table.Valid() && table.allocator.Valid() && WellFormed(table.graph) && table.Slots() == old(table.Slots())
      ensures Grown(old(table.graph), old(table.allocator.mem), table.graph, table.allocator.mem)
      ensures r == NULL <==> old(table.Starved(Imp, x, y))
      ensures x in table.graph && y in table.graph
      ensures r != NULL ==> r in table.graph && table.graph.Keys == old(table.graph.Keys) + Reach(table.graph, r)
      ensures r != NULL ==> Returned(table.graph, table.falseNode, table.trueNode, Imp, x, y, r)
    {
      hide Grown, IsResult, WellFormed, AreTerminals, NodeTable.Valid, NodeTable.Ran, NodeTable.Tabled, Mirrors,
        Reach, Missing;
      table.Consistent();
      ghost var g, mem, slots := table.graph, table.allocator.mem, table.Slots();
      TerminalsAreNodes(g, table.falseNode, table.trueNode);
      GrownHere(g, mem);
      r := table.BddImp(x, y);
      if x == table.falseNode || y == table.trueNode || x == table.trueNode {
        table.Consistent();
      } else {
        RanGives(g, mem, slots, Diff, x, y, r);
      }
    }

    /** What an operator's promise says to its caller. */
    lemma RanGives(g: Graph, mem: Memory, slots: nat, op: Op, x: Ptr, y: Ptr, r: Ptr)
      requires WellFormed(g) && x in g && y in g && table.Ran(g, mem, slots, op, x, y, r)
      ensures table.Valid() && table.allocator.Valid() && WellFormed(table.graph) && table.Slots() == slots
      ensures Grown(g, mem, table.graph, table.allocator.mem) && x in table.graph && y in table.graph
      ensures r == NULL <==> slots < |g| + |Missing(g, op, x, y)|
      ensures r != NULL ==>
        r in table.graph && table.graph.Keys == g.Keys + Reach(table.graph, r) && IsResult(table.graph, op, x, y, r)
    {
      hide Grown, IsResult, Missing, Reach, OnlyAnswers;
      table.RanHas(g, mem, slots, op, x, y, r);
    }

    /**
      Computes, references the answer, and gives it to handle `h`; or does
      neither when the table runs out of slots.
     */
    method ComputeTo(h: nat, op: Op, x: Ptr, y: Ptr) returns (done: bool, ghost r: Ptr)
      requires table.Valid() && !table.intended && (op == Not ==> y == table.falseNode)
      requires WellFormed(table.graph) && table.allocator.Valid() && x in table.graph && y in table.graph
      modifies this, table, table.allocator, table.cache.entries
      ensures table.Valid() && table.allocator.Valid() && WellFormed(table.graph) && table.Slots() == old(table.Slots())
      ensures done <==> !old(table.Starved(op, x, y))
      ensures done ==> Computed(old(Now()), Now(), op, x, y, r) && handles == old(handles)[h := r]
      ensures done ==> r in table.graph && table.graph.Keys == old(table.graph.Keys) + Reach(table.graph, r)
      ensures !done ==> Stalled(old(Now()), Now())
    {
      hide NodeTable.Valid, NodeTable.Slots, NodeTable.Tabled, RefOf, RefsOf, Grown, Returned, Reach,
        NodeTable.Starved, Computed, Stalled, WellFormed, AreTerminals, Mirrors;
      table.Consistent();
      ghost var s, mem := Now(), table.allocator.mem;
      var node := Compute(op, x, y);
      ghost var mem1 := table.allocator.mem;
      r := node;
      done := node != NULL;
      if done {
        RefRoot(node);
        handles := handles[h := node];
        table.Consistent();
        ComputedHolds(s, Now(), mem, mem1, table.allocator.mem, op, x, y, r);
      } else {
        StalledHolds(s, Now(), mem, mem1);
      }
    }

    /** The operands are nodes, and the operator would stop for want of a slot. */
    ghost predicate Starved(op: Op, a: nat, b: nat)
      requires Valid() && a in handles && b in handles
      reads this, table, table.allocator, table.cache, table.cache.entries
    {
      handles[a] in table.graph && handles[b] in table.graph && table.Starved(op, handles[a], handles[b])
    }

    ghost predicate StarvedNot(a: nat)
      requires Valid() && a in handles
      reads this, table, table.allocator, table.cache, table.cache.entries
    {
      handles[a] in table.graph && table.falseNode in table.graph && table.Starved(Not, handles[a], table.falseNode)
    }

    /**
      `&`, `|`, `^`, `-` and `>>`: the result node gets a new handle. It fails
      exactly where the code would start a collection inside the operator, and
      then no handle has changed its meaning.
     */
    method BinaryOperator(h: nat, op: Op, a: nat, b: nat) returns (done: bool)
      requires a in handles && b in handles
      requires Valid() && Enabled(Now(), Binary(h, op, a, b))
      modifies this, table, table.allocator, table.cache.entries
      ensures Valid() && (done <==> !old(Starved(op, a, b)))
      ensures done ==> Step(old(Now()), Binary(h, op, a, b), Now())
      ensures !done ==> handles == old(handles) && View(Now()) == old(View(Now()))
      ensures done ==> h in handles && handles[h] in table.graph && handles == old(handles)[h := handles[h]]
      ensures done ==> table.graph.Keys == old(table.graph.Keys) + Reach(table.graph, handles[h])
      ensures table.Slots() == old(table.Slots())
    {
      hide Inv, NodeTable.Valid, RefsOf, NodeTable.Starved, Step, Enabled, Computed, Stalled, Reach, WellFormed;
      ghost var s := Now();
      table.Consistent();
      BinaryOperands(s, h, op, a, b);
      ghost var r;
      done, r := ComputeTo(h, op, handles[a], handles[b]);
      if done {
        BinaryIsStep(s, Now(), h, op, a, b, r);
        StepKeepsInv(s, Binary(h, op, a, b), Now());
      } else {
        StalledKeepsInv(s, Now());
        StalledHandles(s, Now());
      }
    }

    /** `!`, with the same exact failure. */
    method NotOperator(h: nat, a: nat) returns (done: bool)
      requires a in handles
      requires Valid() && Enabled(Now(), Negate(h, a))
      modifies this, table, table.allocator, table.cache.entries
      ensures Valid() && (done <==> !old(StarvedNot(a)))
      ensures done ==> Step(old(Now()), Negate(h, a), Now())
      ensures !done ==> handles == old(handles) && View(Now()) == old(View(Now()))
    {
      hide Inv, NodeTable.Valid, RefsOf, NodeTable.Starved, Step, Enabled, Computed, Stalled, Reach, WellFormed;
      ghost var s := Now();
      table.Consistent();
      NegateOperands(s, h, a);
      ghost var r;
      done, r := ComputeTo(h, Not, handles[a], table.falseNode);
      if done {
        NegateIsStep(s, Now(), h, a, r);
        StepKeepsInv(s, Negate(h, a), Now());
      } else {
        StalledKeepsInv(s, Now());
        StalledHandles(s, Now());
      }
    }

    /**
      The operands are nodes, the operator lacks the slot of its own node, and
      nodes that references reach denote both parts of its answer.
     */
    ghost predicate CanCollect(op: Op, x: Ptr, y: Ptr)
      reads this, table, table.allocator
    {
      var t := table;
      && op != Imp && (op == Not ==> y == t.falseNode)
      && WellFormed(t.graph) && t.allocator.Valid() && Mirrors(t.graph, t.allocator.mem) && x in t.graph && y in t.graph
      && {x, y, t.falseNode, t.trueNode} <= t.Kept() && t.OneShort(op, x, y) && t.PartsKept(op, x, y)
    }

    /** The table's operator, with the state that the collection inside it left. */
    method CollectAndAnswer(op: Op, x: Ptr, y: Ptr) returns (node: Ptr, ghost mid: State)
      requires CanCollect(op, x, y) && table.Valid() && !table.intended
      modifies table`buckets, table`tableSize, table`moved, table`nodeCount, table`graph, table`inserted,
        table.allocator, table.cache.entries
      ensures Answered(old(Now()), mid, op, x, y, node)
    {
      hide NodeTable.Valid, NodeTable.Tabled, RefOf, RefsOf, Grown, WellFormed, AreTerminals, Mirrors, Roots, ReachAll,
        Restrict, IsResult, NodeTable.OneShort, NodeTable.PartsKept, Step;
      ghost var s, g, mem, kept := Now(), table.graph, table.allocator.mem, table.Kept();
      node := table.ThroughCollection(op, x, y);
      ghost var mem1 := table.allocator.mem;
      mid := s.(graph := Restrict(g, kept), refs := RefsOf(Restrict(g, kept), mem1));
      CollectedThenGrown(s, mid, mem, mem1, table.graph, node);
    }

    /** A collection made `mid` of `s`, and `node`, added since, answers the operation. */
    ghost predicate Answered(s: State, mid: State, op: Op, x: Ptr, y: Ptr, node: Ptr)
      reads this, table, table.allocator, table.cache, table.cache.entries
    {
      && WellFormed(table.graph) && x in table.graph && y in table.graph && IsResult(table.graph, op, x, y, node)
      && node in table.graph && op != Imp && Step(s, Collect, mid) && SameFrame(mid, Now())
      && mid.handles == s.handles == handles && WellFormed(mid.graph)
      && mid.refs == RefsOf(mid.graph, table.allocator.mem)
      && Grown(mid.graph, table.allocator.mem, table.graph, table.allocator.mem) && table.Valid()
    }

    /** Computes through the collection that makes the answer's own node, references it, and gives it to `h`. */
    method ComputeThrough(h: nat, op: Op, x: Ptr, y: Ptr) returns (ghost mid: State, ghost r: Ptr)
      requires CanCollect(op, x, y) && table.Valid() && !table.intended
      modifies this, table, table.allocator, table.cache.entries
      ensures table.Valid() && WentThrough(old(Now()), mid, Now(), h, op, x, y, r)
    {
      hide NodeTable.Valid, RefOf, RefsOf, Grown, WellFormed, IsResult, CanCollect, Step, Computed;
      var node;
      node, mid := CollectAndAnswer(op, x, y);
      r := node;
      ghost var mem1 := table.allocator.mem;
      RefRoot(node);
      handles := handles[h := node];
      ComputedHolds(mid, Now(), mem1, mem1, table.allocator.mem, op, x, y, r);
    }

    /** The session is in order and the operator can go through a collection. */
    ghost predicate BinaryCollects(h: nat, op: Op, a: nat, b: nat)
      reads this, table, table.allocator, table.cache, table.cache.entries
    {
      && a in handles && b in handles && CanCollect(op, handles[a], handles[b])
      && Enabled(Now(), Binary(h, op, a, b)) && Valid()
    }

    /**
      A binary operator that collects when it makes its last node is, to its
      client, a collection followed by the operator.
     */
    method BinaryThroughCollection(h: nat, op: Op, a: nat, b: nat) returns (ghost mid: State)
      requires BinaryCollects(h, op, a, b)
      modifies this, table, table.allocator, table.cache.entries
      ensures Valid() && CollectsThenSteps(old(Now()), mid, Binary(h, op, a, b), Now())
    {
      hide Inv, NodeTable.Valid, RefsOf, Step, Computed, WellFormed, CanCollect;
      ghost var s := Now();
      ghost var r;
      mid, r := ComputeThrough(h, op, handles[a], handles[b]);
      StepKeepsInv(s, Collect, mid);
      StillEnabled(s, mid, h, op, a, b);
      hide Enabled;
      BinaryIsStep(mid, Now(), h, op, a, b, r);
      StepKeepsInv(mid, Binary(h, op, a, b), Now());
    }

    ghost predicate NotCollects(h: nat, a: nat)
      reads this, table, table.allocator, table.cache, table.cache.entries
    {
      && a in handles && CanCollect(Not, handles[a], table.falseNode)
      && Enabled(Now(), Negate(h, a)) && Valid()
    }

    /** And so is `!`. */
    method NotThroughCollection(h: nat, a: nat) returns (ghost mid: State)
      requires NotCollects(h, a)
      modifies this, table, table.allocator, table.cache.entries
      ensures Valid() && CollectsThenSteps(old(Now()), mid, Negate(h, a), Now())
    {
      hide Inv, NodeTable.Valid, RefsOf, Step, Computed, WellFormed, CanCollect;
      ghost var s := Now();
      ghost var r;
      mid, r := ComputeThrough(h, Not, handles[a], table.falseNode);
      StepKeepsInv(s, Collect, mid);
      SameFalse(s, mid);
      NegateIsStep(mid, Now(), h, a, r);
      StepKeepsInv(mid, Negate(h, a), Now());
    }

    /** `gc`. */
    method Gc()
      requires Valid() && Enabled(Now(), Collect)
      modifies this, table, table.allocator, table.cache.entries
      ensures Valid() && Step(old(Now()), Collect, Now())
    {
      hide Inv, NodeTable.Valid, RefOf, RefsOf, Roots, ReachAll, Restrict, Mirrors, Step;
      RootsAreSafe();
      table.Consistent();
      ghost var s, mem := Now(), table.allocator.mem;
      table.Gc();
      CollectHolds(s, Now(), mem, table.allocator.mem);
      StepKeepsInv(s, Collect, Now());
    }

    /** `==`: a comparison of roots, and so of Boolean functions. */
    method Equal(a: nat, b: nat) returns (r: bool)
      requires Valid() && a in handles && b in handles
      ensures a in View(Now()) && b in View(Now())
      ensures r <==> View(Now())[a] == View(Now())[b]
    {
      ghost var s := Now();
      assert IsRun([s], []);
      HandleEquality([s], [], 0, a, b);
      r := handles[a] == handles[b];
    }

    /**
      `&=`, `|=`, `^=`, `-=` and `>>=` as written: the root is overwritten, no
      count moves. Without a slot for the answer it fails like the operator.
     */
    method CompoundAssign(h: nat, op: Op, b: nat) returns (done: bool)
      requires h in handles && b in handles
      requires Valid() && op != Not && handles[h] != NULL && handles[b] != NULL
      modifies this, table, table.allocator, table.cache.entries
      ensures table.Valid() && WellFormed(table.graph) && (done <==> !old(Starved(op, h, b)))
      ensures done ==> exists r :: CompoundStep(old(Now()), Now(), op, h, b, r)
      ensures done ==> old(NamedHere(h)) && old(NamedHere(b))
      ensures done ==> (Conserved(Now()) <==> Unaltered(op, old(FunOf(h)), old(FunOf(b))))
      ensures !done ==> Valid() && handles == old(handles) && View(Now()) == old(View(Now()))
    {
      hide Inv, NodeTable.Valid, NodeTable.Slots, NodeTable.Tabled, RefOf, RefsOf, Grown, Returned, Reach,
        NodeTable.Starved, CompoundStep, Stalled, WellFormed, AreTerminals, Mirrors;
      table.Consistent();
      ghost var s, mem := Now(), table.allocator.mem;
      RootsNamed(s, h, b);
      var r := Compute(op, handles[h], handles[b]);
      done := r != NULL;
      if done {
        handles := handles[h := r];
        CompoundHolds(s, Now(), mem, table.allocator.mem, op, h, b, r);
        CompoundConservesIff(s, Now(), op, h, b, r);
      } else {
        StalledHolds(s, Now(), mem, table.allocator.mem);
        StalledKeepsInv(s, Now());
        StalledHandles(s, Now());
      }
    }

    ghost predicate NamedHere(h: nat)
      reads this, table
    {
      h in handles && WellFormed(table.graph) && handles[h] in table.graph
    }

    /** The function handle `h` names. */
    ghost function FunOf(h: nat): Fun
      requires NamedHere(h)
      reads this, table
    {
      Den(table.graph, handles[h])
    }
  }

  /**
    `init`: both sizes go through the prime search, as 32-bit numbers. Null
    where the search divides by zero, which it never does between 2 and the last
    prime the test is sure to accept.
   */
  method Init(tableSize: nat, cacheSize: nat, varNum: nat) returns (s: Session?)
    requires varNum <= 0xFFFF_FFFE
    ensures s == null ==>
      !(2 <= tableSize % UINT_RANGE <= LAST_PRIME) || !(2 <= cacheSize % UINT_RANGE <= LAST_PRIME)
    ensures s != null ==>
      && fresh(s) && fresh(s.table) && fresh(s.table.allocator) && fresh(s.table.cache)
      && fresh(s.table.cache.entries) && s.Valid() && s.handles == map[]
      && |s.table.vars| == varNum && s.table.nodeCount == 2 + 2 * varNum
      && RightSize(cacheSize % UINT_RANGE, s.table.cache.size)
    ensures s != null && 2 + 2 * varNum <= tableSize % UINT_RANGE ==>
      && s.table.allocator.Valid() && s.table.tableSize == s.table.Slots()
      && RightSize(tableSize % UINT_RANGE, s.table.tableSize)
  {
    hide Session.Valid, HasEasyFactors, LoopRejects, IsPrime, Rejectable;
    s := null;
    var size, slots, sized;
    ghost var tried;
    size, sized, tried := BddPrimeGte(tableSize % UINT_RANGE);
    if sized {
      slots, sized, tried := BddPrimeGte(cacheSize % UINT_RANGE);
      if sized {
        s := new Session(size, slots, varNum);
      }
    }
  }

  lemma TerminalsAreNodes(g: Graph, f: Ptr, t: Ptr)
    requires WellFormed(g) && AreTerminals(g, f, t)
    ensures f != NULL && t != NULL && Reach(g, t) <= g.Keys && NULL !in g
    ensures forall y :: y in g ==> Reach(g, y) <= g.Keys
  {
  }

  lemma StalledHandles(s: State, t: State)
    requires Stalled(s, t)
    ensures t.handles == s.handles
  {
  }

  lemma RootsNamed(s: State, h: nat, b: nat)
    requires Inv(s) && h in s.handles && b in s.handles && s.handles[h] != NULL && s.handles[b] != NULL
    ensures s.handles[h] in s.graph && s.handles[b] in s.graph
  {
    RootInTable(s, h);
    RootInTable(s, b);
  }

  /** The table grew and nothing was referenced. */
  lemma StalledHolds(s: State, t: State, mem: Memory, mem1: Memory)
    requires SameFrame(s, t) && t.handles == s.handles && s.refs == RefsOf(s.graph, mem)
    requires t.refs == RefsOf(t.graph, mem1)
    requires WellFormed(t.graph) && Grown(s.graph, mem, t.graph, mem1)
    ensures Stalled(s, t)
  {
    hide RefOf, WellFormed;
    CountsAgree(s, s.graph, mem);
    CountsAgree(t, t.graph, mem1);
    GrownKeepsRefs(s.graph, mem, t.graph, mem1);
    GrownAt(s.graph, mem, t.graph, mem1);
    RefsKeys(t.graph, mem1);
  }

  lemma RefsKeys(g: Graph, mem: Memory)
    ensures RefsOf(g, mem).Keys == g.Keys
  {
  }

  lemma RootsAreReferenced(s: State, mem: Memory)
    requires Mirrors(s.graph, mem) && s.refs == RefsOf(s.graph, mem)
    ensures Roots(s.graph, mem) == Referenced(s) && Referenced(s) <= s.graph.Keys
  {
  }

  /** The table grew, then the answer was referenced. */
  lemma ComputedHolds(s: State, t: State, mem: Memory, mem1: Memory, mem2: Memory, op: Op, x: Ptr, y: Ptr, r: Ptr)
    requires SameFrame(s, t) && s.refs == RefsOf(s.graph, mem) && t.refs == RefsOf(t.graph, mem2)
    requires WellFormed(s.graph) && WellFormed(t.graph) && Grown(s.graph, mem, t.graph, mem1)
    requires forall q :: q != NULL ==> RefOf(t.graph, mem2, q) == RefOf(t.graph, mem1, q) + One(q == r)
    requires x in t.graph && y in t.graph && r in t.graph && Returned(t.graph, t.falseNode, t.trueNode, op, x, y, r)
    ensures Computed(s, t, op, x, y, r)
  {
    hide Returned;
    CountsAgree(s, s.graph, mem);
    CountsAgree(t, t.graph, mem2);
    GrownKeepsRefs(s.graph, mem, t.graph, mem1);
    GrownAt(s.graph, mem, t.graph, mem1);
    RefsKeys(t.graph, mem2);
    assert RefOf(t.graph, mem2, NULL) == RefOf(s.graph, mem, NULL) == 0;
  }

  ghost predicate WentThrough(s: State, mid: State, t: State, h: nat, op: Op, x: Ptr, y: Ptr, r: Ptr) {
    && Step(s, Collect, mid) && mid.handles == s.handles
    && Computed(mid, t, op, x, y, r) && t.handles == s.handles[h := r]
  }

  /** What the collection inside an operator left is a collection's state, and the answer was added to it. */
  lemma CollectedThenGrown(s: State, mid: State, mem: Memory, mem1: Memory, k: Graph, r: Ptr)
    requires WellFormed(s.graph) && Mirrors(s.graph, mem) && s.refs == RefsOf(s.graph, mem)
    requires var kept := ReachAll(s.graph, Roots(s.graph, mem));
      && mid == s.(graph := Restrict(s.graph, kept), refs := RefsOf(Restrict(s.graph, kept), mem1))
      && r in k && r !in kept && k == Restrict(s.graph, kept)[r := k[r]] && SameNodes(kept, mem, mem1)
    requires r in mem1 && mem1[r].refCount == 0
    ensures Step(s, Collect, mid) && Grown(mid.graph, mem1, k, mem1) && WellFormed(mid.graph)
  {
    var kept := ReachAll(s.graph, Roots(s.graph, mem));
    hide WellFormed, Mirrors, RefOf, RefsOf, Step, Restrict, Roots;
    RootsAreNodes(s.graph, mem);
    ReachAllIsLeastClosed(s.graph, Roots(s.graph, mem));
    hide ReachAll;
    GrownOnKept(s.graph, kept, mem, k, mem1, r);
    RestrictKeepsMeaning(s.graph, kept);
    RootsReached(s.graph, Roots(s.graph, mem));
    CollectedKeepsRefs(s.graph, mem, kept, mid.graph, mem1);
    CollectHolds(s, mid, mem, mem1);
  }

  lemma SameFalse(s: State, t: State)
    requires Step(s, Collect, t)
    ensures t.falseNode == s.falseNode
  {
  }

  lemma RootsReached(g: Graph, roots: set<Ptr>)
    requires WellFormed(g) && roots <= g.Keys
    ensures roots <= ReachAll(g, roots)
  {
    forall p | p in roots ensures p in ReachAll(g, roots) {
      ReachInReachAll(g, roots, p);
    }
  }

  lemma StillEnabled(s: State, t: State, h: nat, op: Op, a: nat, b: nat)
    requires Enabled(s, Binary(h, op, a, b)) && t.handles == s.handles
    ensures Enabled(t, Binary(h, op, a, b))
  {
  }

  lemma BinaryOperands(s: State, h: nat, op: Op, a: nat, b: nat)
    requires Inv(s) && Enabled(s, Binary(h, op, a, b))
    ensures a in s.handles && b in s.handles && op != Not
    ensures s.handles[a] in s.graph && s.handles[b] in s.graph
  {
    RootsNamed(s, a, b);
  }

  lemma NegateOperands(s: State, h: nat, a: nat)
    requires Inv(s) && Enabled(s, Negate(h, a))
    ensures a in s.handles && s.handles[a] in s.graph && s.falseNode in s.graph
  {
    RootsNamed(s, a, a);
  }

  lemma BinaryIsStep(s: State, t: State, h: nat, op: Op, a: nat, b: nat, r: Ptr)
    requires Enabled(s, Binary(h, op, a, b))
    requires Computed(s, t, op, s.handles[a], s.handles[b], r) && t.handles == s.handles[h := r]
    ensures Step(s, Binary(h, op, a, b), t)
  {
    hide Computed;
  }

  lemma NegateIsStep(s: State, t: State, h: nat, a: nat, r: Ptr)
    requires Enabled(s, Negate(h, a))
    requires Computed(s, t, Not, s.handles[a], s.falseNode, r) && t.handles == s.handles[h := r]
    ensures Step(s, Negate(h, a), t)
  {
    hide Computed;
  }

  /** The collection kept what the referenced nodes reach, and every count. */
  lemma CollectHolds(s: State, t: State, mem: Memory, mem1: Memory)
    requires SameFrame(s, t) && t.handles == s.handles && WellFormed(s.graph) && Mirrors(s.graph, mem)
    requires s.refs == RefsOf(s.graph, mem) && t.refs == RefsOf(t.graph, mem1)
    requires t.graph == Restrict(s.graph, ReachAll(s.graph, Roots(s.graph, mem)))
    requires forall p :: RefOf(t.graph, mem1, p) == RefOf(s.graph, mem, p)
    ensures Step(s, Collect, t)
  {
    hide ReachAll, Restrict, RefOf, WellFormed;
    CountsAgree(s, s.graph, mem);
    CountsAgree(t, t.graph, mem1);
    RefsKeys(t.graph, mem1);
    RootsAreReferenced(s, mem);
  }

  lemma CompoundHolds(s: State, t: State, mem: Memory, mem1: Memory, op: Op, h: nat, b: nat, r: Ptr)
    requires SameFrame(s, t) && s.refs == RefsOf(s.graph, mem) && t.refs == RefsOf(t.graph, mem1)
    requires WellFormed(s.graph) && WellFormed(t.graph) && Grown(s.graph, mem, t.graph, mem1)
    requires h in s.handles && b in s.handles && t.handles == s.handles[h := r]
    requires s.handles[h] in t.graph && s.handles[b] in t.graph && r in t.graph
    requires Returned(t.graph, t.falseNode, t.trueNode, op, s.handles[h], s.handles[b], r)
    ensures CompoundStep(s, t, op, h, b, r)
  {
    hide Returned;
    CountsAgree(s, s.graph, mem);
    CountsAgree(t, t.graph, mem1);
    GrownKeepsRefs(s.graph, mem, t.graph, mem1);
    GrownAt(s.graph, mem, t.graph, mem1);
    RefsKeys(t.graph, mem1);
  }

  lemma CountsAgree(s: State, g: Graph, mem: Memory)
    requires s.refs == RefsOf(g, mem)
    ensures forall p :: RefCount(s, p) == RefOf(g, mem, p)
  {
  }

  /** Counts that moved in memory moved in the state. */
  lemma ShiftHolds(s: State, t: State, mem: Memory, mem': Memory, up: Ptr, down: Ptr)
    requires SameFrame(s, t) && t.graph == s.graph
    requires s.refs == RefsOf(s.graph, mem) && t.refs == RefsOf(s.graph, mem')
    requires forall q :: q != NULL ==> RefOf(s.graph, mem', q) == RefOf(s.graph, mem, q) + One(q == up) - One(q == down)
    ensures Shift(s, t, up, down)
  {
    CountsAgree(s, s.graph, mem);
    CountsAgree(t, s.graph, mem');
  }

  lemma StartsEmpty(t: NodeTable)
    requires t.Valid() && t.vars == [] && t.nvars == []
    requires t.graph == map[t.falseNode := FALSE_CELL, t.trueNode := TRUE_CELL]
    requires forall p :: RefOf(t.graph, t.allocator.mem, p) == if p in t.graph then 1 else 0
    ensures OnlyVariables(t.graph, t.allocator.mem, t.falseNode, t.trueNode, t.vars, t.nvars, 0)
  {
    hide RefOf, NodeTable.Sound, NodeTable.InLoad;
  }

  lemma EverythingReferenced(g: Graph, mem: Memory, f: Ptr, t: Ptr, vars: seq<Ptr>, nvars: seq<Ptr>, k: nat)
    requires OnlyVariables(g, mem, f, t, vars, nvars, k) && Mirrors(g, mem)
    ensures f != t && RefOf(g, mem, f) > 0 && RefOf(g, mem, t) > 0
    ensures forall p :: p in g ==> p in Roots(g, mem)
  {
    forall p | p in g ensures p in Roots(g, mem) {
      assert RefOf(g, mem, p) == One(p in g);
    }
  }
}
