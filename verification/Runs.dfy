/**
  Whole runs of the library as a client sees them: handles (src/Bdd.cpp) over
  the table, one command after another. A command's effect on the concrete
  state is `Step`; what it should mean is `SpecStep`, over Boolean functions.
 */
module Runs {
  import opened Nodes
  import opened Diagrams
  import opened Operators
  import opened TableFacts
  import opened Allocation
  import opened Collections

  datatype Option<T> = None | Some(value: T)

  /** The state a client can influence: the table, reference counts, and the handles' roots. */
  datatype State = State(graph: Graph, refs: map<Ptr, nat>, falseNode: Ptr, trueNode: Ptr,
                         vars: seq<Ptr>, nvars: seq<Ptr>, handles: map<nat, Ptr>)

  datatype Command =
    | Constant(h: nat, value: bool)
    | Variable(h: nat, id: nat, positive: bool)
    | Copy(h: nat, src: nat)
    | Move(h: nat, src: nat)
    | Assign(h: nat, src: nat)
    | MoveAssign(h: nat, src: nat)
    | Destroy(h: nat)
    | Binary(h: nat, op: Op, a: nat, b: nat)
    | Negate(h: nat, a: nat)
    | Collect

  // ---- Counting references

  function RefCount(s: State, p: Ptr): nat {
    if p in s.refs then s.refs[p] else 0
  }

  ghost function HolderSet(handles: map<nat, Ptr>, p: Ptr): set<nat> {
    set h | h in handles && handles[h] == p
  }

  /** How many handles have their root at `p`. */
  ghost function Holders(handles: map<nat, Ptr>, p: Ptr): nat {
    |HolderSet(handles, p)|
  }

  /** Terminals, variables and negated variables are pinned once each. */
  ghost function Pins(s: State, p: Ptr): nat {
    One(p == s.falseNode) + One(p == s.trueNode) + multiset(s.vars)[p] + multiset(s.nvars)[p]
  }

  /** Reference conservation: every count is the number of handles plus the pins. */
  ghost predicate Conserved(s: State) {
    forall p :: p != NULL ==> RefCount(s, p) == Holders(s.handles, p) + Pins(s, p)
  }

  ghost predicate VarsInPlace(s: State) {
    && |s.vars| == |s.nvars|
    && (forall i :: 0 <= i < |s.vars| ==>
      s.vars[i] in s.graph && s.graph[s.vars[i]] == Cell(i, s.falseNode, s.trueNode))
    && (forall i :: 0 <= i < |s.nvars| ==>
      s.nvars[i] in s.graph && s.graph[s.nvars[i]] == Cell(i, s.trueNode, s.falseNode))
  }

  /** What holds in every state of a run. */
  ghost predicate Inv(s: State) {
    && WellFormed(s.graph) && s.refs.Keys == s.graph.Keys
    && AreTerminals(s.graph, s.falseNode, s.trueNode)
    && VarsInPlace(s) && Conserved(s)
  }

  lemma HoldersSet(handles: map<nat, Ptr>, h: nat, p: Ptr, q: Ptr)
    ensures Holders(handles[h := p], q) ==
            Holders(handles, q) - One(h in handles && handles[h] == q) + One(p == q)
  {
    var before, after := HolderSet(handles, q), HolderSet(handles[h := p], q);
    assert after - {h} == before - {h};
    assert |before| == |before - {h}| + One(h in before);
    assert |after| == |after - {h}| + One(h in after);
  }

  lemma HoldersDrop(handles: map<nat, Ptr>, h: nat, q: Ptr)
    requires h in handles
    ensures Holders(handles - {h}, q) == Holders(handles, q) - One(handles[h] == q)
  {
    var before, after := HolderSet(handles, q), HolderSet(handles - {h}, q);
    assert after == before - {h};
    assert |before| == |before - {h}| + One(h in before);
  }

  /** A live handle's root is a node of the table. */
  lemma RootInTable(s: State, h: nat)
    requires Inv(s) && h in s.handles && s.handles[h] != NULL
    ensures s.handles[h] in s.graph && RefCount(s, s.handles[h]) > 0
  {
    assert h in HolderSet(s.handles, s.handles[h]);
    assert Holders(s.handles, s.handles[h]) > 0;
  }

  // ---- Steps

  ghost predicate SameFrame(s: State, t: State) {
    t.falseNode == s.falseNode && t.trueNode == s.trueNode && t.vars == s.vars && t.nvars == s.nvars
  }

  /** Only references change: `up` gains one, `down` loses one, null stands for none. */
  ghost predicate Shift(s: State, t: State, up: Ptr, down: Ptr) {
    && SameFrame(s, t) && t.graph == s.graph && t.refs.Keys == s.refs.Keys
    && (forall p :: p != NULL ==> RefCount(t, p) == RefCount(s, p) + One(p == up) - One(p == down))
  }

  /** `r` is what the operator returns on the nodes `x` and `y`, `bddImp` as written. */
  ghost predicate Returned(g: Graph, f: Ptr, t: Ptr, op: Op, x: Ptr, y: Ptr, r: Ptr)
    requires WellFormed(g) && x in g && y in g
  {
    if op == Imp then ImpAsWritten(g, f, t, x, y, r) else IsResult(g, op, x, y, r)
  }

  /** The table grew by unreferenced nodes, and `r`, the answer, was referenced once. */
  ghost predicate Computed(s: State, t: State, op: Op, x: Ptr, y: Ptr, r: Ptr) {
    && SameFrame(s, t) && WellFormed(t.graph) && Extends(s.graph, t.graph) && t.refs.Keys == t.graph.Keys
    && x in t.graph && y in t.graph && r in t.graph && Returned(t.graph, t.falseNode, t.trueNode, op, x, y, r)
    && (forall p :: RefCount(t, p) == RefCount(s, p) + One(p == r))
  }

  ghost function Referenced(s: State): set<Ptr> {
    set p | p in s.refs && s.refs[p] != 0
  }

  /** What the commands demand of their caller. */
  predicate Enabled(s: State, c: Command) {
    match c
    case Constant(h, _) => h !in s.handles
    case Variable(h, id, _) => h !in s.handles && id < |s.vars| && id < |s.nvars|
    case Copy(h, src) => h !in s.handles && src in s.handles
    case Move(h, src) => h !in s.handles && src in s.handles
    case Assign(h, src) => h in s.handles && src in s.handles
    case MoveAssign(h, src) => h in s.handles && src in s.handles
    case Destroy(h) => h in s.handles
    case Binary(h, op, a, b) => h !in s.handles && op != Not && a in s.handles && b in s.handles
                                && s.handles[a] != NULL && s.handles[b] != NULL
    case Negate(h, a) => h !in s.handles && a in s.handles && s.handles[a] != NULL
    case Collect => true
  }

  /** The effect of a command on the concrete state. */
  ghost predicate Step(s: State, c: Command, t: State)
    requires Enabled(s, c)
  {
    match c
    case Constant(h, value) =>
      var p := if value then s.trueNode else s.falseNode;
      Shift(s, t, p, NULL) && t.handles == s.handles[h := p]
    case Variable(h, id, positive) =>
      var p := if positive then s.vars[id] else s.nvars[id];
      Shift(s, t, p, NULL) && t.handles == s.handles[h := p]
    case Copy(h, src) =>
      Shift(s, t, s.handles[src], NULL) && t.handles == s.handles[h := s.handles[src]]
    case Move(h, src) =>
      Shift(s, t, NULL, NULL) && t.handles == s.handles[h := s.handles[src]][src := NULL]
    case Assign(h, src) =>
      Shift(s, t, s.handles[src], s.handles[h]) && t.handles == s.handles[h := s.handles[src]]
    case MoveAssign(h, src) =>
      if h == src then Shift(s, t, NULL, NULL) && t.handles == s.handles
      else Shift(s, t, NULL, s.handles[h]) && t.handles == s.handles[h := s.handles[src]][src := NULL]
    case Destroy(h) =>
      Shift(s, t, NULL, s.handles[h]) && t.handles == s.handles - {h}
    case Binary(h, op, a, b) =>
      exists r :: Computed(s, t, op, s.handles[a], s.handles[b], r) && t.handles == s.handles[h := r]
    case Negate(h, a) =>
      exists r :: Computed(s, t, Not, s.handles[a], s.falseNode, r) && t.handles == s.handles[h := r]
    case Collect =>
      && SameFrame(s, t) && t.handles == s.handles && t.refs.Keys == t.graph.Keys
      && WellFormed(s.graph) && Referenced(s) <= s.graph.Keys
      && t.graph == Restrict(s.graph, ReachAll(s.graph, Referenced(s)))
      && (forall p :: RefCount(t, p) == RefCount(s, p))
  }

  // ---- The mathematical reading

  /** What a client should think of: handles name Boolean functions; a moved-from handle names none. */
  type Model = map<nat, Option<Fun>>

  ghost const NEVER: Fun := iset{}
  ghost const ALWAYS: Fun := iset env: Env | true

  ghost function VariableFun(id: nat, positive: bool): Fun {
    iset env: Env | (id in env) == positive
  }

  /** `>>` as the code computes it. */
  ghost function ImpWritten(a: Fun, b: Fun): Fun {
    if a == NEVER || b == ALWAYS then ALWAYS
    else if a == ALWAYS then b
    else ApplyFun(Diff, a, b)
  }

  ghost function BinaryFun(op: Op, a: Fun, b: Fun): Fun {
    if op == Imp then ImpWritten(a, b) else ApplyFun(op, a, b)
  }

  ghost predicate SpecEnabled(m: Model, c: Command) {
    match c
    case Constant(h, _) => h !in m
    case Variable(h, _, _) => h !in m
    case Copy(h, src) => h !in m && src in m
    case Move(h, src) => h !in m && src in m
    case Assign(h, src) => h in m && src in m
    case MoveAssign(h, src) => h in m && src in m
    case Destroy(h) => h in m
    case Binary(h, op, a, b) => h !in m && op != Not && a in m && b in m && m[a].Some? && m[b].Some?
    case Negate(h, a) => h !in m && a in m && m[a].Some?
    case Collect => true
  }

  ghost function SpecStep(m: Model, c: Command): Model
    requires SpecEnabled(m, c)
  {
    match c
    case Constant(h, value) => m[h := Some(if value then ALWAYS else NEVER)]
    case Variable(h, id, positive) => m[h := Some(VariableFun(id, positive))]
    case Copy(h, src) => m[h := m[src]]
    case Move(h, src) => m[h := m[src]][src := None]
    case Assign(h, src) => m[h := m[src]]
    case MoveAssign(h, src) => if h == src then m else m[h := m[src]][src := None]
    case Destroy(h) => m - {h}
    case Binary(h, op, a, b) => m[h := Some(BinaryFun(op, m[a].value, m[b].value))]
    case Negate(h, a) => m[h := Some(ApplyFun(Not, m[a].value, NEVER))]
    case Collect => m
  }

  /** The function a node of `g` stands for; an address outside `g` stands for none. */
  ghost function NameIn(g: Graph, p: Ptr): Option<Fun>
    requires WellFormed(g)
  {
    if p in g then Some(Den(g, p)) else None
  }

  /** The functions the handles of a concrete state denote. */
  ghost function View(s: State): Model
    requires Inv(s)
  {
    map h | h in s.handles :: NameIn(s.graph, s.handles[h])
  }

  // ---- What the pinned nodes denote

  lemma ConstantsDenote(g: Graph, f: Ptr, t: Ptr)
    requires WellFormed(g) && AreTerminals(g, f, t)
    ensures Den(g, f) == NEVER && Den(g, t) == ALWAYS
    ensures forall x :: x in g ==> (x == f <==> Den(g, x) == NEVER) && (x == t <==> Den(g, x) == ALWAYS)
  {
    TerminalsEval(g, f, t, f);
    forall x | x in g ensures (x == f <==> Den(g, x) == NEVER) && (x == t <==> Den(g, x) == ALWAYS) {
      Canonicity(g, x, f);
      Canonicity(g, x, t);
    }
  }

  lemma VariableDenotes(s: State, id: nat, positive: bool)
    requires Inv(s) && id < |s.vars|
    ensures var p := if positive then s.vars[id] else s.nvars[id];
      p in s.graph && Den(s.graph, p) == VariableFun(id, positive)
  {
    var g := s.graph;
    var p := if positive then s.vars[id] else s.nvars[id];
    TerminalsEval(g, s.falseNode, s.trueNode, p);
    assert ProperNode(g, p);
    forall env: Env ensures Eval(g, p, env) == ((id in env) == positive) {
      assert Eval(g, p, env) == Eval(g, if id in env then g[p].high else g[p].low, env);
    }
  }

  /** The operators' results denote the operators, `>>` as written included. */
  lemma ReturnedDenotes(g: Graph, f: Ptr, t: Ptr, op: Op, x: Ptr, y: Ptr, r: Ptr)
    requires WellFormed(g) && AreTerminals(g, f, t) && x in g && y in g && r in g
    requires Returned(g, f, t, op, x, y, r)
    ensures Den(g, r) == BinaryFun(op, Den(g, x), Den(g, y))
  {
    ConstantsDenote(g, f, t);
    if op != Imp {
      ResultDenotes(g, op, x, y, r);
    } else if x != f && y != t && x != t {
      ResultDenotes(g, Diff, x, y, r);
    }
  }

  // ---- One step

  /** Pointing handle `h` at `p`, after the counts moved along, keeps the counts right. */
  lemma PointKeepsCounts(s: State, t: State, h: nat, p: Ptr)
    requires Conserved(s) && SameFrame(s, t) && t.handles == s.handles[h := p]
    requires forall q :: q != NULL ==>
      RefCount(t, q) == RefCount(s, q) + One(q == p) - One(h in s.handles && s.handles[h] == q)
    ensures Conserved(t)
  {
    forall q | q != NULL ensures RefCount(t, q) == Holders(t.handles, q) + Pins(t, q) {
      HoldersSet(s.handles, h, p, q);
    }
  }

  /** Moving the root of `src` to `h` changes no count but that of what `h` held. */
  lemma MoveKeepsCounts(s: State, t: State, h: nat, src: nat)
    requires Conserved(s) && SameFrame(s, t) && src in s.handles && h != src
    requires t.handles == s.handles[h := s.handles[src]][src := NULL]
    requires forall q :: q != NULL ==> RefCount(t, q) == RefCount(s, q) - One(h in s.handles && s.handles[h] == q)
    ensures Conserved(t)
  {
    forall q | q != NULL ensures RefCount(t, q) == Holders(t.handles, q) + Pins(t, q) {
      HoldersSet(s.handles, h, s.handles[src], q);
      HoldersSet(s.handles[h := s.handles[src]], src, NULL, q);
    }
  }

  lemma DropKeepsCounts(s: State, t: State, h: nat)
    requires Conserved(s) && SameFrame(s, t) && h in s.handles && t.handles == s.handles - {h}
    requires forall q :: q != NULL ==> RefCount(t, q) == RefCount(s, q) - One(q == s.handles[h])
    ensures Conserved(t)
  {
    forall q | q != NULL ensures RefCount(t, q) == Holders(t.handles, q) + Pins(t, q) {
      HoldersDrop(s.handles, h, q);
    }
  }

  /** What a node names does not change while the table keeps the node. */
  lemma NamedStays(g: Graph, h: Graph, p: Ptr)
    requires WellFormed(g) && WellFormed(h) && (Extends(g, h) || Extends(h, g))
    requires p == NULL || (p in g && p in h)
    ensures NameIn(h, p) == NameIn(g, p)
  {
    if p != NULL {
      if Extends(g, h) {
        DenExtends(g, h, p);
      } else {
        DenExtends(h, g, p);
      }
    }
  }

  /** Every handle of a state is moved-from or a node, so the view survives any change that keeps those nodes. */
  lemma ViewStays(s: State, h: Graph)
    requires Inv(s) && WellFormed(h) && (Extends(s.graph, h) || Extends(h, s.graph))
    requires forall k :: k in s.handles && s.handles[k] != NULL ==> s.handles[k] in h
    ensures forall k :: k in s.handles ==> NameIn(h, s.handles[k]) == NameIn(s.graph, s.handles[k])
  {
    forall k | k in s.handles ensures NameIn(h, s.handles[k]) == NameIn(s.graph, s.handles[k]) {
      if s.handles[k] != NULL {
        RootInTable(s, k);
      }
      NamedStays(s.graph, h, s.handles[k]);
    }
  }

  /** A step that only moves references. */
  lemma ShiftKeepsInv(s: State, t: State, up: Ptr, down: Ptr)
    requires Inv(s) && Shift(s, t, up, down) && Conserved(t)
    ensures Inv(t)
  {
  }

  /** The command's effect on references and handles keeps the counts right, and so the invariant. */
  lemma HandleStepKeepsInv(s: State, c: Command, t: State)
    requires Inv(s) && Enabled(s, c) && Step(s, c, t)
    requires !c.Binary? && !c.Negate? && !c.Collect?
    ensures Inv(t)
  {
    hide WellFormed, VarsInPlace, Holders, Pins, RefCount, Conserved;
    match c
    case Constant(h, value) =>
      var p := if value then s.trueNode else s.falseNode;
      PointKeepsCounts(s, t, h, p);
      ShiftKeepsInv(s, t, p, NULL);
    case Variable(h, id, positive) =>
      var p := if positive then s.vars[id] else s.nvars[id];
      PointKeepsCounts(s, t, h, p);
      ShiftKeepsInv(s, t, p, NULL);
    case Copy(h, src) =>
      PointKeepsCounts(s, t, h, s.handles[src]);
      ShiftKeepsInv(s, t, s.handles[src], NULL);
    case Move(h, src) =>
      MoveKeepsCounts(s, t, h, src);
      ShiftKeepsInv(s, t, NULL, NULL);
    case Assign(h, src) =>
      PointKeepsCounts(s, t, h, s.handles[src]);
      ShiftKeepsInv(s, t, s.handles[src], s.handles[h]);
    case MoveAssign(h, src) =>
      if h == src {
        SameCounts(s, t);
        ShiftKeepsInv(s, t, NULL, NULL);
      } else {
        MoveKeepsCounts(s, t, h, src);
        ShiftKeepsInv(s, t, NULL, s.handles[h]);
      }
    case Destroy(h) =>
      DropKeepsCounts(s, t, h);
      ShiftKeepsInv(s, t, NULL, s.handles[h]);
  }

  lemma SameCounts(s: State, t: State)
    requires Conserved(s) && SameFrame(s, t) && t.handles == s.handles
    requires forall q :: q != NULL ==> RefCount(t, q) == RefCount(s, q)
    ensures Conserved(t)
  {
  }

  lemma ComputedKeepsInv(s: State, t: State, h: nat, op: Op, x: Ptr, y: Ptr, r: Ptr)
    requires Inv(s) && h !in s.handles && Computed(s, t, op, x, y, r) && t.handles == s.handles[h := r]
    ensures Inv(t)
  {
    PointKeepsCounts(s, t, h, r);
  }

  lemma CollectKeepsInv(s: State, t: State)
    requires Inv(s) && Step(s, Collect, t)
    ensures Inv(t) && Extends(t.graph, s.graph)
    ensures forall k :: k in s.handles && s.handles[k] != NULL ==> s.handles[k] in t.graph
  {
    hide ReachAll, Closed, Holders, Pins;
    var roots := Referenced(s);
    ReachAllIsLeastClosed(s.graph, roots);
    RestrictKeepsMeaning(s.graph, ReachAll(s.graph, roots));
    SameCounts(s, t);
    forall p | p in s.graph && RefCount(s, p) > 0 ensures p in t.graph && t.graph[p] == s.graph[p] {
      assert p in roots;
    }
    PinsAreReferenced(s);
    forall k | k in s.handles && s.handles[k] != NULL ensures s.handles[k] in t.graph {
      RootInTable(s, k);
    }
  }

  lemma PinsAreReferenced(s: State)
    requires Inv(s)
    ensures RefCount(s, s.falseNode) > 0 && RefCount(s, s.trueNode) > 0
    ensures forall i :: 0 <= i < |s.vars| ==> RefCount(s, s.vars[i]) > 0
    ensures forall i :: 0 <= i < |s.nvars| ==> RefCount(s, s.nvars[i]) > 0
  {
    forall i | 0 <= i < |s.vars| ensures RefCount(s, s.vars[i]) > 0 {
      assert s.vars[i] in multiset(s.vars);
    }
    forall i | 0 <= i < |s.nvars| ensures RefCount(s, s.nvars[i]) > 0 {
      assert s.nvars[i] in multiset(s.nvars);
    }
  }

  /** Every command keeps the invariant, reference conservation and canonicity included. */
  lemma StepKeepsInv(s: State, c: Command, t: State)
    requires Inv(s) && Enabled(s, c) && Step(s, c, t)
    ensures Inv(t)
  {
    hide Inv, Shift, Computed;
    match c
    case Binary(h, op, a, b) =>
      var r :| Computed(s, t, op, s.handles[a], s.handles[b], r) && t.handles == s.handles[h := r];
      ComputedKeepsInv(s, t, h, op, s.handles[a], s.handles[b], r);
    case Negate(h, a) =>
      var r :| Computed(s, t, Not, s.handles[a], s.falseNode, r) && t.handles == s.handles[h := r];
      ComputedKeepsInv(s, t, h, Not, s.handles[a], s.falseNode, r);
    case Collect => CollectKeepsInv(s, t);
    case _ => HandleStepKeepsInv(s, c, t);
  }

  /** One command does to the handles' functions what the mathematical reading says. */
  lemma StepRefines(s: State, c: Command, t: State)
    requires Inv(s) && Enabled(s, c) && Step(s, c, t)
    ensures Inv(t) && SpecEnabled(View(s), c) && View(t) == SpecStep(View(s), c)
  {
    StepKeepsInv(s, c, t);
    EnabledInView(s, c);
    hide Inv, Shift, Computed, SpecStep, View;
    match c
    case Binary(h, op, a, b) =>
      var r :| Computed(s, t, op, s.handles[a], s.handles[b], r) && t.handles == s.handles[h := r];
      BinaryRefines(s, t, h, op, a, b, r);
    case Negate(h, a) =>
      var r :| Computed(s, t, Not, s.handles[a], s.falseNode, r) && t.handles == s.handles[h := r];
      NegateRefines(s, t, h, a, r);
    case Collect => CollectRefines(s, t);
    case _ => HandleStepRefines(s, c, t);
  }

  lemma HandleStepRefines(s: State, c: Command, t: State)
    requires Inv(s) && Inv(t) && Enabled(s, c) && Step(s, c, t) && SpecEnabled(View(s), c)
    requires !c.Binary? && !c.Negate? && !c.Collect?
    ensures View(t) == SpecStep(View(s), c)
  {
    NullNamesNothing(s);
    hide Inv, WellFormed, NameIn, RefCount;
    assert t.graph == s.graph;
    match c
    case Constant(h, value) =>
      ConstantDenotes(s, value);
      ViewPoint(s, t, h, if value then s.trueNode else s.falseNode);
    case Variable(h, id, positive) =>
      VariableNamed(s, id, positive);
      ViewPoint(s, t, h, if positive then s.vars[id] else s.nvars[id]);
    case Copy(h, src) => ViewPoint(s, t, h, s.handles[src]);
    case Move(h, src) => ViewMove(s, t, h, src);
    case Assign(h, src) => ViewPoint(s, t, h, s.handles[src]);
    case MoveAssign(h, src) =>
      if h != src { ViewMove(s, t, h, src); }
    case Destroy(h) => ViewDrop(s, t, h);
  }

  lemma ViewPoint(s: State, t: State, h: nat, p: Ptr)
    requires Inv(s) && Inv(t) && t.graph == s.graph && t.handles == s.handles[h := p]
    ensures View(t) == View(s)[h := NameIn(s.graph, p)]
  {
  }

  lemma ViewMove(s: State, t: State, h: nat, src: nat)
    requires Inv(s) && Inv(t) && t.graph == s.graph && src in s.handles
    requires t.handles == s.handles[h := s.handles[src]][src := NULL]
    ensures View(t) == View(s)[h := View(s)[src]][src := None]
  {
    NullNamesNothing(s);
  }

  lemma ViewDrop(s: State, t: State, h: nat)
    requires Inv(s) && Inv(t) && t.graph == s.graph && t.handles == s.handles - {h}
    ensures View(t) == View(s) - {h}
  {
  }

  lemma BinaryRefines(s: State, t: State, h: nat, op: Op, a: nat, b: nat, r: Ptr)
    requires Inv(s) && Inv(t) && Enabled(s, Binary(h, op, a, b)) && SpecEnabled(View(s), Binary(h, op, a, b))
    requires Computed(s, t, op, s.handles[a], s.handles[b], r) && t.handles == s.handles[h := r]
    ensures View(t) == SpecStep(View(s), Binary(h, op, a, b))
  {
    hide Conserved, VarsInPlace, RefCount, WellFormed, Computed, BinaryFun, Den;
    RootInTable(s, a);
    RootInTable(s, b);
    ComputedNames(s, t, h, op, s.handles[a], s.handles[b], r);
    hide Inv;
  }

  lemma NegateRefines(s: State, t: State, h: nat, a: nat, r: Ptr)
    requires Inv(s) && Inv(t) && Enabled(s, Negate(h, a)) && SpecEnabled(View(s), Negate(h, a))
    requires Computed(s, t, Not, s.handles[a], s.falseNode, r) && t.handles == s.handles[h := r]
    ensures View(t) == SpecStep(View(s), Negate(h, a))
  {
    hide Conserved, VarsInPlace, RefCount, WellFormed, Computed, ApplyFun, Den;
    RootInTable(s, a);
    ConstantsDenote(s.graph, s.falseNode, s.trueNode);
    ComputedNames(s, t, h, Not, s.handles[a], s.falseNode, r);
    hide Inv;
  }

  lemma CollectRefines(s: State, t: State)
    requires Inv(s) && Inv(t) && Step(s, Collect, t)
    ensures View(t) == View(s)
  {
    CollectKeepsInv(s, t);
    ViewStays(s, t.graph);
    ViewSame(s, t);
  }

  lemma ViewSame(s: State, t: State)
    requires Inv(s) && Inv(t) && t.handles == s.handles
    requires forall k :: k in s.handles ==> NameIn(t.graph, s.handles[k]) == NameIn(s.graph, s.handles[k])
    ensures View(t) == View(s)
  {
    hide Inv, NameIn;
  }

  /** A handle names a function unless it was moved from. */
  lemma NamedUnlessMoved(s: State, h: nat)
    requires Inv(s) && h in s.handles
    ensures View(s)[h].Some? <==> s.handles[h] != NULL
  {
    if s.handles[h] != NULL {
      RootInTable(s, h);
    } else {
      NullNamesNothing(s);
    }
  }

  /** A client may give exactly the commands that make sense on the functions its handles name. */
  lemma EnabledInView(s: State, c: Command)
    requires Inv(s)
    ensures Enabled(s, c) <==> SpecEnabled(View(s), c) && (c.Variable? ==> c.id < |s.vars|)
  {
    match c
    case Binary(h, op, a, b) =>
      if a in s.handles { NamedUnlessMoved(s, a); }
      if b in s.handles { NamedUnlessMoved(s, b); }
    case Negate(h, a) =>
      if a in s.handles { NamedUnlessMoved(s, a); }
    case _ =>
  }

  lemma NullNamesNothing(s: State)
    requires Inv(s)
    ensures WellFormed(s.graph) && NameIn(s.graph, NULL) == None
  {
  }

  lemma ConstantDenotes(s: State, value: bool)
    requires Inv(s)
    ensures WellFormed(s.graph)
    ensures NameIn(s.graph, if value then s.trueNode else s.falseNode) == Some(if value then ALWAYS else NEVER)
  {
    ConstantsDenote(s.graph, s.falseNode, s.trueNode);
  }

  lemma VariableNamed(s: State, id: nat, positive: bool)
    requires Inv(s) && id < |s.vars|
    ensures WellFormed(s.graph) && id < |s.nvars|
    ensures NameIn(s.graph, if positive then s.vars[id] else s.nvars[id]) == Some(VariableFun(id, positive))
  {
    VariableDenotes(s, id, positive);
  }

  /** An operator's answer names the operator's function, and every other handle names what it did. */
  lemma ComputedNames(s: State, t: State, h: nat, op: Op, x: Ptr, y: Ptr, r: Ptr)
    requires Inv(s) && Inv(t) && x in s.graph && y in s.graph
    requires Computed(s, t, op, x, y, r) && t.handles == s.handles[h := r]
    ensures WellFormed(s.graph) && WellFormed(t.graph)
    ensures NameIn(t.graph, r) == Some(BinaryFun(op, Den(s.graph, x), Den(s.graph, y)))
    ensures forall k :: k in s.handles ==> NameIn(t.graph, s.handles[k]) == NameIn(s.graph, s.handles[k])
  {
    ReturnedDenotes(t.graph, t.falseNode, t.trueNode, op, x, y, r);
    DenExtends(s.graph, t.graph, x);
    DenExtends(s.graph, t.graph, y);
    forall k | k in s.handles && s.handles[k] != NULL ensures s.handles[k] in t.graph {
      RootInTable(s, k);
    }
    ViewStays(s, t.graph);
  }

  /** The table grew by unreferenced nodes and nothing else happened: an operator that found no slot. */
  ghost predicate Stalled(s: State, t: State) {
    && SameFrame(s, t) && t.handles == s.handles && WellFormed(t.graph) && Extends(s.graph, t.graph)
    && t.refs.Keys == t.graph.Keys && (forall p :: RefCount(t, p) == RefCount(s, p))
  }

  lemma StalledKeepsInv(s: State, t: State)
    requires Inv(s) && Stalled(s, t)
    ensures Inv(t) && View(t) == View(s)
  {
    SameCounts(s, t);
    hide Holders, Pins, RefCount;
    forall k | k in s.handles && s.handles[k] != NULL ensures s.handles[k] in t.graph {
      RootInTable(s, k);
    }
    ViewStays(s, t.graph);
    ViewSame(s, t);
  }

  // ---- Whole runs

  /** `trace` is a run of the commands: each was allowed where it was given, and had its effect. */
  ghost predicate IsRun(trace: seq<State>, cmds: seq<Command>) {
    && |trace| == |cmds| + 1
    && (forall i :: 0 <= i < |cmds| ==> Advances(trace, cmds, i))
  }

  ghost predicate Advances(trace: seq<State>, cmds: seq<Command>, i: nat)
    requires |trace| == |cmds| + 1 && i < |cmds|
  {
    Enabled(trace[i], cmds[i]) && Step(trace[i], cmds[i], trace[i + 1])
  }

  /** The mathematical reading of a list of commands. */
  ghost function SpecRun(m: Model, cmds: seq<Command>): Model {
    if cmds == [] then m
    else
      var before := SpecRun(m, cmds[..|cmds| - 1]);
      var last := cmds[|cmds| - 1];
      if SpecEnabled(before, last) then SpecStep(before, last) else before
  }

  lemma PrefixIsRun(trace: seq<State>, cmds: seq<Command>)
    requires IsRun(trace, cmds) && cmds != []
    ensures IsRun(trace[..|cmds|], cmds[..|cmds| - 1])
  {
    hide Step, Enabled;
    var t, c := trace[..|cmds|], cmds[..|cmds| - 1];
    forall i | 0 <= i < |c| ensures Advances(t, c, i) {
      assert Advances(trace, cmds, i);
    }
  }

  /**
    Whatever the commands, collections and slot reuse included, every state of
    a run satisfies the invariant and every handle denotes the function that
    the mathematical reading gives it.
   */
  lemma {:induction false} RunRefines(trace: seq<State>, cmds: seq<Command>)
    requires IsRun(trace, cmds) && Inv(trace[0])
    ensures forall i :: 0 <= i < |trace| ==> Inv(trace[i])
    ensures View(trace[|cmds|]) == SpecRun(View(trace[0]), cmds)
    decreases |cmds|
  {
    hide Inv, Step, Enabled, SpecStep, SpecEnabled, View;
    if cmds != [] {
      var n := |cmds| - 1;
      var t, c := trace[..|cmds|], cmds[..n];
      PrefixIsRun(trace, cmds);
      RunRefines(t, c);
      assert Advances(trace, cmds, n);
      assert t[n] == trace[n];
      StepRefines(trace[n], cmds[n], trace[n + 1]);
      forall i | 0 <= i < |trace| ensures Inv(trace[i]) {
        if i < |trace| - 1 { assert t[i] == trace[i]; }
      }
    }
  }

  /** `==` on handles is equality of the Boolean functions they stand for, in every state of a run. */
  lemma HandleEquality(trace: seq<State>, cmds: seq<Command>, i: nat, a: nat, b: nat)
    requires IsRun(trace, cmds) && Inv(trace[0]) && i < |trace|
    requires a in trace[i].handles && b in trace[i].handles
    ensures Inv(trace[i]) && a in View(trace[i]) && b in View(trace[i])
    ensures trace[i].handles[a] == trace[i].handles[b] <==> View(trace[i])[a] == View(trace[i])[b]
  {
    RunRefines(trace, cmds);
    var s := trace[i];
    hide VarsInPlace, Conserved, AreTerminals;
    if s.handles[a] != NULL { RootInTable(s, a); }
    if s.handles[b] != NULL { RootInTable(s, b); }
    if s.handles[a] != NULL && s.handles[b] != NULL {
      Canonicity(s.graph, s.handles[a], s.handles[b]);
    }
  }

  /** The handles a command writes. */
  function Targets(c: Command): set<nat> {
    match c
    case Constant(h, _) => {h}
    case Variable(h, _, _) => {h}
    case Copy(h, _) => {h}
    case Move(h, src) => {h, src}
    case Assign(h, _) => {h}
    case MoveAssign(h, src) => {h, src}
    case Destroy(h) => {h}
    case Binary(h, _, _, _) => {h}
    case Negate(h, _) => {h}
    case Collect => {}
  }

  /** A live handle that no command of the run writes keeps its node and its function. */
  lemma {:induction false} LiveHandleIsStable(trace: seq<State>, cmds: seq<Command>, h: nat)
    requires IsRun(trace, cmds) && Inv(trace[0]) && h in trace[0].handles
    requires forall i :: 0 <= i < |cmds| ==> h !in Targets(cmds[i])
    ensures Inv(trace[|cmds|]) && h in trace[|cmds|].handles
    ensures trace[|cmds|].handles[h] == trace[0].handles[h]
    ensures View(trace[|cmds|])[h] == View(trace[0])[h]
    decreases |cmds|
  {
    hide Step, Enabled, SpecStep, SpecEnabled, WellFormed, VarsInPlace, Conserved, AreTerminals;
    if cmds != [] {
      var n := |cmds| - 1;
      var t, c := trace[..|cmds|], cmds[..n];
      PrefixIsRun(trace, cmds);
      LiveHandleIsStable(t, c, h);
      RunRefines(trace, cmds);
      assert Advances(trace, cmds, n);
      assert t[n] == trace[n] && t[0] == trace[0];
      StepRefines(trace[n], cmds[n], trace[n + 1]);
      StepLeavesOthers(trace[n], cmds[n], trace[n + 1], h);
    }
  }

  lemma StepLeavesOthers(s: State, c: Command, t: State, h: nat)
    requires Inv(s) && Inv(t) && Enabled(s, c) && Step(s, c, t) && h in s.handles && h !in Targets(c)
    requires SpecEnabled(View(s), c) && View(t) == SpecStep(View(s), c)
    ensures h in t.handles && t.handles[h] == s.handles[h] && View(t)[h] == View(s)[h]
  {
    hide Inv, NameIn, Shift, Computed, RefCount;
    assert h in View(s);
    assert SpecStep(View(s), c)[h] == View(s)[h];
  }

  /** With no handle left, a collection leaves the terminals and the variables: 2 + 2 * varNum nodes. */
  lemma CollectWithoutHandles(s: State, t: State)
    requires Inv(s) && s.handles == map[] && Step(s, Collect, t)
    ensures t.graph.Keys == PinnedNodes(s) && |t.graph| == 2 + 2 * |s.vars|
  {
    hide Inv, Step, PinnedNodes, WellFormed, ReachAll, Restrict, Referenced;
    CollectLeaves(s, t);
    OnlyPins(s);
    PinnedCount(s);
    PinsClosed(s);
    NothingBeyondClosedRoots(s.graph, PinnedNodes(s));
    RestrictKeys(s.graph, PinnedNodes(s));
  }

  lemma CollectLeaves(s: State, t: State)
    requires Step(s, Collect, t)
    ensures WellFormed(s.graph) && Referenced(s) <= s.graph.Keys
    ensures t.graph == Restrict(s.graph, ReachAll(s.graph, Referenced(s)))
  {
    hide WellFormed, ReachAll, Restrict, Referenced, RefCount;
  }

  lemma NothingBeyondClosedRoots(g: Graph, roots: set<Ptr>)
    requires WellFormed(g) && Closed(g, roots)
    ensures ReachAll(g, roots) == roots
  {
    hide WellFormed;
    ReachAllIsLeastClosed(g, roots);
  }

  lemma RestrictKeys(g: Graph, kept: set<Ptr>)
    requires kept <= g.Keys
    ensures Restrict(g, kept).Keys == kept && |Restrict(g, kept)| == |kept|
  {
    var h := Restrict(g, kept);
    assert h.Keys == kept;
    assert |h| == |h.Keys|;
  }

  ghost function PinnedNodes(s: State): set<Ptr> {
    {s.falseNode, s.trueNode} + Elements(s.vars) + Elements(s.nvars)
  }

  /** Without handles the references are exactly the pins. */
  lemma OnlyPins(s: State)
    requires Inv(s) && s.handles == map[]
    ensures Referenced(s) == PinnedNodes(s) && WellFormed(s.graph) && Referenced(s) <= s.graph.Keys
  {
    hide AreTerminals, VarsInPlace, WellFormed, Pins, PinnedNodes, Holders, RefCount, Conserved;
    forall p | p in Referenced(s) ensures p in PinnedNodes(s) {
      ReferencedIsPinned(s, p);
    }
    forall p | p in PinnedNodes(s) ensures p in Referenced(s) {
      PinnedIsReferenced(s, p);
    }
  }

  lemma PinnedIsReferenced(s: State, p: Ptr)
    requires Inv(s) && p in PinnedNodes(s)
    ensures p in Referenced(s) && RefCount(s, p) > 0
  {
    hide Conserved, VarsInPlace, AreTerminals, WellFormed;
    PinsAreReferenced(s);
    hide Inv;
    if p in s.vars {
      var i :| 0 <= i < |s.vars| && s.vars[i] == p;
    } else if p in s.nvars {
      var i :| 0 <= i < |s.nvars| && s.nvars[i] == p;
    }
  }

  lemma ReferencedIsPinned(s: State, p: Ptr)
    requires Inv(s) && s.handles == map[] && p in Referenced(s)
    ensures p in PinnedNodes(s)
  {
    hide AreTerminals, VarsInPlace;
    assert p != NULL;
    hide WellFormed;
    assert HolderSet(s.handles, p) == {};
    assert RefCount(s, p) == Pins(s, p);
  }

  lemma PinsClosed(s: State)
    requires Inv(s)
    ensures Closed(s.graph, PinnedNodes(s))
  {
  }

  lemma PinnedCount(s: State)
    requires Inv(s)
    ensures |PinnedNodes(s)| == 2 + 2 * |s.vars|
  {
    hide WellFormed, Conserved;
    TerminalsEval(s.graph, s.falseNode, s.trueNode, s.falseNode);
    DistinctSize(s.vars);
    DistinctSize(s.nvars);
    assert Elements(s.vars) !! Elements(s.nvars);
    assert {s.falseNode, s.trueNode} !! Elements(s.vars) + Elements(s.nvars);
    assert |Elements(s.vars) + Elements(s.nvars)| == 2 * |s.vars|;
  }

  /** A collection, in the middle of a command or before it, and the command. */
  ghost predicate CollectsThenSteps(s: State, mid: State, c: Command, t: State) {
    Step(s, Collect, mid) && Inv(mid) && Enabled(mid, c) && Step(mid, c, t)
  }

  /** The client does not notice the collection. */
  lemma CollectionIsInvisible(s: State, mid: State, c: Command, t: State)
    requires Inv(s) && CollectsThenSteps(s, mid, c, t)
    ensures Inv(t) && SpecEnabled(View(s), c) && View(t) == SpecStep(View(s), c)
  {
    hide Inv, Step, View, SpecStep;
    StepRefines(s, Collect, mid);
    StepRefines(mid, c, t);
    CollectKeepsView(View(s));
  }

  lemma CollectKeepsView(m: Model)
    ensures SpecEnabled(m, Collect) && SpecStep(m, Collect) == m
  {
  }

  // ---- Compound assignments as written

  /** `h op= b` as written overwrites the root and moves no reference count. */
  ghost predicate CompoundStep(s: State, t: State, op: Op, h: nat, b: nat, r: Ptr)
    requires h in s.handles && b in s.handles
  {
    var x, y := s.handles[h], s.handles[b];
    && SameFrame(s, t) && WellFormed(t.graph) && Extends(s.graph, t.graph) && t.refs.Keys == t.graph.Keys
    && x in t.graph && y in t.graph && r in t.graph && Returned(t.graph, t.falseNode, t.trueNode, op, x, y, r)
    && (forall p :: RefCount(t, p) == RefCount(s, p))
    && t.handles == s.handles[h := r]
  }

  /**
    When `f op= g` leaves `f` as it was, operator by operator, `>>` by the
    branches it is written with.
   */
  ghost predicate Unaltered(op: Op, f: Fun, g: Fun) {
    match op
    case And => f <= g
    case Or => g <= f
    case Not => false
    case Xor => g == NEVER
    case Diff => f !! g
    case Imp => (f == ALWAYS && g == ALWAYS) || (f != NEVER && f != ALWAYS && g != ALWAYS && f !! g)
  }

  lemma UnalteredIsFixed(op: Op, f: Fun, g: Fun)
    ensures BinaryFun(op, f, g) == f <==> Unaltered(op, f, g)
  {
    var r := BinaryFun(op, f, g);
    var env: Env := iset{};
    assert env in ALWAYS && env !in NEVER;
    match op
    case And => assert r == f * g;
    case Or => assert r == f + g;
    case Not => assert env in r <==> env !in f;
    case Xor => XorIsFixed(f, g);
    case Diff => assert r == f - g;
    case Imp =>
      assert ApplyFun(Diff, f, g) == f - g;
      assert f == ALWAYS ==> f - g != f || g == NEVER;
  }

  lemma XorIsFixed(f: Fun, g: Fun)
    ensures ApplyFun(Xor, f, g) == f <==> g == NEVER
  {
    if ApplyFun(Xor, f, g) == f {
      forall env: Env ensures env !in g {
        assert env in ApplyFun(Xor, f, g) <==> (env in f) != (env in g);
      }
    } else if g == NEVER {
      assert forall env: Env :: env in ApplyFun(Xor, f, g) <==> env in f;
    }
  }

  /**
    It conserves references exactly when the operation leaves the handle's
    function as it was, which the caller can tell from the operands beforehand.
   */
  lemma CompoundConservesIff(s: State, t: State, op: Op, h: nat, b: nat, r: Ptr)
    requires Inv(s) && h in s.handles && b in s.handles && s.handles[h] in s.graph && s.handles[b] in s.graph
    requires CompoundStep(s, t, op, h, b, r)
    ensures Conserved(t) <==> Unaltered(op, Den(s.graph, s.handles[h]), Den(s.graph, s.handles[b]))
  {
    var x, y := s.handles[h], s.handles[b];
    ReturnedDenotes(t.graph, t.falseNode, t.trueNode, op, x, y, r);
    DenExtends(s.graph, t.graph, x);
    DenExtends(s.graph, t.graph, y);
    Canonicity(t.graph, r, x);
    UnalteredIsFixed(op, Den(s.graph, x), Den(s.graph, y));
    hide BinaryFun, Den, Returned, WellFormed, VarsInPlace, Unaltered;
    CompoundCounts(s, t, h, r);
  }

  /**
    What follows at the next collection: the root that was stored is still a
    node if and only if some node that was referenced before reaches it.
   */
  lemma CompoundRootSurvivesIff(s: State, t: State, u: State, op: Op, h: nat, b: nat, r: Ptr)
    requires Inv(s) && h in s.handles && b in s.handles
    requires CompoundStep(s, t, op, h, b, r) && Step(t, Collect, u)
    ensures u.handles[h] in u.graph <==> exists q :: q in Referenced(s) && q in t.graph && r in Reach(t.graph, q)
  {
    hide Reach, WellFormed, Conserved, VarsInPlace, AreTerminals;
    assert Referenced(t) == Referenced(s) by {
      forall p ensures p in Referenced(t) <==> p in Referenced(s) {
        assert RefCount(t, p) == RefCount(s, p);
      }
    }
  }

  lemma CompoundCounts(s: State, t: State, h: nat, r: Ptr)
    requires Conserved(s) && SameFrame(s, t) && h in s.handles && t.handles == s.handles[h := r] && r != NULL
    requires forall p :: RefCount(t, p) == RefCount(s, p)
    ensures Conserved(t) <==> r == s.handles[h]
  {
    HoldersSet(s.handles, h, r, r);
    if r == s.handles[h] {
      assert t.handles == s.handles;
      SameCounts(s, t);
    } else {
      assert RefCount(t, r) != Holders(t.handles, r) + Pins(t, r);
    }
  }

  /** A concrete failure: `x &= y` on two different variables. */
  lemma CompoundLosesReference(s: State, t: State, h: nat, b: nat, r: Ptr)
    requires Inv(s) && h in s.handles && b in s.handles && |s.vars| >= 2
    requires s.handles[h] == s.vars[0] && s.handles[b] == s.vars[1]
    requires CompoundStep(s, t, And, h, b, r)
    ensures !Conserved(t)
  {
    VariableDenotes(s, 0, true);
    VariableDenotes(s, 1, true);
    var x, y := VariableFun(0, true), VariableFun(1, true);
    var env: Env := iset{0};
    assert env in x && env !in ApplyFun(And, x, y);
    CompoundConservesIff(s, t, And, h, b, r);
  }
}
