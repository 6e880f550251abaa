/**
  A client program on which `&` returns a wrong handle: a table of 17 slots,
  four variables, seven operators, and one free slot when the last one starts.
 */
module Failures {
  import opened Nodes
  import opened Diagrams
  import opened Operators
  import opened Demand
  import opened Collections
  import opened NumberTheory
  import opened PrimeCertificates
  import opened PrimeSearch
  import opened TableFacts
  import opened Buckets
  import opened UniqueTable
  import opened Runs
  import opened Sessions

  /** When both parts are nodes already, at most the answer itself is missing. */
  lemma AtMostOneMissing(g: Graph, op: Op, x: Ptr, y: Ptr, m: nat, low: Ptr, high: Ptr)
    requires WellFormed(g) && x in g && y in g && Expanded(g, op, x, y, m, low, high)
    requires m == Min(g[x].level, g[y].level)
    ensures |Missing(g, op, x, y)| <= 1
  {
    OnlyRootMissing(g, op, x, y, m, low, high);
    hide Missing, Answer;
    SubsetSize(Missing(g, op, x, y), {Answer(g, op, x, y)});
  }

  /** Then the operation adds one node, with the combined key. */
  lemma OneNodeMore(g: Graph, h: Graph, op: Op, x: Ptr, y: Ptr, m: nat, low: Ptr, high: Ptr, r: Ptr)
    requires WellFormed(g) && WellFormed(h) && Extends(g, h) && x in g && y in g && x in h && y in h
    requires Expanded(g, op, x, y, m, low, high) && m == Min(g[x].level, g[y].level)
    requires low != high && low in g && high in g
    requires forall p :: p in g ==> g[p] != Cell(m, low, high)
    requires IsResult(h, op, x, y, r) && r in h && h.Keys == g.Keys + Reach(h, r)
    ensures r !in g && h == g[r := Cell(m, low, high)]
  {
    hide IsResult, WellFormed, Reach;
    PartsStay(g, h, op, x, y, m, low, high);
    AnswerKey(h, op, x, y, m, low, high, r);
    ReachOfNode(h, r);
    ReachExtends(g, h, low);
    ReachExtends(g, h, high);
    hide Expanded;
    SameButOne(g, h, r);
  }

  lemma PartsStay(g: Graph, h: Graph, op: Op, x: Ptr, y: Ptr, m: nat, low: Ptr, high: Ptr)
    requires WellFormed(g) && WellFormed(h) && Extends(g, h) && x in g && y in g && x in h && y in h
    requires Expanded(g, op, x, y, m, low, high) && low in g && high in g
    ensures Expanded(h, op, x, y, m, low, high)
  {
    hide IsResult, WellFormed;
    ResultStable(g, h, op, Cofactor(g, x, m, false), Cofactor(g, y, m, false), low);
    ResultStable(g, h, op, Cofactor(g, x, m, true), Cofactor(g, y, m, true), high);
  }

  lemma SameButOne(g: Graph, h: Graph, r: Ptr)
    requires Extends(g, h) && r in h && r !in g && h.Keys <= g.Keys + {r}
    ensures h == g[r := h[r]]
  {
  }

  /** The parts of `v & w` and of `!v & w`, for the first variable `v` and a later one `w`. */
  lemma HalfParts(g: Graph, f: Ptr, t: Ptr, v: Ptr, w: Ptr)
    requires WellFormed(g) && AreTerminals(g, f, t) && f != t && v in g && w in g && 0 < g[w].level < TERMINAL_LEVEL
    ensures g[v] == Cell(0, f, t) ==> Expanded(g, And, v, w, 0, f, w)
    ensures g[v] == Cell(0, t, f) ==> Expanded(g, And, v, w, 0, w, f)
  {
    ShortcutIsResult(g, f, t, And, f, w, f);
    ShortcutIsResult(g, f, t, And, t, w, w);
    hide IsResult, WellFormed;
  }

  /** The parts of the two halves joined. */
  lemma JoinParts(g: Graph, f: Ptr, t: Ptr, a: Ptr, b: Ptr, low: Ptr, high: Ptr)
    requires WellFormed(g) && AreTerminals(g, f, t) && a in g && b in g && low in g && high in g
    requires g[a] == Cell(0, f, high) && g[b] == Cell(0, low, f)
    ensures Expanded(g, Or, a, b, 0, low, high)
  {
    ShortcutIsResult(g, f, t, Or, f, low, low);
    ShortcutIsResult(g, f, t, Or, high, f, high);
    hide IsResult, WellFormed;
  }

  /** The key of a constant, or of one of four variables and their negations. */
  predicate IsPinnedKey(c: Cell, f: Ptr, t: Ptr) {
    IsTerminal(c) || (c.level < 4 && (c == Cell(c.level, f, t) || c == Cell(c.level, t, f)))
  }

  /** The keys in the table are pinned ones and these, and every node is referenced. */
  ghost predicate Peopled(s: State, made: set<Cell>) {
    forall p :: p in s.graph ==>
      (IsPinnedKey(s.graph[p], s.falseNode, s.trueNode) || s.graph[p] in made) && RefCount(s, p) > 0
  }

  lemma OneMore(s: State, t: State, made: set<Cell>, c: Cell, r: Ptr)
    requires Peopled(s, made) && t.graph == s.graph[r := c] && SameFrame(s, t)
    requires forall p :: RefCount(t, p) == RefCount(s, p) + One(p == r)
    ensures Peopled(t, made + {c})
  {
    hide RefCount;
  }

  lemma KeyIsNew(s: State, made: set<Cell>, c: Cell)
    requires Peopled(s, made) && c !in made && !IsPinnedKey(c, s.falseNode, s.trueNode)
    ensures forall p :: p in s.graph ==> s.graph[p] != c
  {
  }

  ghost predicate Stage(s: Session, made: set<Cell>, free: nat)
    reads s, s.table, s.table.allocator, s.table.cache, s.table.cache.entries
  {
    s.Valid() && s.table.allocator.Valid() && s.table.allocator.FreeSlots() == free && Peopled(s.Now(), made)
  }

  /** What a step with an operator other than `>>` says about its answer. */
  lemma StepAnswers(s: State, t: State, h: nat, op: Op, a: nat, b: nat)
    requires Enabled(s, Binary(h, op, a, b)) && Step(s, Binary(h, op, a, b), t) && op != Imp && WellFormed(s.graph)
    requires s.handles[a] in s.graph && s.handles[b] in s.graph
    ensures SameFrame(s, t) && WellFormed(t.graph) && Extends(s.graph, t.graph) && h in t.handles
    ensures s.handles[a] in t.graph && s.handles[b] in t.graph
    ensures IsResult(t.graph, op, s.handles[a], s.handles[b], t.handles[h]) && t.handles[h] in t.graph
    ensures forall p :: RefCount(t, p) == RefCount(s, p) + One(p == t.handles[h])
  {
    hide IsResult, WellFormed, RefCount;
  }

  /** One node more, of key `c`, named by the new handle `h`. */
  ghost predicate Grew(s: State, t: State, h: nat, c: Cell) {
    && SameFrame(s, t) && h in t.handles && t.handles == s.handles[h := t.handles[h]]
    && t.handles[h] !in s.graph && t.graph == s.graph[t.handles[h] := c]
  }

  /** One operator of the program: it makes one node, of a new key, and keeps it in a handle. */
  method Make(s: Session, h: nat, op: Op, a: nat, b: nat, ghost m: nat, ghost low: Ptr, ghost high: Ptr,
              ghost made: set<Cell>, ghost free: nat)
    requires Stage(s, made, free) && free > 0 && op != Not && op != Imp
    requires WellFormed(s.table.graph) && h !in s.handles && a in s.handles && b in s.handles
    requires s.handles[a] in s.table.graph && s.handles[b] in s.table.graph
    requires low in s.table.graph && high in s.table.graph
    requires Expanded(s.table.graph, op, s.handles[a], s.handles[b], m, low, high) && low != high
    requires m == Min(s.table.graph[s.handles[a]].level, s.table.graph[s.handles[b]].level)
    requires Cell(m, low, high) !in made && !IsPinnedKey(Cell(m, low, high), s.table.falseNode, s.table.trueNode)
    modifies s, s.table, s.table.allocator, s.table.cache.entries
    ensures Stage(s, made + {Cell(m, low, high)}, free - 1) && WellFormed(s.table.graph)
    ensures Grew(old(s.Now()), s.Now(), h, Cell(m, low, high))
  {
    hide Inv, NodeTable.Valid, RefsOf, Step, Reach, WellFormed, Expanded, IsResult, Missing, RefCount,
      NodeTable.Starved, Peopled;
    ghost var g, was := s.table.graph, s.Now();
    AtMostOneMissing(g, op, s.handles[a], s.handles[b], m, low, high);
    NotStarved(s, op, a, b);
    var done := s.BinaryOperator(h, op, a, b);
    StepAnswers(was, s.Now(), h, op, a, b);
    KeyIsNew(was, made, Cell(m, low, high));
    OneNodeMore(g, s.table.graph, op, was.handles[a], was.handles[b], m, low, high, s.handles[h]);
    OneMore(was, s.Now(), made, Cell(m, low, high), s.handles[h]);
    s.table.Consistent();
    assert |s.table.graph| == |g| + 1;
  }

  lemma NotStarved(s: Session, op: Op, a: nat, b: nat)
    requires s.Valid() && s.table.allocator.Valid() && WellFormed(s.table.graph) && a in s.handles && b in s.handles
    requires op != Imp
    requires s.handles[a] in s.table.graph && s.handles[b] in s.table.graph
    requires |Missing(s.table.graph, op, s.handles[a], s.handles[b])| <= s.table.allocator.FreeSlots()
    ensures !s.Starved(op, a, b) && s.handles[a] != NULL && s.handles[b] != NULL
  {
    hide Missing, NodeTable.Valid, Inv;
  }

  // ---- The program

  /** After `init` nothing else is in the table. */
  lemma OnlyPinned(s: State)
    requires Inv(s) && |s.vars| == 4 && |s.graph| == 2 + 2 * |s.vars|
    ensures Peopled(s, {})
  {
    hide Inv, RefCount, IsPinnedKey, PinnedNodes;
    AllPinned(s);
    forall p | p in s.graph ensures IsPinnedKey(s.graph[p], s.falseNode, s.trueNode) && RefCount(s, p) > 0 {
      PinnedNode(s, p);
    }
  }

  lemma PinnedNode(s: State, p: Ptr)
    requires Inv(s) && |s.vars| == 4 && p in PinnedNodes(s) && p in s.graph
    ensures IsPinnedKey(s.graph[p], s.falseNode, s.trueNode) && RefCount(s, p) > 0
  {
    hide WellFormed, Conserved, RefCount, PinnedNodes, IsPinnedKey, AreTerminals, VarsInPlace;
    PinnedIsReferenced(s, p);
    PinnedKey(s, p);
  }

  lemma PinnedKey(s: State, p: Ptr)
    requires AreTerminals(s.graph, s.falseNode, s.trueNode) && VarsInPlace(s)
    requires |s.vars| == 4 && p in PinnedNodes(s) && p in s.graph
    ensures IsPinnedKey(s.graph[p], s.falseNode, s.trueNode)
  {
    if p in s.vars {
      var i :| 0 <= i < |s.vars| && s.vars[i] == p;
    } else if p in s.nvars {
      var i :| 0 <= i < |s.nvars| && s.nvars[i] == p;
    }
  }

  lemma AllPinned(s: State)
    requires Inv(s) && |s.graph| == 2 + 2 * |s.vars|
    ensures s.graph.Keys == PinnedNodes(s)
  {
    PinnedCount(s);
    PinsClosed(s);
    assert PinnedNodes(s) <= s.graph.Keys;
    hide PinnedNodes, Inv;
    SameSizeSubset(PinnedNodes(s), s.graph.Keys);
    assert |s.graph| == |s.graph.Keys|;
  }

  lemma Seventeen()
    ensures IsPrime(17)
  {
    assert !Divides(2, 17) && !Divides(3, 17) && !Divides(4, 17) && !Divides(5, 17) && !Divides(6, 17);
    assert !Divides(7, 17) && !Divides(8, 17) && !Divides(9, 17) && !Divides(10, 17) && !Divides(11, 17);
    assert !Divides(12, 17) && !Divides(13, 17) && !Divides(14, 17) && !Divides(15, 17) && !Divides(16, 17);
  }

  lemma Started(s: Session)
    requires s.Valid() && |s.table.vars| == 4 && s.table.nodeCount == 10 && s.table.allocator.Valid()
    requires s.table.Slots() == 17
    ensures Stage(s, {}, 7) && |s.table.nvars| == 4
  {
    hide Peopled, RefsOf, Conserved, WellFormed, NodeTable.InLoad, NodeTable.Coherent;
    OnlyPinned(s.Now());
  }

  lemma SizeIsSeventeen(size: nat)
    requires RightSize(17, size)
    ensures size == 17
  {
    Seventeen();
    hide IsPrime;
    assert IsPrime(17) && 17 % 2 == 1 && 17 <= LAST_PRIME;
  }

  method Start() returns (s: Session)
    ensures fresh(s) && fresh(s.table) && fresh(s.table.allocator) && fresh(s.table.cache)
    ensures fresh(s.table.cache.entries)
    ensures Stage(s, {}, 7)
    ensures s.handles == map[] && |s.table.vars| == |s.table.nvars| == 4
  {
    assert 4 <= TERMINAL_LEVEL && 17 <= LAST_PRIME && 17 % UINT_RANGE == 17;
    hide *;
    var made := Init(17, 17, 4);
    s := made;
    SizeIsSeventeen(s.table.Slots());
    Started(s);
  }

  /** A handle for a variable. */
  method Name(s: Session, h: nat, id: nat, positive: bool, ghost made: set<Cell>, ghost free: nat)
    requires Stage(s, made, free) && h !in s.handles && id < |s.table.vars| && id < |s.table.nvars|
    modifies s, s.table, s.table.allocator, s.table.cache.entries
    ensures Stage(s, made, free) && SameFrame(old(s.Now()), s.Now()) && s.table.graph == old(s.table.graph)
    ensures s.handles == old(s.handles)[h := if positive then old(s.table.vars)[id] else old(s.table.nvars)[id]]
  {
    hide Inv, NodeTable.Valid, RefsOf, RefCount, Peopled;
    s.table.Consistent();
    ghost var was := s.Now();
    s.GetVar(h, id, positive);
    StillPeopled(was, s.Now(), made);
    s.table.Consistent();
  }

  lemma StillPeopled(s: State, t: State, made: set<Cell>)
    requires Peopled(s, made) && t.graph == s.graph && SameFrame(s, t) && NULL !in s.graph
    requires forall p :: p != NULL ==> RefCount(t, p) >= RefCount(s, p)
    ensures Peopled(t, made)
  {
    hide RefCount;
  }

  /** Where the variables are, and what their keys are. */
  ghost predicate FourVariables(g: Graph, f: Ptr, t: Ptr, vars: seq<Ptr>, n0: Ptr)
  {
    && |vars| == 4 && AreTerminals(g, f, t) && f != t && n0 in g && g[n0] == Cell(0, t, f)
    && (forall i :: 0 <= i < 4 ==> vars[i] in g && g[vars[i]] == Cell(i, f, t))
  }

  lemma VariablesAre(s: State)
    requires Inv(s) && |s.vars| == 4
    ensures |s.nvars| == 4 && FourVariables(s.graph, s.falseNode, s.trueNode, s.vars, s.nvars[0]) && WellFormed(s.graph)
  {
  }

  /** `low | v0 & high`, decided by the first variable, with both halves kept in handles. */
  method Decision(s: Session, h: nat, low: nat, high: nat, ghost made: set<Cell>, ghost free: nat)
    requires Stage(s, made, free) && free >= 3 && |s.table.vars| == 4 && |s.table.nvars| == 4
    requires 0 < low < 4 && 0 < high < 4 && low != high
    requires Named(s.Now()) && h !in s.handles && h + 1 !in s.handles && h + 2 !in s.handles
    requires var f, vars := s.table.falseNode, s.table.vars;
      Cell(0, f, vars[high]) !in made && Cell(0, vars[low], f) !in made && Cell(0, vars[low], vars[high]) !in made
    modifies s, s.table, s.table.allocator, s.table.cache.entries
    ensures Decided(old(s.Now()), s.Now(), h, low, high)
    ensures var f, vars := s.table.falseNode, s.table.vars;
      Stage(s, made + {Cell(0, f, vars[high]), Cell(0, vars[low], f), Cell(0, vars[low], vars[high])}, free - 3)
  {
    hide Stage, Expanded, WellFormed, RefsOf, NodeTable.Valid, Grew, Named, FourVariables, IsPinnedKey, Decided;
    ghost var was, f, t, vars := s.Now(), s.table.falseNode, s.table.trueNode, s.table.vars;
    ghost var a, b, c := Cell(0, f, vars[high]), Cell(0, vars[low], f), Cell(0, vars[low], vars[high]);
    StageTable(s, made, free);
    ReadyForHalf(was, low, high);
    HalfParts(s.table.graph, f, t, vars[0], vars[high]);
    Make(s, h, And, 0, high, 0, f, vars[high], made, free);
    ghost var one := s.Now();
    StillReady(was, one, h, a, low, high);
    HalfParts(s.table.graph, f, t, s.table.nvars[0], vars[low]);
    Make(s, h + 1, And, 4, low, 0, vars[low], f, made + {a}, free - 1);
    ghost var two := s.Now();
    StillReady(one, two, h + 1, b, low, high);
    HalvesReady(was, one, two, h, a, b);
    JoinParts(s.table.graph, f, t, s.handles[h], s.handles[h + 1], vars[low], vars[high]);
    Make(s, h + 2, Or, h, h + 1, 0, vars[low], vars[high], made + {a} + {b}, free - 2);
    ghost var three := s.Now();
    StillReady(two, three, h + 2, c, low, high);
    DecidedThen(was, one, two, three, h, a, b, low, high);
    assert made + {a} + {b} + {c} == made + {a, b, c};
  }

  lemma StageTable(s: Session, made: set<Cell>, free: nat)
    requires Stage(s, made, free)
    ensures WellFormed(s.table.graph)
  {
    hide *;
    assert s.table.Valid() by { StageValid(s, made, free); }
    s.table.Consistent();
  }

  lemma StageValid(s: Session, made: set<Cell>, free: nat)
    requires Stage(s, made, free)
    ensures s.table.Valid()
  {
    hide NodeTable.Valid;
  }

  /** Handles 0 to 3 are the variables and handle 4 is the negation of the first. */
  ghost predicate Named(s: State) {
    && |s.vars| == 4 && |s.nvars| == 4 && FourVariables(s.graph, s.falseNode, s.trueNode, s.vars, s.nvars[0])
    && (forall i :: 0 <= i < 4 ==> i in s.handles && s.handles[i] == s.vars[i])
    && 4 in s.handles && s.handles[4] == s.nvars[0]
  }

  /** What one decision adds: three handles, the last of them the decision. */
  ghost predicate Decided(s: State, t: State, h: nat, low: nat, high: nat)
    requires |s.vars| == 4 && low < 4 && high < 4
  {
    && SameFrame(s, t) && Named(t) && h + 2 in t.handles
    && t.handles[h + 2] in t.graph && t.graph[t.handles[h + 2]] == Cell(0, s.vars[low], s.vars[high])
    && (forall p :: p in s.graph ==> p in t.graph && t.graph[p] == s.graph[p])
    && (forall k :: k in s.handles ==> k in t.handles && t.handles[k] == s.handles[k])
    && (forall k :: k in t.handles ==> k in s.handles || h <= k <= h + 2)
  }

  lemma ReadyForHalf(s: State, low: nat, high: nat)
    requires Named(s) && 0 < low < 4 && 0 < high < 4 && low != high
    ensures var g, f, t, vars, n0 := s.graph, s.falseNode, s.trueNode, s.vars, s.nvars[0];
      && AreTerminals(g, f, t) && f != t && vars[0] in g && n0 in g && vars[low] in g && vars[high] in g
      && g[vars[0]] == Cell(0, f, t) && g[n0] == Cell(0, t, f)
      && g[vars[low]].level == low && g[vars[high]].level == high
      && vars[low] != f && vars[high] != f && vars[low] != vars[high]
      && !IsPinnedKey(Cell(0, f, vars[high]), f, t) && !IsPinnedKey(Cell(0, vars[low], f), f, t)
      && !IsPinnedKey(Cell(0, vars[low], vars[high]), f, t)
    ensures 0 in s.handles && low in s.handles && high in s.handles && 4 in s.handles
    ensures s.handles[0] == s.vars[0] && s.handles[low] == s.vars[low] && s.handles[high] == s.vars[high]
    ensures s.handles[4] == s.nvars[0]
  {
  }

  lemma StillReady(s: State, t: State, h: nat, c: Cell, low: nat, high: nat)
    requires Named(s) && Grew(s, t, h, c) && h > 4 && 0 < low < 4 && 0 < high < 4 && low != high
    ensures Named(t) && SameFrame(s, t)
    ensures var g, f, t, vars, n0 := t.graph, t.falseNode, t.trueNode, t.vars, t.nvars[0];
      && AreTerminals(g, f, t) && f != t && vars[0] in g && n0 in g && vars[low] in g && vars[high] in g
      && g[vars[0]] == Cell(0, f, t) && g[n0] == Cell(0, t, f)
      && g[vars[low]].level == low && g[vars[high]].level == high
    ensures 4 in t.handles && low in t.handles && t.handles[low] == t.vars[low] && t.handles[4] == t.nvars[0]
    ensures h in t.handles && forall k :: k in t.handles <==> k in s.handles || k == h
  {
    ReadyForHalf(t, low, high);
  }

  lemma HalvesReady(s: State, one: State, two: State, h: nat, a: Cell, b: Cell)
    requires Grew(s, one, h, a) && Grew(one, two, h + 1, b)
    ensures h in two.handles && h + 1 in two.handles && two.handles[h] in two.graph && two.handles[h + 1] in two.graph
    ensures two.graph[two.handles[h]] == a && two.graph[two.handles[h + 1]] == b
  {
  }

  lemma DecidedThen(s: State, one: State, two: State, three: State, h: nat, a: Cell, b: Cell, low: nat, high: nat)
    requires |s.vars| == 4 && low < 4 && high < 4 && h !in s.handles && h + 1 !in s.handles && h + 2 !in s.handles
    requires Grew(s, one, h, a) && Grew(one, two, h + 1, b)
    requires Grew(two, three, h + 2, Cell(0, s.vars[low], s.vars[high])) && Named(three)
    ensures Decided(s, three, h, low, high)
  {
    hide Named;
  }

  /** Two variables in the order. */
  predicate AreVariables(g: Graph, f: Ptr, t: Ptr, u: Ptr, v: Ptr) {
    && u in g && v in g && g[u].level < g[v].level < TERMINAL_LEVEL
    && g[u] == Cell(g[u].level, f, t) && g[v] == Cell(g[v].level, f, t)
  }

  /** Each operand decides, by one variable, between two others; the middle one is shared. */
  predicate TwoDecisions(g: Graph, f: Ptr, t: Ptr, x: Ptr, y: Ptr) {
    && x in g && y in g && g[x].level == g[y].level && g[x].high == g[y].low
    && AreVariables(g, f, t, g[x].low, g[x].high) && AreVariables(g, f, t, g[y].low, g[y].high)
    && g[x].level < g[g[x].low].level
  }

  /** The parts of the conjunction of two variables. */
  lemma ConjunctionParts(g: Graph, f: Ptr, t: Ptr, u: Ptr, v: Ptr)
    requires WellFormed(g) && AreTerminals(g, f, t) && AreVariables(g, f, t, u, v)
    ensures f != v && Expanded(g, And, u, v, g[u].level, f, v)
  {
    ShortcutIsResult(g, f, t, And, f, v, f);
    ShortcutIsResult(g, f, t, And, t, v, v);
    hide IsResult;
  }

  /** Without a node for it, the conjunction of two variables lacks just its own. */
  lemma VariablesLackOne(g: Graph, f: Ptr, t: Ptr, u: Ptr, v: Ptr)
    requires WellFormed(g) && AreTerminals(g, f, t) && AreVariables(g, f, t, u, v)
    requires forall p :: p in g ==> g[p] != Cell(g[u].level, f, v)
    ensures LacksItself(g, And, u, v)
  {
    ConjunctionParts(g, f, t, u, v);
    hide IsResult, Missing, WellFormed, Expanded;
    LacksOnlyItself(g, And, u, v, g[u].level, f, v);
  }

  /** The conjunctions of the low parts and of the high parts are different functions. */
  lemma PartsDiffer(g: Graph, f: Ptr, t: Ptr, u: Ptr, v: Ptr, w: Ptr)
    requires WellFormed(g) && AreTerminals(g, f, t) && AreVariables(g, f, t, u, v) && AreVariables(g, f, t, v, w)
    ensures Answer(g, And, u, v) != Answer(g, And, v, w)
  {
    var env := iset{g[u].level, g[v].level};
    assert Eval(g, t, env) && !Eval(g, f, env);
    assert Eval(g, u, env) && Eval(g, v, env) && !Eval(g, w, env);
    assert env in Answer(g, And, u, v) && env !in Answer(g, And, v, w);
  }

  lemma DecisionsApart(g: Graph, f: Ptr, t: Ptr, x: Ptr, y: Ptr)
    requires WellFormed(g) && AreTerminals(g, f, t) && TwoDecisions(g, f, t, x, y)
    requires forall p :: p in g ==> g[p] != Cell(g[g[x].low].level, f, g[x].high)
    requires forall p :: p in g ==> g[p] != Cell(g[g[y].low].level, f, g[y].high)
    ensures PartsApart(g, And, x, y)
  {
    VariablesLackOne(g, f, t, g[x].low, g[x].high);
    VariablesLackOne(g, f, t, g[y].low, g[y].high);
    PartsDiffer(g, f, t, g[x].low, g[x].high, g[y].high);
    hide Missing, Answer, AreVariables;
  }

  /** The table when the program comes to its last operator. */
  lemma OneSlotLeft(s: Session, made: set<Cell>)
    requires Stage(s, made, 1) && 7 in s.handles && 10 in s.handles && Named(s.Now())
    requires made == KeysOf(s.Now(), 1, 2) + KeysOf(s.Now(), 2, 3)
    requires s.handles[7] in s.table.graph && s.handles[10] in s.table.graph
    requires s.table.graph[s.handles[7]] == Cell(0, s.table.vars[1], s.table.vars[2])
    requires s.table.graph[s.handles[10]] == Cell(0, s.table.vars[2], s.table.vars[3])
    ensures s.table.LastSlot(And, s.handles[7], s.handles[10])
  {
    hide Inv, NodeTable.Valid, RefsOf, WellFormed, Mirrors, RefCount, ReachAll, PartsApart;
    s.table.Consistent();
    AllKept(s, made, 1);
    Unmade(s.Now(), made);
    DecisionsApart(s.table.graph, s.table.falseNode, s.table.trueNode, s.handles[7], s.handles[10]);
  }

  /** What the two halves of a decision and the decision add. */
  ghost function KeysOf(s: State, low: nat, high: nat): set<Cell>
    requires low < |s.vars| && high < |s.vars|
  {
    {Cell(0, s.falseNode, s.vars[high]), Cell(0, s.vars[low], s.falseNode), Cell(0, s.vars[low], s.vars[high])}
  }

  lemma AllKept(s: Session, made: set<Cell>, free: nat)
    requires Stage(s, made, free) && WellFormed(s.table.graph) && Mirrors(s.table.graph, s.table.allocator.mem)
    ensures s.table.Kept() == s.table.graph.Keys
  {
    CountsAgree(s.Now(), s.table.graph, s.table.allocator.mem);
    hide WellFormed, Inv, NodeTable.Valid, RefsOf, ReachAll, RefCount, RefOf;
    AllReferenced(s.table.graph, s.table.allocator.mem);
  }

  lemma AllReferenced(g: Graph, mem: Memory)
    requires Mirrors(g, mem) && WellFormed(g) && forall p :: p in g ==> RefOf(g, mem, p) > 0
    ensures ReachAll(g, Roots(g, mem)) == g.Keys
  {
    hide WellFormed, ReachAll;
    assert Roots(g, mem) == g.Keys;
  }

  /** The conjunctions of neighbouring variables are not in the table. */
  lemma Unmade(s: State, made: set<Cell>)
    requires Named(s) && Peopled(s, made) && made == KeysOf(s, 1, 2) + KeysOf(s, 2, 3)
    ensures forall p :: p in s.graph ==>
      s.graph[p] != Cell(1, s.falseNode, s.vars[2]) && s.graph[p] != Cell(2, s.falseNode, s.vars[3])
    ensures s.vars[2] != s.trueNode
  {
    hide RefCount;
  }

  method FourNames() returns (s: Session)
    ensures fresh(s) && fresh(s.table) && fresh(s.table.allocator) && fresh(s.table.cache)
    ensures fresh(s.table.cache.entries)
    ensures Stage(s, {}, 7) && Named(s.Now()) && s.handles.Keys == {0, 1, 2, 3, 4}
  {
    hide Stage, Named, Inv, NodeTable.Valid, RefsOf;
    s := Start();
    Name(s, 0, 0, true, {}, 7);
    Name(s, 1, 1, true, {}, 7);
    Name(s, 2, 2, true, {}, 7);
    Name(s, 3, 3, true, {}, 7);
    Name(s, 4, 0, false, {}, 7);
    NamedNow(s, {}, 7);
  }

  /** The first decision's keys are not those of the second one. */
  lemma OtherKeys(s: State)
    requires Named(s)
    ensures |s.vars| == 4 && |s.nvars| == 4 && var made := KeysOf(s, 1, 2);
      && Cell(0, s.falseNode, s.vars[3]) !in made && Cell(0, s.vars[2], s.falseNode) !in made
      && Cell(0, s.vars[2], s.vars[3]) !in made
  {
  }

  lemma DecidedTwice(s: State, t: State, u: State)
    requires Named(s) && s.handles.Keys == {0, 1, 2, 3, 4} && Decided(s, t, 5, 1, 2) && Decided(t, u, 8, 2, 3)
    ensures SameFrame(s, u) && Named(u) && |u.vars| == 4 && 7 in u.handles && 10 in u.handles
    ensures u.handles[7] in u.graph && u.handles[10] in u.graph
    ensures u.graph[u.handles[7]] == Cell(0, u.vars[1], u.vars[2])
    ensures u.graph[u.handles[10]] == Cell(0, u.vars[2], u.vars[3])
  {
    hide FourVariables;
  }

  lemma RoomForSecond(s: State, t: State)
    requires Named(s) && s.handles.Keys == {0, 1, 2, 3, 4} && Decided(s, t, 5, 1, 2)
    ensures Named(t) && 8 !in t.handles && 9 !in t.handles && 10 !in t.handles && SameFrame(s, t)
  {
    hide FourVariables;
  }

  /**
    `init` with 17 slots and four variables; `x = v0 ? v2 : v1` and
    `y = v0 ? v3 : v2` by six operators; then `x & y`. Every step before the
    last is a step of a run. The last collects in the middle and returns the
    node of `v2 & v3`.
   */
  method LostConjunction() returns (s: Session, r: Ptr)
    ensures WellFormed(s.table.graph) && 7 in s.handles && 10 in s.handles
    ensures s.handles[7] in s.table.graph && s.handles[10] in s.table.graph && r in s.table.graph
    ensures var g, vars := s.table.graph, s.table.vars;
      && |vars| == 4 && vars[2] in g && vars[3] in g
      && g[s.handles[7]] == Cell(0, vars[1], vars[2]) && g[s.handles[10]] == Cell(0, vars[2], vars[3])
      && IsResult(g, And, vars[2], vars[3], r)
    ensures !IsResult(s.table.graph, And, s.handles[7], s.handles[10], r)
  {
    hide Stage, Named, Inv, NodeTable.Valid, NodeTable.LastSlot, RefsOf, Decided, WellFormed, Mirrors, KeysOf, IsResult;
    s := FourNames();
    ghost var was := s.Now();
    OtherKeys(was);
    Decision(s, 5, 1, 2, {}, 7);
    ghost var one := s.Now();
    RoomForSecond(was, one);
    OtherKeys(one);
    MadeSoFar(one);
    Decision(s, 8, 2, 3, KeysOf(one, 1, 2), 4);
    DecidedTwice(was, one, s.Now());
    MadeInAll(one, s.Now());
    OneSlotLeft(s, KeysOf(s.Now(), 1, 2) + KeysOf(s.Now(), 2, 3));
    r := s.table.LowPartLost(And, s.handles[7], s.handles[10]);
  }

  lemma MadeSoFar(s: State)
    requires |s.vars| == 4
    ensures KeysOf(s, 1, 2) == {} +
      {Cell(0, s.falseNode, s.vars[2]), Cell(0, s.vars[1], s.falseNode), Cell(0, s.vars[1], s.vars[2])}
  {
  }

  lemma MadeInAll(s: State, t: State)
    requires |s.vars| == 4 && SameFrame(s, t)
    ensures KeysOf(t, 1, 2) + KeysOf(t, 2, 3) ==
      KeysOf(s, 1, 2) +
        {Cell(0, s.falseNode, s.vars[3]), Cell(0, s.vars[2], s.falseNode), Cell(0, s.vars[2], s.vars[3])}
  {
  }

  lemma NamedNow(s: Session, made: set<Cell>, free: nat)
    requires Stage(s, made, free) && |s.table.vars| == 4
    requires |s.table.nvars| == 4 && s.handles == map[0 := s.table.vars[0]][1 := s.table.vars[1]][2 := s.table.vars[2]]
      [3 := s.table.vars[3]][4 := s.table.nvars[0]]
    ensures Named(s.Now())
  {
    hide NodeTable.Valid, Inv, RefsOf, Peopled;
    VariablesAre(s.Now());
  }
}
