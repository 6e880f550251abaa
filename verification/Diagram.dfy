/**
  Ordered, reduced, uniquely keyed decision diagrams, their meaning, and
  canonicity. Everything here is about a `Graph` value; the table of
  src/NodeTable.cpp keeps such a graph in its buckets.
 */
module Diagrams {
  import opened Nodes

  /** A total assignment: the set of variables that are true. */
  type Env = iset<nat>

  /** A Boolean function: the set of assignments that satisfy it. */
  type Fun = iset<Env>

  const FALSE_CELL := Cell(UINT_MAX, NULL, NULL)
  const TRUE_CELL := Cell(UINT_MAX - 1, NULL, NULL)

  /** First level that is not a variable. */
  const TERMINAL_LEVEL: nat := UINT_MAX - 1

  predicate IsTerminal(c: Cell) {
    c == FALSE_CELL || c == TRUE_CELL
  }

  /** A key the table may hold next to the nodes of `g`. */
  predicate ProperKey(g: Graph, c: Cell) {
    IsTerminal(c) ||
    (&& c.level < TERMINAL_LEVEL
     && c.low in g && c.high in g
     && c.low != c.high
     && c.level < g[c.low].level
     && c.level < g[c.high].level)
  }

  ghost predicate UniqueKeys(g: Graph) {
    forall p, q :: p in g && q in g && g[p] == g[q] ==> p == q
  }

  /** The key of `p` is proper. The table invariant is stated through this name, one node at a time. */
  predicate ProperNode(g: Graph, p: Ptr)
    requires p in g
  {
    ProperKey(g, g[p])
  }

  /** Ordered, reduced, closed under children, uniquely keyed, no null node. */
  ghost predicate WellFormed(g: Graph) {
    && NULL !in g
    && (forall p {:trigger ProperNode(g, p)} :: p in g ==> ProperNode(g, p))
    && UniqueKeys(g)
  }

  /** The value of node `p` under the assignment `env`. */
  ghost predicate Eval(g: Graph, p: Ptr, env: Env)
    requires WellFormed(g) && p in g
    decreases UINT_MAX - g[p].level
  {
    assert ProperNode(g, p);
    var c := g[p];
    if c == FALSE_CELL then false
    else if c == TRUE_CELL then true
    else if c.level in env then Eval(g, c.high, env) else Eval(g, c.low, env)
  }

  /** The Boolean function that node `p` stands for. */
  ghost function Den(g: Graph, p: Ptr): Fun
    requires WellFormed(g) && p in g
  {
    iset env: Env | Eval(g, p, env)
  }

  // ---- Independence of smaller variables

  /** A node's value does not look at variables above it in the order. */
  lemma {:induction false} EvalIgnores(g: Graph, p: Ptr, env: Env, env': Env, m: nat)
    requires WellFormed(g) && p in g && m < g[p].level
    requires forall v: nat :: v != m ==> (v in env <==> v in env')
    ensures Eval(g, p, env) == Eval(g, p, env')
    decreases UINT_MAX - g[p].level
  {
    assert ProperNode(g, p);
    if !IsTerminal(g[p]) {
      EvalIgnores(g, g[p].low, env, env', m);
      EvalIgnores(g, g[p].high, env, env', m);
    }
  }

  // ---- Cofactors

  /** The smaller of two levels, `std::min`. */
  function Min(a: nat, b: nat): nat {
    if a <= b then a else b
  }

  /** The cofactor of `p` at level `m`, as negCof (false) and posCof (true) choose it. */
  function Cofactor(g: Graph, p: Ptr, m: nat, value: bool): Ptr
    requires p in g
  {
    if m < g[p].level then p else if value then g[p].high else g[p].low
  }

  /** At a variable level not below `p`, the cofactors are nodes strictly below that level. */
  lemma CofactorBelow(g: Graph, p: Ptr, m: nat, value: bool)
    requires WellFormed(g) && p in g && m <= g[p].level && m < TERMINAL_LEVEL
    ensures var c := Cofactor(g, p, m, value); c in g && m < g[c].level
  {
    assert ProperNode(g, p);
  }

  /** Shannon expansion of one node at a variable level not below it. */
  lemma EvalCofactor(g: Graph, p: Ptr, m: nat, env: Env)
    requires WellFormed(g) && p in g && m <= g[p].level && m < TERMINAL_LEVEL
    ensures var c := Cofactor(g, p, m, m in env);
      c in g && m < g[c].level && Eval(g, p, env) == Eval(g, c, env)
  {
    CofactorBelow(g, p, m, m in env);
  }

  // ---- Canonicity

  /** Two different nodes of a well-formed graph differ under some assignment. */
  lemma {:induction false} Distinguish(g: Graph, p: Ptr, q: Ptr) returns (env: Env)
    requires WellFormed(g) && p in g && q in g && p != q
    ensures Eval(g, p, env) != Eval(g, q, env)
    decreases UINT_MAX - Min(g[p].level, g[q].level)
  {
    assert ProperNode(g, p) && ProperNode(g, q);
    if IsTerminal(g[p]) && IsTerminal(g[q]) {
      env := iset{};
    } else {
      var m := Min(g[p].level, g[q].level);
      // Equal cofactors on both sides would make p redundant, q redundant, or p and q one key.
      var value := Cofactor(g, p, m, false) == Cofactor(g, q, m, false);
      var a, b := Cofactor(g, p, m, value), Cofactor(g, q, m, value);
      CofactorBelow(g, p, m, value);
      CofactorBelow(g, q, m, value);
      var inner := Distinguish(g, a, b);
      env := if value then inner + iset{m} else inner - iset{m};
      EvalIgnores(g, a, inner, env, m);
      EvalIgnores(g, b, inner, env, m);
      EvalCofactor(g, p, m, env);
      EvalCofactor(g, q, m, env);
    }
  }

  /** Pointer equality decides Boolean equivalence. */
  lemma Canonicity(g: Graph, p: Ptr, q: Ptr)
    requires WellFormed(g) && p in g && q in g
    ensures p == q <==> Den(g, p) == Den(g, q)
    ensures p == q <==> forall env: Env :: Eval(g, p, env) == Eval(g, q, env)
  {
    if p != q {
      var env := Distinguish(g, p, q);
      assert env in Den(g, p) <==> env !in Den(g, q);
    }
  }

  // ---- Growing and shrinking a graph

  /** `h` has every node of `g`, unchanged. */
  ghost predicate Extends(g: Graph, h: Graph) {
    forall p :: p in g ==> p in h && h[p] == g[p]
  }

  /** Nodes common to two graphs mean the same in both. */
  lemma {:induction false} EvalExtends(g: Graph, h: Graph, p: Ptr, env: Env)
    requires WellFormed(g) && WellFormed(h) && Extends(g, h) && p in g
    ensures Eval(g, p, env) == Eval(h, p, env)
    decreases UINT_MAX - g[p].level
  {
    assert ProperNode(g, p);
    if !IsTerminal(g[p]) {
      EvalExtends(g, h, g[p].low, env);
      EvalExtends(g, h, g[p].high, env);
    }
  }

  lemma DenExtends(g: Graph, h: Graph, p: Ptr)
    requires WellFormed(g) && WellFormed(h) && Extends(g, h) && p in g
    ensures Den(g, p) == Den(h, p)
  {
    forall env: Env ensures Eval(g, p, env) == Eval(h, p, env) {
      EvalExtends(g, h, p, env);
    }
  }

  /** Inserting an absent proper key keeps the graph well formed. */
  lemma InsertKeepsWellFormed(g: Graph, r: Ptr, c: Cell)
    requires WellFormed(g) && r != NULL && r !in g
    requires ProperKey(g, c)
    requires forall p :: p in g ==> g[p] != c
    ensures WellFormed(g[r := c]) && Extends(g, g[r := c])
  {
    InsertKeepsUnique(g, r, c);
    InsertKeepsProper(g, r, c, c);
    hide UniqueKeys, ProperKey;
    var h := g[r := c];
    forall p | p in h ensures ProperNode(h, p) {
      if p != r {
        assert ProperNode(g, p);
        InsertKeepsProper(g, r, c, g[p]);
      }
    }
  }

  lemma InsertKeepsProper(g: Graph, r: Ptr, c: Cell, k: Cell)
    requires r !in g && ProperKey(g, k)
    ensures ProperKey(g[r := c], k)
  {
  }

  lemma InsertKeepsUnique(g: Graph, r: Ptr, c: Cell)
    requires UniqueKeys(g) && r !in g && forall p :: p in g ==> g[p] != c
    ensures UniqueKeys(g[r := c])
  {
    hide ProperNode;
  }

  // ---- Reachability

  /** The nodes reachable from `p`, `p` included. */
  ghost function Reach(g: Graph, p: Ptr): (s: set<Ptr>)
    requires WellFormed(g) && p in g
    ensures p in s && s <= g.Keys
    decreases UINT_MAX - g[p].level
  {
    assert ProperNode(g, p);
    if IsTerminal(g[p]) then {p}
    else {p} + Reach(g, g[p].low) + Reach(g, g[p].high)
  }

  /** The nodes reachable from some node of `roots`. */
  ghost function ReachAll(g: Graph, roots: set<Ptr>): (s: set<Ptr>)
    requires WellFormed(g) && roots <= g.Keys
    ensures roots <= s <= g.Keys
  {
    set q | q in g && exists r :: r in roots && q in Reach(g, r)
  }

  /** A set of nodes that contains the children of its members. */
  ghost predicate Closed(g: Graph, s: set<Ptr>) {
    && s <= g.Keys
    && (forall p :: p in s && !IsTerminal(g[p]) ==> g[p].low in s && g[p].high in s)
  }

  /** `Reach(g, p)` is the least closed set that holds `p`. */
  lemma {:induction false} ReachIsLeast(g: Graph, p: Ptr, s: set<Ptr>)
    requires WellFormed(g) && Closed(g, s) && p in s
    ensures Reach(g, p) <= s
    decreases UINT_MAX - g[p].level
  {
    assert ProperNode(g, p);
    if !IsTerminal(g[p]) {
      ReachIsLeast(g, g[p].low, s);
      ReachIsLeast(g, g[p].high, s);
    }
  }

  lemma {:induction false} ReachIsClosed(g: Graph, p: Ptr)
    requires WellFormed(g) && p in g
    ensures Closed(g, Reach(g, p))
    decreases UINT_MAX - g[p].level
  {
    assert ProperNode(g, p);
    if !IsTerminal(g[p]) {
      ReachIsClosed(g, g[p].low);
      ReachIsClosed(g, g[p].high);
    }
  }

  /** `ReachAll` is the least closed set that holds the roots. */
  lemma ReachAllIsLeastClosed(g: Graph, roots: set<Ptr>)
    requires WellFormed(g) && roots <= g.Keys
    ensures Closed(g, ReachAll(g, roots))
    ensures forall s :: Closed(g, s) && roots <= s ==> ReachAll(g, roots) <= s
  {
    forall r | r in roots ensures Closed(g, Reach(g, r)) {
      ReachIsClosed(g, r);
    }
    forall s | Closed(g, s) && roots <= s ensures ReachAll(g, roots) <= s {
      forall r | r in roots ensures Reach(g, r) <= s {
        ReachIsLeast(g, r, s);
      }
    }
  }

  /** The nodes of `g` that are in `s`. */
  ghost function Restrict(g: Graph, s: set<Ptr>): Graph {
    map p | p in g && p in s :: g[p]
  }

  /** A closed part of a well-formed graph is well formed and keeps every meaning. */
  lemma RestrictKeepsMeaning(g: Graph, s: set<Ptr>)
    requires WellFormed(g) && Closed(g, s)
    ensures WellFormed(Restrict(g, s)) && Extends(Restrict(g, s), g)
    ensures forall p :: p in s ==> Den(Restrict(g, s), p) == Den(g, p)
  {
    var h := Restrict(g, s);
    forall p | p in h ensures ProperNode(h, p) {
      assert ProperNode(g, p);
    }
    forall p | p in s ensures Den(h, p) == Den(g, p) {
      DenExtends(h, g, p);
    }
  }

  /** Reachability does not change when the graph grows. */
  lemma {:induction false} ReachExtends(g: Graph, h: Graph, p: Ptr)
    requires WellFormed(g) && WellFormed(h) && Extends(g, h) && p in g
    ensures Reach(g, p) == Reach(h, p)
    decreases UINT_MAX - g[p].level
  {
    assert ProperNode(g, p);
    if !IsTerminal(g[p]) {
      ReachExtends(g, h, g[p].low);
      ReachExtends(g, h, g[p].high);
    }
  }

  lemma RootOf(g: Graph, roots: set<Ptr>, q: Ptr) returns (r: Ptr)
    requires WellFormed(g) && roots <= g.Keys && q in ReachAll(g, roots)
    ensures r in roots && r in g && q in Reach(g, r)
  {
    r :| r in roots && q in Reach(g, r);
  }

  /** What a root reaches, the roots reach. */
  lemma ReachInReachAll(g: Graph, roots: set<Ptr>, p: Ptr)
    requires WellFormed(g) && roots <= g.Keys && p in roots
    ensures Reach(g, p) <= ReachAll(g, roots)
  {
  }

  lemma KeysExtend(g: Graph, h: Graph)
    requires Extends(g, h)
    ensures g.Keys <= h.Keys
  {
  }

  /** What the roots reach does not change either. */
  lemma ReachAllExtends(g: Graph, h: Graph, roots: set<Ptr>)
    requires WellFormed(g) && WellFormed(h) && Extends(g, h) && roots <= g.Keys
    ensures roots <= h.Keys && ReachAll(h, roots) == ReachAll(g, roots)
  {
    hide *;
    KeysExtend(g, h);
    forall q | q in ReachAll(h, roots) ensures q in ReachAll(g, roots) {
      var r := RootOf(h, roots, q);
      ReachExtends(g, h, r);
      ReachInReachAll(g, roots, r);
    }
    forall q | q in ReachAll(g, roots) ensures q in ReachAll(h, roots) {
      var r := RootOf(g, roots, q);
      ReachExtends(g, h, r);
      ReachInReachAll(h, roots, r);
    }
  }
}
